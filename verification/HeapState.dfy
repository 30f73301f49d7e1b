/**
 The state of the kernel heap: one 4 MiB buddy arena with a free list per order, threaded through block headers that
 live in the memory being managed.

 Memory is an array of 32-bit words, and addresses are the kernel's own byte addresses.  A block header is the four
 words next, order, free and self at the block's start.  Nothing is assumed about words that are not headers:
 clients may store anything in the blocks they hold.
 */
module HeapState {
  import opened Basics
  import opened Bits
  import opened BuddyTree

  const MAX_BLOCK_SHIFT: nat := 22
  const HEAP_START: nat := 0x0200_0000
  const HEADER_SIZE: nat := 16
  const SIZE_MAX: nat := 0xFFFF_FFFF

  lemma ArenaSize()
    ensures Pow2(MAX_BLOCK_SHIFT) == 0x40_0000 && Pow2(MIN_BLOCK_SHIFT) == 32
  {
    assert Pow2(5) == 32 && Pow2(10) == 1024 && Pow2(16) == 0x1_0000 && Pow2(22) == 0x40_0000;
  }

  lemma ArenaFacts()
    ensures Aligned(HEAP_START, MAX_BLOCK_SHIFT)
    ensures Pow2(MAX_BLOCK_SHIFT) == 0x40_0000 && Pow2(MIN_BLOCK_SHIFT) == 32
  {
    assert Pow2(5) == 32 && Pow2(10) == 1024 && Pow2(16) == 0x1_0000 && Pow2(22) == 0x40_0000;
    MultipleIsAligned(8, MAX_BLOCK_SHIFT);
  }

  // ---------------------------------------------------------------- the arena's tree

  predicate Arena(t: Tree) {
    Sized(t, MAX_BLOCK_SHIFT)
  }

  function Block(t: Tree, a: nat): Option<Leaf>
    requires Arena(t)
  {
    At(t, MAX_BLOCK_SHIFT, HEAP_START, a)
  }

  /** The byte at address x belongs to a live block. */
  predicate IsLive(t: Tree, x: nat)
    requires Arena(t)
  {
    LiveByte(t, MAX_BLOCK_SHIFT, HEAP_START, x)
  }

  ghost function Blocks(t: Tree): map<nat, nat>
    requires Arena(t)
  {
    LiveMap(t, MAX_BLOCK_SHIFT, HEAP_START)
  }

  predicate Subtree(t: Tree, a: nat, k: nat)
    requires Arena(t)
  {
    Has(t, MAX_BLOCK_SHIFT, HEAP_START, a, k)
  }

  function Replace(t: Tree, a: nat, k: nat, s: Tree): Tree
    requires Arena(t) && Subtree(t, a, k)
  {
    Put(t, MAX_BLOCK_SHIFT, HEAP_START, a, k, s)
  }

  lemma BlockFacts(t: Tree, a: nat)
    requires Arena(t) && Block(t, a).Some?
    ensures var k := Block(t, a).value.order;
      && MIN_BLOCK_SHIFT <= k <= MAX_BLOCK_SHIFT && a % 32 == 0
      && HEAP_START <= a && a + 32 <= a + Pow2(k) <= HEAP_START + 0x40_0000
      && Subtree(t, a, k)
  {
    var b := Block(t, a).value;
    LeafRange(t, MAX_BLOCK_SHIFT, HEAP_START, a);
    LeafIsSub(t, MAX_BLOCK_SHIFT, HEAP_START, a, b.order, b.live);
    SubtreeFacts(t, a, b.order);
  }

  lemma SubtreeFacts(t: Tree, a: nat, k: nat)
    requires Arena(t) && Subtree(t, a, k)
    ensures MIN_BLOCK_SHIFT <= k <= MAX_BLOCK_SHIFT && a % 32 == 0
    ensures HEAP_START <= a && a + 32 <= a + Pow2(k) <= HEAP_START + 0x40_0000
  {
    HasRange(t, MAX_BLOCK_SHIFT, HEAP_START, a, k);
    assert a % 32 == 0 by { SubtreeAligned(t, a, k); AlignedDown(a, 5, k); Aligned32(a); }
    Pow2Mono(MIN_BLOCK_SHIFT, k);
    ArenaSize();
  }

  lemma SubtreeAligned(t: Tree, a: nat, k: nat)
    requires Arena(t) && Subtree(t, a, k)
    ensures Aligned(a, k)
  {
    ArenaFacts();
    HasAligned(t, MAX_BLOCK_SHIFT, HEAP_START, a, k);
  }

  /** All bytes of a block are as live as the block. */
  lemma BlockByte(t: Tree, a: nat, x: nat)
    requires Arena(t) && Block(t, a).Some? && a <= x < a + Pow2(Block(t, a).value.order)
    ensures IsLive(t, x) == Block(t, a).value.live
  {
    var b := Block(t, a).value;
    LeafIsSub(t, MAX_BLOCK_SHIFT, HEAP_START, a, b.order, b.live);
    SubAt(t, MAX_BLOCK_SHIFT, HEAP_START, a, b.order, x);
  }

  /** No other block starts inside a block. */
  lemma OnlyBlock(t: Tree, x: nat)
    requires Arena(t) && Block(t, x).Some?
    ensures forall z: nat :: x <= z < x + Pow2(Block(t, x).value.order) && Block(t, z).Some? ==> z == x
  {
    BlockFacts(t, x);
    var b := Block(t, x).value;
    LeafIsSub(t, MAX_BLOCK_SHIFT, HEAP_START, x, b.order, b.live);
    forall z: nat | x <= z < x + Pow2(b.order) && Block(t, z).Some? ensures z == x {
      SubAt(t, MAX_BLOCK_SHIFT, HEAP_START, x, b.order, z);
    }
  }

  lemma ReplaceFacts(t: Tree, a: nat, k: nat, s: Tree)
    requires Arena(t) && Subtree(t, a, k) && Sized(s, k)
    ensures Arena(Replace(t, a, k, s))
    ensures forall x: nat :: Block(Replace(t, a, k, s), x) == if a <= x < a + Pow2(k) then At(s, k, a, x)
        else Block(t, x)
    ensures forall x: nat :: IsLive(Replace(t, a, k, s), x) == if a <= x < a + Pow2(k) then LiveByte(s, k, a, x)
        else IsLive(t, x)
  {
    hide At; hide LiveByte; hide Put; hide Has; hide Pow2;
    PutSized(t, MAX_BLOCK_SHIFT, HEAP_START, a, k, s);
    forall x: nat
      ensures Block(Replace(t, a, k, s), x) == if a <= x < a + Pow2(k) then At(s, k, a, x) else Block(t, x)
      ensures IsLive(Replace(t, a, k, s), x) == if a <= x < a + Pow2(k) then LiveByte(s, k, a, x) else IsLive(t, x)
    {
      PutAt(t, MAX_BLOCK_SHIFT, HEAP_START, a, k, s, x);
    }
  }

  // ---------------------------------------------------------------- words and lists

  /** The index of the word at address a. */
  function Ix(a: nat): int {
    (a - HEAP_START) / 4
  }

  function Nth(s: seq<nat>, i: nat): nat {
    if i < |s| then s[i] else NULL
  }

  /** The list without its entry at i. */
  function Without(s: seq<nat>, i: nat): seq<nat>
    requires i < |s|
  {
    s[..i] + s[i + 1..]
  }

  // ---------------------------------------------------------------- how words, lists and tree agree

  const WORDS: nat := 0x10_0000

  ghost predicate Sizes(heads: seq<Word>, m: seq<Word>, ls: seq<seq<nat>>) {
    |heads| == |ls| == MAX_BLOCK_SHIFT + 1 && |m| == WORDS
  }

  /** Entry i of list l: a block address whose next word holds the entry after it. */
  ghost predicate Link(m: seq<Word>, l: seq<nat>, i: nat)
    requires |m| == WORDS && i < |l|
  {
    HEAP_START <= l[i] <= HEAP_START + 0x40_0000 - 32 && l[i] % 32 == 0 && m[Ix(l[i])] == Nth(l, i + 1)
  }

  /** Each list is the chain of next words from its head. */
  ghost predicate Chained(heads: seq<Word>, m: seq<Word>, ls: seq<seq<nat>>)
    requires Sizes(heads, m, ls)
  {
    && (forall o: nat :: o <= MAX_BLOCK_SHIFT ==> heads[o] == Nth(ls[o], 0))
    && (forall o: nat, i: nat :: o <= MAX_BLOCK_SHIFT && i < |ls[o]| ==> Link(m, ls[o], i))
  }

  /** The list heads, the words and the lists describe the arena's division, up to the unlisted blocks in pending. */
  ghost predicate Agree(heads: seq<Word>, m: seq<Word>, ls: seq<seq<nat>>, t: Tree, pending: set<nat>) {
    Sizes(heads, m, ls) && Arena(t) && Chained(heads, m, ls) && Listed(t, ls, pending) && Headers(t, m)
  }

  /** A free block is on its own order's list, exactly once, except those in pending. */
  ghost predicate Listed(t: Tree, ls: seq<seq<nat>>, pending: set<nat>)
    requires |ls| == MAX_BLOCK_SHIFT + 1 && Arena(t)
  {
    && (forall o: nat, i: nat :: o <= MAX_BLOCK_SHIFT && i < |ls[o]| ==>
          Block(t, ls[o][i]) == Some(Leaf(o, false)) && ls[o][i] !in pending)
    && (forall x: nat :: Block(t, x).Some? && !Block(t, x).value.live && x !in pending ==>
          Block(t, x).value.order <= MAX_BLOCK_SHIFT && x in ls[Block(t, x).value.order])
    && (forall o: nat, i: nat, j: nat :: o <= MAX_BLOCK_SHIFT && i < j < |ls[o]| ==> ls[o][i] != ls[o][j])
  }

  /** A header records its block's order, whether it is free and, when live, its own address. */
  ghost predicate Header(m: seq<Word>, x: nat, b: Leaf)
    requires |m| == WORDS
  {
    && HEAP_START <= x <= HEAP_START + 0x40_0000 - 32 && x % 32 == 0
    && m[Ix(x) + 1] == b.order && m[Ix(x) + 2] == (if b.live then 0 else 1)
    && (b.live ==> m[Ix(x) + 3] == x)
  }

  ghost predicate Headers(t: Tree, m: seq<Word>)
    requires |m| == WORDS && Arena(t)
  {
    forall x: nat :: Block(t, x).Some? ==> Header(m, x, Block(t, x).value)
  }

  lemma ListedWithout(t: Tree, ls: seq<seq<nat>>, pending: set<nat>, o: nat, i: nat)
    requires |ls| == MAX_BLOCK_SHIFT + 1 && Arena(t) && Listed(t, ls, pending)
    requires o <= MAX_BLOCK_SHIFT && i < |ls[o]|
    ensures Listed(t, ls[o := Without(ls[o], i)], pending + {ls[o][i]})
  {
    var l, l', x := ls[o], Without(ls[o], i), ls[o][i];
    var ls' := ls[o := l'];
    forall p: nat, j: nat | p <= MAX_BLOCK_SHIFT && j < |ls'[p]|
      ensures Block(t, ls'[p][j]) == Some(Leaf(p, false)) && ls'[p][j] !in pending + {x}
    {
      var j' := if p == o && j >= i then j + 1 else j;
      assert ls'[p][j] == ls[p][j'];
    }
    forall y: nat | Block(t, y).Some? && !Block(t, y).value.live && y !in pending + {x}
      ensures y in ls'[Block(t, y).value.order]
    {
      var p := Block(t, y).value.order;
      var j: nat :| j < |ls[p]| && ls[p][j] == y;
      if p == o { assert l'[if j > i then j - 1 else j] == y; }
    }
  }

  lemma ListedWith(t: Tree, ls: seq<seq<nat>>, pending: set<nat>, o: nat, x: nat)
    requires |ls| == MAX_BLOCK_SHIFT + 1 && Arena(t) && Listed(t, ls, pending)
    requires o <= MAX_BLOCK_SHIFT && x in pending && Block(t, x) == Some(Leaf(o, false))
    ensures Listed(t, ls[o := [x] + ls[o]], pending - {x})
  {
    var ls' := ls[o := [x] + ls[o]];
    forall p: nat, j: nat | p <= MAX_BLOCK_SHIFT && j < |ls'[p]|
      ensures Block(t, ls'[p][j]) == Some(Leaf(p, false)) && ls'[p][j] !in pending - {x}
    {
      if !(p == o && j == 0) { assert ls'[p][j] == ls[p][if p == o then j - 1 else j]; }
    }
    forall y: nat | Block(t, y).Some? && !Block(t, y).value.live && y !in pending - {x}
      ensures y in ls'[Block(t, y).value.order]
    {
      var p := Block(t, y).value.order;
      if y != x {
        var j: nat :| j < |ls[p]| && ls[p][j] == y;
        if p == o { assert ls'[p][j + 1] == y; }
      }
    }
  }

  /** Unlinking entry i: its predecessor's link takes over its next word. */
  lemma ChainedWithout(heads: seq<Word>, m: seq<Word>, ls: seq<seq<nat>>, t: Tree, pending: set<nat>, o: nat, i: nat)
    requires Sizes(heads, m, ls) && Arena(t) && Chained(heads, m, ls) && Listed(t, ls, pending)
    requires o <= MAX_BLOCK_SHIFT && i < |ls[o]|
    ensures Link(m, ls[o], i) && (i > 0 ==> Link(m, ls[o], i - 1))
    ensures var x := ls[o][i]; var next := m[Ix(x)];
      Chained(if i == 0 then heads[o := next] else heads,
              (if i == 0 then m else m[Ix(ls[o][i - 1]) := next])[Ix(x) := NULL],
              ls[o := Without(ls[o], i)])
  {
    hide At; hide Sized;
    var l, x := ls[o], ls[o][i];
    assert Link(m, l, i) && (i > 0 ==> Link(m, l, i - 1));
    var next := m[Ix(x)];
    var m' := (if i == 0 then m else m[Ix(l[i - 1]) := next])[Ix(x) := NULL];
    var ls' := ls[o := Without(l, i)];
    forall p: nat, j: nat | p <= MAX_BLOCK_SHIFT && j < |ls'[p]| ensures Link(m', ls'[p], j) {
      var j' := if p == o && j >= i then j + 1 else j;
      var y := ls[p][j'];
      assert Link(m, ls[p], j') && ls'[p][j] == y;
      assert Block(t, y) == Some(Leaf(p, false)) && Block(t, x) == Some(Leaf(o, false));
      assert y != x;
      IxFacts(x);
      IxFacts(y);
      if i > 0 { assert Block(t, l[i - 1]) == Some(Leaf(o, false)); }
    }
  }

  lemma ChainedWith(heads: seq<Word>, m: seq<Word>, ls: seq<seq<nat>>, t: Tree, pending: set<nat>, o: nat, x: nat)
    requires Sizes(heads, m, ls) && Arena(t) && Chained(heads, m, ls) && Listed(t, ls, pending)
    requires o <= MAX_BLOCK_SHIFT && x in pending && x % 32 == 0 && HEAP_START <= x <= HEAP_START + 0x40_0000 - 32
    ensures Chained(heads[o := x], m[Ix(x) := heads[o]], ls[o := [x] + ls[o]])
  {
    ListedApart(t, ls, pending);
    hide Listed; hide Arena;
    var m', ls' := m[Ix(x) := heads[o]], ls[o := [x] + ls[o]];
    forall p: nat, j: nat | p <= MAX_BLOCK_SHIFT && j < |ls'[p]| ensures Link(m', ls'[p], j) {
      if !(p == o && j == 0) {
        var j' := if p == o then j - 1 else j;
        assert Link(m, ls[p], j') && ls'[p][j] == ls[p][j'] && ls[p][j'] !in pending;
        IxFacts(x);
        IxFacts(ls[p][j']);
      }
    }
  }

  lemma ListedApart(t: Tree, ls: seq<seq<nat>>, pending: set<nat>)
    requires |ls| == MAX_BLOCK_SHIFT + 1 && Arena(t) && Listed(t, ls, pending)
    ensures forall o: nat, i: nat :: o <= MAX_BLOCK_SHIFT && i < |ls[o]| ==> ls[o][i] !in pending
  {
  }

  lemma IxFacts(x: nat)
    requires x % 32 == 0 && HEAP_START <= x
    ensures Ix(x) % 8 == 0 && HEAP_START + 4 * Ix(x) == x && Ix(x) >= 0
  {
  }

  /** Writing next words disturbs no header. */
  lemma NextWrite(t: Tree, m: seq<Word>, w: nat, v: Word)
    requires |m| == WORDS && Arena(t) && Headers(t, m) && w < WORDS && w % 8 == 0
    ensures Headers(t, m[w := v])
  {
    forall y: nat | Block(t, y).Some? ensures Header(m[w := v], y, Block(t, y).value) {
      assert Header(m, y, Block(t, y).value);
      IxFacts(y);
    }
  }

  lemma NotLive(t: Tree, x: nat)
    requires Arena(t) && Block(t, x).Some?
    ensures x % 32 == 0 && HEAP_START <= x <= HEAP_START + 0x40_0000 - 32 && Ix(x) % 8 == 0 && 0 <= Ix(x) < WORDS
    ensures IsLive(t, HEAP_START + 4 * Ix(x)) == Block(t, x).value.live
  {
    BlockFacts(t, x);
    BlockByte(t, x, x);
    IxFacts(x);
  }

  /** Words that are not next words may change without disturbing the chains. */
  lemma ChainedFields(heads: seq<Word>, m: seq<Word>, m': seq<Word>, ls: seq<seq<nat>>)
    requires Sizes(heads, m, ls) && Chained(heads, m, ls) && |m'| == WORDS
    requires forall w :: 0 <= w < WORDS && w % 8 == 0 ==> m'[w] == m[w]
    ensures Chained(heads, m', ls)
  {
    forall o: nat, i: nat | o <= MAX_BLOCK_SHIFT && i < |ls[o]| ensures Link(m', ls[o], i) {
      assert Link(m, ls[o], i);
    }
  }

  /** Header words of a block outside an aligned range are outside it too. */
  lemma HeaderOutside(z: nat, a: nat, size: nat)
    requires z % 32 == 0 && a % 32 == 0 && HEAP_START <= z && HEAP_START <= a && !(a <= z < a + size)
    ensures HEAP_START + 4 * Ix(z) == z && (z + 32 <= a || a + size <= z)
  {
    IxFacts(z);
  }

  /** Replacing a subtree, with writes to words of its range that give its blocks their headers. */
  lemma HeadersReplace(t: Tree, m: seq<Word>, m': seq<Word>, a: nat, k: nat, s: Tree)
    requires |m| == |m'| == WORDS && Arena(t) && Headers(t, m) && Subtree(t, a, k) && Sized(s, k)
    requires forall w :: 0 <= w < WORDS && !(a <= HEAP_START + 4 * w < a + Pow2(k)) ==> m'[w] == m[w]
    requires forall z: nat :: a <= z < a + Pow2(k) && At(s, k, a, z).Some? ==> Header(m', z, At(s, k, a, z).value)
    ensures Arena(Replace(t, a, k, s)) && Headers(Replace(t, a, k, s), m')
  {
    ReplaceFacts(t, a, k, s);
    SubtreeFacts(t, a, k);
    hide Pow2; hide At; hide LiveByte; hide Sized; hide Has; hide Put;
    var t' := Replace(t, a, k, s);
    forall z: nat | Block(t', z).Some? ensures Header(m', z, Block(t', z).value) {
      if !(a <= z < a + Pow2(k)) {
        assert Header(m, z, Block(t, z).value);
        HeaderOutside(z, a, Pow2(k));
      }
    }
  }

  lemma {:induction false} Pow2Multiple(k: nat)
    requires k >= MIN_BLOCK_SHIFT
    ensures Pow2(k) == 32 * Pow2(k - MIN_BLOCK_SHIFT)
  {
    if k == MIN_BLOCK_SHIFT { ArenaSize(); } else { Pow2Multiple(k - 1); }
  }

  /** Replacing a subtree none of whose blocks is listed. */
  lemma ListedReplace(t: Tree, ls: seq<seq<nat>>, pending: set<nat>, a: nat, k: nat, s: Tree, pending': set<nat>)
    requires |ls| == MAX_BLOCK_SHIFT + 1 && Arena(t) && Listed(t, ls, pending) && Subtree(t, a, k) && Sized(s, k)
    requires forall z: nat :: a <= z < a + Pow2(k) && Block(t, z).Some? ==> z in pending
    requires forall z: nat :: a <= z < a + Pow2(k) && At(s, k, a, z).Some? && !At(s, k, a, z).value.live ==>
        z in pending'
    requires forall z: nat :: !(a <= z < a + Pow2(k)) ==> (z in pending <==> z in pending')
    ensures Arena(Replace(t, a, k, s)) && Listed(Replace(t, a, k, s), ls, pending')
  {
    ReplaceFacts(t, a, k, s);
    var t' := Replace(t, a, k, s);
    forall x: nat | Block(t', x).Some? && !Block(t', x).value.live && x !in pending'
      ensures Block(t', x).value.order <= MAX_BLOCK_SHIFT && x in ls[Block(t', x).value.order]
    {
      assert Block(t', x) == Block(t, x);
    }
  }

  lemma BlocksAt(t: Tree, z: nat)
    requires Arena(t)
    ensures z in Blocks(t) <==> exists k: nat :: Block(t, z) == Some(Leaf(k, true))
    ensures forall k: nat :: Block(t, z) == Some(Leaf(k, true)) ==> z in Blocks(t) && Blocks(t)[z] == k
  {
    LiveMapAt(t, MAX_BLOCK_SHIFT, HEAP_START, z);
    if z in Blocks(t) { assert Block(t, z) == Some(Leaf(Block(t, z).value.order, true)); }
  }

  /** Arenas with the same live blocks have the same block map. */
  lemma SameBlocks(t: Tree, t': Tree)
    requires Arena(t) && Arena(t')
    requires forall z: nat, k: nat :: Block(t, z) == Some(Leaf(k, true)) <==> Block(t', z) == Some(Leaf(k, true))
    ensures Blocks(t) == Blocks(t')
  {
    forall z: nat
      ensures z in Blocks(t) <==> z in Blocks(t')
      ensures z in Blocks(t) && z in Blocks(t') ==> Blocks(t)[z] == Blocks(t')[z]
    {
      BlocksAt(t, z);
      BlocksAt(t', z);
    }
  }

  /** Words of blocks live in t are the same in both memories. */
  ghost predicate LiveKept(t: Tree, m: seq<Word>, m': seq<Word>)
    requires Arena(t)
  {
    |m| == |m'| == WORDS && forall w: nat :: w < WORDS && IsLive(t, HEAP_START + 4 * w) ==> m'[w] == m[w]
  }

  /** The same blocks are live, byte for byte. */
  ghost predicate SameLive(t: Tree, u: Tree)
    requires Arena(t) && Arena(u)
  {
    Blocks(t) == Blocks(u) && forall z: nat :: IsLive(t, z) == IsLive(u, z)
  }

  lemma SameLiveSelf(t: Tree, m: seq<Word>)
    requires Arena(t) && |m| == WORDS
    ensures SameLive(t, t) && LiveKept(t, m, m)
  {
  }

  lemma SameLiveTwice(t: Tree, u: Tree, v: Tree)
    requires Arena(t) && Arena(u) && Arena(v) && SameLive(t, u) && SameLive(u, v)
    ensures SameLive(t, v)
  {
  }

  lemma SameLiveBlocks(t: Tree, u: Tree)
    requires Arena(t) && Arena(u) && SameLive(t, u)
    ensures Blocks(t) == Blocks(u)
  {
  }

  lemma KeptTwice(t: Tree, u: Tree, m: seq<Word>, m': seq<Word>, m'': seq<Word>)
    requires Arena(t) && Arena(u) && LiveKept(t, m, m') && LiveKept(u, m', m'')
    requires SameLive(t, u)
    ensures LiveKept(t, m, m'')
  {
  }

  lemma UnlinkAgrees(heads: seq<Word>, m: seq<Word>, ls: seq<seq<nat>>, t: Tree, pending: set<nat>, o: nat, i: nat)
    requires Agree(heads, m, ls, t, pending) && o <= MAX_BLOCK_SHIFT && i < |ls[o]|
    ensures Link(m, ls[o], i) && (i > 0 ==> Link(m, ls[o], i - 1))
    ensures var x := ls[o][i]; var next := m[Ix(x)];
      var heads' := if i == 0 then heads[o := next] else heads;
      var m' := (if i == 0 then m else m[Ix(ls[o][i - 1]) := next])[Ix(x) := NULL];
      && Agree(heads', m', ls[o := Without(ls[o], i)], t, pending + {x})
      && Arena(t) && LiveKept(t, m, m')
  {
    hide At; hide LiveByte; hide Sized; hide Chained; hide Headers;
    ListedWithout(t, ls, pending, o, i);
    ChainedWithout(heads, m, ls, t, pending, o, i);
    var x := ls[o][i];
    var m1 := m;
    NotLive(t, x);
    if i > 0 {
      NotLive(t, ls[o][i - 1]);
      m1 := m[Ix(ls[o][i - 1]) := m[Ix(x)]];
      NextWrite(t, m, Ix(ls[o][i - 1]), m[Ix(x)]);
    }
    NextWrite(t, m1, Ix(x), NULL);
  }

  /** A non-empty list's head word is its first entry, a free block of the list's order. */
  lemma HeadFacts(heads: seq<Word>, m: seq<Word>, ls: seq<seq<nat>>, t: Tree, o: nat)
    requires Agree(heads, m, ls, t, {}) && o <= MAX_BLOCK_SHIFT
    ensures |heads| == |ls| == MAX_BLOCK_SHIFT + 1 && |m| == WORDS && Arena(t)
    ensures heads[o] == NULL <==> ls[o] == []
    ensures ls[o] != [] ==>
      heads[o] == ls[o][0] && Block(t, ls[o][0]) == Some(Leaf(o, false)) && Subtree(t, ls[o][0], o)
  {
    if ls[o] != [] { assert Link(m, ls[o], 0); BlockFacts(t, ls[o][0]); }
  }

  /** The head of a list is found at its head. */
  lemma HeadOnly(heads: seq<Word>, m: seq<Word>, ls: seq<seq<nat>>, t: Tree, o: nat, i: nat)
    requires Agree(heads, m, ls, t, {}) && o <= MAX_BLOCK_SHIFT && i < |ls[o]| && ls[o][i] == ls[o][0]
    ensures i == 0 && Without(ls[o], i) == ls[o][1..]
  {
    assert forall j :: 0 < j < |ls[o]| ==> ls[o][0] != ls[o][j];
  }

  lemma InsertAgrees(heads: seq<Word>, m: seq<Word>, ls: seq<seq<nat>>, t: Tree, pending: set<nat>, x: nat)
    requires Agree(heads, m, ls, t, pending) && x in pending
    requires Block(t, x).Some? && !Block(t, x).value.live
    ensures var o := Block(t, x).value.order;
      && o <= MAX_BLOCK_SHIFT && HEAP_START <= x <= HEAP_START + 0x40_0000 - 32 && m[Ix(x) + 1] == o
      && Agree(heads[o := x], m[Ix(x) := heads[o]], ls[o := [x] + ls[o]], t, pending - {x})
      && LiveKept(t, m, m[Ix(x) := heads[o]])
  {
    hide Has; hide Pow2; hide IsLive; hide Blocks;
    hide At; hide LiveByte; hide Sized;
    BlockFacts(t, x);
    NotLive(t, x);
    var o := Block(t, x).value.order;
    assert Header(m, x, Block(t, x).value);
    NextWrite(t, m, Ix(x), heads[o]);
    ListedWith(t, ls, pending, o, x);
    ChainedWith(heads, m, ls, t, pending, o, x);
  }

  // ---------------------------------------------------------------- splitting

  /** The two headers a split writes. */
  function SplitWords(m: seq<Word>, x: nat, y: nat, k: nat): (m': seq<Word>)
    requires |m| == WORDS && HEAP_START <= x <= HEAP_START + 0x40_0000 - 32 &&
        HEAP_START <= y <= HEAP_START + 0x40_0000 - 32 && k <= MAX_BLOCK_SHIFT
    ensures |m'| == WORDS
  {
    m[Ix(x) + 1 := k][Ix(x) + 2 := 1][Ix(y) + 1 := k][Ix(y) + 2 := 1][Ix(y) + 3 := 0]
  }

  lemma OrderFirst(m: seq<Word>, x: nat, y: nat, k: nat)
    requires |m| == WORDS && HEAP_START <= x <= HEAP_START + 0x40_0000 - 32 &&
        HEAP_START <= y <= HEAP_START + 0x40_0000 - 32 && k <= MAX_BLOCK_SHIFT
    ensures SplitWords(m[Ix(x) + 1 := k], x, y, k) == SplitWords(m, x, y, k)
  {
    assert m[Ix(x) + 1 := k][Ix(x) + 1 := k] == m[Ix(x) + 1 := k];
  }

  lemma HalfSize(x: nat, o: nat)
    requires MIN_BLOCK_SHIFT < o && x % 32 == 0
    ensures (x + Pow2(o - 1)) % 32 == 0 && Pow2(o - 1) >= 32
  {
    Pow2Multiple(o - 1);
    Multiples(x, Pow2(o - 1));
  }

  lemma Multiples(x: nat, y: nat)
    requires x % 32 == 0 && y % 32 == 0
    ensures (x + y) % 32 == 0
  {
  }

  lemma SplitGeometry(t: Tree, x: nat, o: nat)
    requires Arena(t) && MIN_BLOCK_SHIFT < o && Block(t, x) == Some(Leaf(o, false))
    ensures var y := x + Pow2(o - 1);
      && Subtree(t, x, o) && o <= MAX_BLOCK_SHIFT && HEAP_START <= x && x % 32 == 0 && y % 32 == 0
      && x + 32 <= y && y + 32 <= y + Pow2(o - 1) == x + Pow2(o) <= HEAP_START + 0x40_0000
  {
    BlockFacts(t, x);
    HalfSize(x, o);
  }

  lemma HalvesOnly(o: nat, b: nat, z: nat)
    requires o > MIN_BLOCK_SHIFT
    ensures At(Node(Free, Free), o, b, z) == if z == b || z == b + Pow2(o - 1) then Some(Leaf(o - 1, false)) else None
    ensures !LiveByte(Node(Free, Free), o, b, z)
  {
  }

  /** Splitting a free block changes no live byte. */
  lemma SplitBlocks(t: Tree, x: nat, o: nat)
    requires Arena(t) && MIN_BLOCK_SHIFT < o && Block(t, x) == Some(Leaf(o, false)) && Subtree(t, x, o)
    ensures var t' := Replace(t, x, o, Node(Free, Free));
      Arena(t') && Block(t', x) == Some(Leaf(o - 1, false)) && Block(t', x + Pow2(o - 1)) == Some(Leaf(o - 1, false))
    ensures forall z: nat :: IsLive(Replace(t, x, o, Node(Free, Free)), z) == IsLive(t, z)
    ensures Blocks(Replace(t, x, o, Node(Free, Free))) == Blocks(t)
  {
    ReplaceFacts(t, x, o, Node(Free, Free));
    OnlyBlock(t, x);
    forall z: nat { HalvesOnly(o, x, z); }
    SameBlocks(t, Replace(t, x, o, Node(Free, Free)));
    HalvesOnly(o, x, x);
    HalvesOnly(o, x, x + Pow2(o - 1));
    forall z: nat ensures IsLive(Replace(t, x, o, Node(Free, Free)), z) == IsLive(t, z) {
      if x <= z < x + Pow2(o) { HalvesOnly(o, x, z); BlockByte(t, x, z); }
    }
  }

  lemma SplitHeaders(m: seq<Word>, x: nat, y: nat, k: nat)
    requires |m| == WORDS && x % 32 == 0 && y % 32 == 0 && k <= MAX_BLOCK_SHIFT
    requires HEAP_START <= x && x + 32 <= y <= HEAP_START + 0x40_0000 - 32
    ensures var m' := SplitWords(m, x, y, k);
      && Header(m', x, Leaf(k, false)) && Header(m', y, Leaf(k, false))
      && (forall w :: 0 <= w < WORDS && w % 8 == 0 ==> m'[w] == m[w])
      && (forall w :: 0 <= w < WORDS && !(x <= HEAP_START + 4 * w < y + 32) ==> m'[w] == m[w])
  {
    IxFacts(x);
    IxFacts(y);
    hide Ix;
  }

  lemma SplitKeepsLive(t: Tree, m: seq<Word>, x: nat, o: nat)
    requires Arena(t) && |m| == WORDS && MIN_BLOCK_SHIFT < o && Block(t, x) == Some(Leaf(o, false))
    ensures o <= MAX_BLOCK_SHIFT && HEAP_START <= x && x + 32 <= x + Pow2(o - 1) <= HEAP_START + 0x40_0000 - 32
    ensures LiveKept(t, m, SplitWords(m, x, x + Pow2(o - 1), o - 1))
  {
    hide Ix; hide At; hide LiveByte; hide Sized; hide Has;
    SplitGeometry(t, x, o);
    var m' := SplitWords(m, x, x + Pow2(o - 1), o - 1);
    SplitHeaders(m, x, x + Pow2(o - 1), o - 1);
    forall w: nat | w < WORDS && IsLive(t, HEAP_START + 4 * w) ensures m'[w] == m[w] {
      if x <= HEAP_START + 4 * w < x + Pow2(o) { BlockByte(t, x, HEAP_START + 4 * w); }
    }
  }

  lemma SplitListed(ls: seq<seq<nat>>, t: Tree, x: nat, o: nat)
    requires |ls| == MAX_BLOCK_SHIFT + 1 && Arena(t) && Listed(t, ls, {x}) && MIN_BLOCK_SHIFT < o &&
        Block(t, x) == Some(Leaf(o, false))
    requires Subtree(t, x, o)
    ensures Arena(Replace(t, x, o, Node(Free, Free))) &&
        Listed(Replace(t, x, o, Node(Free, Free)), ls, {x, x + Pow2(o - 1)})
  {
    hide LiveByte;
    SplitGeometry(t, x, o);
    OnlyBlock(t, x);
    ListedReplace(t, ls, {x}, x, o, Node(Free, Free), {x, x + Pow2(o - 1)});
  }

  lemma SplitHeadersAgree(m: seq<Word>, t: Tree, x: nat, o: nat)
    requires |m| == WORDS && Arena(t) && Headers(t, m) && MIN_BLOCK_SHIFT < o && Block(t, x) == Some(Leaf(o, false))
    requires Subtree(t, x, o) && o <= MAX_BLOCK_SHIFT && HEAP_START <= x &&
        x + 32 <= x + Pow2(o - 1) <= HEAP_START + 0x40_0000 - 32
    ensures Arena(Replace(t, x, o, Node(Free, Free)))
    ensures Headers(Replace(t, x, o, Node(Free, Free)), SplitWords(m, x, x + Pow2(o - 1), o - 1))
  {
    hide Ix; hide Has; hide Put;
    hide LiveByte;
    var y := x + Pow2(o - 1);
    SplitGeometry(t, x, o);
    SplitHeaders(m, x, y, o - 1);
    var m' := SplitWords(m, x, y, o - 1);
    forall z: nat | x <= z < x + Pow2(o) && At(Node(Free, Free), o, x, z).Some?
      ensures Header(m', z, At(Node(Free, Free), o, x, z).value)
    {
      HalvesOnly(o, x, z);
    }
    HeadersReplace(t, m, m', x, o, Node(Free, Free));
  }

  lemma SplitAgrees(heads: seq<Word>, m: seq<Word>, ls: seq<seq<nat>>, t: Tree, x: nat, o: nat)
    requires Agree(heads, m, ls, t, {x}) && MIN_BLOCK_SHIFT < o && Block(t, x) == Some(Leaf(o, false))
    ensures var y := x + Pow2(o - 1);
      && Subtree(t, x, o) && o <= MAX_BLOCK_SHIFT && HEAP_START <= x && x % 32 == 0 &&
         x + 32 <= y <= HEAP_START + 0x40_0000 - 32 && y % 32 == 0
      && Agree(heads, SplitWords(m, x, y, o - 1), ls, Replace(t, x, o, Node(Free, Free)), {x, y})
  {
    hide At; hide Listed; hide Chained; hide Headers; hide Sized; hide Put; hide Has;
    SplitGeometry(t, x, o);
    var y := x + Pow2(o - 1);
    SplitHeaders(m, x, y, o - 1);
    ChainedFields(heads, m, SplitWords(m, x, y, o - 1), ls);
    SplitHeadersAgree(m, t, x, o);
    SplitListed(ls, t, x, o);
  }

  // ---------------------------------------------------------------- merging

  function ParentOf(t: Tree, x: nat, k: nat): nat
    requires Arena(t) && Subtree(t, x, k) && k < MAX_BLOCK_SHIFT
  {
    Parent(t, MAX_BLOCK_SHIFT, HEAP_START, x, k)
  }

  function BuddyAt(t: Tree, x: nat, k: nat): nat
    requires Arena(t) && Subtree(t, x, k) && k < MAX_BLOCK_SHIFT
  {
    Buddy(t, MAX_BLOCK_SHIFT, HEAP_START, x, k)
  }

  /** Whatever block starts at the buddy address has a header there, which tells whether the buddy can be merged. */
  lemma KeptUnder(t: Tree, t': Tree, m: seq<Word>, m': seq<Word>)
    requires Arena(t) && Arena(t') && (forall z: nat :: IsLive(t', z) == IsLive(t, z)) && LiveKept(t, m, m')
    ensures LiveKept(t', m, m')
  {
    hide LiveByte; hide Sized;
  }

  lemma HalfGeometry(heads: seq<Word>, m: seq<Word>, ls: seq<seq<nat>>, t: Tree, x: nat, o: nat)
    requires Agree(heads, m, ls, t, {x}) && MIN_BLOCK_SHIFT < o && Block(t, x) == Some(Leaf(o, false))
    ensures o <= MAX_BLOCK_SHIFT && Aligned(x, o) && HEAP_START <= x && x % 32 == 0
    ensures 32 <= Pow2(o - 1) && (x + Pow2(o - 1)) % 32 == 0 && x + Pow2(o - 1) <= HEAP_START + 0x40_0000 - 32
    ensures Arena(t) && Subtree(t, x, o)
    ensures var y := x + Pow2(o - 1);
      Agree(heads, SplitWords(m, x, y, o - 1), ls, Replace(t, x, o, Node(Free, Free)), {x, y})
  {
    assert Arena(t) && Sizes(heads, m, ls);
    hide Agree; hide At; hide LiveByte; hide Put; hide Sized; hide Aligned; hide Has; hide Pow2; hide LiveMap;
    SplitAgrees(heads, m, ls, t, x, o);
    SubtreeAligned(t, x, o);
  }

  /** Halving a block changes no live byte. */
  lemma HalfKept(t: Tree, m: seq<Word>, m': seq<Word>, x: nat, o: nat)
    requires Arena(t) && |m| == WORDS && MIN_BLOCK_SHIFT < o && Block(t, x) == Some(Leaf(o, false)) && Subtree(t, x, o)
    requires HEAP_START <= x && x + 32 <= x + Pow2(o - 1) <= HEAP_START + 0x40_0000 - 32 && o <= MAX_BLOCK_SHIFT
    requires m' == SplitWords(m, x, x + Pow2(o - 1), o - 1)
    ensures var t' := Replace(t, x, o, Node(Free, Free));
      && Arena(t') && Block(t', x) == Block(t', x + Pow2(o - 1)) == Some(Leaf(o - 1, false))
      && (forall z: nat :: IsLive(t', z) == IsLive(t, z)) && LiveKept(t', m, m')
  {
    hide At; hide LiveByte; hide Put; hide Sized; hide Has; hide Pow2; hide LiveMap;
    SplitKeepsLive(t, m, x, o);
    SplitBlocks(t, x, o);
    KeptUnder(t, Replace(t, x, o, Node(Free, Free)), m, m');
  }

  lemma BuddyIsBlock(t: Tree, x: nat, k: nat)
    requires Arena(t) && Subtree(t, x, k) && k < MAX_BLOCK_SHIFT
    ensures var y := BuddyAt(t, x, k); var p := ParentOf(t, x, k);
      && Subtree(t, p, k + 1) && Subtree(t, y, k) && Block(t, y).Some?
      && (x == p || x == p + Pow2(k)) && y == (if x == p then p + Pow2(k) else p)
      && (Block(t, y) == Some(Leaf(k, false)) <==> Sub(t, MAX_BLOCK_SHIFT, HEAP_START, y, k).Free?)
  {
    ParentFacts(t, MAX_BLOCK_SHIFT, HEAP_START, x, k);
    Buddies(t, MAX_BLOCK_SHIFT, HEAP_START, x, k);
    SubStart(t, MAX_BLOCK_SHIFT, HEAP_START, BuddyAt(t, x, k), k);
  }

  /** Two free buddies are their parent's only blocks. */
  lemma MergeRegion(t: Tree, x: nat, k: nat)
    requires Arena(t) && k < MAX_BLOCK_SHIFT && Subtree(t, x, k) && Block(t, x) == Some(Leaf(k, false))
    requires Block(t, BuddyAt(t, x, k)) == Some(Leaf(k, false))
    ensures var p := ParentOf(t, x, k);
      && Subtree(t, p, k + 1) && MIN_BLOCK_SHIFT <= k
      && (forall z: nat :: p <= z < p + Pow2(k + 1) && Block(t, z).Some? ==> z == x || z == BuddyAt(t, x, k))
      && (forall z: nat :: p <= z < p + Pow2(k + 1) ==> !IsLive(t, z))
  {
    BlockFacts(t, x);
    BuddyIsBlock(t, x, k);
    Buddies(t, MAX_BLOCK_SHIFT, HEAP_START, x, k);
    LeafIsSub(t, MAX_BLOCK_SHIFT, HEAP_START, x, k, false);
    var p := ParentOf(t, x, k);
    forall z: nat | p <= z < p + Pow2(k + 1)
      ensures Block(t, z).Some? ==> z == x || z == BuddyAt(t, x, k)
      ensures !IsLive(t, z)
    {
      SubAt(t, MAX_BLOCK_SHIFT, HEAP_START, p, k + 1, z);
      HalvesOnly(k + 1, p, z);
    }
  }

  /** The header words a merge writes. */
  function MergeWords(m: seq<Word>, p: nat, k: nat): (m': seq<Word>)
    requires |m| == WORDS && HEAP_START <= p <= HEAP_START + 0x40_0000 - 32 && k <= MAX_BLOCK_SHIFT
    ensures |m'| == WORDS
  {
    m[Ix(p) + 1 := k][Ix(p) + 2 := 1]
  }

  lemma MergeHeader(m: seq<Word>, p: nat, k: nat)
    requires |m| == WORDS && HEAP_START <= p <= HEAP_START + 0x40_0000 - 32 && k <= MAX_BLOCK_SHIFT && p % 32 == 0
    ensures var m' := MergeWords(m, p, k);
      && Header(m', p, Leaf(k, false))
      && (forall w :: 0 <= w < WORDS && w % 8 == 0 ==> m'[w] == m[w])
      && (forall w :: 0 <= w < WORDS && !(p <= HEAP_START + 4 * w < p + 32) ==> m'[w] == m[w])
  {
    IxFacts(p);
    hide Ix;
  }

  lemma MergeHeadersAgree(m: seq<Word>, t: Tree, p: nat, k: nat)
    requires |m| == WORDS && Arena(t) && Headers(t, m) && Subtree(t, p, k) && k <= MAX_BLOCK_SHIFT
    requires HEAP_START <= p <= HEAP_START + 0x40_0000 - 32
    ensures Arena(Replace(t, p, k, Free)) && Headers(Replace(t, p, k, Free), MergeWords(m, p, k))
  {
    hide LiveByte;
    SubtreeFacts(t, p, k);
    MergeHeader(m, p, k);
    HeadersReplace(t, m, MergeWords(m, p, k), p, k, Free);
  }

  lemma MergeListed(ls: seq<seq<nat>>, t: Tree, x: nat, k: nat)
    requires k < MAX_BLOCK_SHIFT && |ls| == MAX_BLOCK_SHIFT + 1 && Arena(t) && Subtree(t, x, k)
    requires Listed(t, ls, {x, BuddyAt(t, x, k)})
    requires Block(t, x) == Block(t, BuddyAt(t, x, k)) == Some(Leaf(k, false))
    ensures var p := ParentOf(t, x, k);
      Subtree(t, p, k + 1) && Arena(Replace(t, p, k + 1, Free)) && Listed(Replace(t, p, k + 1, Free), ls, {p})
  {
    hide LiveByte;
    var p := ParentOf(t, x, k);
    MergeRegion(t, x, k);
    BuddyIsBlock(t, x, k);
    SubtreeFacts(t, p, k + 1);
    ListedReplace(t, ls, {x, BuddyAt(t, x, k)}, p, k + 1, Free, {p});
  }

  lemma MergeKeepsLive(t: Tree, m: seq<Word>, x: nat, k: nat)
    requires k < MAX_BLOCK_SHIFT && Arena(t) && Subtree(t, x, k) && |m| == WORDS
    requires Block(t, x) == Block(t, BuddyAt(t, x, k)) == Some(Leaf(k, false))
    ensures var p := ParentOf(t, x, k);
      && Subtree(t, p, k + 1) && HEAP_START <= p <= HEAP_START + 0x40_0000 - 32
      && Arena(Replace(t, p, k + 1, Free)) && Block(Replace(t, p, k + 1, Free), p) == Some(Leaf(k + 1, false))
      && (forall z: nat :: IsLive(Replace(t, p, k + 1, Free), z) == IsLive(t, z))
      && Blocks(Replace(t, p, k + 1, Free)) == Blocks(t)
      && LiveKept(t, m, MergeWords(m, p, k + 1))
  {
    var p := ParentOf(t, x, k);
    MergeRegion(t, x, k);
    SubtreeFacts(t, p, k + 1);
    MergeHeader(m, p, k + 1);
    ReplaceFacts(t, p, k + 1, Free);
    SameBlocks(t, Replace(t, p, k + 1, Free));
  }

  lemma MergeAgrees(heads: seq<Word>, m: seq<Word>, ls: seq<seq<nat>>, t: Tree, x: nat, k: nat)
    requires k < MAX_BLOCK_SHIFT && Arena(t) && Subtree(t, x, k) && Agree(heads, m, ls, t, {x, BuddyAt(t, x, k)})
    requires Block(t, x) == Block(t, BuddyAt(t, x, k)) == Some(Leaf(k, false))
    ensures var p := ParentOf(t, x, k);
      && Subtree(t, p, k + 1) && HEAP_START <= p <= HEAP_START + 0x40_0000 - 32
      && Agree(heads, MergeWords(m, p, k + 1), ls, Replace(t, p, k + 1, Free), {p})
  {
    hide At; hide Listed; hide Chained; hide Headers; hide Sized; hide Put; hide Has; hide Parent;
    var p := ParentOf(t, x, k);
    MergeListed(ls, t, x, k);
    SubtreeFacts(t, p, k + 1);
    MergeHeader(m, p, k + 1);
    ChainedFields(heads, m, MergeWords(m, p, k + 1), ls);
    MergeHeadersAgree(m, t, p, k + 1);
  }

  /** The arena is in normal form except that block (x, k) has just become free. */
  ghost predicate Loose(t: Tree, x: nat, k: nat) {
    && Arena(t) && k <= MAX_BLOCK_SHIFT && Block(t, x) == Some(Leaf(k, false)) && Subtree(t, x, k)
    && Canonical(Replace(t, x, k, Live))
  }

  lemma MergeLoose(t: Tree, x: nat, k: nat)
    requires Loose(t, x, k) && k < MAX_BLOCK_SHIFT && Block(t, BuddyAt(t, x, k)) == Some(Leaf(k, false))
    ensures var p := ParentOf(t, x, k); Subtree(t, p, k + 1) && Loose(Replace(t, p, k + 1, Free), p, k + 1)
  {
    var p := ParentOf(t, x, k);
    BlockFacts(t, x);
    PutParent(t, MAX_BLOCK_SHIFT, HEAP_START, x, k, Live, Live);
    PutSized(t, MAX_BLOCK_SHIFT, HEAP_START, x, k, Live);
    CanonicalMark(Replace(t, x, k, Live), MAX_BLOCK_SHIFT, HEAP_START, p, k + 1);
    PutPut(t, MAX_BLOCK_SHIFT, HEAP_START, p, k + 1, Free, Live);
    ReplaceFacts(t, p, k + 1, Free);
    SubtreeFacts(t, p, k + 1);
  }

  /** When the buddy cannot be merged the arena is in normal form. */
  lemma LooseDone(t: Tree, x: nat, k: nat)
    requires Loose(t, x, k) && (k < MAX_BLOCK_SHIFT ==> Block(t, BuddyAt(t, x, k)) != Some(Leaf(k, false)))
    ensures Canonical(t)
  {
    LeafIsSub(t, MAX_BLOCK_SHIFT, HEAP_START, x, k, false);
    PutSame(t, MAX_BLOCK_SHIFT, HEAP_START, x, k);
    if k < MAX_BLOCK_SHIFT { BuddyIsBlock(t, x, k); }
    CanonicalFree(t, MAX_BLOCK_SHIFT, HEAP_START, x, k);
  }
}
