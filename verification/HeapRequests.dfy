/**
 What the heap's operations may and must do: one block taken or given back, requests for bytes, pointers handed out.
 */
module HeapRequests {
  import opened Basics
  import opened Bits
  import opened BuddyTree
  import opened HeapState

  // ---------------------------------------------------------------- allocating and freeing one block

  /** Splitting the block that has just become free leaves its upper half as the only possible redundancy. */
  lemma SplitLoose(t: Tree, x: nat, o: nat)
    requires Loose(t, x, o) && MIN_BLOCK_SHIFT < o
    ensures Loose(Replace(t, x, o, Node(Free, Free)), x + Pow2(o - 1), o - 1)
  {
    SplitBlocks(t, x, o);
    PutUpper(t, MAX_BLOCK_SHIFT, HEAP_START, x, o, Free, Free, Live);
    CanonicalPut(t, MAX_BLOCK_SHIFT, HEAP_START, x, o, Node(Free, Live));
  }

  /** List o's head is what is left of the free block (f, j) being split, at its upper end. */
  ghost predicate Remnant(t: Tree, ls: seq<seq<nat>>, o: nat, f: nat, j: nat) {
    && |ls| == MAX_BLOCK_SHIFT + 1 && o <= MAX_BLOCK_SHIFT && ls[o] != [] && Loose(t, ls[o][0], o)
    && ls[o][0] + Pow2(o) == f + Pow2(j) && ls[o][0] >= f
  }

  /** One round of the splitting loop. */
  lemma SplitStep(t: Tree, ls: seq<seq<nat>>, o: nat, f: nat, j: nat)
    requires Remnant(t, ls, o, f, j) && MIN_BLOCK_SHIFT < o
    ensures var x := ls[o][0]; var t' := Replace(t, x, o, Node(Free, Free));
      && Arena(t') && SameLive(t, t')
      && Remnant(t', ls[o := ls[o][1..]][o - 1 := [x + Pow2(o - 1), x] + ls[o - 1]], o - 1, f, j)
  {
    SplitLoose(t, ls[o][0], o);
    SplitBlocks(t, ls[o][0], o);
  }

  lemma CanonicalLoose(t: Tree, x: nat, k: nat)
    requires Arena(t) && Canonical(t) && Block(t, x) == Some(Leaf(k, false))
    ensures Loose(t, x, k)
  {
    BlockFacts(t, x);
    CanonicalMark(t, MAX_BLOCK_SHIFT, HEAP_START, x, k);
  }

  lemma HeaderFacts(heads: seq<Word>, m: seq<Word>, ls: seq<seq<nat>>, t: Tree, pending: set<nat>, x: nat)
    requires Agree(heads, m, ls, t, pending) && Block(t, x).Some?
    ensures |m| == WORDS && Header(m, x, Block(t, x).value) && Block(t, x).value.order <= MAX_BLOCK_SHIFT
  {
    BlockFacts(t, x);
  }

  function Whole(live: bool): Tree {
    if live then Live else Free
  }

  /** What becomes of the arena when the block at x changes hands. */
  lemma MarkFacts(t: Tree, x: nat, live: bool)
    requires Arena(t) && Block(t, x).Some? && Block(t, x).value.live != live
    ensures var k := Block(t, x).value.order; var s := Whole(live);
      && Subtree(t, x, k) && Arena(Replace(t, x, k, s))
      && Block(Replace(t, x, k, s), x) == Some(Leaf(k, live))
      && Blocks(Replace(t, x, k, s)) == (if live then Blocks(t)[x := k] else Blocks(t) - {x})
      && (forall z: nat :: IsLive(Replace(t, x, k, s), z) == if x <= z < x + Pow2(k) then live else IsLive(t, z))
      && (live ==> x !in Blocks(t))
  {
    var k, s := Block(t, x).value.order, Whole(live);
    BlockFacts(t, x);
    OnlyBlock(t, x);
    ReplaceFacts(t, x, k, s);
    var t' := Replace(t, x, k, s);
    BlocksAt(t, x);
    forall z: nat
      ensures z in Blocks(t') <==> z in (if live then Blocks(t)[x := k] else Blocks(t) - {x})
      ensures z in Blocks(t') ==> Blocks(t')[z] == (if live then Blocks(t)[x := k] else Blocks(t) - {x})[z]
    {
      BlocksAt(t, z);
      BlocksAt(t', z);
    }
  }

  /** The header words that record that block x is live, or that it is free. */
  function MarkWords(m: seq<Word>, x: nat, live: bool): (m': seq<Word>)
    requires |m| == WORDS && HEAP_START <= x <= HEAP_START + 0x40_0000 - 32
    ensures |m'| == WORDS
  {
    if live then m[Ix(x) + 2 := 0][Ix(x) + 3 := x] else m[Ix(x) + 2 := 1]
  }

  lemma MarkHeader(m: seq<Word>, x: nat, b: Leaf)
    requires |m| == WORDS && Header(m, x, b)
    ensures var m' := MarkWords(m, x, !b.live);
      && Header(m', x, Leaf(b.order, !b.live))
      && (forall w :: 0 <= w < WORDS && w % 8 == 0 ==> m'[w] == m[w])
      && (forall w :: 0 <= w < WORDS && !(x <= HEAP_START + 4 * w < x + 32) ==> m'[w] == m[w])
  {
    IxFacts(x);
    hide Ix;
  }

  lemma MarkHeaders(t: Tree, m: seq<Word>, x: nat, live: bool)
    requires |m| == WORDS && Arena(t) && Headers(t, m) && Block(t, x).Some? && Block(t, x).value.live != live
    ensures var k := Block(t, x).value.order; var s := Whole(live);
      && Subtree(t, x, k) && Arena(Replace(t, x, k, s)) && Header(m, x, Block(t, x).value)
      && Headers(Replace(t, x, k, s), MarkWords(m, x, live))
  {
    hide LiveByte;
    BlockFacts(t, x);
    MarkHeader(m, x, Block(t, x).value);
    HeadersReplace(t, m, MarkWords(m, x, live), x, Block(t, x).value.order, Whole(live));
  }

  lemma MarkListed(t: Tree, ls: seq<seq<nat>>, x: nat, live: bool)
    requires |ls| == MAX_BLOCK_SHIFT + 1 && Arena(t) && Block(t, x).Some? && Block(t, x).value.live != live
    requires Listed(t, ls, if live then {x} else {})
    ensures var k := Block(t, x).value.order; var s := Whole(live);
      && Subtree(t, x, k) && Arena(Replace(t, x, k, s)) && Listed(Replace(t, x, k, s), ls, if live then {} else {x})
  {
    hide LiveByte;
    var k, s := Block(t, x).value.order, Whole(live);
    BlockFacts(t, x);
    OnlyBlock(t, x);
    if live {
      ListedReplace(t, ls, {x}, x, k, s, {});
    } else {
      ListedMore(t, ls, x);
      ListedReplace(t, ls, {x}, x, k, s, {x});
    }
  }

  /** A live block may count as pending. */
  lemma ListedMore(t: Tree, ls: seq<seq<nat>>, x: nat)
    requires |ls| == MAX_BLOCK_SHIFT + 1 && Arena(t) && Listed(t, ls, {})
    requires Block(t, x).Some? && Block(t, x).value.live
    ensures Listed(t, ls, {x})
  {
  }

  lemma MarkAgrees(heads: seq<Word>, m: seq<Word>, ls: seq<seq<nat>>, t: Tree, x: nat, live: bool)
    requires Agree(heads, m, ls, t, if live then {x} else {}) && Block(t, x).Some? && Block(t, x).value.live != live
    ensures var k := Block(t, x).value.order; var s := Whole(live);
      && Subtree(t, x, k) && Header(m, x, Block(t, x).value)
      && Agree(heads, MarkWords(m, x, live), ls, Replace(t, x, k, s), if live then {} else {x})
      && LiveKept(if live then t else Replace(t, x, k, s), m, MarkWords(m, x, live))
  {
    hide At; hide Listed; hide Chained; hide Headers; hide Sized; hide Put; hide Has;
    MarkHeaders(t, m, x, live);
    MarkHeader(m, x, Block(t, x).value);
    MarkListed(t, ls, x, live);
    MarkFacts(t, x, live);
    BlockFacts(t, x);
    ChainedFields(heads, m, MarkWords(m, x, live), ls);
    if live {
      forall z: nat | x <= z < x + 32 ensures !IsLive(t, z) { BlockByte(t, x, z); }
      assert LiveKept(t, m, MarkWords(m, x, true));
    } else {
      assert LiveKept(Replace(t, x, Block(t, x).value.order, Whole(false)), m, MarkWords(m, x, false));
    }
  }

  /** Freeing a block of an arena in normal form leaves that block as the only possible redundancy. */
  lemma FreedLoose(t: Tree, x: nat)
    requires Arena(t) && Canonical(t) && Block(t, x).Some? && Block(t, x).value.live
    ensures var k := Block(t, x).value.order;
      Subtree(t, x, k) && Loose(Replace(t, x, k, Free), x, k)
  {
    var k := Block(t, x).value.order;
    MarkFacts(t, x, false);
    BlockFacts(t, x);
    PutSized(t, MAX_BLOCK_SHIFT, HEAP_START, x, k, Free);
    PutPut(t, MAX_BLOCK_SHIFT, HEAP_START, x, k, Free, Live);
    LeafIsSub(t, MAX_BLOCK_SHIFT, HEAP_START, x, k, true);
    PutSame(t, MAX_BLOCK_SHIFT, HEAP_START, x, k);
  }

  // ---------------------------------------------------------------- what an allocation may and must do

  /** The least order whose blocks hold total bytes. */
  ghost predicate OrderFor(k: nat, total: nat) {
    MIN_BLOCK_SHIFT <= k && total <= Pow2(k) && forall j :: MIN_BLOCK_SHIFT <= j < k ==> Pow2(j) < total
  }

  /** Some aligned region of the order needed for total bytes overlaps no live block. */
  ghost predicate Room(live: map<nat, nat>, total: nat) {
    exists k: nat, a: nat :: OrderFor(k, total) && RoomAt(live, MAX_BLOCK_SHIFT, HEAP_START, k, a)
  }

  /** The allocation of order k that the lists determine: the top of the head of the first non-empty list from k up. */
  ghost predicate FirstFit(ls: seq<seq<nat>>, b: nat, k: nat)
    requires |ls| == MAX_BLOCK_SHIFT + 1
  {
    exists j: nat :: k <= j <= MAX_BLOCK_SHIFT && ls[j] != [] && (forall i: nat :: k <= i < j ==> ls[i] == [])
      && b + Pow2(k) == ls[j][0] + Pow2(j)
  }

  /** Block b of order k was carved out of a free block of t, giving t'. */
  ghost predicate Carved(t: Tree, t': Tree, b: nat, k: nat) {
    && Arena(t) && Arena(t') && FreeAround(t, MAX_BLOCK_SHIFT, HEAP_START, b, k)
    && t' == Reserve(t, MAX_BLOCK_SHIFT, HEAP_START, b, k)
    && b !in Blocks(t) && Blocks(t') == Blocks(t)[b := k]
  }

  /** Block b serves a request for total bytes, header included. */
  ghost predicate Served(t: Tree, ls: seq<seq<nat>>, t': Tree, b: nat, total: nat) {
    |ls| == MAX_BLOCK_SHIFT + 1 && exists k: nat :: OrderFor(k, total) && Carved(t, t', b, k) && FirstFit(ls, b, k)
  }

  /**
   The outcome of a request for n bytes that needs total with its header: NULL exactly when n is 0 or no aligned
   region of the needed order is clear of live blocks, and then nothing changed; otherwise p follows the header of
   the block that serves the request, and kfree accepts it.  Words of blocks that were live keep their values.
   */
  ghost predicate Allocates(t: Tree, ls: seq<seq<nat>>, m: seq<Word>, t': Tree, ls': seq<seq<nat>>, m': seq<Word>,
          p: nat, n: nat, total: nat)
  {
    && Arena(t) && Arena(t') && |m| == |m'| == WORDS
    && (p == NULL <==> n == 0 || !Room(Blocks(t), total))
    && (p == NULL ==> t' == t && ls' == ls && m' == m)
    && (p != NULL ==> p >= HEADER_SIZE && Served(t, ls, t', p - HEADER_SIZE, total)
                      && LivePointer(t', m', p) && m'[Ix(p - 4)] == p - HEADER_SIZE)
    && LiveKept(t, m, m')
  }

  lemma Refused(t: Tree, ls: seq<seq<nat>>, m: seq<Word>, n: nat, total: nat)
    requires Arena(t) && |m| == WORDS && (n == 0 || !Room(Blocks(t), total))
    ensures Allocates(t, ls, m, t, ls, m, NULL, n, total)
  {
    hide Room;
  }

  lemma RefusedMeans(t: Tree, ls: seq<seq<nat>>, m: seq<Word>, t': Tree, ls': seq<seq<nat>>, m': seq<Word>, n: nat,
          total: nat)
    requires Allocates(t, ls, m, t', ls', m', NULL, n, total)
    ensures Arena(t) && |m| == WORDS && (n == 0 || !Room(Blocks(t), total)) && t' == t && ls' == ls && m' == m
  {
  }

  lemma Granted(t: Tree, ls: seq<seq<nat>>, m: seq<Word>, t': Tree, ls': seq<seq<nat>>, m': seq<Word>, b: nat, n: nat,
          total: nat)
    requires Arena(t) && Arena(t') && |m| == |m'| == WORDS && n > 0 && Room(Blocks(t), total)
    requires Served(t, ls, t', b, total) && LiveKept(t, m, m')
    requires LivePointer(t', m', b + HEADER_SIZE) && m'[Ix(b + HEADER_SIZE - 4)] == b
    ensures Allocates(t, ls, m, t', ls', m', b + HEADER_SIZE, n, total)
  {
    hide Room; hide Served; hide LiveKept; hide LivePointer;
  }

  lemma ServedBy(t: Tree, ls: seq<seq<nat>>, t': Tree, b: nat, j: nat, k: nat, total: nat)
    requires OrderFor(k, total) && Carved(t, t', b, k) && |ls| == MAX_BLOCK_SHIFT + 1
    requires k <= j <= MAX_BLOCK_SHIFT && ls[j] != [] && b + Pow2(k) == ls[j][0] + Pow2(j)
    requires forall i: nat :: k <= i < j ==> ls[i] == []
    ensures Served(t, ls, t', b, total)
  {
  }

  lemma CarvedByNormalForm(t: Tree, t': Tree, f: nat, j: nat, b: nat, k: nat)
    requires Arena(t) && Arena(t') && Canonical(t) && Canonical(t')
    requires Block(t, f) == Some(Leaf(j, false)) && k <= j && f <= b && b + Pow2(k) == f + Pow2(j)
    requires Subtree(t', b, k) && Blocks(t') == Blocks(t)[b := k]
    ensures Carved(t, t', b, k)
  {
    ArenaFacts();
    SubtreeAligned(t', b, k);
    SubtreeFacts(t', b, k);
    InFreeBlock(t, MAX_BLOCK_SHIFT, HEAP_START, f, j, b, k);
    ReserveSpec(t, MAX_BLOCK_SHIFT, HEAP_START, b, k);
    NormalForm(t', Reserve(t, MAX_BLOCK_SHIFT, HEAP_START, b, k), MAX_BLOCK_SHIFT, HEAP_START);
  }

  lemma FoundRoom(t: Tree, f: nat, j: nat, k: nat, total: nat)
    requires Arena(t) && Block(t, f) == Some(Leaf(j, false)) && k <= j && OrderFor(k, total)
    ensures Room(Blocks(t), total)
  {
    ArenaFacts();
    FreeBlockIsRoom(t, MAX_BLOCK_SHIFT, HEAP_START, f, j, k);
  }

  lemma FreeIsListed(t: Tree, ls: seq<seq<nat>>, f: nat, j: nat)
    requires |ls| == MAX_BLOCK_SHIFT + 1 && Arena(t) && Listed(t, ls, {}) && Block(t, f) == Some(Leaf(j, false))
    ensures j <= MAX_BLOCK_SHIFT && ls[j] != []
  {
    assert f in ls[j];
  }

  /** With every list from order k up empty there is no room for a block of order k. */
  lemma NoRoom(heads: seq<Word>, m: seq<Word>, ls: seq<seq<nat>>, t: Tree, k: nat, total: nat)
    requires Agree(heads, m, ls, t, {}) && Canonical(t) && OrderFor(k, total)
    requires forall i: nat :: k <= i <= MAX_BLOCK_SHIFT ==> ls[i] == []
    ensures !Room(Blocks(t), total)
  {
    if k': nat, a: nat :| OrderFor(k', total) && RoomAt(Blocks(t), MAX_BLOCK_SHIFT, HEAP_START, k', a) {
      assert k' == k;
      ArenaFacts();
      var f, j := RoomIsFreeBlock(t, MAX_BLOCK_SHIFT, HEAP_START, k, a);
      FreeIsListed(t, ls, f, j);
    }
  }

  lemma {:induction false} OrderExists(total: nat, k: nat) returns (k': nat)
    requires MIN_BLOCK_SHIFT <= k && forall j :: MIN_BLOCK_SHIFT <= j < k ==> Pow2(j) < total
    ensures OrderFor(k', total)
    decreases total - Pow2(k)
  {
    if total <= Pow2(k) { k' := k; } else { k' := OrderExists(total, k + 1); }
  }

  /**
   There is no room for want of a region only: every total has its order, and every aligned region of that order
   meets a live block.
   */
  lemma NoRoomMeans(live: map<nat, nat>, total: nat) returns (k: nat)
    ensures OrderFor(k, total)
    ensures !Room(live, total) <==> forall a: nat :: !RoomAt(live, MAX_BLOCK_SHIFT, HEAP_START, k, a)
  {
    k := OrderExists(total, MIN_BLOCK_SHIFT);
    OneOrder(total, k);
    hide RoomAt;
  }

  lemma OneOrder(total: nat, k: nat)
    requires OrderFor(k, total)
    ensures forall k': nat :: OrderFor(k', total) ==> k' == k
  {
  }

  lemma OrderHolds(k: nat, total: nat)
    requires OrderFor(k, total)
    ensures MIN_BLOCK_SHIFT <= k && total <= Pow2(k)
  {
  }

  lemma TooLarge(live: map<nat, nat>, total: nat)
    requires total > 0x40_0000
    ensures !Room(live, total)
  {
    ArenaSize();
    forall k: nat | OrderFor(k, total) ensures k > MAX_BLOCK_SHIFT {
      if k <= MAX_BLOCK_SHIFT { Pow2Mono(k, MAX_BLOCK_SHIFT); }
    }
    forall k: nat, a: nat | OrderFor(k, total) ensures !RoomAt(live, MAX_BLOCK_SHIFT, HEAP_START, k, a) {
      Pow2Mono(MAX_BLOCK_SHIFT + 1, k);
    }
  }

  lemma TwoEntries(l: seq<nat>)
    requires |l| >= 2 && forall i: nat, j: nat :: i < j < |l| ==> l[i] != l[j]
    ensures l[0] != l[1]
  {
  }

  lemma OneEntry(l: seq<nat>, x: nat)
    requires l != [] && (forall i: nat, j: nat :: i < j < |l| ==> l[i] != l[j]) && forall i: nat :: i < |l| ==>
        l[i] == x
    ensures l == [x]
  {
    if |l| >= 2 { TwoEntries(l); }
  }

  /** A heap without live blocks is the one free block it started with, alone on its list. */
  lemma AllFreed(heads: seq<Word>, m: seq<Word>, ls: seq<seq<nat>>, t: Tree)
    requires Agree(heads, m, ls, t, {}) && Canonical(t) && Blocks(t) == map[]
    ensures t == Free && |ls| == MAX_BLOCK_SHIFT + 1 && ls[MAX_BLOCK_SHIFT] == [HEAP_START]
    ensures forall o: nat :: o < MAX_BLOCK_SHIFT ==> ls[o] == []
  {
    NothingLive(t, MAX_BLOCK_SHIFT, HEAP_START);
    forall o: nat, i: nat | o <= MAX_BLOCK_SHIFT && i < |ls[o]| ensures o == MAX_BLOCK_SHIFT && ls[o][i] == HEAP_START {
      assert Block(t, ls[o][i]) == Some(Leaf(o, false));
    }
    FreeIsListed(t, ls, HEAP_START, MAX_BLOCK_SHIFT);
    var l := ls[MAX_BLOCK_SHIFT];
    OneEntry(l, HEAP_START);
  }

  /** The address a is past the header of the live block b and inside it. */
  ghost predicate InPayload(t: Tree, b: nat, a: nat)
    requires Arena(t)
  {
    b in Blocks(t) && b + HEADER_SIZE <= a < b + Pow2(Blocks(t)[b])
  }

  /** The payload word at address a: inside a live block, past its header. */
  ghost predicate Payload(t: Tree, a: nat)
    requires Arena(t)
  {
    a % 4 == 0 && exists b: nat :: InPayload(t, b, a)
  }

  /** A pointer kfree accepts: the word before it holds the address of a live block. */
  ghost predicate LivePointer(t: Tree, m: seq<Word>, p: nat)
    requires Arena(t) && |m| == WORDS
  {
    p % 4 == 0 && HEAP_START + 4 <= p <= HEAP_START + 0x40_0000 && m[Ix(p - 4)] in Blocks(t)
  }

  /** The pointer handed out for a block is one kfree accepts. */
  lemma PlainPointer(heads: seq<Word>, m: seq<Word>, ls: seq<seq<nat>>, t: Tree, b: nat)
    requires Agree(heads, m, ls, t, {}) && b in Blocks(t)
    ensures LivePointer(t, m, b + HEADER_SIZE) && m[Ix(b + HEADER_SIZE - 4)] == b
  {
    hide At; hide LiveByte; hide Sized; hide LiveMap; hide Has; hide Put;
    BlocksAt(t, b);
    BlockFacts(t, b);
    HeaderFacts(heads, m, ls, t, {}, b);
    WordBefore(b);
  }

  lemma WordBefore(b: nat)
    requires b % 32 == 0 && HEAP_START <= b
    ensures (b + HEADER_SIZE) % 4 == 0 && Ix(b + HEADER_SIZE - 4) == Ix(b) + 3
  {
    var q := b / 32;
    Quarter(8 * q + 4);
    Quarter(8 * q - HEAP_START / 4);
    Quarter(8 * q - HEAP_START / 4 + 3);
  }

  lemma Quarter(k: int)
    ensures (4 * k) % 4 == 0 && (4 * k) / 4 == k
  {
  }

  /** The request size rounded up to a multiple of 8. */
  function Rounded(n: nat): nat {
    AndNot(n + 7, 7)
  }

  lemma RoundedFacts(n: nat)
    ensures n <= Rounded(n) < n + 8 && Rounded(n) % 8 == 0
  {
    assert Pow2(3) == 8;
    MaskLow(n + 7, 3);
    AlignedIsMultiple(Rounded(n), 3);
  }

  /** The least power of two that is at least n. */
  ghost predicate LeastPower(j: nat, n: nat) {
    n <= Pow2(j) && forall i: nat :: i < j ==> Pow2(i) < n
  }

  lemma AtLeastFour(j: nat, n: nat)
    requires LeastPower(j, n) && n >= 4
    ensures j >= 2
  {
    if j < 2 { Pow2Mono(j, 1); }
  }

  lemma AlignUp(x: nat, j: nat)
    ensures var a := AndNot(x + 4 + Pow2(j) - 1, Pow2(j) - 1);
      Aligned(a, j) && x + 4 <= a && a < x + Pow2(j) + 4
  {
    MaskLow(x + 4 + Pow2(j) - 1, j);
  }

  lemma Aligned4(a: nat, j: nat)
    requires j >= 2 && Aligned(a, j)
    ensures a % 4 == 0
  {
    AlignedDown(a, 2, j);
    assert Aligned(a / 2, 1);
  }

  /** An aligned allocation: pointer p, aligned to 2^j, with size bytes inside the fresh block b it leads back to. */
  ghost predicate AlignedIn(t: Tree, t': Tree, m': seq<Word>, p: nat, b: nat, j: nat, size: nat) {
    && Arena(t) && Arena(t') && |m'| == WORDS && b !in Blocks(t) && b in Blocks(t') &&
       Blocks(t') == Blocks(t)[b := Blocks(t')[b]]
    && Aligned(p, j) && b + HEADER_SIZE + 4 <= p && p + size <= b + Pow2(Blocks(t')[b])
    && LivePointer(t', m', p) && m'[Ix(p - 4)] == b
  }

  /**
   The outcome of a request for size bytes aligned to the power of two 2^j: NULL exactly when the request kmalloc is
   given cannot be served, and then nothing changed; otherwise an aligned pointer into a fresh block that kfree
   finds from it.
   */
  ghost predicate AllocatesAligned(t: Tree, ls: seq<seq<nat>>, m: seq<Word>, t': Tree, ls': seq<seq<nat>>,
          m': seq<Word>, p: nat, size: nat, j: nat)
  {
    && Arena(t) && Arena(t') && |m| == |m'| == WORDS
    && (p == NULL <==> size == 0 || !Room(Blocks(t), Rounded(size + Pow2(j) + 4) + HEADER_SIZE))
    && (p == NULL ==> t' == t && ls' == ls && m' == m)
    && (p != NULL ==> exists b: nat :: AlignedIn(t, t', m', p, b, j, size))
    && LiveKept(t, m, m')
  }

  lemma AlignedRefused(t: Tree, ls: seq<seq<nat>>, m: seq<Word>, size: nat, j: nat)
    requires Arena(t) && |m| == WORDS && (size == 0 || !Room(Blocks(t), Rounded(size + Pow2(j) + 4) + HEADER_SIZE))
    ensures AllocatesAligned(t, ls, m, t, ls, m, NULL, size, j)
  {
    hide Room; hide Rounded; hide Pow2;
  }

  /** Storing the back pointer in the block kmalloc gave makes the aligned pointer one that kfree accepts. */
  lemma AlignedGranted(t: Tree, ls: seq<seq<nat>>, m: seq<Word>, t': Tree, ls': seq<seq<nat>>, m': seq<Word>, raw: nat,
          size: nat, j: nat, wanted: nat, a: nat)
    returns (b: Word)
    requires size > 0 && LeastPower(j, wanted) && wanted >= 4 && raw != NULL
    requires Allocates(t, ls, m, t', ls', m', raw, size + Pow2(j) + 4, Rounded(size + Pow2(j) + 4) + HEADER_SIZE)
    requires a == AndNot(raw + 4 + Pow2(j) - 1, Pow2(j) - 1)
    ensures b == raw - HEADER_SIZE && a >= 4 && (a - 4) % 4 == 0 && Arena(t') && InPayload(t', b, a - 4) &&
        Payload(t', a - 4) && HEAP_START <= a - 4 < HEAP_START + 0x40_0000
    ensures AllocatesAligned(t, ls, m, t', ls', m'[Ix(a - 4) := b], a, size, j)
  {
    hide Pow2; hide AndNot; hide Rounded; hide Room; hide LiveKept; hide AlignedIn; hide Served; hide LeastPower;
    hide LiveMap;
    b := raw - HEADER_SIZE;
    var k := AlignedFits(t, ls, t', b, size, j, wanted, a);
    Aligned4(a, j);
    FreshStore(t, t', m, m', b, k, a - 4, b);
    AlignedInBy(t, t', m'[Ix(a - 4) := b], a, b, j, size, k);
  }

  /** The same store keeps lists and headers right. */
  lemma BackPointerAgrees(heads: seq<Word>, t: Tree, ls: seq<seq<nat>>, m: seq<Word>, t': Tree, ls': seq<seq<nat>>,
          m': seq<Word>, raw: nat, size: nat, j: nat, wanted: nat, a: nat)
    returns (b: Word)
    requires Agree(heads, m', ls', t', {}) && size > 0 && LeastPower(j, wanted) && wanted >= 4 && raw != NULL
    requires Allocates(t, ls, m, t', ls', m', raw, size + Pow2(j) + 4, Rounded(size + Pow2(j) + 4) + HEADER_SIZE)
    requires a == AndNot(raw + 4 + Pow2(j) - 1, Pow2(j) - 1)
    ensures b == raw - HEADER_SIZE && a >= 4 && HEAP_START <= a - 4 < HEAP_START + 0x40_0000 && |m'| == WORDS
    ensures Agree(heads, m'[Ix(a - 4) := b], ls', t', {}) &&
        AllocatesAligned(t, ls, m, t', ls', m'[Ix(a - 4) := b], a, size, j)
  {
    hide Agree; hide AndNot; hide Rounded; hide Pow2; hide LeastPower; hide Allocates; hide AllocatesAligned;
    hide InPayload;
    hide LiveMap; hide Sized;
    SizesOf(heads, m', ls', t');
    b := AlignedGranted(t, ls, m, t', ls', m', raw, size, j, wanted, a);
    StoreAgrees(heads, m', ls', t', a - 4, b);
  }

  lemma SizesOf(heads: seq<Word>, m: seq<Word>, ls: seq<seq<nat>>, t: Tree)
    requires Agree(heads, m, ls, t, {})
    ensures Arena(t) && |m| == WORDS
  {
  }

  lemma RefusedAligned(t: Tree, ls: seq<seq<nat>>, m: seq<Word>, t': Tree, ls': seq<seq<nat>>, m': seq<Word>, size: nat,
          j: nat)
    requires Allocates(t, ls, m, t', ls', m', NULL, size + Pow2(j) + 4, Rounded(size + Pow2(j) + 4) + HEADER_SIZE)
    ensures AllocatesAligned(t, ls, m, t', ls', m', NULL, size, j)
  {
    hide Allocates; hide Room; hide Rounded; hide Pow2; hide AllocatesAligned; hide LiveMap; hide Sized;
    RefusedMeans(t, ls, m, t', ls', m', size + Pow2(j) + 4, Rounded(size + Pow2(j) + 4) + HEADER_SIZE);
    AlignedRefused(t, ls, m, size, j);
  }

  /** Storing in a block carved out of free space touches no word that was live before. */
  lemma FreshStore(t: Tree, t': Tree, m: seq<Word>, m': seq<Word>, b: nat, k: nat, a: nat, v: Word)
    requires Carved(t, t', b, k) && LiveKept(t, m, m') && b <= a < b + Pow2(k) && a % 4 == 0
    requires HEAP_START <= a < HEAP_START + 0x40_0000
    ensures LiveKept(t, m, m'[Ix(a) := v])
  {
    hide FreeAround; hide Reserve; hide LiveMap; hide LiveByte;
    assert !IsLive(t, a) by {
      ArenaFacts();
      CarvedAligned(t, t', b, k);
      FreeAroundDead(t, MAX_BLOCK_SHIFT, HEAP_START, b, k, a);
    }
  }

  /** The aligned pointer, its back pointer word and its size bytes fit in the block that serves the request. */
  lemma AlignedFits(t: Tree, ls: seq<seq<nat>>, t': Tree, b: nat, size: nat, j: nat, wanted: nat, a: nat)
    returns (k: nat)
    requires Served(t, ls, t', b, Rounded(size + Pow2(j) + 4) + HEADER_SIZE) && LeastPower(j, wanted) && wanted >= 4
    requires a == AndNot(b + HEADER_SIZE + 4 + Pow2(j) - 1, Pow2(j) - 1)
    ensures Carved(t, t', b, k) && b in Blocks(t') && Blocks(t')[b] == k
    ensures Aligned(a, j) && j >= 2 && b + HEADER_SIZE + 4 <= a && a + size <= b + Pow2(k) && a < b + Pow2(k)
    ensures HEAP_START <= b && b + Pow2(k) <= HEAP_START + 0x40_0000
  {
    hide AndNot; hide Aligned; hide Pow2; hide Rounded; hide LeastPower; hide OrderFor; hide Carved; hide FirstFit;
    hide Has; hide At; hide LiveMap; hide Sized;
    k :| OrderFor(k, Rounded(size + Pow2(j) + 4) + HEADER_SIZE) && Carved(t, t', b, k) && FirstFit(ls, b, k);
    AlignUp(b + HEADER_SIZE, j);
    AtLeastFour(j, wanted);
    RoundedFacts(size + Pow2(j) + 4);
    OrderHolds(k, Rounded(size + Pow2(j) + 4) + HEADER_SIZE);
    CarvedRange(t, t', b, k);
  }

  lemma CarvedRange(t: Tree, t': Tree, b: nat, k: nat)
    requires Carved(t, t', b, k)
    ensures b in Blocks(t') && Blocks(t')[b] == k && HEAP_START <= b && b + Pow2(k) <= HEAP_START + 0x40_0000
  {
    CarvedAligned(t, t', b, k);
    BlockFacts(t', b);
  }

  lemma AlignedInBy(t: Tree, t': Tree, m': seq<Word>, p: nat, b: nat, j: nat, size: nat, k: nat)
    requires Carved(t, t', b, k) && b in Blocks(t') && Blocks(t')[b] == k && |m'| == WORDS
    requires Aligned(p, j) && p % 4 == 0 && b + HEADER_SIZE + 4 <= p && p + size <= b + Pow2(k)
    requires HEAP_START <= p - 4 && p <= HEAP_START + 0x40_0000 && m'[Ix(p - 4)] == b
    ensures AlignedIn(t, t', m', p, b, j, size)
  {
  }

  lemma CarvedAligned(t: Tree, t': Tree, b: nat, k: nat)
    requires Carved(t, t', b, k)
    ensures Aligned(b, k) && b in Blocks(t') && Blocks(t')[b] == k && Block(t', b) == Some(Leaf(k, true))
  {
    BlocksAt(t', b);
    BlockFacts(t', b);
    SubtreeAligned(t', b, k);
  }

  /** A word that is no block's header word may change. */
  lemma OtherWord(heads: seq<Word>, m: seq<Word>, ls: seq<seq<nat>>, t: Tree, w: nat, v: Word)
    requires Agree(heads, m, ls, t, {}) && w < WORDS
    requires forall y: nat :: Block(t, y).Some? ==> !(Ix(y) <= w < Ix(y) + 4)
    ensures Agree(heads, m[w := v], ls, t, {})
  {
    hide LiveByte; hide Sized; hide At;
    var m' := m[w := v];
    forall y: nat | Block(t, y).Some? ensures Header(m', y, Block(t, y).value) {
      assert Header(m, y, Block(t, y).value);
    }
    forall o: nat, i: nat | o <= MAX_BLOCK_SHIFT && i < |ls[o]| ensures Link(m', ls[o], i) {
      assert Link(m, ls[o], i) && Block(t, ls[o][i]).Some?;
    }
  }

  /** Whatever a client stores in its block, the allocator's state still agrees with the memory. */
  lemma StoreAgrees(heads: seq<Word>, m: seq<Word>, ls: seq<seq<nat>>, t: Tree, a: nat, v: Word)
    requires Agree(heads, m, ls, t, {}) && Payload(t, a)
    ensures HEAP_START <= a < HEAP_START + 0x40_0000 && Agree(heads, m[Ix(a) := v], ls, t, {})
  {
    var b: nat :| InPayload(t, b, a);
    BlocksAt(t, b);
    BlockFacts(t, b);
    hide Agree; hide LiveByte; hide Sized; hide At; hide LiveMap;
    forall y: nat | Block(t, y).Some? ensures !(Ix(y) <= Ix(a) < Ix(y) + 4) { HeaderApart(t, b, y, a); }
    OtherWord(heads, m, ls, t, Ix(a), v);
  }

  /** A payload word of one block is no header word of any. */
  lemma HeaderApart(t: Tree, b: nat, y: nat, a: nat)
    requires Arena(t) && Block(t, b).Some? && Block(t, y).Some? && a % 4 == 0
    requires b + HEADER_SIZE <= a < b + Pow2(Block(t, b).value.order)
    ensures !(Ix(y) <= Ix(a) < Ix(y) + 4)
  {
    hide LiveByte; hide Sized; hide At;
    BlockFacts(t, b);
    BlockFacts(t, y);
    OnlyBlock(t, b);
    IxFacts(y);
  }
}
