/**
 kcalloc: an allocation cleared byte by byte.
 */
module Calloc {
  import opened Basics
  import opened Bits
  import opened BuddyTree
  import opened Heap
  import opened HeapRequests
  import opened HeapState

  /** Byte i of a little-endian word. */
  function ByteOf(v: Word, i: nat): (b: nat)
    requires i < 4
    ensures b < 256
  {
    if i == 0 then v % 256
    else if i == 1 then v / 256 % 256
    else if i == 2 then v / 0x1_0000 % 256
    else v / 0x100_0000
  }

  function Cleared(v: Word, i: nat): Word
    requires i < 4
  {
    if i == 0 then v - ByteOf(v, 0)
    else if i == 1 then v - ByteOf(v, 1) * 256
    else if i == 2 then v - ByteOf(v, 2) * 0x1_0000
    else v - ByteOf(v, 3) * 0x100_0000
  }

  function Word4(b0: nat, b1: nat, b2: nat, b3: nat): Word
    requires b0 < 256 && b1 < 256 && b2 < 256 && b3 < 256
  {
    b0 + 256 * b1 + 0x1_0000 * b2 + 0x100_0000 * b3
  }

  lemma Word4Bytes(b0: nat, b1: nat, b2: nat, b3: nat)
    requires b0 < 256 && b1 < 256 && b2 < 256 && b3 < 256
    ensures var v := Word4(b0, b1, b2, b3);
      ByteOf(v, 0) == b0 && ByteOf(v, 1) == b1 && ByteOf(v, 2) == b2 && ByteOf(v, 3) == b3
  {
    var v := Word4(b0, b1, b2, b3);
    assert v / 256 == b1 + 256 * b2 + 0x1_0000 * b3;
    assert v / 0x1_0000 == b2 + 256 * b3;
  }

  lemma WordIsBytes(v: Word)
    ensures v == Word4(ByteOf(v, 0), ByteOf(v, 1), ByteOf(v, 2), ByteOf(v, 3))
  {
    var a := v / 256;
    var b := v / 0x1_0000;
    assert b == a / 256 && v / 0x100_0000 == b / 256;
  }

  lemma ClearsOne(v: Word, i: nat, j: nat)
    requires i < 4 && j < 4
    ensures ByteOf(Cleared(v, i), j) == if j == i then 0 else ByteOf(v, j)
  {
    WordIsBytes(v);
    var b0, b1, b2, b3 := ByteOf(v, 0), ByteOf(v, 1), ByteOf(v, 2), ByteOf(v, 3);
    hide ByteOf;
    if i == 0 { Word4Bytes(0, b1, b2, b3); }
    else if i == 1 { Word4Bytes(b0, 0, b2, b3); }
    else if i == 2 { Word4Bytes(b0, b1, 0, b3); }
    else { Word4Bytes(b0, b1, b2, 0); }
  }

  predicate InArena(x: nat) {
    HEAP_START <= x < HEAP_START + 0x40_0000
  }

  /** The byte at an address. */
  function ByteAt(m: seq<Word>, x: nat): (b: nat)
    requires |m| == WORDS && InArena(x)
  {
    ByteOf(m[Ix(x)], x % 4)
  }

  /** m' is m with n bytes from a on set to zero, and no other byte different. */
  ghost predicate Zeroed(m: seq<Word>, m': seq<Word>, a: nat, n: nat) {
    && |m| == |m'| == WORDS
    && forall x: nat :: InArena(x) ==> ByteAt(m', x) == if a <= x < a + n then 0 else ByteAt(m, x)
  }

  lemma ZeroedOneMore(m0: seq<Word>, m: seq<Word>, a: nat, i: nat)
    requires Zeroed(m0, m, a, i) && InArena(a + i)
    ensures Zeroed(m0, m[Ix(a + i) := Cleared(m[Ix(a + i)], (a + i) % 4)], a, i + 1)
  {
    var y := a + i;
    var v := m[Ix(y)];
    var m' := m[Ix(y) := Cleared(v, y % 4)];
    forall x: nat | InArena(x) ensures ByteAt(m', x) == if a <= x < a + (i + 1) then 0 else ByteAt(m0, x) {
      ClearsOne(v, y % 4, x % 4);
      assert ByteAt(m, x) == if a <= x < a + i then 0 else ByteAt(m0, x);
      hide ByteOf; hide Cleared;
      if Ix(x) == Ix(y) && x % 4 == y % 4 { assert x == y; }
    }
  }

  /** The n bytes from a on lie in the payload of the live block b. */
  ghost predicate WithinBlock(t: Tree, b: nat, a: nat, n: nat)
    requires Arena(t)
  {
    b in Blocks(t) && b + HEADER_SIZE <= a && a + n <= b + Pow2(Blocks(t)[b])
  }

  lemma PayloadWord(t: Tree, b: nat, a: nat, n: nat, i: nat)
    requires Arena(t) && WithinBlock(t, b, a, n) && i < n && a % 4 == 0
    ensures InArena(a + i) && Payload(t, a + i - (a + i) % 4) && Ix(a + i - (a + i) % 4) == Ix(a + i)
  {
    BlocksAt(t, b);
    BlockFacts(t, b);
    assert InPayload(t, b, a + i - (a + i) % 4);
  }

  lemma ServedHolds(t: Tree, ls: seq<seq<nat>>, t': Tree, b: nat, total: nat)
    requires Served(t, ls, t', b, total)
    ensures Arena(t') && b in Blocks(t') && total <= Pow2(Blocks(t')[b])
  {
    var k: nat :| OrderFor(k, total) && Carved(t, t', b, k) && FirstFit(ls, b, k);
    hide FirstFit; hide Reserve; hide FreeAround;
    OrderHolds(k, total);
  }

  /** A fresh allocation lies in the payload of its block. */
  lemma FreshWithin(t: Tree, ls: seq<seq<nat>>, m: seq<Word>, t': Tree, ls': seq<seq<nat>>, m': seq<Word>, p: nat,
          n: nat)
    requires Allocates(t, ls, m, t', ls', m', p, n, Rounded(n) + HEADER_SIZE) && p != NULL
    ensures Arena(t') && p >= HEADER_SIZE && p % 4 == 0 && WithinBlock(t', p - HEADER_SIZE, p, n)
  {
    hide LiveKept; hide Served; hide Room; hide Pow2; hide Rounded; hide LiveMap; hide Sized;
    RoundedFacts(n);
    ServedHolds(t, ls, t', p - HEADER_SIZE, Rounded(n) + HEADER_SIZE);
  }

  method ZeroBytes(h: BuddyHeap, a: nat, n: nat, ghost b: nat)
    requires h.Valid() && Arena(h.tree) && WithinBlock(h.tree, b, a, n) && a % 4 == 0
    modifies h.mem
    ensures h.Valid() && h.tree == old(h.tree) && Zeroed(old(h.mem[..]), h.mem[..], a, n)
  {
    assert |h.mem[..]| == WORDS;
    hide Agree; hide Sized; hide Canonical; hide LiveMap; hide Payload; hide WithinBlock; hide Zeroed; hide ByteOf;
    hide Cleared;
    hide Pow2;
    ghost var m0 := h.mem[..];
    ZeroedNone(m0, a);
    var i := 0;
    while i < n
      invariant i <= n && h.Valid() && Zeroed(m0, h.mem[..], a, i)
    {
      PayloadWord(h.tree, b, a, n, i);
      ZeroedOneMore(m0, h.mem[..], a, i);
      var w := a + i - (a + i) % 4;
      h.Store(w, Cleared(h.mem[Ix(w)], (a + i) % 4));
      i := i + 1;
    }
  }

  lemma ZeroedNone(m: seq<Word>, a: nat)
    requires |m| == WORDS
    ensures Zeroed(m, m, a, 0)
  {
  }

  /**
   kcalloc fails as kmalloc of the product would, also when the product does not fit a word; otherwise exactly the
   bytes asked for are zero, they lie in the payload of the block that serves the request, and no other byte of
   memory m, as kmalloc left it, changes.
   */
  method Kcalloc(h: BuddyHeap, nmemb: nat, size: nat) returns (p: nat, ghost m: seq<Word>)
    requires h.Valid() && nmemb <= SIZE_MAX && size <= SIZE_MAX
    modifies h, h.freeLists, h.mem
    ensures h.Valid()
    ensures Allocates(old(h.tree), old(h.lists), old(h.mem[..]), h.tree, h.lists, m, p, nmemb * size,
        Rounded(nmemb * size) + HEADER_SIZE)
    ensures p == NULL ==> h.mem[..] == m
    ensures p != NULL ==>
      && p >= HEADER_SIZE && Arena(h.tree) && WithinBlock(h.tree, p - HEADER_SIZE, p, nmemb * size)
      && Zeroed(m, h.mem[..], p, nmemb * size)
  {
    hide Canonical; hide Agree; hide Allocates; hide Rounded; hide Zeroed; hide WithinBlock;
    if nmemb == 0 || size == 0 || size > SIZE_MAX / nmemb {
      m := h.mem[..];
      Unserved(h, nmemb, size);
      return NULL, m;
    }
    Fits(nmemb, size);
    p, m := ClearedBlock(h, nmemb * size);
  }

  lemma Unserved(h: BuddyHeap, nmemb: nat, size: nat)
    requires h.Valid() && (nmemb == 0 || size == 0 || size > SIZE_MAX / nmemb)
    ensures Allocates(h.tree, h.lists, h.mem[..], h.tree, h.lists, h.mem[..], NULL, nmemb * size,
        Rounded(nmemb * size) + HEADER_SIZE)
  {
    assert Arena(h.tree) && |h.mem[..]| == WORDS;
    if nmemb > 0 && size > 0 { Overflows(nmemb, size); }
    var total := nmemb * size;
    hide Agree; hide Sized; hide Canonical; hide LiveMap; hide Room; hide Served; hide LiveKept; hide Rounded;
    hide Allocates;
    RoundedFacts(total);
    if total > 0 { TooLarge(Blocks(h.tree), Rounded(total) + HEADER_SIZE); }
    Refused(h.tree, h.lists, h.mem[..], total, Rounded(total) + HEADER_SIZE);
  }

  method ClearedBlock(h: BuddyHeap, total: nat) returns (p: nat, ghost m: seq<Word>)
    requires h.Valid() && total <= SIZE_MAX
    modifies h, h.freeLists, h.mem
    ensures h.Valid()
    ensures Allocates(old(h.tree), old(h.lists), old(h.mem[..]), h.tree, h.lists, m, p, total,
        Rounded(total) + HEADER_SIZE)
    ensures p == NULL ==> h.mem[..] == m
    ensures p != NULL ==>
      && p >= HEADER_SIZE && Arena(h.tree) && WithinBlock(h.tree, p - HEADER_SIZE, p, total) &&
         Zeroed(m, h.mem[..], p, total)
  {
    hide Canonical; hide Agree; hide Allocates; hide Rounded; hide Zeroed; hide WithinBlock; hide Sized;
    ghost var t, ls, m0 := h.tree, h.lists, h.mem[..];
    p := h.Kmalloc(total);
    m := h.mem[..];
    if p != NULL {
      FreshWithin(t, ls, m0, h.tree, h.lists, m, p, total);
      ZeroBytes(h, p, total, p - HEADER_SIZE);
    }
  }

  lemma Overflows(nmemb: nat, size: nat)
    requires nmemb > 0 && size > SIZE_MAX / nmemb
    ensures nmemb * size > SIZE_MAX
  {
    var q := SIZE_MAX / nmemb;
    assert SIZE_MAX < (q + 1) * nmemb;
    assert (q + 1) * nmemb <= size * nmemb;
  }

  lemma Fits(nmemb: nat, size: nat)
    requires nmemb > 0 && size <= SIZE_MAX / nmemb
    ensures nmemb * size <= SIZE_MAX
  {
    var q := SIZE_MAX / nmemb;
    assert q * nmemb <= SIZE_MAX;
    assert size * nmemb <= q * nmemb;
  }
}
