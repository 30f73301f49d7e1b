/**
 The division of the heap arena into buddy blocks, as a binary tree.

 A tree of order o at address b covers the 2^o bytes from b.  A leaf is one block, free or
 live; a Node is a block that was split into its two buddies.  The allocator keeps no such tree:
 it is the ghost state that its free lists and block headers are proved to agree with.
 */
module BuddyTree {
  import opened Basics
  import opened Bits

  const MIN_BLOCK_SHIFT := 5

  datatype Tree = Free | Live | Node(left: Tree, right: Tree)

  datatype Leaf = Leaf(order: nat, live: bool)

  /** No block is smaller than 2^MIN_BLOCK_SHIFT. */
  predicate Sized(t: Tree, o: nat) {
    o >= MIN_BLOCK_SHIFT && (t.Node? ==> o > MIN_BLOCK_SHIFT && Sized(t.left, o - 1) && Sized(t.right, o - 1))
  }

  /** The block that starts exactly at address a. */
  function At(t: Tree, o: nat, b: nat, a: nat): Option<Leaf>
    requires Sized(t, o)
  {
    match t
    case Free => if a == b then Some(Leaf(o, false)) else None
    case Live => if a == b then Some(Leaf(o, true)) else None
    case Node(l, r) =>
      var mid := b + Pow2(o - 1);
      if a < mid then At(l, o - 1, b, a) else At(r, o - 1, mid, a)
  }

  /** Whether the byte at address x lies in a live block. */
  predicate LiveByte(t: Tree, o: nat, b: nat, x: nat)
    requires Sized(t, o)
  {
    match t
    case Free => false
    case Live => b <= x < b + Pow2(o)
    case Node(l, r) =>
      var mid := b + Pow2(o - 1);
      if x < mid then LiveByte(l, o - 1, b, x) else LiveByte(r, o - 1, mid, x)
  }

  /** The start of the block holding the byte at address x. */
  function BlockOf(t: Tree, o: nat, b: nat, x: nat): nat
    requires Sized(t, o)
  {
    match t
    case Free => b
    case Live => b
    case Node(l, r) =>
      var mid := b + Pow2(o - 1);
      if x < mid then BlockOf(l, o - 1, b, x) else BlockOf(r, o - 1, mid, x)
  }

  /** Address a and order k name a subtree. */
  predicate Has(t: Tree, o: nat, b: nat, a: nat, k: nat)
    requires Sized(t, o)
  {
    if o == k then a == b
    else
      t.Node? &&
      var mid := b + Pow2(o - 1);
      if a < mid then Has(t.left, o - 1, b, a, k) else Has(t.right, o - 1, mid, a, k)
  }

  function Sub(t: Tree, o: nat, b: nat, a: nat, k: nat): Tree
    requires Sized(t, o) && Has(t, o, b, a, k)
  {
    if o == k then t
    else
      var mid := b + Pow2(o - 1);
      if a < mid then Sub(t.left, o - 1, b, a, k) else Sub(t.right, o - 1, mid, a, k)
  }

  /** The tree with the subtree at (a, k) replaced by s. */
  function Put(t: Tree, o: nat, b: nat, a: nat, k: nat, s: Tree): Tree
    requires Sized(t, o) && Has(t, o, b, a, k)
  {
    if o == k then s
    else
      var mid := b + Pow2(o - 1);
      if a < mid then Node(Put(t.left, o - 1, b, a, k, s), t.right)
      else Node(t.left, Put(t.right, o - 1, mid, a, k, s))
  }

  /** No two free buddies of equal order coexist. */
  predicate Canonical(t: Tree) {
    t.Node? ==> !(t.left.Free? && t.right.Free?) && Canonical(t.left) && Canonical(t.right)
  }

  /** The live blocks: address to order. */
  ghost function LiveMap(t: Tree, o: nat, b: nat): map<nat, nat>
    requires Sized(t, o)
  {
    match t
    case Free => map[]
    case Live => map[b := o]
    case Node(l, r) => LiveMap(l, o - 1, b) + LiveMap(r, o - 1, b + Pow2(o - 1))
  }

  // ---------------------------------------------------------------- blocks tile the arena

  lemma {:induction false} LeafRange(t: Tree, o: nat, b: nat, a: nat)
    requires Sized(t, o) && At(t, o, b, a).Some?
    ensures var k := At(t, o, b, a).value.order;
      MIN_BLOCK_SHIFT <= k <= o && b <= a && a + Pow2(k) <= b + Pow2(o)
  {
    if t.Node? {
      if a < b + Pow2(o - 1) { LeafRange(t.left, o - 1, b, a); }
      else { LeafRange(t.right, o - 1, b + Pow2(o - 1), a); }
    }
  }

  lemma {:induction false} HasRange(t: Tree, o: nat, b: nat, a: nat, k: nat)
    requires Sized(t, o) && Has(t, o, b, a, k)
    ensures MIN_BLOCK_SHIFT <= k <= o && b <= a && a + Pow2(k) <= b + Pow2(o)
    ensures Sized(Sub(t, o, b, a, k), k)
  {
    if o != k {
      if a < b + Pow2(o - 1) { HasRange(t.left, o - 1, b, a, k); }
      else { HasRange(t.right, o - 1, b + Pow2(o - 1), a, k); }
    }
  }

  lemma {:induction false} HasAligned(t: Tree, o: nat, b: nat, a: nat, k: nat)
    requires Sized(t, o) && Aligned(b, o) && Has(t, o, b, a, k)
    ensures Aligned(a, k)
  {
    if o != k {
      AlignedHalves(b, o);
      if a < b + Pow2(o - 1) { HasAligned(t.left, o - 1, b, a, k); }
      else { HasAligned(t.right, o - 1, b + Pow2(o - 1), a, k); }
    }
  }

  /** A block is a leaf subtree, and the other way round. */
  lemma {:induction false} LeafIsSub(t: Tree, o: nat, b: nat, a: nat, k: nat, live: bool)
    requires Sized(t, o)
    ensures At(t, o, b, a) == Some(Leaf(k, live)) <==>
      Has(t, o, b, a, k) && Sub(t, o, b, a, k) == if live then Live else Free
  {
    if t.Node? {
      var mid := b + Pow2(o - 1);
      if a < mid {
        LeafIsSub(t.left, o - 1, b, a, k, live);
        if At(t.left, o - 1, b, a).Some? { LeafRange(t.left, o - 1, b, a); }
      } else {
        LeafIsSub(t.right, o - 1, mid, a, k, live);
        if At(t.right, o - 1, mid, a).Some? { LeafRange(t.right, o - 1, mid, a); }
      }
    }
  }

  /** Every byte lies in exactly one block, and that block's liveness is the byte's. */
  lemma {:induction false} Tiling(t: Tree, o: nat, b: nat, x: nat)
    requires Sized(t, o) && b <= x < b + Pow2(o)
    ensures var s := BlockOf(t, o, b, x);
      && At(t, o, b, s).Some? && s <= x < s + Pow2(At(t, o, b, s).value.order)
      && LiveByte(t, o, b, x) == At(t, o, b, s).value.live
    ensures forall a: nat :: At(t, o, b, a).Some? && a <= x < a + Pow2(At(t, o, b, a).value.order) ==>
        a == BlockOf(t, o, b, x)
  {
    if t.Node? {
      var mid := b + Pow2(o - 1);
      if x < mid { Tiling(t.left, o - 1, b, x); } else { Tiling(t.right, o - 1, mid, x); }
      var s := BlockOf(t, o, b, x);
      LeafRange(if x < mid then t.left else t.right, o - 1, if x < mid then b else mid, s);
      forall a: nat | At(t, o, b, a).Some? && a <= x < a + Pow2(At(t, o, b, a).value.order)
        ensures a == s
      {
        if a < mid { LeafRange(t.left, o - 1, b, a); } else { LeafRange(t.right, o - 1, mid, a); }
      }
    }
  }

  // ---------------------------------------------------------------- replacing a subtree

  lemma {:induction false} PutSized(t: Tree, o: nat, b: nat, a: nat, k: nat, s: Tree)
    requires Sized(t, o) && Has(t, o, b, a, k) && Sized(s, k)
    ensures Sized(Put(t, o, b, a, k, s), o)
    ensures Has(Put(t, o, b, a, k, s), o, b, a, k) && Sub(Put(t, o, b, a, k, s), o, b, a, k) == s
  {
    HasRange(t, o, b, a, k);
    if o != k {
      if a < b + Pow2(o - 1) { PutSized(t.left, o - 1, b, a, k, s); }
      else { PutSized(t.right, o - 1, b + Pow2(o - 1), a, k, s); }
    }
  }

  /** Replacing a subtree changes the blocks inside its range only. */
  lemma {:induction false} PutAt(t: Tree, o: nat, b: nat, a: nat, k: nat, s: Tree, x: nat)
    requires Sized(t, o) && Has(t, o, b, a, k) && Sized(s, k)
    ensures Sized(Put(t, o, b, a, k, s), o)
    ensures At(Put(t, o, b, a, k, s), o, b, x) == if a <= x < a + Pow2(k) then At(s, k, a, x) else At(t, o, b, x)
    ensures LiveByte(Put(t, o, b, a, k, s), o, b, x) == if a <= x < a + Pow2(k) then LiveByte(s, k, a, x)
        else LiveByte(t, o, b, x)
  {
    PutSized(t, o, b, a, k, s);
    HasRange(t, o, b, a, k);
    if o == k {
      if x < b || x >= b + Pow2(o) { Outside(s, o, b, x); Outside(t, o, b, x); }
    } else {
      var mid := b + Pow2(o - 1);
      if a < mid { HasRange(t.left, o - 1, b, a, k); PutAt(t.left, o - 1, b, a, k, s, x); }
      else { HasRange(t.right, o - 1, mid, a, k); PutAt(t.right, o - 1, mid, a, k, s, x); }
    }
  }

  lemma {:induction false} Outside(t: Tree, o: nat, b: nat, x: nat)
    requires Sized(t, o) && !(b <= x < b + Pow2(o))
    ensures At(t, o, b, x) == None && !LiveByte(t, o, b, x)
  {
    if t.Node? {
      if x < b + Pow2(o - 1) { Outside(t.left, o - 1, b, x); } else { Outside(t.right, o - 1, b + Pow2(o - 1), x); }
    }
  }

  /** Blocks inside a subtree are the subtree's own blocks. */
  lemma {:induction false} SubAt(t: Tree, o: nat, b: nat, a: nat, k: nat, x: nat)
    requires Sized(t, o) && Has(t, o, b, a, k) && a <= x < a + Pow2(k)
    ensures Sized(Sub(t, o, b, a, k), k)
    ensures At(t, o, b, x) == At(Sub(t, o, b, a, k), k, a, x)
    ensures LiveByte(t, o, b, x) == LiveByte(Sub(t, o, b, a, k), k, a, x)
  {
    if o != k {
      var mid := b + Pow2(o - 1);
      if a < mid { HasRange(t.left, o - 1, b, a, k); SubAt(t.left, o - 1, b, a, k, x); }
      else { HasRange(t.right, o - 1, mid, a, k); SubAt(t.right, o - 1, mid, a, k, x); }
    }
  }

  lemma {:induction false} PutPut(t: Tree, o: nat, b: nat, a: nat, k: nat, s: Tree, s': Tree)
    requires Sized(t, o) && Has(t, o, b, a, k) && Sized(s, k)
    ensures Sized(Put(t, o, b, a, k, s), o) && Has(Put(t, o, b, a, k, s), o, b, a, k)
    ensures Put(Put(t, o, b, a, k, s), o, b, a, k, s') == Put(t, o, b, a, k, s')
  {
    PutSized(t, o, b, a, k, s);
    if o != k {
      if a < b + Pow2(o - 1) { PutPut(t.left, o - 1, b, a, k, s, s'); }
      else { PutPut(t.right, o - 1, b + Pow2(o - 1), a, k, s, s'); }
    }
  }

  lemma {:induction false} PutSame(t: Tree, o: nat, b: nat, a: nat, k: nat)
    requires Sized(t, o) && Has(t, o, b, a, k)
    ensures Put(t, o, b, a, k, Sub(t, o, b, a, k)) == t
  {
    if o != k {
      if a < b + Pow2(o - 1) { PutSame(t.left, o - 1, b, a, k); }
      else { PutSame(t.right, o - 1, b + Pow2(o - 1), a, k); }
    }
  }

  // ---------------------------------------------------------------- buddies

  /** The start of the node that the subtree (a, k) is a child of. */
  function Parent(t: Tree, o: nat, b: nat, a: nat, k: nat): nat
    requires Sized(t, o) && Has(t, o, b, a, k) && k < o
  {
    var mid := b + Pow2(o - 1);
    if o == k + 1 then b
    else if a < mid then Parent(t.left, o - 1, b, a, k) else Parent(t.right, o - 1, mid, a, k)
  }

  /** The start of the other child. */
  function Buddy(t: Tree, o: nat, b: nat, a: nat, k: nat): nat
    requires Sized(t, o) && Has(t, o, b, a, k) && k < o
  {
    var m := Parent(t, o, b, a, k);
    if a == m then m + Pow2(k) else m
  }

  lemma {:induction false} ParentFacts(t: Tree, o: nat, b: nat, a: nat, k: nat)
    requires Sized(t, o) && Has(t, o, b, a, k) && k < o
    ensures var m := Parent(t, o, b, a, k);
      && Has(t, o, b, m, k + 1) && Sub(t, o, b, m, k + 1).Node?
      && (a == m || a == m + Pow2(k))
  {
    HasRange(t, o, b, a, k);
    var mid := b + Pow2(o - 1);
    if o != k + 1 {
      if a < mid { ParentFacts(t.left, o - 1, b, a, k); HasRange(t.left, o - 1, b, Parent(t, o, b, a, k), k + 1); }
      else { ParentFacts(t.right, o - 1, mid, a, k); HasRange(t.right, o - 1, mid, Parent(t, o, b, a, k), k + 1); }
    }
  }

  /** The parent is a Node whose children are the two buddies' subtrees. */
  lemma {:induction false} Buddies(t: Tree, o: nat, b: nat, a: nat, k: nat)
    requires Sized(t, o) && Has(t, o, b, a, k) && k < o
    ensures var m := Parent(t, o, b, a, k); var y := Buddy(t, o, b, a, k);
      && Has(t, o, b, m, k + 1) && Has(t, o, b, y, k)
      && Sub(t, o, b, m, k + 1) ==
         (if a == m then Node(Sub(t, o, b, a, k), Sub(t, o, b, y, k)) else Node(Sub(t, o, b, y, k), Sub(t, o, b, a, k)))
  {
    ParentFacts(t, o, b, a, k);
    HasRange(t, o, b, a, k);
    var mid := b + Pow2(o - 1);
    if o != k + 1 {
      var m, y := Parent(t, o, b, a, k), Buddy(t, o, b, a, k);
      if a < mid {
        Buddies(t.left, o - 1, b, a, k);
        HasRange(t.left, o - 1, b, m, k + 1);
        HasRange(t.left, o - 1, b, y, k);
      } else {
        Buddies(t.right, o - 1, mid, a, k);
        HasRange(t.right, o - 1, mid, m, k + 1);
        HasRange(t.right, o - 1, mid, y, k);
      }
    }
  }

  /** Flipping the size bit of a block's address finds its buddy. */
  lemma XorIsBuddy(t: Tree, o: nat, b: nat, a: nat, k: nat)
    requires Sized(t, o) && Aligned(b, o) && Has(t, o, b, a, k) && k < o
    ensures Xor(a, Pow2(k)) == Buddy(t, o, b, a, k)
  {
    ParentFacts(t, o, b, a, k);
    HasAligned(t, o, b, Parent(t, o, b, a, k), k + 1);
    XorBit(Parent(t, o, b, a, k), k);
  }

  /** The address a subtree starts at is always the start of a block, of at most its order. */
  lemma {:induction false} SubStart(t: Tree, o: nat, b: nat, a: nat, k: nat)
    requires Sized(t, o) && Has(t, o, b, a, k)
    ensures At(t, o, b, a).Some? && At(t, o, b, a).value.order <= k
    ensures At(t, o, b, a).value == Leaf(k, false) <==> Sub(t, o, b, a, k).Free?
  {
    HasRange(t, o, b, a, k);
    SubAt(t, o, b, a, k, a);
    First(Sub(t, o, b, a, k), k, a);
  }

  lemma {:induction false} First(t: Tree, o: nat, b: nat)
    requires Sized(t, o)
    ensures At(t, o, b, b).Some? && At(t, o, b, b).value.order <= o
    ensures At(t, o, b, b).value == Leaf(o, false) <==> t.Free?
  {
    if t.Node? { First(t.left, o - 1, b); }
  }

  /** Replacing the parent after a child is replacing the parent. */
  lemma {:induction false} PutParent(t: Tree, o: nat, b: nat, a: nat, k: nat, s: Tree, s': Tree)
    requires Sized(t, o) && Has(t, o, b, a, k) && k < o && Sized(s, k)
    ensures var m := Parent(t, o, b, a, k); var t' := Put(t, o, b, a, k, s);
      Has(t, o, b, m, k + 1) && Sized(t', o) && Has(t', o, b, m, k + 1) &&
          Put(t', o, b, m, k + 1, s') == Put(t, o, b, m, k + 1, s')
  {
    hide Pow2;
    var m := Parent(t, o, b, a, k);
    ParentFacts(t, o, b, a, k);
    PutSized(t, o, b, a, k, s);
    HasRange(t, o, b, a, k);
    if o != k + 1 {
      var mid := b + Pow2(o - 1);
      if a < mid {
        HasRange(t.left, o - 1, b, a, k);
        PutParent(t.left, o - 1, b, a, k, s, s');
        HasRange(t.left, o - 1, b, m, k + 1);
      }
      else  {
        HasRange(t.right, o - 1, mid, a, k);
        PutParent(t.right, o - 1, mid, a, k, s, s');
        HasRange(t.right, o - 1, mid, m, k + 1);
      }
    }
  }

  /** Replacing the upper child of a node just put in place. */
  lemma {:induction false} PutUpper(t: Tree, o: nat, b: nat, a: nat, k: nat, l: Tree, r: Tree, s: Tree)
    requires Sized(t, o) && Has(t, o, b, a, k) && Sized(Node(l, r), k)
    ensures var t' := Put(t, o, b, a, k, Node(l, r));
      && Sized(t', o) && Has(t', o, b, a + Pow2(k - 1), k - 1)
      && Put(t', o, b, a + Pow2(k - 1), k - 1, s) == Put(t, o, b, a, k, Node(l, s))
  {
    PutSized(t, o, b, a, k, Node(l, r));
    HasRange(t, o, b, a, k);
    if o != k {
      var mid := b + Pow2(o - 1);
      if a < mid { HasRange(t.left, o - 1, b, a, k); PutUpper(t.left, o - 1, b, a, k, l, r, s); }
      else { PutUpper(t.right, o - 1, mid, a, k, l, r, s); }
    }
  }

  // ---------------------------------------------------------------- the normal form

  lemma {:induction false} CanonicalPut(t: Tree, o: nat, b: nat, a: nat, k: nat, s: Tree)
    requires Sized(t, o) && Has(t, o, b, a, k)
    requires Canonical(Put(t, o, b, a, k, Live)) && Canonical(s) && !s.Free?
    ensures Canonical(Put(t, o, b, a, k, s))
  {
    if o != k {
      if a < b + Pow2(o - 1) { CanonicalPut(t.left, o - 1, b, a, k, s); }
      else { CanonicalPut(t.right, o - 1, b + Pow2(o - 1), a, k, s); }
    }
  }

  lemma {:induction false} CanonicalMark(t: Tree, o: nat, b: nat, a: nat, k: nat)
    requires Sized(t, o) && Has(t, o, b, a, k) && Canonical(t)
    ensures Canonical(Put(t, o, b, a, k, Live))
  {
    if o != k {
      if a < b + Pow2(o - 1) { CanonicalMark(t.left, o - 1, b, a, k); }
      else { CanonicalMark(t.right, o - 1, b + Pow2(o - 1), a, k); }
    }
  }

  /** A block may become free without breaking the normal form when its buddy is not a free block of its order. */
  lemma {:induction false} CanonicalFree(t: Tree, o: nat, b: nat, a: nat, k: nat)
    requires Sized(t, o) && Has(t, o, b, a, k) && Canonical(Put(t, o, b, a, k, Live)) && k <= o
    requires k < o ==> Has(t, o, b, Buddy(t, o, b, a, k), k)
    requires k < o ==> !Sub(t, o, b, Buddy(t, o, b, a, k), k).Free?
    ensures Canonical(Put(t, o, b, a, k, Free))
  {
    hide Pow2;
    if o != k {
      HasRange(t, o, b, a, k);
      var mid := b + Pow2(o - 1);
      if o == k + 1 {
      } else if a < mid {
        HasRange(t.left, o - 1, b, a, k);
        Buddies(t.left, o - 1, b, a, k);
        HasRange(t.left, o - 1, b, Buddy(t, o, b, a, k), k);
        CanonicalFree(t.left, o - 1, b, a, k);
      } else {
        HasRange(t.right, o - 1, mid, a, k);
        Buddies(t.right, o - 1, mid, a, k);
        HasRange(t.right, o - 1, mid, Buddy(t, o, b, a, k), k);
        CanonicalFree(t.right, o - 1, mid, a, k);
      }
    }
  }

  lemma {:induction false} LiveMapAt(t: Tree, o: nat, b: nat, a: nat)
    requires Sized(t, o)
    ensures a in LiveMap(t, o, b) <==> At(t, o, b, a).Some? && At(t, o, b, a).value.live
    ensures a in LiveMap(t, o, b) ==> LiveMap(t, o, b)[a] == At(t, o, b, a).value.order
  {
    if t.Node? {
      var mid := b + Pow2(o - 1);
      LiveMapAt(t.left, o - 1, b, a);
      LiveMapAt(t.right, o - 1, mid, a);
      if At(t.left, o - 1, b, a).Some? { LeafRange(t.left, o - 1, b, a); }
      if At(t.right, o - 1, mid, a).Some? { LeafRange(t.right, o - 1, mid, a); }
    }
  }

  lemma LiveRoot(t: Tree, o: nat, b: nat)
    requires Sized(t, o)
    ensures t.Live? ==> b in LiveMap(t, o, b)
  {
  }

  /** Without live blocks the only canonical tree is one free block. */
  lemma {:induction false} NothingLive(t: Tree, o: nat, b: nat)
    requires Sized(t, o) && Canonical(t)
    requires LiveMap(t, o, b) == map[]
    ensures t.Free?
  {
    LiveRoot(t, o, b);
    if t.Node? {
      HalfMaps(t, o, b);
      NothingLive(t.left, o - 1, b);
      NothingLive(t.right, o - 1, b + Pow2(o - 1));
    }
  }

  /** The normal form: the live blocks determine the whole division of the arena. */
  lemma {:induction false} NormalForm(t: Tree, u: Tree, o: nat, b: nat)
    requires Sized(t, o) && Sized(u, o) && Canonical(t) && Canonical(u)
    requires LiveMap(t, o, b) == LiveMap(u, o, b)
    ensures t == u
  {
    if t.Free? {
      NothingLive(u, o, b);
    } else if u.Free? {
      NothingLive(t, o, b);
    } else if t.Live? || u.Live? {
      assert LiveMap(t, o, b)[b] == o;
      if t.Node? { LiveMapAt(t, o, b, b); LeafRange(t.left, o - 1, b, b); }
      if u.Node? { LiveMapAt(u, o, b, b); LeafRange(u.left, o - 1, b, b); }
    } else {
      HalfMaps(t, o, b);
      HalfMaps(u, o, b);
      NormalForm(t.left, u.left, o - 1, b);
      NormalForm(t.right, u.right, o - 1, b + Pow2(o - 1));
    }
  }

  /** The live blocks of the two halves are the live blocks below and above the middle. */
  lemma {:induction false} HalfMaps(t: Tree, o: nat, b: nat)
    requires Sized(t, o) && t.Node?
    ensures var mid := b + Pow2(o - 1); var m := LiveMap(t, o, b);
      && LiveMap(t.left, o - 1, b) == (map a | a in m && a < mid :: m[a])
      && LiveMap(t.right, o - 1, mid) == (map a | a in m && a >= mid :: m[a])
  {
    var mid := b + Pow2(o - 1);
    var l, r := LiveMap(t.left, o - 1, b), LiveMap(t.right, o - 1, mid);
    forall a | a in l ensures a < mid { LiveMapAt(t.left, o - 1, b, a); LeafRange(t.left, o - 1, b, a); }
    forall a | a in r ensures a >= mid { LiveMapAt(t.right, o - 1, mid, a); LeafRange(t.right, o - 1, mid, a); }
  }

  // ---------------------------------------------------------------- room for an allocation

  /** An aligned region of 2^k bytes inside the arena that no live block overlaps. */
  ghost predicate RoomAt(live: map<nat, nat>, o: nat, b: nat, k: nat, a: nat) {
    && Aligned(a, k) && b <= a && a + Pow2(k) <= b + Pow2(o)
    && forall x :: x in live ==> x + Pow2(live[x]) <= a || a + Pow2(k) <= x
  }

  /** A region without live blocks is no larger than the arena, and smaller when the arena is divided in normal form. */
  lemma RoomFits(t: Tree, o: nat, b: nat, k: nat, a: nat)
    requires Sized(t, o) && Canonical(t) && RoomAt(LiveMap(t, o, b), o, b, k, a)
    ensures k <= o && (t.Node? ==> k < o)
  {
    var m := LiveMap(t, o, b);
    if k > o { Pow2Mono(o + 1, k); }
    if k == o && t.Node? {
      assert a == b;
      forall x | x in m ensures false { LiveMapAt(t, o, b, x); LeafRange(t, o, b, x); }
      assert m == map[];
      NothingLive(t, o, b);
    }
  }

  /** A region without live blocks lies inside one free block, the arena being in normal form. */
  lemma {:induction false} RoomIsFreeBlock(t: Tree, o: nat, b: nat, k: nat, a: nat) returns (f: nat, j: nat)
    requires Sized(t, o) && Aligned(b, o) && Canonical(t) && RoomAt(LiveMap(t, o, b), o, b, k, a)
    ensures At(t, o, b, f) == Some(Leaf(j, false)) && k <= j <= o && f <= a && a + Pow2(k) <= f + Pow2(j)
  {
    RoomFits(t, o, b, k, a);
    LiveRoot(t, o, b);
    match t
    case Free => f, j := b, o;
    case Live => assert false;
    case Node(l, r) =>
      AlignedHalves(b, o);
      var mid := b + Pow2(o - 1);
      HalfMaps(t, o, b);
      if a < mid {
        SameSide(b, o, a, k);
        f, j := RoomIsFreeBlock(l, o - 1, b, k, a);
        LeafRange(l, o - 1, b, f);
      } else {
        f, j := RoomIsFreeBlock(r, o - 1, mid, k, a);
        LeafRange(r, o - 1, mid, f);
      }
  }

  /** An aligned region no larger than half the range does not straddle its middle. */
  lemma {:induction false} SameSide(b: nat, o: nat, a: nat, k: nat)
    requires o > 0 && k <= o - 1 && Aligned(b, o) && Aligned(a, k) && b <= a < b + Pow2(o - 1)
    ensures a + Pow2(k) <= b + Pow2(o - 1)
  {
    if k > 0 {
      assert Pow2(o - 1) == 2 * Pow2(o - 2);
      SameSide(b / 2, o - 1, a / 2, k - 1);
    }
  }

  /** A free block overlaps no live block. */
  lemma {:induction false} FreeBlockIsRoom(t: Tree, o: nat, b: nat, f: nat, j: nat, k: nat)
    requires Sized(t, o) && Aligned(b, o) && At(t, o, b, f) == Some(Leaf(j, false)) && k <= j
    ensures RoomAt(LiveMap(t, o, b), o, b, k, f)
  {
    var m := LiveMap(t, o, b);
    LeafRange(t, o, b, f);
    LeafIsSub(t, o, b, f, j, false);
    HasAligned(t, o, b, f, j);
    AlignedDown(f, k, j);
    Pow2Mono(k, j);
    forall x | x in m ensures x + Pow2(m[x]) <= f || f + Pow2(k) <= x {
      LiveMapAt(t, o, b, x);
      LeafRange(t, o, b, x);
      if x <= f { Tiling(t, o, b, f); } else { Tiling(t, o, b, x); }
    }
  }

  // ---------------------------------------------------------------- allocating and freeing

  /** The region (a, k) lies in one free block. */
  predicate FreeAround(t: Tree, o: nat, b: nat, a: nat, k: nat)
    requires Sized(t, o)
  {
    match t
    case Free => MIN_BLOCK_SHIFT <= k <= o && Aligned(a, k) && b <= a && a + Pow2(k) <= b + Pow2(o)
    case Live => false
    case Node(l, r) =>
      var mid := b + Pow2(o - 1);
      if a < mid then FreeAround(l, o - 1, b, a, k) else FreeAround(r, o - 1, mid, a, k)
  }

  /** The reference allocation: split free blocks down to a live block of order k at a. */
  function Reserve(t: Tree, o: nat, b: nat, a: nat, k: nat): Tree
    requires Sized(t, o)
    decreases o
  {
    if t.Live? || o <= k || o == MIN_BLOCK_SHIFT then Live
    else
      var l, r := if t.Free? then Free else t.left, if t.Free? then Free else t.right;
      var mid := b + Pow2(o - 1);
      if a < mid then Node(Reserve(l, o - 1, b, a, k), r) else Node(l, Reserve(r, o - 1, mid, a, k))
  }

  /** The reference free: clear the block at a, merging free buddies on the way back up. */
  function Release(t: Tree, o: nat, b: nat, a: nat): Tree
    requires Sized(t, o)
  {
    match t
    case Free => Free
    case Live => if a == b then Free else Live
    case Node(l, r) =>
      var mid := b + Pow2(o - 1);
      if a < mid then Join(Release(l, o - 1, b, a), r) else Join(l, Release(r, o - 1, mid, a))
  }

  function Join(l: Tree, r: Tree): Tree {
    if l.Free? && r.Free? then Free else Node(l, r)
  }

  /** What allocating one block of order k at a does to the division: the partner of Reserve. */
  ghost predicate Reserved(t: Tree, t': Tree, o: nat, b: nat, a: nat, k: nat)
    requires Sized(t, o)
  {
    && Sized(t', o) && Canonical(t') && !t'.Free?
    && a !in LiveMap(t, o, b) && LiveMap(t', o, b) == LiveMap(t, o, b)[a := k]
  }

  lemma {:induction false} ReserveFree(o: nat, b: nat, a: nat, k: nat)
    requires MIN_BLOCK_SHIFT <= o && Aligned(b, o) && FreeAround(Free, o, b, a, k)
    ensures Reserved(Free, Reserve(Free, o, b, a, k), o, b, a, k)
  {
    if k < o {
      AlignedHalves(b, o);
      var mid := b + Pow2(o - 1);
      if a < mid { SameSide(b, o, a, k); ReserveFree(o - 1, b, a, k); } else { ReserveFree(o - 1, mid, a, k); }
    }
  }

  lemma UpdateSum(l: map<nat, nat>, r: map<nat, nat>, a: nat, k: nat)
    ensures a !in r ==> l[a := k] + r == (l + r)[a := k]
    ensures l + r[a := k] == (l + r)[a := k]
  {
  }

  /** Blocks of one half do not start in the other. */
  lemma OtherHalf(t: Tree, o: nat, b: nat, a: nat)
    requires Sized(t, o) && t.Node?
    ensures if a < b + Pow2(o - 1) then a !in LiveMap(t.right, o - 1, b + Pow2(o - 1))
        else a !in LiveMap(t.left, o - 1, b)
  {
    var mid := b + Pow2(o - 1);
    LiveMapAt(t.left, o - 1, b, a);
    LiveMapAt(t.right, o - 1, mid, a);
    if At(t.left, o - 1, b, a).Some? { LeafRange(t.left, o - 1, b, a); }
    if At(t.right, o - 1, mid, a).Some? { LeafRange(t.right, o - 1, mid, a); }
  }

  lemma ReservedLeft(t: Tree, l: Tree, o: nat, b: nat, a: nat, k: nat)
    requires Sized(t, o) && Canonical(t) && t.Node? && a < b + Pow2(o - 1)
    requires Reserved(t.left, l, o - 1, b, a, k)
    ensures Reserved(t, Node(l, t.right), o, b, a, k)
  {
    OtherHalf(t, o, b, a);
    UpdateSum(LiveMap(t.left, o - 1, b), LiveMap(t.right, o - 1, b + Pow2(o - 1)), a, k);
  }

  lemma ReservedRight(t: Tree, r: Tree, o: nat, b: nat, a: nat, k: nat)
    requires Sized(t, o) && Canonical(t) && t.Node? && a >= b + Pow2(o - 1)
    requires Reserved(t.right, r, o - 1, b + Pow2(o - 1), a, k)
    ensures Reserved(t, Node(t.left, r), o, b, a, k)
  {
    OtherHalf(t, o, b, a);
    UpdateSum(LiveMap(t.left, o - 1, b), LiveMap(t.right, o - 1, b + Pow2(o - 1)), a, k);
  }

  /** An aligned region inside a free block. */
  lemma {:induction false} InFreeBlock(t: Tree, o: nat, b: nat, f: nat, j: nat, a: nat, k: nat)
    requires Sized(t, o) && At(t, o, b, f) == Some(Leaf(j, false))
    requires MIN_BLOCK_SHIFT <= k <= j && Aligned(a, k) && f <= a && a + Pow2(k) <= f + Pow2(j)
    ensures FreeAround(t, o, b, a, k)
  {
    if t.Node? {
      var mid := b + Pow2(o - 1);
      if f < mid { LeafRange(t.left, o - 1, b, f); InFreeBlock(t.left, o - 1, b, f, j, a, k); }
      else { InFreeBlock(t.right, o - 1, mid, f, j, a, k); }
    }
  }

  lemma {:induction false} ReserveSpec(t: Tree, o: nat, b: nat, a: nat, k: nat)
    requires Sized(t, o) && Aligned(b, o) && Canonical(t) && FreeAround(t, o, b, a, k)
    ensures Reserved(t, Reserve(t, o, b, a, k), o, b, a, k)
  {
    if t.Free? {
      ReserveFree(o, b, a, k);
    } else {
      AlignedHalves(b, o);
      if a < b + Pow2(o - 1) {
        FreeAroundBounds(t.left, o - 1, b, a, k);
        ReserveSpec(t.left, o - 1, b, a, k);
        ReservedLeft(t, Reserve(t.left, o - 1, b, a, k), o, b, a, k);
      } else {
        FreeAroundBounds(t.right, o - 1, b + Pow2(o - 1), a, k);
        ReserveSpec(t.right, o - 1, b + Pow2(o - 1), a, k);
        ReservedRight(t, Reserve(t.right, o - 1, b + Pow2(o - 1), a, k), o, b, a, k);
      }
    }
  }

  lemma {:induction false} FreeAroundBounds(t: Tree, o: nat, b: nat, a: nat, k: nat)
    requires Sized(t, o) && FreeAround(t, o, b, a, k)
    ensures MIN_BLOCK_SHIFT <= k <= o && b <= a && a + Pow2(k) <= b + Pow2(o)
  {
    if t.Node? {
      if a < b + Pow2(o - 1) { FreeAroundBounds(t.left, o - 1, b, a, k); }
      else { FreeAroundBounds(t.right, o - 1, b + Pow2(o - 1), a, k); }
    }
  }

  lemma RemoveSum(l: map<nat, nat>, r: map<nat, nat>, a: nat)
    ensures a !in r ==> (l - {a}) + r == (l + r) - {a}
    ensures a !in l ==> l + (r - {a}) == (l + r) - {a}
  {
  }

  lemma {:induction false} FreeAroundDead(t: Tree, o: nat, b: nat, a: nat, k: nat, x: nat)
    requires Sized(t, o) && Aligned(b, o) && FreeAround(t, o, b, a, k) && Aligned(a, k) && a <= x < a + Pow2(k)
    ensures !LiveByte(t, o, b, x)
  {
    if t.Node? {
      AlignedHalves(b, o);
      var mid := b + Pow2(o - 1);
      if a < mid {
        FreeAroundBounds(t.left, o - 1, b, a, k);
        FreeAroundDead(t.left, o - 1, b, a, k, x);
      } else {
        FreeAroundDead(t.right, o - 1, mid, a, k, x);
      }
    }
  }

  lemma {:induction false} ReleaseSpec(t: Tree, o: nat, b: nat, a: nat)
    requires Sized(t, o) && Canonical(t)
    ensures Sized(Release(t, o, b, a), o) && Canonical(Release(t, o, b, a))
    ensures LiveMap(Release(t, o, b, a), o, b) == LiveMap(t, o, b) - {a}
  {
    if t.Node? {
      var mid := b + Pow2(o - 1);
      OtherHalf(t, o, b, a);
      RemoveSum(LiveMap(t.left, o - 1, b), LiveMap(t.right, o - 1, mid), a);
      if a < mid { ReleaseSpec(t.left, o - 1, b, a); } else { ReleaseSpec(t.right, o - 1, mid, a); }
    }
  }

  /** Freeing what was just allocated gives back the same division of the arena. */
  lemma FreeUndoesAlloc(t: Tree, o: nat, b: nat, a: nat, k: nat)
    requires Sized(t, o) && Aligned(b, o) && Canonical(t) && FreeAround(t, o, b, a, k)
    ensures Sized(Reserve(t, o, b, a, k), o)
    ensures Release(Reserve(t, o, b, a, k), o, b, a) == t
  {
    ReserveSpec(t, o, b, a, k);
    ReleaseSpec(Reserve(t, o, b, a, k), o, b, a);
    assert LiveMap(t, o, b)[a := k] - {a} == LiveMap(t, o, b);
    NormalForm(Release(Reserve(t, o, b, a, k), o, b, a), t, o, b);
  }

  /** Frees commute. */
  lemma FreesCommute(t: Tree, o: nat, b: nat, a: nat, c: nat)
    requires Sized(t, o) && Canonical(t)
    ensures Sized(Release(t, o, b, a), o) && Sized(Release(t, o, b, c), o)
    ensures Release(Release(t, o, b, a), o, b, c) == Release(Release(t, o, b, c), o, b, a)
  {
    ReleaseSpec(t, o, b, a);
    ReleaseSpec(t, o, b, c);
    ReleaseSpec(Release(t, o, b, a), o, b, c);
    ReleaseSpec(Release(t, o, b, c), o, b, a);
    assert LiveMap(t, o, b) - {a} - {c} == LiveMap(t, o, b) - {c} - {a};
    NormalForm(Release(Release(t, o, b, a), o, b, c), Release(Release(t, o, b, c), o, b, a), o, b);
  }

  function ReleaseAll(t: Tree, o: nat, b: nat, xs: seq<nat>): Tree
    requires Sized(t, o) && Canonical(t)
    decreases |xs|
  {
    if xs == [] then t
    else ReleaseSpec(t, o, b, xs[0]); ReleaseAll(Release(t, o, b, xs[0]), o, b, xs[1..])
  }

  /** Freeing every live block, in any order, leaves the one block the heap started with. */
  lemma {:induction false} FreeingAllRestores(t: Tree, o: nat, b: nat, xs: seq<nat>)
    requires Sized(t, o) && Canonical(t)
    requires forall a :: a in LiveMap(t, o, b) ==> a in xs
    ensures ReleaseAll(t, o, b, xs) == Free
    decreases |xs|
  {
    if xs == [] {
      assert LiveMap(t, o, b) == map[];
      NothingLive(t, o, b);
    } else {
      ReleaseSpec(t, o, b, xs[0]);
      FreeingAllRestores(Release(t, o, b, xs[0]), o, b, xs[1..]);
    }
  }
}
