/**
 Pointers in the hands of clients: what kmalloc and kmalloc_aligned hand out stays a pointer that kfree accepts, through
 any later calls, until its own block is freed or its client writes over the word before it.
 */
module HeapPointers {
  import opened Basics
  import opened Bits
  import opened BuddyTree
  import opened HeapState
  import opened HeapRequests

  /** What a client holds: the word before p lies in the live block b, at its self word or past it, and holds b. */
  ghost predicate Handed(t: Tree, m: seq<Word>, p: nat, b: nat) {
    && Arena(t) && |m| == WORDS && b in Blocks(t) && p % 4 == 0
    && HEAP_START <= b && b + Pow2(Blocks(t)[b]) <= HEAP_START + 0x40_0000
    && b + HEADER_SIZE <= p <= b + Pow2(Blocks(t)[b])
    && m[Ix(p - 4)] == b
  }

  lemma BlockRange(t: Tree, b: nat)
    requires Arena(t) && b in Blocks(t)
    ensures HEAP_START <= b && b + 32 <= b + Pow2(Blocks(t)[b]) <= HEAP_START + 0x40_0000
    ensures forall x :: b <= x < b + Pow2(Blocks(t)[b]) ==> IsLive(t, x)
  {
    hide LiveMap; hide LiveByte; hide At; hide Sized;
    BlocksAt(t, b);
    BlockFacts(t, b);
    forall x | b <= x < b + Pow2(Blocks(t)[b]) ensures IsLive(t, x) { BlockByte(t, b, x); }
  }

  /** kfree accepts it, and frees its block. */
  lemma HandedIsLive(t: Tree, m: seq<Word>, p: nat, b: nat)
    requires Handed(t, m, p, b)
    ensures LivePointer(t, m, p) && m[Ix(p - 4)] == b
  {
    hide LiveMap; hide Sized;
  }

  /** The word before it is a word of a live block. */
  lemma HandedWord(t: Tree, m: seq<Word>, p: nat, b: nat)
    requires Handed(t, m, p, b)
    ensures 0 <= Ix(p - 4) < WORDS && HEAP_START + 4 * Ix(p - 4) == p - 4 && IsLive(t, p - 4)
  {
    hide LiveMap; hide Sized; hide LiveByte;
    BlockRange(t, b);
  }

  // ---------------------------------------------------------------- what later calls do to it

  datatype View = View(tree: Tree, mem: seq<Word>)

  /** The client of the block b, holding p, does not free it and leaves the word before p alone. */
  ghost predicate Spares(v: View, v': View, p: nat, b: nat) {
    Arena(v.tree) && Arena(v'.tree) && |v.mem| == |v'.mem| == WORDS && HEAP_START + 4 <= p <= HEAP_START + 0x40_0000 &&
    (|| Grown(v, v')
     || (exists x :: x != b && Shrunk(v, v', x))
     || (v'.tree == v.tree && v'.mem[Ix(p - 4)] == v.mem[Ix(p - 4)]))
  }

  /** Live blocks stay, with their words. */
  ghost predicate Grown(v: View, v': View)
    requires Arena(v.tree) && Arena(v'.tree)
  {
    LiveKept(v.tree, v.mem, v'.mem) &&
    forall c :: c in Blocks(v.tree) ==> c in Blocks(v'.tree) && Blocks(v'.tree)[c] == Blocks(v.tree)[c]
  }

  /** Block x is freed; the others stay, with their words. */
  ghost predicate Shrunk(v: View, v': View, x: nat)
    requires Arena(v.tree) && Arena(v'.tree)
  {
    LiveKept(v'.tree, v.mem, v'.mem) && Blocks(v'.tree) == Blocks(v.tree) - {x}
  }

  /** What such a step leaves in the client's hands. */
  lemma HandedKept(v: View, v': View, p: nat, b: nat)
    requires Handed(v.tree, v.mem, p, b) && Spares(v, v', p, b)
    ensures Handed(v'.tree, v'.mem, p, b)
  {
    hide LiveMap; hide Sized; hide LiveByte; hide Pow2;
    HandedWord(v.tree, v.mem, p, b);
    if x :| x != b && Shrunk(v, v', x) {
      assert b in Blocks(v'.tree);
      BlockRange(v'.tree, b);
    }
  }

  /** So over any run of steps that spare it. */
  lemma {:induction false} HandedThroughout(run: seq<View>, p: nat, b: nat)
    requires run != [] && Handed(run[0].tree, run[0].mem, p, b)
    requires forall i :: 0 <= i < |run| - 1 ==> Spares(run[i], run[i + 1], p, b)
    ensures var v := run[|run| - 1]; Handed(v.tree, v.mem, p, b) && LivePointer(v.tree, v.mem, p)
    decreases |run|
  {
    if |run| == 1 {
      HandedIsLive(run[0].tree, run[0].mem, p, b);
    } else {
      HandedKept(run[0], run[1], p, b);
      hide Handed; hide Spares;
      forall i | 0 <= i < |run[1..]| - 1 ensures Spares(run[1..][i], run[1..][i + 1], p, b) {
        assert run[1..][i] == run[i + 1] && run[1..][i + 1] == run[i + 1 + 1];
      }
      HandedThroughout(run[1..], p, b);
    }
  }

  // ---------------------------------------------------------------- the calls

  /** An allocation spares every pointer there was, and hands out a new one. */
  lemma AllocationSpares(t: Tree, ls: seq<seq<nat>>, m: seq<Word>, t': Tree, ls': seq<seq<nat>>, m': seq<Word>, p: nat,
          n: nat, total: nat)
    requires Allocates(t, ls, m, t', ls', m', p, n, total)
    ensures Grown(View(t, m), View(t', m'))
    ensures p != NULL ==> p >= HEADER_SIZE && Handed(t', m', p, p - HEADER_SIZE)
  {
    hide Room; hide LiveMap; hide Sized; hide LiveByte; hide FreeAround; hide Reserve; hide Pow2; hide OrderFor;
    if p != NULL {
      var k: nat :| OrderFor(k, total) && Carved(t, t', p - HEADER_SIZE, k);
      BlockRange(t', p - HEADER_SIZE);
    }
  }

  /** So does an aligned allocation. */
  lemma AlignedSpares(t: Tree, ls: seq<seq<nat>>, m: seq<Word>, t': Tree, ls': seq<seq<nat>>, m': seq<Word>, p: nat,
          size: nat, j: nat)
    requires AllocatesAligned(t, ls, m, t', ls', m', p, size, j)
    ensures Grown(View(t, m), View(t', m'))
    ensures p != NULL ==> exists b: nat :: Handed(t', m', p, b)
  {
    hide Room; hide LiveMap; hide Sized; hide LiveByte; hide Pow2; hide Rounded; hide Aligned;
    if p != NULL {
      var b: nat :| AlignedIn(t, t', m', p, b, j, size);
      BlockRange(t', b);
      assert Handed(t', m', p, b);
    }
  }

  /**
   A client's store leaves a pointer what it was exactly when it misses the word before it, or writes the same
   there.
   */
  lemma StoredHanded(t: Tree, m: seq<Word>, p: nat, b: nat, a: nat, v: Word)
    requires Handed(t, m, p, b) && a % 4 == 0 && HEAP_START <= a < HEAP_START + 0x40_0000
    ensures Handed(t, m[Ix(a) := v], p, b) <==> (a == p - 4 ==> v == b)
  {
    hide LiveMap; hide Sized; hide LiveByte; hide Pow2;
    HandedWord(t, m, p, b);
    assert a == HEAP_START + 4 * Ix(a);
  }
}
