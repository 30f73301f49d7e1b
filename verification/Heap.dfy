/**
 The kernel heap in place: the free lists and headers as kmalloc, kfree and kmalloc_aligned change them.
 */
module Heap {
  import opened Basics
  import opened Bits
  import opened BuddyTree
  import opened HeapState
  import opened HeapRequests

  class BuddyHeap {
    const freeLists: array<Word>
    const mem: array<Word>
    ghost var tree: Tree
    ghost var lists: seq<seq<nat>>

    ghost predicate Structured(pending: set<nat>)
      reads this, freeLists, mem
    {
      freeLists != mem && Agree(freeLists[..], mem[..], lists, tree, pending)
    }

    /** What holds between calls. */
    ghost predicate Valid()
      reads this, freeLists, mem
    {
      Structured({}) && Canonical(tree)
    }

    /** The buddy of a block, m being the lower of the two. */
    method BuddyOf(block: nat, ghost m: nat) returns (buddy: nat)
      requires mem.Length == WORDS && HEAP_START <= block <= HEAP_START + 0x40_0000 - 32
      requires var k: nat := mem[Ix(block) + 1]; Aligned(m, k + 1) && (block == m || block == m + Pow2(k))
      ensures buddy == if block == m then m + Pow2(mem[Ix(block) + 1]) else m
    {
      var order := mem[Ix(block) + 1];
      XorBit(m, order);
      buddy := Xor(block, Pow2(order));
    }

    /** One free block, the whole arena, over memory holding anything. */
    constructor (memory: array<Word>)
      requires memory.Length == WORDS
      modifies memory
      ensures Valid() && mem == memory && fresh(freeLists)
      ensures tree == Free && lists[MAX_BLOCK_SHIFT] == [HEAP_START]
    {
      freeLists := new Word[MAX_BLOCK_SHIFT + 1](i => if i == MAX_BLOCK_SHIFT then HEAP_START else NULL);
      mem := memory;
      tree := Free;
      lists := seq(MAX_BLOCK_SHIFT + 1, i => if i == MAX_BLOCK_SHIFT then [HEAP_START] else []);
      new;
      mem[Ix(HEAP_START) + 1] := MAX_BLOCK_SHIFT;
      mem[Ix(HEAP_START) + 2] := 1;
      mem[Ix(HEAP_START)] := NULL;
      mem[Ix(HEAP_START) + 3] := 0;
    }

    method InsertFreeBlock(block: nat, ghost pending: set<nat>)
      requires Structured(pending) && block in pending
      requires Block(tree, block).Some? && !Block(tree, block).value.live
      modifies freeLists, mem, `lists
      ensures Structured(pending - {block})
      ensures var o := Block(tree, block).value.order;
        o <= MAX_BLOCK_SHIFT && lists == old(lists)[o := [block] + old(lists[o])]
      ensures LiveKept(tree, old(mem[..]), mem[..])
    {
      InsertAgrees(freeLists[..], mem[..], lists, tree, pending, block);
      var order := mem[Ix(block) + 1];
      mem[Ix(block)] := freeLists[order];
      assert mem[..] == old(mem[..])[Ix(block) := old(freeLists[order])];
      freeLists[order] := block;
      assert freeLists[..] == old(freeLists[..])[order := block];
      lists := lists[order := [block] + lists[order]];
    }

    method RemoveFreeBlock(block: nat, ghost pending: set<nat>)
      requires Structured(pending) && block !in pending
      requires Block(tree, block).Some? && !Block(tree, block).value.live
      modifies freeLists, mem, `lists
      ensures Structured(pending + {block})
      ensures var o := Block(tree, block).value.order;
        o <= MAX_BLOCK_SHIFT && exists i: nat ::
        i < |old(lists[o])| && old(lists[o])[i] == block && lists == old(lists)[o := Without(old(lists[o]), i)]
      ensures LiveKept(tree, old(mem[..]), mem[..])
    {
      BlockFacts(tree, block);
      assert Header(mem[..], block, Block(tree, block).value);
      var order := mem[Ix(block) + 1];
      ghost var l := lists[order];
      var prev := NULL;
      var cur := freeLists[order];
      ghost var i := 0;
      while cur != NULL
        invariant 0 <= i <= |l| && cur == Nth(l, i) && prev == (if i == 0 then NULL else l[i - 1])
        invariant forall j :: 0 <= j < i ==> l[j] != block
        decreases |l| - i
      {
        assert Link(mem[..], l, i);
        if cur == block {
          Unlink(order, prev, block, i, pending);
          return;
        }
        prev := cur;
        cur := mem[Ix(cur)];
        i := i + 1;
      }
      assert false;
    }

    /** Unlinks the i-th entry of list o, whose predecessor's link (or the list head) is what prev names. */
    method Unlink(o: nat, prev: nat, block: nat, ghost i: nat, ghost pending: set<nat>)
      requires Structured(pending) && o <= MAX_BLOCK_SHIFT
      requires i < |lists[o]| && lists[o][i] == block && prev == (if i == 0 then NULL else lists[o][i - 1])
      modifies freeLists, mem, `lists
      ensures Structured(pending + {block})
      ensures lists == old(lists)[o := Without(old(lists[o]), i)]
      ensures LiveKept(tree, old(mem[..]), mem[..])
    {
      assert Arena(tree) && Sizes(freeLists[..], mem[..], lists);
      hide Agree; hide At; hide LiveByte; hide Sized; hide LiveKept;
      UnlinkAgrees(freeLists[..], mem[..], lists, tree, pending, o, i);
      assert i == 0 <==> prev == NULL;
      var next := mem[Ix(block)];
      if prev == NULL {
        freeLists[o] := next;
        mem[Ix(block)] := NULL;
        assert freeLists[..] == old(freeLists[..])[o := next];
        assert mem[..] == old(mem[..])[Ix(block) := NULL];
      } else {
        mem[Ix(prev)] := next;
        mem[Ix(block)] := NULL;
        assert mem[..] == old(mem[..])[Ix(prev) := next][Ix(block) := NULL];
      }
      lists := lists[o := Without(lists[o], i)];
    }

    method WriteHeaders(block: nat, buddy: nat, order: nat)
      requires HEAP_START <= block <= HEAP_START + 0x40_0000 - 32 && HEAP_START <= buddy <= HEAP_START + 0x40_0000 - 32
      requires mem.Length == WORDS && order <= MAX_BLOCK_SHIFT && mem[Ix(block) + 1] == order
      modifies mem
      ensures mem[..] == SplitWords(old(mem[..]), block, buddy, order)
    {
      mem[Ix(block) + 2] := 1;
      mem[Ix(buddy) + 1] := order;
      mem[Ix(buddy) + 2] := 1;
      mem[Ix(buddy) + 3] := 0;
    }

    /** The headers of the two halves of a block. */
    method HalfHeaders(block: nat, o: nat) returns (buddy: nat)
      requires mem.Length == WORDS && MIN_BLOCK_SHIFT < o <= MAX_BLOCK_SHIFT && Aligned(block, o)
      requires HEAP_START <= block && block % 32 == 0 && block + Pow2(o - 1) <= HEAP_START + 0x40_0000 - 32
      requires 32 <= Pow2(o - 1) && (block + Pow2(o - 1)) % 32 == 0
      modifies mem
      ensures buddy == block + Pow2(o - 1) && mem[..] == SplitWords(old(mem[..]), block, buddy, o - 1)
    {
      hide Aligned; hide Pow2;
      ghost var m := mem[..];
      var order := o - 1;
      mem[Ix(block) + 1] := order;
      buddy := BuddyOf(block, block);
      assert mem[..] == m[Ix(block) + 1 := order];
      OrderFirst(m, block, buddy, order);
      WriteHeaders(block, buddy, order);
    }

    /** Turns an unlisted free block into two unlisted free buddies. */
    method Halve(block: nat, o: nat) returns (buddy: nat)
      requires Structured({block}) && MIN_BLOCK_SHIFT < o && Block(tree, block) == Some(Leaf(o, false))
      modifies mem, `tree
      ensures buddy == block + Pow2(o - 1) && Structured({block, buddy})
      ensures Arena(old(tree)) && Subtree(old(tree), block, o) && tree == Replace(old(tree), block, o, Node(Free, Free))
      ensures Block(tree, block) == Block(tree, buddy) == Some(Leaf(o - 1, false))
      ensures forall z: nat :: IsLive(tree, z) == IsLive(old(tree), z)
      ensures LiveKept(tree, old(mem[..]), mem[..])
    {
      assert Arena(tree) && Sizes(freeLists[..], mem[..], lists);
      hide Agree; hide At; hide LiveByte; hide Put; hide Sized; hide Aligned; hide Has; hide Pow2; hide LiveMap;
      HalfGeometry(freeLists[..], mem[..], lists, tree, block, o);
      ghost var m := mem[..];
      buddy := HalfHeaders(block, o);
      HalfKept(tree, m, mem[..], block, o);
      tree := Replace(tree, block, o, Node(Free, Free));
    }

    /** Splits the block at the head of list o into its two buddies; the upper one ends up at the head. */
    method SplitBlock(o: nat)
      requires Structured({}) && MIN_BLOCK_SHIFT < o <= MAX_BLOCK_SHIFT && lists[o] != []
      modifies this, freeLists, mem
      ensures Structured({})
      ensures var x := old(lists[o][0]); var y := x + Pow2(o - 1);
        && Arena(old(tree)) && Subtree(old(tree), x, o)
        && tree == Replace(old(tree), x, o, Node(Free, Free))
        && lists == old(lists)[o := old(lists[o])[1..]][o - 1 := [y, x] + old(lists[o - 1])]
      ensures forall z: nat :: IsLive(tree, z) == IsLive(old(tree), z)
      ensures LiveKept(old(tree), old(mem[..]), mem[..])
    {
      hide Agree; hide At; hide LiveByte; hide Put; hide Sized;
      HeadFacts(freeLists[..], mem[..], lists, tree, o);
      var block := freeLists[o];
      ghost var l := lists[o];
      RemoveFreeBlock(block, {});
      assert {} + {block} == {block};
      ghost var i: nat :| i < |l| && l[i] == block && lists == old(lists)[o := Without(l, i)];
      HeadOnly(old(freeLists[..]), old(mem[..]), old(lists), old(tree), o, i);
      var buddy := Halve(block, o);
      InsertFreeBlock(block, {block, buddy});
      assert {block, buddy} - {block} == {buddy};
      InsertFreeBlock(buddy, {buddy});
      assert lists[o - 1] == [buddy] + ([block] + old(lists[o - 1])) == [buddy, block] + old(lists[o - 1]);
      assert lists == old(lists)[o := old(lists[o])[1..]][o - 1 := lists[o - 1]];
      assert {buddy} - {buddy} == {};
    }

    /** Merges a free, unlisted block with its buddy for as long as the buddy is a free block of the same order. */
    method Coalesce(x: nat) returns (block: nat)
      requires Structured({x}) && Arena(tree) && Block(tree, x).Some? && Loose(tree, x, Block(tree, x).value.order)
      modifies this, freeLists, mem
      ensures Structured({block}) && Arena(tree) && Canonical(tree) && Block(tree, block).Some? &&
          !Block(tree, block).value.live
      ensures forall z: nat :: IsLive(tree, z) == IsLive(old(tree), z)
      ensures Blocks(tree) == old(Blocks(tree))
      ensures LiveKept(tree, old(mem[..]), mem[..])
    {
      hide Agree; hide At; hide LiveByte; hide Put; hide Sized; hide Aligned; hide Canonical; hide Has; hide LiveMap;
      hide Parent;
      block := x;
      HeaderFacts(freeLists[..], mem[..], lists, tree, {block}, block);
      var order := mem[Ix(block) + 1];
      while order < MAX_BLOCK_SHIFT
        invariant Structured({block}) && Loose(tree, block, order) && mem.Length == WORDS
        invariant forall z: nat :: IsLive(tree, z) == IsLive(old(tree), z)
        invariant Blocks(tree) == old(Blocks(tree))
        invariant LiveKept(tree, old(mem[..]), mem[..])
        decreases MAX_BLOCK_SHIFT - order
      {
        HeaderFacts(freeLists[..], mem[..], lists, tree, {block}, block);
        BuddyIsBlock(tree, block, order);
        ghost var p := ParentOf(tree, block, order);
        assert Aligned(p, order + 1) by { SubtreeAligned(tree, p, order + 1); }
        var buddy := BuddyOf(block, p);
        HeaderFacts(freeLists[..], mem[..], lists, tree, {block}, buddy);
        if mem[Ix(buddy) + 2] == 0 || mem[Ix(buddy) + 1] != order {
          break;
        }
        RemoveFreeBlock(buddy, {block});
        assert {block} + {buddy} == {block, buddy};
        MergeAgrees(freeLists[..], mem[..], lists, tree, block, order);
        MergeKeepsLive(tree, mem[..], block, order);
        MergeLoose(tree, block, order);
        ghost var m := mem[..];
        if block > buddy {
          block := buddy;
        }
        order := order + 1;
        mem[Ix(block) + 1] := order;
        mem[Ix(block) + 2] := 1;
        assert mem[..] == MergeWords(m, p, order);
        tree := Replace(tree, p, order, Free);
      }
      LooseDone(tree, block, order);
    }

    /** Takes the block at the head of list k, which becomes live. */
    method TakeHead(k: nat) returns (block: nat)
      requires Structured({}) && k <= MAX_BLOCK_SHIFT && lists[k] != [] && Loose(tree, lists[k][0], k)
      modifies this, freeLists, mem
      ensures Valid() && block == old(lists[k][0])
      ensures Arena(old(tree)) && Arena(tree) && Subtree(tree, block, k) &&
          Blocks(tree) == old(Blocks(tree))[block := k]
      ensures lists == old(lists)[k := old(lists[k])[1..]]
      ensures LiveKept(old(tree), old(mem[..]), mem[..])
    {
      hide Agree; hide At; hide LiveByte; hide Put; hide Sized; hide Canonical; hide LiveMap;
      HeadFacts(freeLists[..], mem[..], lists, tree, k);
      block := freeLists[k];
      ghost var l := lists[k];
      RemoveFreeBlock(block, {});
      assert {} + {block} == {block};
      ghost var i: nat :| i < |l| && l[i] == block && lists == old(lists)[k := Without(l, i)];
      HeadOnly(old(freeLists[..]), old(mem[..]), old(lists), old(tree), k, i);
      HeaderFacts(freeLists[..], mem[..], lists, tree, {block}, block);
      MarkAgrees(freeLists[..], mem[..], lists, tree, block, true);
      MarkFacts(tree, block, true);
      ghost var m := mem[..];
      mem[Ix(block) + 2] := 0;
      mem[Ix(block) + 3] := block;
      assert mem[..] == MarkWords(m, block, true);
      tree := Replace(tree, block, k, Live);
      BlockFacts(tree, block);
    }

    /** The smallest order up to the arena's that holds total bytes. */
    method OrderOf(total: nat) returns (order: nat)
      ensures MIN_BLOCK_SHIFT <= order <= MAX_BLOCK_SHIFT
      ensures if Pow2(order) < total then Pow2(MAX_BLOCK_SHIFT) < total else OrderFor(order, total)
    {
      order := MIN_BLOCK_SHIFT;
      while order < MAX_BLOCK_SHIFT && Pow2(order) < total
        invariant MIN_BLOCK_SHIFT <= order <= MAX_BLOCK_SHIFT
        invariant forall j :: MIN_BLOCK_SHIFT <= j < order ==> Pow2(j) < total
      {
        order := order + 1;
      }
    }

    /** The first order from k up whose list is not empty. */
    method FirstList(k: nat) returns (o: nat)
      requires Valid() && k <= MAX_BLOCK_SHIFT
      ensures k <= o <= MAX_BLOCK_SHIFT + 1 && |lists| == MAX_BLOCK_SHIFT + 1
      ensures forall i: nat :: k <= i < o ==> lists[i] == []
      ensures o <= MAX_BLOCK_SHIFT ==> lists[o] != []
    {
      assert Sizes(freeLists[..], mem[..], lists);
      o := k;
      while o <= MAX_BLOCK_SHIFT && freeLists[o] == NULL
        invariant k <= o <= MAX_BLOCK_SHIFT + 1
        invariant forall i: nat :: k <= i < o ==> lists[i] == []
      {
        HeadFacts(freeLists[..], mem[..], lists, tree, o);
        o := o + 1;
      }
      if o <= MAX_BLOCK_SHIFT { HeadFacts(freeLists[..], mem[..], lists, tree, o); }
    }

    /** One round: what is left of the block at f is halved once more. */
    method SplitRound(o: nat, ghost f: nat, ghost j: nat)
      requires Structured({}) && Arena(tree) && MIN_BLOCK_SHIFT < o && Remnant(tree, lists, o, f, j)
      modifies this, freeLists, mem
      ensures Structured({}) && Arena(old(tree)) && Arena(tree) && Remnant(tree, lists, o - 1, f, j)
      ensures SameLive(old(tree), tree) && LiveKept(old(tree), old(mem[..]), mem[..])
    {
      hide Agree; hide At; hide LiveByte; hide Put; hide Sized; hide LiveKept; hide Loose; hide SameLive; hide IsLive;
      hide Replace;
      hide Pow2; hide Subtree; hide Block;
      SplitStep(tree, lists, o, f, j);
      SplitBlock(o);
    }

    /** The splitting loop: the head of list j is halved down to order k. */
    method SplitDown(j: nat, k: nat, ghost f: nat)
      requires Valid() && |lists| == MAX_BLOCK_SHIFT + 1 && MIN_BLOCK_SHIFT <= k <= j <= MAX_BLOCK_SHIFT
      requires lists[j] != [] && lists[j][0] == f
      modifies this, freeLists, mem
      ensures Structured({}) && Arena(old(tree)) && Arena(tree) && Remnant(tree, lists, k, f, j)
      ensures SameLive(old(tree), tree) && LiveKept(old(tree), old(mem[..]), mem[..])
      ensures old(Block(tree, f)) == Some(Leaf(j, false))
    {
      assert Arena(tree) && Sizes(freeLists[..], mem[..], lists);
      hide Agree; hide At; hide LiveByte; hide Put; hide Sized; hide Canonical; hide LiveMap; hide Has; hide Pow2;
      hide LiveKept; hide Carved; hide Loose; hide SameLive; hide IsLive; hide Blocks; hide Replace; hide Subtree;
      hide Block;
      HeadFacts(freeLists[..], mem[..], lists, tree, j);
      CanonicalLoose(tree, f, j);
      SameLiveSelf(tree, mem[..]);
      assert Remnant(tree, lists, j, f, j);
      hide Remnant;
      var o := j;
      while o > k
        invariant Structured({}) && Arena(tree) && k <= o <= j && Remnant(tree, lists, o, f, j)
        invariant SameLive(old(tree), tree) && LiveKept(old(tree), old(mem[..]), mem[..])
      {
        ghost var t, m := tree, mem[..];
        SplitRound(o, f, j);
        KeptTwice(old(tree), t, old(mem[..]), m, mem[..]);
        SameLiveTwice(old(tree), t, tree);
        o := o - 1;
      }
    }

    /** Splits the head of list j down to a live block of order k. */
    method Carve(j: nat, k: nat) returns (block: nat)
      requires Valid() && |lists| == MAX_BLOCK_SHIFT + 1 && MIN_BLOCK_SHIFT <= k <= j <= MAX_BLOCK_SHIFT &&
          lists[j] != []
      modifies this, freeLists, mem
      ensures Valid() && Arena(old(tree)) && Carved(old(tree), tree, block, k)
      ensures block + Pow2(k) == old(lists)[j][0] + Pow2(j)
      ensures LiveKept(old(tree), old(mem[..]), mem[..])
    {
      assert Arena(tree) && Sizes(freeLists[..], mem[..], lists);
      hide Agree; hide At; hide LiveByte; hide Put; hide Sized; hide Canonical; hide LiveMap; hide Has; hide Pow2;
      hide LiveKept; hide Carved; hide Loose; hide SameLive; hide IsLive; hide Blocks; hide Replace; hide Subtree;
      hide Block;
      ghost var f := lists[j][0];
      SplitDown(j, k, f);
      ghost var t, m := tree, mem[..];
      block := TakeHead(k);
      KeptTwice(old(tree), t, old(mem[..]), m, mem[..]);
      SameLiveBlocks(old(tree), t);
      CarvedByNormalForm(old(tree), tree, f, j, block, k);
    }

    method BuddyAlloc(size: nat) returns (p: nat)
      requires Valid() && size <= SIZE_MAX
      modifies this, freeLists, mem
      ensures Valid() && Allocates(old(tree), old(lists), old(mem[..]), tree, lists, mem[..], p, size,
          size + HEADER_SIZE)
    {
      assert Arena(tree) && Sizes(freeLists[..], mem[..], lists);
      hide Agree; hide At; hide LiveByte; hide Put; hide Sized; hide Canonical; hide LiveMap; hide Room; hide Has;
      hide Carved; hide OrderFor; hide Pow2;
      hide LiveKept; hide Served; hide Block; hide Allocates; hide LivePointer;
      ArenaSize();
      ghost var t, ls, m := tree, lists, mem[..];
      if size == 0 {
        Refused(t, ls, m, size, size + HEADER_SIZE);
        return NULL;
      }
      if size > SIZE_MAX - HEADER_SIZE {
        TooLarge(Blocks(tree), size + HEADER_SIZE);
        Refused(t, ls, m, size, size + HEADER_SIZE);
        return NULL;
      }
      var total := size + HEADER_SIZE;
      var order := OrderOf(total);
      if Pow2(order) < total {
        TooLarge(Blocks(tree), total);
        Refused(t, ls, m, size, total);
        return NULL;
      }
      var o := FirstList(order);
      if o > MAX_BLOCK_SHIFT {
        NoRoom(freeLists[..], mem[..], lists, tree, order, total);
        Refused(t, ls, m, size, total);
        return NULL;
      }
      HeadFacts(freeLists[..], mem[..], lists, tree, o);
      FoundRoom(tree, lists[o][0], o, order, total);
      var block := Carve(o, order);
      ServedBy(t, ls, tree, block, o, order, total);
      CarvedAligned(t, tree, block, order);
      PlainPointer(freeLists[..], mem[..], lists, tree, block);
      Granted(t, ls, m, tree, lists, mem[..], block, size, total);
      p := block + HEADER_SIZE;
    }

    method BuddyFree(p: nat)
      requires Valid() && (p == NULL || LivePointer(tree, mem[..], p))
      modifies this, freeLists, mem
      ensures Valid() && Arena(old(tree))
      ensures p == NULL ==> tree == old(tree) && lists == old(lists) && mem[..] == old(mem[..])
      ensures p != NULL ==> var b: nat := old(mem[Ix(p - 4)]);
        && tree == Release(old(tree), MAX_BLOCK_SHIFT, HEAP_START, b)
        && Blocks(tree) == old(Blocks(tree)) - {b}
      ensures LiveKept(tree, old(mem[..]), mem[..])
    {
      assert Arena(tree) && Sizes(freeLists[..], mem[..], lists);
      hide Agree; hide At; hide LiveByte; hide Put; hide Sized; hide Canonical; hide LiveMap; hide Has; hide Release;
      if p == NULL {
        return;
      }
      var block: nat := mem[Ix(p - 4)];
      BlocksAt(tree, block);
      HeaderFacts(freeLists[..], mem[..], lists, tree, {}, block);
      if block == NULL || mem[Ix(block) + 2] != 0 {
        assert false;
      }
      MarkAgrees(freeLists[..], mem[..], lists, tree, block, false);
      MarkFacts(tree, block, false);
      FreedLoose(tree, block);
      ghost var m := mem[..];
      mem[Ix(block) + 2] := 1;
      assert mem[..] == MarkWords(m, block, false);
      tree := Replace(tree, block, Block(tree, block).value.order, Free);
      ghost var x := block;
      block := Coalesce(block);
      InsertFreeBlock(block, {block});
      assert {block} - {block} == {};
      ReleaseSpec(old(tree), MAX_BLOCK_SHIFT, HEAP_START, x);
      NormalForm(tree, Release(old(tree), MAX_BLOCK_SHIFT, HEAP_START, x), MAX_BLOCK_SHIFT, HEAP_START);
    }

    /** A client stores a word in a block it holds. */
    method Store(a: nat, v: Word)
      requires Valid() && Arena(tree) && Payload(tree, a)
      modifies mem
      ensures Valid() && HEAP_START <= a < HEAP_START + 0x40_0000 && mem[..] == old(mem[..])[Ix(a) := v]
    {
      StoreAgrees(freeLists[..], mem[..], lists, tree, a, v);
      mem[Ix(a)] := v;
      assert mem[..] == old(mem[..])[Ix(a) := v];
    }

    /**
     kmalloc fails exactly when no aligned region of the needed size is clear of live blocks.
     */
    method Kmalloc(size: nat) returns (p: nat)
      requires Valid() && size <= SIZE_MAX
      modifies this, freeLists, mem
      ensures Valid() && Allocates(old(tree), old(lists), old(mem[..]), tree, lists, mem[..], p, size,
          Rounded(size) + HEADER_SIZE)
    {
      assert Arena(tree) && Sizes(freeLists[..], mem[..], lists);
      hide Agree; hide Sized; hide Canonical; hide LiveMap; hide Room; hide Served; hide LiveKept; hide AndNot;
      hide LivePointer;
      RoundedFacts(size);
      if size == 0 {
        Refused(tree, lists, mem[..], size, Rounded(size) + HEADER_SIZE);
        return NULL;
      }
      if size > SIZE_MAX - 7 {
        TooLarge(Blocks(tree), Rounded(size) + HEADER_SIZE);
        Refused(tree, lists, mem[..], size, Rounded(size) + HEADER_SIZE);
        return NULL;
      }
      p := BuddyAlloc(AndNot(size + 7, 7));
    }

    method Kfree(p: nat)
      requires Valid() && (p == NULL || LivePointer(tree, mem[..], p))
      modifies this, freeLists, mem
      ensures Valid() && Arena(old(tree))
      ensures p == NULL ==> tree == old(tree) && lists == old(lists) && mem[..] == old(mem[..])
      ensures p != NULL ==> var b: nat := old(mem[Ix(p - 4)]);
        && tree == Release(old(tree), MAX_BLOCK_SHIFT, HEAP_START, b)
        && Blocks(tree) == old(Blocks(tree)) - {b}
      ensures LiveKept(tree, old(mem[..]), mem[..])
    {
      BuddyFree(p);
    }

    /** The power of two kmalloc_aligned works with, or failure when it would not fit in a word. */
    method PowerFor(alignment: nat) returns (a: nat)
      requires 0 < alignment <= SIZE_MAX
      ensures exists j: nat :: LeastPower(j, alignment) && a == if Pow2(j) > SIZE_MAX then 0 else Pow2(j)
    {
      PowerOfTwo(alignment);
      ghost var j: nat := 0;
      if And(alignment, alignment - 1) != 0 {
        a := 1;
        while a < alignment
          invariant a == Pow2(j) && a <= SIZE_MAX && forall i: nat :: i < j ==> Pow2(i) < alignment
          decreases 2 * alignment - a
        {
          if a > SIZE_MAX / 2 {
            assert LeastPower(j + 1, alignment);
            return 0;
          }
          a, j := 2 * a, j + 1;
        }
      } else {
        a := alignment;
        j :| alignment == Pow2(j);
        forall i: nat | i < j ensures Pow2(i) < alignment { Pow2Mono(i, j - 1); }
      }
      assert LeastPower(j, alignment);
    }

    /** Rounds a fresh pointer up to the alignment and stores its block's address in the word before it. */
    method PlaceBackPointer(raw: nat, a: nat, ghost t: Tree, ghost ls: seq<seq<nat>>, ghost m: seq<Word>,
            ghost size: nat, ghost j: nat, ghost wanted: nat)
      returns (p: nat)
      requires Valid() && size > 0 && LeastPower(j, wanted) && wanted >= 4 && a == Pow2(j) && raw != NULL
      requires Allocates(t, ls, m, tree, lists, mem[..], raw, size + Pow2(j) + 4,
          Rounded(size + Pow2(j) + 4) + HEADER_SIZE)
      modifies mem
      ensures Valid() && p != NULL && AllocatesAligned(t, ls, m, tree, lists, mem[..], p, size, j)
    {
      hide Agree; hide Canonical; hide AndNot; hide Rounded; hide Pow2; hide LeastPower; hide Allocates;
      hide AllocatesAligned;
      p := AndNot(raw + 4 + a - 1, a - 1);
      ghost var b := BackPointerAgrees(freeLists[..], t, ls, m, tree, lists, mem[..], raw, size, j, wanted, p);
      mem[Ix(p - 4)] := raw - HEADER_SIZE;
      assert mem[..] == old(mem[..])[Ix(p - 4) := b];
    }

    /** The request itself, once the alignment is a power of two and the total fits a word. */
    method AlignedFrom(size: nat, a: nat, ghost j: nat, ghost wanted: nat) returns (p: nat)
      requires Valid() && 0 < size && size + a + 4 <= SIZE_MAX && LeastPower(j, wanted) && wanted >= 4 && a == Pow2(j)
      modifies this, freeLists, mem
      ensures Valid() && AllocatesAligned(old(tree), old(lists), old(mem[..]), tree, lists, mem[..], p, size, j)
    {
      assert Arena(tree) && Sizes(freeLists[..], mem[..], lists);
      hide Agree; hide Sized; hide Canonical; hide LiveMap; hide Room; hide LiveKept; hide Served;
      hide AndNot; hide Rounded; hide Pow2; hide LeastPower; hide AllocatesAligned; hide Payload; hide LivePointer;
      hide Allocates; hide Valid;
      ghost var t, ls, m := tree, lists, mem[..];
      var total := size + a + 4;
      var raw := Kmalloc(total);
      if raw == NULL {
        RefusedAligned(t, ls, m, tree, lists, mem[..], size, j);
        return NULL;
      }
      p := PlaceBackPointer(raw, a, t, ls, m, size, j, wanted);
    }

    /** kmalloc_aligned, with the exponent j of the alignment it rounds up to. */
    method KmallocAligned(size: nat, alignment: nat) returns (p: nat, ghost j: nat)
      requires Valid() && size <= SIZE_MAX && alignment <= SIZE_MAX
      modifies this, freeLists, mem
      ensures Valid() && LeastPower(j, if alignment < 4 then 4 else alignment)
      ensures AllocatesAligned(old(tree), old(lists), old(mem[..]), tree, lists, mem[..], p, size, j)
    {
      assert Arena(tree) && Sizes(freeLists[..], mem[..], lists);
      hide Agree; hide Sized; hide Canonical; hide LiveMap; hide Room; hide LiveKept; hide Served;
      hide AndNot; hide Rounded; hide Pow2; hide LeastPower; hide AllocatesAligned; hide Payload; hide LivePointer;
      hide Allocates; hide Valid;
      var wanted := if alignment < 4 then 4 else alignment;
      var a := PowerFor(wanted);
      j :| LeastPower(j, wanted) && a == if Pow2(j) > SIZE_MAX then 0 else Pow2(j);
      if size == 0 {
        AlignedRefused(tree, lists, mem[..], size, j);
        return NULL, j;
      }
      if a == 0 || size > SIZE_MAX - a - 4 {
        RoundedFacts(size + Pow2(j) + 4);
        TooLarge(Blocks(tree), Rounded(size + Pow2(j) + 4) + HEADER_SIZE);
        AlignedRefused(tree, lists, mem[..], size, j);
        return NULL, j;
      }
      p := AlignedFrom(size, a, j, wanted);
    }
  }
}
