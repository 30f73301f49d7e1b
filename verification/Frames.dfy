/**
 The physical frame allocator: a stack of free pages and a bitmap of the free frames, which agree.
 */
module Frames {
  import opened Basics
  import opened Bits

  const PAGE_SIZE: nat := 4096
  const MAX_FRAMES: nat := 32768
  const BITMAP_WORDS: nat := 1025

  function Frame(page: nat): nat {
    page / PAGE_SIZE
  }

  /** The bitmap's bit for a frame. */
  predicate FrameBit(bitmap: seq<Word>, f: nat)
    requires |bitmap| == BITMAP_WORDS && f < 32 * BITMAP_WORDS
  {
    Bit(bitmap[f / 32], f % 32)
  }

  ghost predicate OnStack(stack: seq<nat>, f: nat) {
    exists i :: 0 <= i < |stack| && Frame(stack[i]) == f
  }

  /** No frame is on the stack twice. */
  ghost predicate DistinctFrames(stack: seq<nat>) {
    forall i, j :: 0 <= i < j < |stack| ==> Frame(stack[i]) != Frame(stack[j])
  }

  ghost predicate InBitmap(stack: seq<nat>) {
    forall i :: 0 <= i < |stack| ==> Frame(stack[i]) < 32 * BITMAP_WORDS
  }

  /** A bit is set exactly for the frames on the stack. */
  ghost predicate Agree(bitmap: seq<Word>, stack: seq<nat>) {
    && |bitmap| == BITMAP_WORDS && |stack| <= MAX_FRAMES && DistinctFrames(stack) && InBitmap(stack)
    && forall f: nat :: f < 32 * BITMAP_WORDS ==> (FrameBit(bitmap, f) <==> OnStack(stack, f))
  }

  lemma PushAgrees(bitmap: seq<Word>, stack: seq<nat>, page: nat, w: Word)
    requires Agree(bitmap, stack) && |stack| < MAX_FRAMES
    requires Frame(page) < 32 * BITMAP_WORDS && !FrameBit(bitmap, Frame(page))
    requires w == Or(bitmap[Frame(page) / 32], Pow2(Frame(page) % 32))
    ensures Agree(bitmap[Frame(page) / 32 := w], stack + [page])
  {
    var p := Frame(page);
    var bitmap', stack' := bitmap[p / 32 := w], stack + [page];
    forall f: nat | f < 32 * BITMAP_WORDS ensures FrameBit(bitmap', f) <==> OnStack(stack', f) {
      SetBit(bitmap[p / 32], p % 32, f % 32);
      assert f == 32 * (f / 32) + f % 32 && p == 32 * (p / 32) + p % 32;
      if OnStack(stack, f) {
        var i :| 0 <= i < |stack| && Frame(stack[i]) == f;
        assert stack'[i] == stack[i];
      }
      assert stack'[|stack|] == page;
    }
    assert !OnStack(stack, p);
  }

  lemma PopAgrees(bitmap: seq<Word>, stack: seq<nat>, w: Word)
    requires Agree(bitmap, stack) && stack != []
    ensures var p := Frame(stack[|stack| - 1]);
      p < 32 * BITMAP_WORDS && (w == AndNot(bitmap[p / 32], Pow2(p % 32)) ==>
          Agree(bitmap[p / 32 := w], stack[..|stack| - 1]))
  {
    var n := |stack| - 1;
    var p, stack' := Frame(stack[n]), stack[..n];
    if w == AndNot(bitmap[p / 32], Pow2(p % 32)) {
      var bitmap' := bitmap[p / 32 := w];
      forall f: nat | f < 32 * BITMAP_WORDS ensures FrameBit(bitmap', f) <==> OnStack(stack', f) {
        ClearBit(bitmap[p / 32], p % 32, f % 32);
        assert f == 32 * (f / 32) + f % 32 && p == 32 * (p / 32) + p % 32;
        if OnStack(stack', f) {
          var i :| 0 <= i < |stack'| && Frame(stack'[i]) == f;
          assert stack[i] == stack'[i];
        }
        if OnStack(stack, f) && f != p {
          var i :| 0 <= i < |stack| && Frame(stack[i]) == f;
          assert stack'[i] == stack[i];
        }
      }
    }
  }

  // ---------------------------------------------------------------- the stack cannot overflow

  lemma OnStackMore(stack: seq<nat>, f: nat)
    requires stack != []
    ensures OnStack(stack, f) <==> OnStack(stack[..|stack| - 1], f) || f == Frame(stack[|stack| - 1])
  {
    var m := |stack| - 1;
    if OnStack(stack, f) {
      var i :| 0 <= i < |stack| && Frame(stack[i]) == f;
      if i < m { assert stack[..m][i] == stack[i]; }
    }
    if OnStack(stack[..m], f) {
      var i :| 0 <= i < m && Frame(stack[..m][i]) == f;
      assert stack[i] == stack[..m][i];
    }
  }

  lemma {:induction false} Pigeonhole(stack: seq<nat>, n: nat) returns (frames: set<nat>)
    requires DistinctFrames(stack) && forall i :: 0 <= i < |stack| ==> Frame(stack[i]) < n
    ensures |frames| == |stack| && (forall f :: f in frames ==> f < n)
    ensures forall f: nat :: f in frames <==> OnStack(stack, f)
  {
    if stack == [] {
      frames := {};
    } else {
      var m := |stack| - 1;
      frames := Pigeonhole(stack[..m], n);
      var top := Frame(stack[m]);
      assert !OnStack(stack[..m], top);
      forall f: nat ensures f in frames + {top} <==> OnStack(stack, f) { OnStackMore(stack, f); }
      frames := frames + {top};
    }
  }

  lemma {:induction false} Below(s: set<nat>, n: nat)
    requires forall f :: f in s ==> f < n
    ensures |s| <= n
  {
    if n == 0 {
      assert s == {};
    } else {
      Below(s - {n - 1}, n - 1);
    }
  }

  /** Freeing a frame below MAX_FRAMES that is not free never finds the stack full. */
  lemma NeverFull(stack: seq<nat>, page: nat)
    requires DistinctFrames(stack) && (forall i :: 0 <= i < |stack| ==> Frame(stack[i]) < MAX_FRAMES)
    requires Frame(page) < MAX_FRAMES && !OnStack(stack, Frame(page))
    ensures |stack| < MAX_FRAMES
  {
    var frames := Pigeonhole(stack, MAX_FRAMES);
    Below(frames + {Frame(page)}, MAX_FRAMES);
  }

  // ---------------------------------------------------------------- the allocator

  class FrameAllocator {
    const bitmap: array<Word>
    const freeStack: array<nat>
    var stackTop: nat
    var totalFrames: nat
    var freePageCount: nat

    ghost predicate Shape()
      reads this
    {
      bitmap.Length == BITMAP_WORDS && freeStack.Length == MAX_FRAMES && stackTop <= MAX_FRAMES
    }

    /** The free pages, the next one to be handed out last. */
    ghost function Stack(): seq<nat>
      requires Shape()
      reads this, freeStack
    {
      freeStack[..stackTop]
    }

    ghost predicate Valid()
      reads this, bitmap, freeStack
    {
      Shape() && freePageCount == stackTop && Agree(bitmap[..], Stack())
    }

    /** Static storage, all zero. */
    constructor ()
      ensures Valid() && Stack() == [] && fresh(bitmap) && fresh(freeStack)
    {
      bitmap := new Word[BITMAP_WORDS](_ => 0);
      freeStack := new nat[MAX_FRAMES](_ => 0);
      stackTop, totalFrames, freePageCount := 0, 0, 0;
      new;
      AllClear(bitmap[..]);
    }

    method Init(totalMemory: nat)
      requires Shape()
      modifies this, bitmap
      ensures Valid() && Stack() == [] && totalFrames == totalMemory / PAGE_SIZE
    {
      totalFrames := totalMemory / PAGE_SIZE;
      stackTop := 0;
      freePageCount := 0;
      var i := 0;
      while i < bitmap.Length
        invariant stackTop == 0 && freePageCount == 0 && totalFrames == totalMemory / PAGE_SIZE
        invariant i <= bitmap.Length && forall j :: 0 <= j < i ==> bitmap[j] == 0
      {
        bitmap[i] := 0;
        i := i + 1;
      }
      AllClear(bitmap[..]);
    }

    /** NULL when no page is free; the page handed out may itself be page 0. */
    method AllocPage() returns (page: nat)
      requires Valid()
      modifies this, bitmap
      ensures Valid() && totalFrames == old(totalFrames)
      ensures old(Stack()) == [] ==> page == NULL && Stack() == []
      ensures old(Stack()) != [] ==> Stack() + [page] == old(Stack())
    {
      if stackTop == 0 {
        return NULL;
      }
      ghost var stack, bits := Stack(), bitmap[..];
      stackTop := stackTop - 1;
      page := freeStack[stackTop];
      assert page == stack[|stack| - 1];
      assert InBitmap(stack);
      var index := Frame(page);
      ClearBit(bitmap[index / 32], index % 32, 0);
      var w: Word := AndNot(bitmap[index / 32], Pow2(index % 32));
      PopAgrees(bits, stack, w);
      bitmap[index / 32] := w;
      assert bitmap[..] == bits[index / 32 := w];
      assert Stack() == stack[..|stack| - 1];
      if freePageCount > 0 {
        freePageCount := freePageCount - 1;
      }
    }

    /** A page of a free frame is refused, as is any page once the stack is full. */
    method FreePage(page: nat)
      requires Valid() && Frame(page) < 32 * BITMAP_WORDS
      modifies this, bitmap, freeStack
      ensures Valid() && totalFrames == old(totalFrames)
      ensures Stack() == if OnStack(old(Stack()), Frame(page)) || |old(Stack())| >= MAX_FRAMES then old(Stack())
          else old(Stack()) + [page]
    {
      var index := Frame(page);
      ghost var stack, bits := Stack(), bitmap[..];
      TestBit(bitmap[index / 32], index % 32);
      assert FrameBit(bits, index) <==> OnStack(stack, index);
      if And(bitmap[index / 32], Pow2(index % 32)) != 0 {
        return;
      }
      if stackTop >= MAX_FRAMES {
        return;
      }
      freeStack[stackTop] := page;
      stackTop := stackTop + 1;
      WordOr(bitmap[index / 32], index % 32);
      var w: Word := Or(bitmap[index / 32], Pow2(index % 32));
      PushAgrees(bits, stack, page, w);
      bitmap[index / 32] := w;
      assert bitmap[..] == bits[index / 32 := w];
      assert Stack() == stack + [page];
      freePageCount := freePageCount + 1;
    }

    method FreePageCount() returns (n: nat)
      requires Valid()
      ensures n == |Stack()|
    {
      n := freePageCount;
    }
  }

  lemma AllClear(bitmap: seq<Word>)
    requires |bitmap| == BITMAP_WORDS && forall j :: 0 <= j < |bitmap| ==> bitmap[j] == 0
    ensures Agree(bitmap, [])
  {
    forall f: nat | f < 32 * BITMAP_WORDS ensures !FrameBit(bitmap, f) { NoBits(f % 32); }
  }

  lemma WordOr(w: Word, i: nat)
    requires i < 32
    ensures Or(w, Pow2(i)) < WORD
  {
    assert Pow2(32) == WORD by { assert Pow2(10) == 1024 && Pow2(20) == 0x10_0000; }
    Pow2Mono(i + 1, 32);
    OrBound(w, Pow2(i), 32);
  }
}
