/**
 The boot loader's memory map: the walks that feed the frame allocator.

 Memory is seen as a function from an address to the map entry stored there.  Entries lie one after another, each
 followed by the next at its size field's value plus the four bytes of that field.
 */
module Multiboot {
  import opened Basics
  import opened Frames

  const KERNEL_START: nat := 0x10_0000
  const AVAILABLE: nat := 1

  datatype MapEntry = MapEntry(size: nat, base: nat, length: nat, kind: nat)

  /** The entries from address p up to the end of the map. */
  function Entries(memory: nat -> MapEntry, p: nat, end: nat): seq<MapEntry>
    decreases end - p
  {
    if p >= end then [] else [memory(p)] + Entries(memory, p + memory(p).size + 4, end)
  }

  function TotalAvailable(entries: seq<MapEntry>): nat {
    if entries == [] then 0
    else (if entries[0].kind == AVAILABLE then entries[0].length else 0) + TotalAvailable(entries[1..])
  }

  /** Past an entry: its size field does not count its own four bytes. */
  function Past(memory: nat -> MapEntry, p: nat): nat {
    p + memory(p).size + 4
  }

  /** Where entries lie: the first at start, each next one past the one before, all below the end and no further one. */
  ghost predicate Laid(memory: nat -> MapEntry, at: seq<nat>, start: nat, end: nat) {
    if at == [] then start >= end
    else
      && at[0] == start && (forall i :: 0 <= i < |at| ==> at[i] < end)
      && (forall i :: 0 < i < |at| ==> at[i] == Past(memory, at[i - 1]))
      && Past(memory, at[|at| - 1]) >= end
  }

  lemma LaidTail(memory: nat -> MapEntry, at: seq<nat>, start: nat, end: nat)
    requires Laid(memory, at, start, end) && at != []
    ensures start < end && Laid(memory, at[1..], Past(memory, start), end)
  {
    hide Past;
    var rest := at[1..];
    assert |at| > 1 ==> at[1] == Past(memory, at[0]);
    forall i | 0 < i < |rest| ensures rest[i] == Past(memory, rest[i - 1]) { assert rest[i] == at[i + 1]; }
  }

  /** The walk reads exactly the entries at those addresses, in order. */
  lemma {:induction false} EntriesAt(memory: nat -> MapEntry, at: seq<nat>, start: nat, end: nat)
    requires Laid(memory, at, start, end)
    ensures |Entries(memory, start, end)| == |at|
    ensures forall i :: 0 <= i < |at| ==> Entries(memory, start, end)[i] == memory(at[i])
    decreases |at|
  {
    if at == [] {
      EntriesStep(memory, start, end);
    } else {
      LaidTail(memory, at, start, end);
      assert at[0] == start;
      EntriesStep(memory, start, end);
      hide Laid; hide Entries; hide Past;
      EntriesAt(memory, at[1..], Past(memory, start), end);
      var rest := Entries(memory, Past(memory, start), end);
      forall i | 0 <= i < |at| ensures ([memory(start)] + rest)[i] == memory(at[i]) {
        if i > 0 { assert at[1..][i - 1] == at[i]; }
      }
    }
  }

  lemma EntriesStep(memory: nat -> MapEntry, start: nat, end: nat)
    ensures start >= end ==> Entries(memory, start, end) == []
    ensures start < end ==> Entries(memory, start, end) == [memory(start)] + Entries(memory, Past(memory, start), end)
  {
  }

  lemma LaidMore(memory: nat -> MapEntry, rest: seq<nat>, start: nat, end: nat)
    requires Laid(memory, rest, Past(memory, start), end) && start < end
    ensures Laid(memory, [start] + rest, start, end)
  {
    hide Past;
    var at := [start] + rest;
    forall i | 0 < i < |at| ensures at[i] == Past(memory, at[i - 1]) {
      assert at[i] == rest[i - 1];
      if i > 1 { assert at[i - 1] == rest[i - 1 - 1]; }
    }
  }

  /** Every map is laid out so. */
  lemma {:induction false} LaidOut(memory: nat -> MapEntry, start: nat, end: nat) returns (at: seq<nat>)
    ensures Laid(memory, at, start, end)
    decreases end - start
  {
    if start >= end {
      at := [];
    } else {
      at := LaidOut(memory, Past(memory, start), end);
      LaidMore(memory, at, start, end);
      at := [start] + at;
    }
  }

  /** The ordinary map, of entries whose size field is 20, has them 24 bytes apart. */
  lemma OrdinaryMap(memory: nat -> MapEntry, start: nat, n: nat, i: nat)
    requires (forall p: nat :: memory(p).size == 20) && i < n
    ensures var es := Entries(memory, start, start + 24 * n); |es| == n && es[i] == memory(start + 24 * i)
  {
    var at := seq(n, k requires 0 <= k < n => start + 24 * k);
    EntriesAt(memory, at, start, start + 24 * n);
  }

  lemma {:induction false} TotalMore(entries: seq<MapEntry>, e: MapEntry)
    ensures TotalAvailable(entries + [e]) == TotalAvailable(entries) + if e.kind == AVAILABLE then e.length else 0
  {
    if entries == [] {
      assert entries + [e] == [e];
    } else {
      assert (entries + [e])[1..] == entries[1..] + [e];
      TotalMore(entries[1..], e);
    }
  }

  /** The lengths of available regions that adjoin add up to what they span. */
  lemma {:induction false} AdjoiningTotal(entries: seq<MapEntry>)
    requires entries != [] && forall i :: 0 <= i < |entries| ==> entries[i].kind == AVAILABLE
    requires forall i :: 0 < i < |entries| ==> entries[i].base == entries[i - 1].base + entries[i - 1].length
    ensures var last := entries[|entries| - 1]; TotalAvailable(entries) == last.base + last.length - entries[0].base
  {
    var n := |entries| - 1;
    assert entries == entries[..n] + [entries[n]];
    TotalMore(entries[..n], entries[n]);
    if n > 0 { AdjoiningTotal(entries[..n]); }
  }

  /** A region within the frames the allocator can number.  It need not begin or end on a page boundary. */
  ghost predicate Usable(e: MapEntry) {
    e.kind == AVAILABLE ==> e.base + e.length <= MAX_FRAMES * PAGE_SIZE
  }

  /** An address that the walk of an available region reaches, outside the kernel image: a page begins there. */
  ghost predicate Offered(e: MapEntry, kernelEnd: nat, page: nat) {
    e.kind == AVAILABLE && e.base <= page < e.base + e.length && (page - e.base) % PAGE_SIZE == 0 &&
        !(KERNEL_START <= page < kernelEnd)
  }

  ghost predicate Free(entries: seq<MapEntry>, kernelEnd: nat, page: nat) {
    exists i :: 0 <= i < |entries| && Offered(entries[i], kernelEnd, page)
  }

  /** Offered by an entry of done, or by e below addr. */
  ghost predicate Reached(done: seq<MapEntry>, e: MapEntry, kernelEnd: nat, addr: nat, page: nat) {
    Free(done, kernelEnd, page) || (Offered(e, kernelEnd, page) && page < addr)
  }

  /** The stack holds pages of done, and of e below addr, one for each of their frames; all of them low frames. */
  ghost predicate Filled(stack: seq<nat>, done: seq<MapEntry>, e: MapEntry, kernelEnd: nat, addr: nat) {
    && (forall i :: 0 <= i < |stack| ==> Frame(stack[i]) < MAX_FRAMES && Reached(done, e, kernelEnd, addr, stack[i]))
    && (forall page: nat :: Reached(done, e, kernelEnd, addr, page) ==> OnStack(stack, Frame(page)))
  }

  lemma OnStackKept(stack: seq<nat>, page: nat, f: nat)
    requires OnStack(stack, f)
    ensures OnStack(stack + [page], f)
  {
    var i :| 0 <= i < |stack| && Frame(stack[i]) == f;
    assert (stack + [page])[i] == stack[i];
  }

  lemma ReachedStep(done: seq<MapEntry>, e: MapEntry, kernelEnd: nat, addr: nat, page: nat)
    requires e.kind == AVAILABLE && e.base <= addr < e.base + e.length && (addr - e.base) % PAGE_SIZE == 0
    ensures Reached(done, e, kernelEnd, addr + PAGE_SIZE, page)
      <==> Reached(done, e, kernelEnd, addr, page) || (page == addr && !(KERNEL_START <= addr < kernelEnd))
  {
    hide Free;
    if addr < page < addr + PAGE_SIZE && page < e.base + e.length {
      BetweenPages(addr - e.base, page - e.base);
    }
  }

  lemma BetweenPages(a: nat, b: nat)
    requires a % PAGE_SIZE == 0 && a < b < a + PAGE_SIZE
    ensures b % PAGE_SIZE != 0
  {
    assert b % PAGE_SIZE == b - a;
  }

  lemma FilledStep(stack: seq<nat>, done: seq<MapEntry>, e: MapEntry, kernelEnd: nat, addr: nat, stack': seq<nat>)
    requires Filled(stack, done, e, kernelEnd, addr) && Usable(e) && e.kind == AVAILABLE
    requires (addr - e.base) % PAGE_SIZE == 0 && e.base <= addr < e.base + e.length
    requires if KERNEL_START <= addr < kernelEnd then stack' == stack
             else stack' == if OnStack(stack, Frame(addr)) then stack else stack + [addr]
    ensures Filled(stack', done, e, kernelEnd, addr + PAGE_SIZE)
  {
    forall page: nat
      ensures Reached(done, e, kernelEnd, addr + PAGE_SIZE, page)
        <==> Reached(done, e, kernelEnd, addr, page) || (page == addr && !(KERNEL_START <= addr < kernelEnd))
    {
      ReachedStep(done, e, kernelEnd, addr, page);
    }
    hide Reached;
    forall page: nat | Reached(done, e, kernelEnd, addr + PAGE_SIZE, page) ensures OnStack(stack', Frame(page)) {
      if Reached(done, e, kernelEnd, addr, page) && stack' != stack { OnStackKept(stack, addr, Frame(page)); }
      if page == addr && stack' != stack { assert stack'[|stack|] == addr; }
    }
  }

  lemma FreeMore(done: seq<MapEntry>, e: MapEntry, kernelEnd: nat, page: nat)
    ensures Free(done + [e], kernelEnd, page) <==> Free(done, kernelEnd, page) || Offered(e, kernelEnd, page)
  {
    var more := done + [e];
    if Free(done, kernelEnd, page) {
      var i :| 0 <= i < |done| && Offered(done[i], kernelEnd, page);
      assert more[i] == done[i];
    }
    if Offered(e, kernelEnd, page) { assert more[|done|] == e; }
  }

  lemma FilledDone(stack: seq<nat>, done: seq<MapEntry>, e: MapEntry, kernelEnd: nat, none: MapEntry)
    requires Filled(stack, done, e, kernelEnd, e.base + e.length) && none.kind != AVAILABLE
    ensures Filled(stack, done + [e], none, kernelEnd, 0)
  {
    forall page: nat
      ensures Reached(done + [e], none, kernelEnd, 0, page) <==> Reached(done, e, kernelEnd, e.base + e.length, page)
    {
      FreeMore(done, e, kernelEnd, page);
    }
    hide Reached;
  }

  /** Frees the pages of one available region, except the kernel's own. */
  method FreeRegion(allocator: FrameAllocator, e: MapEntry, kernelEnd: nat, ghost done: seq<MapEntry>)
    requires allocator.Valid() && Usable(e) && e.kind == AVAILABLE
    requires Filled(allocator.Stack(), done, e, kernelEnd, e.base)
    modifies allocator, allocator.bitmap, allocator.freeStack
    ensures allocator.Valid() && allocator.totalFrames == old(allocator.totalFrames)
    ensures Filled(allocator.Stack(), done, e, kernelEnd, e.base + e.length)
  {
    var addr := e.base;
    while addr < e.base + e.length
      invariant e.base <= addr && (addr - e.base) % PAGE_SIZE == 0
      invariant allocator.Valid() && allocator.totalFrames == old(allocator.totalFrames)
      invariant Filled(allocator.Stack(), done, e, kernelEnd, addr)
    {
      FreeOne(allocator, e, kernelEnd, done, addr);
      addr := addr + PAGE_SIZE;
    }
    FilledPast(allocator.Stack(), done, e, kernelEnd, addr);
  }

  /** Past the region's end there is nothing more to reach. */
  lemma FilledPast(stack: seq<nat>, done: seq<MapEntry>, e: MapEntry, kernelEnd: nat, addr: nat)
    requires Filled(stack, done, e, kernelEnd, addr) && e.base + e.length <= addr
    ensures Filled(stack, done, e, kernelEnd, e.base + e.length)
  {
    assert forall page: nat ::
      Reached(done, e, kernelEnd, addr, page) <==> Reached(done, e, kernelEnd, e.base + e.length, page);
    hide Reached;
  }

  /** One page of the region, skipped when the kernel has it. */
  method FreeOne(allocator: FrameAllocator, e: MapEntry, kernelEnd: nat, ghost done: seq<MapEntry>, addr: nat)
    requires allocator.Valid() && Usable(e) && e.kind == AVAILABLE &&
        Filled(allocator.Stack(), done, e, kernelEnd, addr)
    requires e.base <= addr < e.base + e.length && (addr - e.base) % PAGE_SIZE == 0
    modifies allocator, allocator.bitmap, allocator.freeStack
    ensures allocator.Valid() && allocator.totalFrames == old(allocator.totalFrames)
    ensures Filled(allocator.Stack(), done, e, kernelEnd, addr + PAGE_SIZE)
  {
    ghost var stack := allocator.Stack();
    if !(KERNEL_START <= addr < kernelEnd) {
      if !OnStack(stack, Frame(addr)) { NeverFull(stack, addr); }
      allocator.FreePage(addr);
    }
    FilledStep(stack, done, e, kernelEnd, addr, allocator.Stack());
  }

  ghost predicate AllUsable(entries: seq<MapEntry>) {
    forall i :: 0 <= i < |entries| ==> Usable(entries[i])
  }

  lemma TotalStep(memory: nat -> MapEntry, p: nat, end: nat)
    ensures p >= end ==> TotalAvailable(Entries(memory, p, end)) == 0
    ensures p < end ==>
      TotalAvailable(Entries(memory, p, end))
        == (if memory(p).kind == AVAILABLE then memory(p).length else 0)
           + TotalAvailable(Entries(memory, p + memory(p).size + 4, end))
  {
    if p < end {
      var rest := Entries(memory, p + memory(p).size + 4, end);
      assert Entries(memory, p, end)[1..] == rest;
    }
  }

  lemma WrapStep(a: nat, b: nat)
    ensures (a % WORD + b) % WORD == (a + b) % WORD
  {
    var q := a / WORD;
    assert a + b == WORD * q + (a % WORD + b);
    WrapMore(a % WORD + b, q);
  }

  lemma WrapMore(x: nat, q: nat)
    ensures (WORD * q + x) % WORD == x % WORD
  {
    assert WORD * q + x == WORD * (q + x / WORD) + x % WORD;
  }

  /** The 32-bit sum of the available lengths. */
  method CountAvailable(memory: nat -> MapEntry, mapAddr: nat, end: nat) returns (total: nat)
    ensures total == TotalAvailable(Entries(memory, mapAddr, end)) % WORD
  {
    hide Entries; hide TotalAvailable;
    total := 0;
    var p := mapAddr;
    ghost var sum: nat := 0;
    while p < end
      invariant sum + TotalAvailable(Entries(memory, p, end)) == TotalAvailable(Entries(memory, mapAddr, end))
      invariant total == sum % WORD
      decreases end - p
    {
      TotalStep(memory, p, end);
      var e := memory(p);
      if e.kind == AVAILABLE {
        WrapStep(sum, e.length);
        total := (total + e.length) % WORD;
        sum := sum + e.length;
      }
      p := p + e.size + 4;
    }
    TotalStep(memory, p, end);
  }

  method FreeAvailable(allocator: FrameAllocator, memory: nat -> MapEntry, mapAddr: nat, end: nat, kernelEnd: nat)
    requires allocator.Valid() && allocator.Stack() == [] && AllUsable(Entries(memory, mapAddr, end))
    modifies allocator, allocator.bitmap, allocator.freeStack
    ensures allocator.Valid() && allocator.totalFrames == old(allocator.totalFrames)
    ensures Filled(allocator.Stack(), Entries(memory, mapAddr, end), MapEntry(0, 0, 0, 0), kernelEnd, 0)
  {
    ghost var entries := Entries(memory, mapAddr, end);
    ghost var none := MapEntry(0, 0, 0, 0);
    ghost var done: seq<MapEntry> := [];
    var p := mapAddr;
    FilledNone(none, kernelEnd);
    hide Entries; hide Filled; hide Usable; hide Past; hide Agree;
    while p < end
      invariant allocator.Valid() && allocator.totalFrames == old(allocator.totalFrames)
      invariant entries == done + Entries(memory, p, end)
      invariant Filled(allocator.Stack(), done, none, kernelEnd, 0)
      decreases end - p
    {
      var e := memory(p);
      EntriesStep(memory, p, end);
      assert entries[|done|] == e;
      if e.kind == AVAILABLE {
        FilledOther(allocator.Stack(), done, none, 0, e, kernelEnd, e.base);
        FreeRegion(allocator, e, kernelEnd, done);
      } else {
        FilledOther(allocator.Stack(), done, none, 0, e, kernelEnd, e.base + e.length);
      }
      FilledDone(allocator.Stack(), done, e, kernelEnd, none);
      NextEntry(memory, p);
      assert entries == (done + [e]) + Entries(memory, Past(memory, p), end);
      done := done + [e];
      p := p + e.size + 4;
    }
    EntriesStep(memory, p, end);
    assert done == entries;
  }

  lemma FilledNone(none: MapEntry, kernelEnd: nat)
    requires none.kind != AVAILABLE
    ensures Filled([], [], none, kernelEnd, 0)
  {
  }

  lemma NextEntry(memory: nat -> MapEntry, p: nat)
    ensures Past(memory, p) == p + memory(p).size + 4
  {
  }

  /** An entry that has offered nothing yet can stand for another. */
  lemma FilledOther(stack: seq<nat>, done: seq<MapEntry>, e: MapEntry, addr: nat, e': MapEntry, kernelEnd: nat,
          addr': nat)
    requires Filled(stack, done, e, kernelEnd, addr)
    requires e.kind != AVAILABLE || addr <= e.base
    requires e'.kind != AVAILABLE || addr' <= e'.base
    ensures Filled(stack, done, e', kernelEnd, addr')
  {
  }

  /**
   After boot every free page was offered by the map outside the kernel image, and every page offered is free, or
   another that begins in the same frame is.
   */
  method ParseMemoryMap(allocator: FrameAllocator, memory: nat -> MapEntry, mapAddr: nat, mapLength: nat,
          kernelEnd: nat)
    requires allocator.Shape() && AllUsable(Entries(memory, mapAddr, mapAddr + mapLength))
    modifies allocator, allocator.bitmap, allocator.freeStack
    ensures allocator.Valid()
    ensures var entries := Entries(memory, mapAddr, mapAddr + mapLength);
      && allocator.totalFrames == TotalAvailable(entries) % WORD / PAGE_SIZE
      && FreedFrom(allocator.Stack(), entries, kernelEnd)
  {
    var total := CountAvailable(memory, mapAddr, mapAddr + mapLength);
    allocator.Init(total);
    FreeAvailable(allocator, memory, mapAddr, mapAddr + mapLength, kernelEnd);
    FilledAll(allocator.Stack(), Entries(memory, mapAddr, mapAddr + mapLength), MapEntry(0, 0, 0, 0), kernelEnd);
  }

  ghost predicate FreedFrom(stack: seq<nat>, entries: seq<MapEntry>, kernelEnd: nat) {
    && (forall page :: page in stack ==> Free(entries, kernelEnd, page))
    && (forall page: nat :: Free(entries, kernelEnd, page) ==> OnStack(stack, Frame(page)))
  }

  lemma FilledAll(stack: seq<nat>, entries: seq<MapEntry>, none: MapEntry, kernelEnd: nat)
    requires Filled(stack, entries, none, kernelEnd, 0)
    ensures FreedFrom(stack, entries, kernelEnd)
  {
    hide Free;
    forall page: nat | Free(entries, kernelEnd, page) ensures OnStack(stack, Frame(page)) {
      assert Reached(entries, none, kernelEnd, 0, page);
    }
  }

  /**
   So the free pages are those of the entries that lie at the addresses, one size field and four bytes after
   another.
   */
  lemma FreedAt(memory: nat -> MapEntry, at: seq<nat>, start: nat, end: nat, stack: seq<nat>, kernelEnd: nat)
    requires Laid(memory, at, start, end) && FreedFrom(stack, Entries(memory, start, end), kernelEnd)
    ensures forall page :: page in stack ==> exists i :: 0 <= i < |at| && Offered(memory(at[i]), kernelEnd, page)
    ensures forall i, page: nat :: 0 <= i < |at| && Offered(memory(at[i]), kernelEnd, page) ==>
        OnStack(stack, Frame(page))
  {
    EntriesAt(memory, at, start, end);
    var entries := Entries(memory, start, end);
    hide Entries; hide Offered;
    forall page | page in stack ensures exists i :: 0 <= i < |at| && Offered(memory(at[i]), kernelEnd, page) {
      var i :| 0 <= i < |entries| && Offered(entries[i], kernelEnd, page);
      assert Offered(memory(at[i]), kernelEnd, page);
    }
    forall i, page: nat | 0 <= i < |at| && Offered(memory(at[i]), kernelEnd, page) ensures OnStack(stack, Frame(page)) {
      assert Offered(entries[i], kernelEnd, page);
      assert Free(entries, kernelEnd, page);
    }
  }

  // ---------------------------------------------------------------- which pages these are

  /** Available regions begin on page boundaries. */
  ghost predicate AlignedBases(entries: seq<MapEntry>) {
    forall i :: 0 <= i < |entries| && entries[i].kind == AVAILABLE ==> entries[i].base % PAGE_SIZE == 0
  }

  lemma FreeAligned(entries: seq<MapEntry>, kernelEnd: nat, page: nat)
    requires AlignedBases(entries) && Free(entries, kernelEnd, page)
    ensures page % PAGE_SIZE == 0
  {
    var i :| 0 <= i < |entries| && Offered(entries[i], kernelEnd, page);
    SumAligned(entries[i].base, page - entries[i].base);
  }

  lemma SumAligned(a: nat, b: nat)
    requires a % PAGE_SIZE == 0 && b % PAGE_SIZE == 0
    ensures (a + b) % PAGE_SIZE == 0
  {
  }

  /** Then the free pages are exactly the pages offered. */
  lemma AlignedFree(stack: seq<nat>, entries: seq<MapEntry>, kernelEnd: nat)
    requires FreedFrom(stack, entries, kernelEnd) && AlignedBases(entries)
    ensures forall page: nat :: page in stack <==> Free(entries, kernelEnd, page)
  {
    forall page: nat | Free(entries, kernelEnd, page) ensures page in stack {
      var i :| 0 <= i < |stack| && Frame(stack[i]) == Frame(page);
      assert stack[i] in stack;
      FreeAligned(entries, kernelEnd, page);
      FreeAligned(entries, kernelEnd, stack[i]);
      SameFrame(stack[i], page);
    }
  }

  lemma SameFrame(a: nat, b: nat)
    requires a % PAGE_SIZE == 0 && b % PAGE_SIZE == 0 && Frame(a) == Frame(b)
    ensures a == b
  {
  }

  /**
   A page offered reaches past the end of its region exactly when it is the last one and the region's length is no
   multiple of the page size.
   */
  lemma PartlyAvailable(e: MapEntry, kernelEnd: nat, page: nat)
    requires Offered(e, kernelEnd, page)
    ensures page + PAGE_SIZE > e.base + e.length
      <==> e.length % PAGE_SIZE != 0 && page == e.base + e.length / PAGE_SIZE * PAGE_SIZE
  {
    LastMultiple(page - e.base, e.length);
  }

  lemma LastMultiple(a: nat, n: nat)
    requires a % PAGE_SIZE == 0 && a < n
    ensures a + PAGE_SIZE > n <==> n % PAGE_SIZE != 0 && a == n / PAGE_SIZE * PAGE_SIZE
  {
    var k, q := a / PAGE_SIZE, n / PAGE_SIZE;
    assert a == PAGE_SIZE * k && n == PAGE_SIZE * q + n % PAGE_SIZE;
  }

  /**
   The first region of the ordinary machine, 639 KiB from 0: the page at 636 KiB is freed, its last quarter not
   available.
   */
  lemma LowMemoryPage(kernelEnd: nat)
    ensures var e := MapEntry(20, 0, 0x9_FC00, AVAILABLE);
      Usable(e) && Offered(e, kernelEnd, 0x9_F000) && 0x9_F000 + PAGE_SIZE > e.base + e.length
  {
  }
}
