/**
 The start of memory management: paging first, then the boot loader's map, and what the two leave behind together.
 */
module Boot {
  import opened Basics
  import opened Frames
  import opened Multiboot
  import opened Paging
  import opened PageTables
  import opened Vmm
  import HeapState

  /** The page tables are part of the kernel image. */
  ghost predicate InImage(tables: seq<nat>, directory: nat, kernelEnd: nat) {
    && KERNEL_START <= directory < kernelEnd && forall k :: 0 <= k < |tables| ==> KERNEL_START <= tables[k] < kernelEnd
  }

  /** Available memory outside the kernel image ends at or below 64 MiB. */
  ghost predicate SmallMachine(entries: seq<MapEntry>, kernelEnd: nat) {
    forall page: nat :: Free(entries, kernelEnd, page) ==> page < LIMIT
  }

  /** After boot no table is free, and low memory is all there is exactly on a machine with no memory above 64 MiB. */
  lemma BootState(m: seq<Word>, directory: nat, tables: seq<nat>, stack: seq<nat>, entries: seq<MapEntry>,
          kernelEnd: nat)
    requires IdentityMap(m, directory, tables) && InImage(tables, directory, kernelEnd) && kernelEnd <= LIMIT
    requires AllUsable(entries) && AlignedBases(entries)
    requires forall page: nat :: page in stack <==> Free(entries, kernelEnd, page)
    ensures Tables(m, directory, stack) && SelfMapped(m, directory, directory)
    ensures LowMemory(m, directory, stack) <==> SmallMachine(entries, kernelEnd)
  {
    forall k | 0 <= k < |stack| ensures InMemory(stack[k]) { FreeInMemory(entries, kernelEnd, stack[k]); }
    NotFree(entries, kernelEnd, directory);
    forall k | 0 <= k < 16 ensures tables[k] !in stack { NotFree(entries, kernelEnd, tables[k]); }
    BootTablesInUse(m, directory, tables, stack);
    BootLow(m, directory, tables, stack);
    hide IdentityMap; hide Translate; hide Tables; hide LowMemory;
    SmallStack(entries, kernelEnd, stack);
  }

  lemma SmallStack(entries: seq<MapEntry>, kernelEnd: nat, stack: seq<nat>)
    requires forall page: nat :: page in stack <==> Free(entries, kernelEnd, page)
    ensures SmallMachine(entries, kernelEnd) <==> forall k :: 0 <= k < |stack| ==> stack[k] < LIMIT
  {
    hide Free;
    if forall k :: 0 <= k < |stack| ==> stack[k] < LIMIT {
      forall page: nat | Free(entries, kernelEnd, page) ensures page < LIMIT { assert page in stack; }
    } else {
      var k :| 0 <= k < |stack| && stack[k] >= LIMIT;
      assert stack[k] in stack && Free(entries, kernelEnd, stack[k]);
    }
  }

  lemma BootLow(m: seq<Word>, directory: nat, tables: seq<nat>, stack: seq<nat>)
    requires IdentityMap(m, directory, tables) && directory < LIMIT && forall k :: 0 <= k < 16 ==> tables[k] < LIMIT
    ensures SelfMapped(m, directory, directory)
    ensures LowMemory(m, directory, stack) <==> forall k :: 0 <= k < |stack| ==> stack[k] < LIMIT
  {
    forall a: nat | a < LIMIT ensures Translate(m, directory, a) == Some(a) {
      IdentityBelow64M(m, directory, tables, a);
    }
    ZeroEntry();
    forall j: nat | j < 1024 && Table(m, directory, j).Some? ensures Table(m, directory, j).value < LIMIT {
      if j < 16 { IdentityPage(m, directory, tables, j, 0); }
    }
    hide Translate; hide IdentityMap; hide Table;
  }

  lemma FreeInMemory(entries: seq<MapEntry>, kernelEnd: nat, page: nat)
    requires AllUsable(entries) && AlignedBases(entries) && Free(entries, kernelEnd, page)
    ensures InMemory(page)
  {
    FreeAligned(entries, kernelEnd, page);
    var i :| 0 <= i < |entries| && Offered(entries[i], kernelEnd, page);
    assert Multiboot.Usable(entries[i]);
  }

  lemma NotFree(entries: seq<MapEntry>, kernelEnd: nat, page: nat)
    requires KERNEL_START <= page < kernelEnd
    ensures !Free(entries, kernelEnd, page)
  {
  }

  /** Paging is set up, then the frames of available memory are freed. */
  method StartMemory(mmu: Mmu, tables: seq<nat>, pageDirectory: nat, memory: nat -> MapEntry, mapAddr: nat,
          mapLength: nat, kernelEnd: nat)
    requires mmu.Shape() && mmu.allocator.Shape()
    requires BootTables(tables, pageDirectory) && InImage(tables, pageDirectory, kernelEnd) && kernelEnd <= LIMIT
    requires AllUsable(Entries(memory, mapAddr, mapAddr + mapLength))
    requires AlignedBases(Entries(memory, mapAddr, mapAddr + mapLength))
    modifies mmu, mmu.mem, mmu.allocator, mmu.allocator.bitmap, mmu.allocator.freeStack
    ensures mmu.Valid() && mmu.directory == pageDirectory && IdentityMap(mmu.mem[..], pageDirectory, tables)
    ensures var entries := Entries(memory, mapAddr, mapAddr + mapLength);
      && (forall page: nat :: page in mmu.allocator.Stack() <==> Free(entries, kernelEnd, page))
      && (mmu.Low() <==> SmallMachine(entries, kernelEnd))
  {
    hide IdentityMap; hide Tables; hide Translate; hide LowMemory; hide SmallMachine;
    mmu.PagingInit(tables, pageDirectory);
    ghost var m := mmu.mem[..];
    ParseMemoryMap(mmu.allocator, memory, mapAddr, mapLength, kernelEnd);
    assert mmu.mem[..] == m;
    ghost var entries := Entries(memory, mapAddr, mapAddr + mapLength);
    AlignedFree(mmu.allocator.Stack(), entries, kernelEnd);
    BootState(m, pageDirectory, tables, mmu.allocator.Stack(), entries, kernelEnd);
    forall k | 0 <= k < |mmu.allocator.Stack()| ensures InMemory(mmu.allocator.Stack()[k]) {
      FreeInMemory(entries, kernelEnd, mmu.allocator.Stack()[k]);
    }
  }

  /**
   Boot on a machine whose only memory is page 0: that page is the one free page, a call that needs a table is
   handed it and reports failure, and no page is free afterwards.
   */
  lemma FrameZeroLost(m: seq<Word>, directory: nat, tables: seq<nat>, stack: seq<nat>, kernelEnd: nat, phys: nat,
          flags: nat)
    requires IdentityMap(m, directory, tables) && directory < LIMIT && DistinctFrames(stack)
    requires forall page: nat :: page in stack <==> Free([MapEntry(20, 0, PAGE_SIZE, AVAILABLE)], kernelEnd, page)
    requires phys < WORD && phys % PAGE_SIZE == 0 && flags < PAGE_SIZE
    ensures stack == [NULL] && MapOn(m, directory, Top(stack), LIMIT, phys, flags) == Outcome(NoTable, m)
    ensures Rest(stack) == []
  {
    assert |stack| >= 2 ==> Frame(stack[0]) != Frame(stack[1]);
    OnlyPageZero(kernelEnd);
    assert Free([MapEntry(20, 0, PAGE_SIZE, AVAILABLE)], kernelEnd, 0);
    hide Free;
    assert forall i :: 0 <= i < |stack| ==> stack[i] in stack;
    IdentityBelow64M(m, directory, tables, directory);
    assert Slot(m, directory, 16) == 0;
    ZeroEntry();
    hide Translate; hide IdentityMap; hide MapOn; hide Slot; hide Present;
    WrongWithout(m, directory, Top(stack), LIMIT, phys, flags);
  }

  lemma OnlyPageZero(kernelEnd: nat)
    ensures forall page: nat :: Free([MapEntry(20, 0, PAGE_SIZE, AVAILABLE)], kernelEnd, page) <==> page == 0
  {
    assert Offered([MapEntry(20, 0, PAGE_SIZE, AVAILABLE)][0], kernelEnd, 0);
  }

  // ---------------------------------------------------------------- the heap's own memory

  const ARENA_END: nat := HeapState.HEAP_START + 0x40_0000

  /** The first page of the heap's arena outside the kernel image. */
  function ArenaLow(kernelEnd: nat): nat {
    if kernelEnd <= HeapState.HEAP_START then HeapState.HEAP_START
        else (kernelEnd + PAGE_SIZE - 1) / PAGE_SIZE * PAGE_SIZE
  }

  /** An entry of the map that offers no page of the heap's arena. */
  predicate ArenaClear(e: MapEntry, kernelEnd: nat) {
    e.kind != AVAILABLE || e.length == 0 || ArenaLow(kernelEnd) >= ARENA_END ||
        e.base + e.length <= ArenaLow(kernelEnd) || ARENA_END <= e.base
  }

  ghost predicate NoArenaPage(e: MapEntry, kernelEnd: nat) {
    forall page: nat :: HeapState.HEAP_START <= page < ARENA_END ==> !Offered(e, kernelEnd, page)
  }

  lemma ArenaOffered(e: MapEntry, kernelEnd: nat)
    requires e.kind == AVAILABLE ==> e.base % PAGE_SIZE == 0
    ensures ArenaClear(e, kernelEnd) <==> NoArenaPage(e, kernelEnd)
  {
    var low := ArenaLow(kernelEnd);
    LowAligned(kernelEnd);
    hide ArenaLow;
    if ArenaClear(e, kernelEnd) {
      forall page: nat | HeapState.HEAP_START <= page < ARENA_END && Offered(e, kernelEnd, page) ensures false {
        SumAligned(e.base, page - e.base);
        BelowLow(kernelEnd, page);
      }
    } else {
      var page := if e.base <= low then low else e.base;
      DifferenceAligned(page, e.base);
      assert Offered(e, kernelEnd, page);
    }
  }

  lemma LowAligned(kernelEnd: nat)
    ensures ArenaLow(kernelEnd) % PAGE_SIZE == 0
    ensures HeapState.HEAP_START <= ArenaLow(kernelEnd) && kernelEnd <= ArenaLow(kernelEnd)
  {
  }

  /** A page of the arena below that is the kernel's. */
  lemma BelowLow(kernelEnd: nat, page: nat)
    requires page % PAGE_SIZE == 0 && HeapState.HEAP_START <= page < ArenaLow(kernelEnd)
    ensures KERNEL_START <= page < kernelEnd
  {
  }

  lemma DifferenceAligned(a: nat, b: nat)
    requires a % PAGE_SIZE == 0 && b % PAGE_SIZE == 0 && b <= a
    ensures (a - b) % PAGE_SIZE == 0
  {
  }

  /**
   The frame allocator owns no page of the heap's arena exactly when no available region of the map reaches into the
   part of the arena outside the kernel image.  Nothing in the boot code takes the arena out of the map.
   */
  lemma ArenaNotShared(entries: seq<MapEntry>, kernelEnd: nat, stack: seq<nat>)
    requires AlignedBases(entries) && forall page: nat :: page in stack <==> Free(entries, kernelEnd, page)
    ensures (forall page: nat :: HeapState.HEAP_START <= page < ARENA_END ==> page !in stack)
      <==> forall i :: 0 <= i < |entries| ==> ArenaClear(entries[i], kernelEnd)
  {
    forall i | 0 <= i < |entries|
      ensures ArenaClear(entries[i], kernelEnd) <==> NoArenaPage(entries[i], kernelEnd)
    {
      ArenaOffered(entries[i], kernelEnd);
    }
    hide ArenaClear; hide Offered;
    if forall i :: 0 <= i < |entries| ==> ArenaClear(entries[i], kernelEnd) {
      forall page: nat | HeapState.HEAP_START <= page < ARENA_END ensures page !in stack {
        assert forall i :: 0 <= i < |entries| ==> NoArenaPage(entries[i], kernelEnd);
      }
    } else {
      var i :| 0 <= i < |entries| && !ArenaClear(entries[i], kernelEnd);
      assert !NoArenaPage(entries[i], kernelEnd);
      var page: nat :| HeapState.HEAP_START <= page < ARENA_END && Offered(entries[i], kernelEnd, page);
      assert Free(entries, kernelEnd, page) && page in stack;
    }
  }

  /**
   On a machine with one region of memory from 1 MiB up past the arena, every page of the arena is free for others
   to take.
   */
  lemma ArenaShared(entries: seq<MapEntry>, kernelEnd: nat, stack: seq<nat>, i: nat, page: nat)
    requires i < |entries| && entries[i].kind == AVAILABLE && entries[i].base % PAGE_SIZE == 0
    requires kernelEnd <= HeapState.HEAP_START
    requires entries[i].base <= HeapState.HEAP_START && ARENA_END <= entries[i].base + entries[i].length
    requires forall page: nat :: page in stack <==> Free(entries, kernelEnd, page)
    requires HeapState.HEAP_START <= page < ARENA_END && page % PAGE_SIZE == 0
    ensures page in stack
  {
    DifferenceAligned(page, entries[i].base);
    assert Offered(entries[i], kernelEnd, page);
  }
}
