/**
 The page tables in place: the set-up before paging is on, and the calls that edit the tables once it is.
 */
module PageTables {
  import opened Basics
  import opened Bits
  import opened Frames
  import opened Paging
  import opened Vmm

  class Mmu {
    const mem: array<Word>
    const allocator: FrameAllocator
    var directory: nat

    ghost predicate Shape()
      reads this
    {
      mem.Length == MEMORY_WORDS && mem != allocator.bitmap && InMemory(directory)
    }

    /** The frame allocator hands out pages of memory. */
    ghost predicate Usable()
      reads this, allocator, allocator.bitmap, allocator.freeStack
    {
      Shape() && allocator.Valid() && forall k :: 0 <= k < |allocator.Stack()| ==> InMemory(allocator.Stack()[k])
    }

    /** The tables are different frames, none of them free, and the directory is reached at its own address. */
    ghost predicate Valid()
      reads this, mem, allocator, allocator.bitmap, allocator.freeStack
    {
      Usable() && Tables(mem[..], directory, allocator.Stack()) && SelfMapped(mem[..], directory, directory)
    }

    constructor (memory: array<Word>, frames: FrameAllocator, pageDirectory: nat)
      requires memory.Length == MEMORY_WORDS && memory != frames.bitmap && InMemory(pageDirectory)
      ensures mem == memory && allocator == frames && directory == pageDirectory && Shape()
    {
      mem, allocator, directory := memory, frames, pageDirectory;
    }

    method ClearFrame(frame: nat)
      requires mem.Length == MEMORY_WORDS && InMemory(frame)
      modifies mem
      ensures Cleared(old(mem[..]), mem[..], frame)
    {
      var i := 0;
      while i < 1024
        invariant i <= 1024
        invariant forall w :: 0 <= w < MEMORY_WORDS ==> mem[w] == if frame / 4 <= w < frame / 4 + i then 0
            else old(mem[w])
      {
        mem[frame / 4 + i] := 0;
        i := i + 1;
      }
    }

    /** Fills a table with 1024 consecutive frames from base_mb MiB on. */
    method FillTable(table: nat, baseMb: nat)
      requires mem.Length == MEMORY_WORDS && InMemory(table) && baseMb <= 60
      modifies mem
      ensures FilledTable(old(mem[..]), mem[..], table, baseMb)
    {
      var i := 0;
      while i < 1024
        invariant i <= 1024
        invariant forall w :: 0 <= w < MEMORY_WORDS ==>
          mem[w] == if table / 4 <= w < table / 4 + i then IdentityEntry(baseMb, w - table / 4) else old(mem[w])
      {
        mem[table / 4 + i] := IdentityEntry(baseMb, i);
        i := i + 1;
      }
    }

    /** The boot-time set-up: sixteen tables that map the first 64 MiB to themselves. */
    method PagingInit(tables: seq<nat>, pageDirectory: nat)
      requires mem.Length == MEMORY_WORDS && BootTables(tables, pageDirectory)
      modifies mem, `directory
      ensures directory == pageDirectory && IdentityMap(mem[..], pageDirectory, tables)
    {
      var k := 0;
      while k < 16
        invariant k <= 16 && TablesFilled(mem[..], tables, k)
      {
        ghost var m := mem[..];
        FillTable(tables[k], 4 * k);
        FilledMore(m, mem[..], tables, pageDirectory, k);
        k := k + 1;
      }
      ghost var m := mem[..];
      ClearFrame(pageDirectory);
      FilledStill(m, mem[..], tables, pageDirectory);
      k := 0;
      while k < 16
        invariant k <= 16 && TablesFilled(mem[..], tables, 16) && DirectoryFilled(mem[..], pageDirectory, tables, k)
      {
        m := mem[..];
        DirectEntry(tables[k]);
        var e: Word := Or(tables[k], 3);
        mem[pageDirectory / 4 + k] := e;
        assert mem[..] == m[pageDirectory / 4 + k := e];
        DirectoryMore(m, tables, pageDirectory, k, e);
        k := k + 1;
      }
      directory := pageDirectory;
    }

    // -------------------------------------------------------------- with paging on

    method LoadWord(a: nat) returns (v: Option<Word>)
      requires Shape() && a < WORD
      ensures v == Load(mem[..], directory, a)
    {
      var x := TranslateNow(a);
      if x.None? { return None; }
      v := if x.value / 4 < MEMORY_WORDS then Some(mem[x.value / 4]) else Some(ABSENT);
    }

    /** What the processor does with an address. */
    method TranslateNow(a: nat) returns (x: Option<nat>)
      requires Shape() && a < WORD
      ensures x == Translate(mem[..], directory, a)
    {
      hide And; hide AndNot;
      SamePage(a, a);
      assert Slot(mem[..], directory, DirectoryIndex(a)) == mem[directory / 4 + DirectoryIndex(a)];
      var pde := mem[directory / 4 + DirectoryIndex(a)];
      if !Present(pde) { return None; }
      var pte := ABSENT;
      if InMemory(Address(pde)) {
        assert Slot(mem[..], Address(pde), TableIndex(a)) == mem[Address(pde) / 4 + TableIndex(a)];
        pte := mem[Address(pde) / 4 + TableIndex(a)];
      }
      x := if Present(pte) then Some(Address(pte) + a % PAGE_SIZE) else None;
    }

    method StoreWord(a: nat, v: Word) returns (ok: bool)
      requires Shape() && a < WORD
      modifies mem
      ensures var done := Store(old(mem[..]), directory, a, v);
        ok == done.Some? && mem[..] == if ok then done.value else old(mem[..])
    {
      hide Translate;
      var x := TranslateNow(a);
      if x.None? { return false; }
      if x.value / 4 < MEMORY_WORDS { mem[x.value / 4] := v; }
      assert mem[..] == Written(old(mem[..]), x.value, v);
      return true;
    }

    method ClearPage(page: nat) returns (ok: bool)
      requires Shape() && page % PAGE_SIZE == 0 && page < WORD
      modifies mem
      ensures Access(ok, mem[..]) == ClearFrom(old(mem[..]), directory, page, 0)
    {
      hide Translate; hide Store;
      var i := 0;
      while i < 1024
        invariant i <= 1024
        invariant ClearFrom(mem[..], directory, page, i) == ClearFrom(old(mem[..]), directory, page, 0)
      {
        WordOfPage(mem[..], directory, page, i);
        var stored := StoreWord(page + 4 * i, 0);
        if !stored { return false; }
        i := i + 1;
      }
      return true;
    }

    method WriteEntryOf(virt: nat, e: Word) returns (result: MapResult)
      requires Shape() && virt < WORD
      modifies mem
      ensures Outcome(result, mem[..]) == PutEntry(old(mem[..]), directory, virt, e)
    {
      hide Translate; hide Load; hide Store; hide And; hide AndNot;
      SamePage(virt, virt);
      WordOfPage(mem[..], directory, directory, DirectoryIndex(virt));
      var pde := LoadWord(directory + 4 * DirectoryIndex(virt));
      if pde.None? { return Fault; }
      AddressAligned(pde.value);
      WordOfPage(mem[..], directory, Address(pde.value), TableIndex(virt));
      var ok := StoreWord(Address(pde.value) + 4 * TableIndex(virt), e);
      return if ok then Mapped else Fault;
    }

    /** map_page, access by access. */
    method MapSteps(virt: nat, phys: nat, flags: nat) returns (result: MapResult)
      requires Usable() && virt < WORD && phys < WORD && phys % PAGE_SIZE == 0 && flags < PAGE_SIZE
      modifies mem, allocator, allocator.bitmap
      ensures Usable()
      ensures Outcome(result, mem[..]) == MapOn(old(mem[..]), directory, Top(old(allocator.Stack())), virt, phys, flags)
      ensures allocator.Stack() ==
        if TableWanted(old(mem[..]), directory, virt) then Rest(old(allocator.Stack())) else old(allocator.Stack())
    {
      hide Translate; hide Load; hide Store; hide And; hide AndNot; hide Or; hide Present; hide Address; hide ClearFrom;
      hide PutEntry;
      ghost var stack := allocator.Stack();
      SamePage(virt, virt);
      WordOfPage(mem[..], directory, directory, DirectoryIndex(virt));
      EntryFacts(phys, flags);
      var slot := directory + 4 * DirectoryIndex(virt);
      var pde := LoadWord(slot);
      if pde.None? { return Fault; }
      if !Present(pde.value) {
        var newTable := allocator.AllocPage();
        RestInMemory(stack, allocator.Stack());
        if newTable == NULL { return NoTable; }
        assert newTable == Top(stack).value;
        FlagsMasked(flags);
        EntryFacts(newTable, flags);
        var ok := ClearPage(newTable);
        if !ok { return Fault; }
        ok := StoreWord(slot, Entry(newTable, And(flags, 0xFFF)));
        if !ok { return Fault; }
      }
      result := WriteEntryOf(virt, Entry(phys, flags));
    }

    /**
     map_page.  The frame handed out is gone from the free pages whatever becomes of the call: also when it is page
     0, which reads as failure.
     */
    method MapPage(virt: nat, phys: nat, flags: nat) returns (result: MapResult)
      requires Usable() && virt < WORD && phys < WORD && phys % PAGE_SIZE == 0 && flags < PAGE_SIZE
      modifies mem, allocator, allocator.bitmap
      ensures Usable()
      ensures Outcome(result, mem[..]) == MapOn(old(mem[..]), directory, Top(old(allocator.Stack())), virt, phys, flags)
      ensures old(Valid()) && Table(old(mem[..]), directory, DirectoryIndex(virt)).Some? ==>
          allocator.Stack() == old(allocator.Stack())
      ensures old(Valid()) && Table(old(mem[..]), directory, DirectoryIndex(virt)).None? ==>
        allocator.Stack() == Rest(old(allocator.Stack()))
      ensures old(Valid()) && result == NoTable ==>
          (allocator.Stack() == old(allocator.Stack()) <==> old(allocator.Stack()) == [])
      ensures old(Valid()) && Ready(old(mem[..]), directory, old(allocator.Stack()), virt) ==>
        && result == Mapped && Remapped(old(mem[..]), mem[..], directory, virt, phys)
        && Tables(mem[..], directory, allocator.Stack())
        && TablesAfter(old(mem[..]), mem[..], directory, old(allocator.Stack()), DirectoryIndex(virt))
    {
      if Valid() { ValidCall(mem[..], directory, allocator.Stack(), virt, phys, flags); }
      hide Remapped; hide Tables; hide TablesAfter; hide Ready; hide SelfMapped; hide Table; hide DistinctFrames;
      hide MapOn;
      hide TableWanted; hide Translate; hide And; hide AndNot; hide Or;
      result := MapSteps(virt, phys, flags);
    }

    /** Any number of calls that keep out of low memory. */
    ghost predicate Low()
      reads this, mem, allocator, allocator.bitmap, allocator.freeStack
    {
      Valid() && LowMemory(mem[..], directory, allocator.Stack())
    }

    method MapLow(c: Mapping, flags: nat) returns (ok: bool)
      requires Low() && Harmless(c) && flags < PAGE_SIZE
      modifies mem, allocator, allocator.bitmap
      ensures Low()
      ensures if ok then Remapped(old(mem[..]), mem[..], directory, c.virt, c.phys) else mem[..] == old(mem[..])
      ensures ok <==> Table(old(mem[..]), directory, DirectoryIndex(c.virt)).Some?
                      || (old(allocator.Stack()) != [] && Top(old(allocator.Stack())).value != NULL)
    {
      LowTurn(mem[..], directory, allocator.Stack(), c, flags);
      LowReady(mem[..], directory, allocator.Stack(), c.virt);
      hide Remapped; hide Tables; hide Ready; hide SelfMapped; hide Table; hide DistinctFrames; hide MapOn;
      hide Translate; hide And; hide AndNot; hide Or; hide LowMemory; hide GoodTurn; hide StackAfter;
      ok := MapTurn(c, flags);
    }

    /** One call at a turn at which it is right or finds no frame. */
    method MapTurn(c: Mapping, flags: nat) returns (ok: bool)
      requires Valid() && flags < PAGE_SIZE && GoodTurn(mem[..], directory, allocator.Stack(), c)
      modifies mem, allocator, allocator.bitmap
      ensures Valid()
      ensures mem[..] == MapOn(old(mem[..]), directory, Top(old(allocator.Stack())), c.virt, c.phys, flags).mem
      ensures allocator.Stack() == StackAfter(old(mem[..]), directory, old(allocator.Stack()), c)
      ensures if ok then Remapped(old(mem[..]), mem[..], directory, c.virt, c.phys) else mem[..] == old(mem[..])
      ensures ok <==> old(Ready(mem[..], directory, allocator.Stack(), c.virt))
    {
      ghost var m, stack := mem[..], allocator.Stack();
      TurnFacts(m, directory, stack, c, flags);
      hide Remapped; hide Tables; hide Ready; hide SelfMapped; hide Table; hide DistinctFrames; hide MapOn;
      hide TablesAfter; hide TableWanted; hide Translate; hide And; hide AndNot; hide Or; hide GoodTurn;
      var result := MapPage(c.virt, c.phys, flags);
      ok := result == Mapped;
    }

    /** A sequence of calls, each right at its turn or without a frame: what every address translates to afterwards. */
    method MapTurns(calls: seq<Mapping>, flags: nat) returns (succeeded: seq<bool>, ghost states: seq<seq<Word>>)
      requires Valid() && flags < PAGE_SIZE && GoodTurns(mem[..], directory, allocator.Stack(), calls, flags)
      modifies mem, allocator, allocator.bitmap
      ensures Valid() && MapRun(states, directory, calls, succeeded) && states[0] == old(mem[..]) &&
          states[|calls|] == mem[..]
      ensures TurnsLeave(old(mem[..]), directory, old(allocator.Stack()), calls, flags)
        == (mem[..], allocator.Stack())
      ensures forall w: nat :: w < WORD ==>
        Translate(mem[..], directory, w)
          == After(Translate(old(mem[..]), directory, w), Successful(calls, succeeded), w)
    {
      hide Remapped; hide Tables; hide Table; hide Translate; hide And; hide AndNot; hide Or; hide After;
      hide Successful; hide Ready; hide GoodTurn; hide MapOn; hide SelfMapped;
      succeeded, states := [], [mem[..]];
      var i := 0;
      ghost var left := TurnsLeave(mem[..], directory, allocator.Stack(), calls, flags);
      assert calls[0..] == calls;
      while i < |calls|
        invariant i <= |calls| && Valid() && MapRun(states, directory, calls[..i], succeeded)
        invariant states[0] == old(mem[..]) && states[i] == mem[..]
        invariant GoodTurns(mem[..], directory, allocator.Stack(), calls[i..], flags)
        invariant TurnsLeave(mem[..], directory, allocator.Stack(), calls[i..], flags) == left
      {
        assert calls[i..][0] == calls[i] && calls[i..][1..] == calls[i + 1..];
        var ok := MapTurn(calls[i], flags);
        RunMore(states, directory, calls, succeeded, i, ok, mem[..]);
        succeeded, states := succeeded + [ok], states + [mem[..]];
        i := i + 1;
      }
      assert calls[..i] == calls;
      forall w: nat | w < WORD
        ensures Translate(mem[..], directory, w)
          == After(Translate(old(mem[..]), directory, w), Successful(calls, succeeded), w)
      {
        MapsCompose(states, directory, calls, succeeded, w);
      }
    }

    /** In particular, any calls that keep out of low memory, where everything they reach is low. */
    method MapMany(calls: seq<Mapping>, flags: nat) returns (succeeded: seq<bool>, ghost states: seq<seq<Word>>)
      requires Low() && flags < PAGE_SIZE && forall i :: 0 <= i < |calls| ==> Harmless(calls[i])
      modifies mem, allocator, allocator.bitmap
      ensures Low() && MapRun(states, directory, calls, succeeded) && states[0] == old(mem[..]) &&
          states[|calls|] == mem[..]
      ensures forall w: nat :: w < WORD ==>
        Translate(mem[..], directory, w)
          == After(Translate(old(mem[..]), directory, w), Successful(calls, succeeded), w)
    {
      LowTurns(mem[..], directory, allocator.Stack(), calls, flags);
      hide Remapped; hide Tables; hide Table; hide Translate; hide And; hide AndNot; hide Or; hide LowMemory;
      hide After; hide Successful; hide GoodTurns; hide TurnsLeave; hide SelfMapped;
      succeeded, states := MapTurns(calls, flags);
    }

    /** is_mapped: what the loads find, or a fault. */
    method IsMapped(virt: nat) returns (mapped: Option<bool>)
      requires Shape() && virt < WORD
      ensures mapped == Probe(mem[..], directory, virt)
    {
      hide Translate; hide Load; hide And; hide AndNot; hide Present;
      SamePage(virt, virt);
      WordOfPage(mem[..], directory, directory, DirectoryIndex(virt));
      var pde := LoadWord(directory + 4 * DirectoryIndex(virt));
      if pde.None? { return None; }
      if !Present(pde.value) { return Some(false); }
      AddressAligned(pde.value);
      WordOfPage(mem[..], directory, Address(pde.value), TableIndex(virt));
      var pte := LoadWord(Address(pde.value) + 4 * TableIndex(virt));
      if pte.None? { return None; }
      mapped := Some(Present(pte.value));
    }
  }

  /** The directory entry that the call reads is not present, so that it asks for a frame. */
  ghost predicate TableWanted(m: seq<Word>, directory: nat, virt: nat)
    requires Vmm.Shape(m, directory) && virt < WORD
  {
    SamePage(virt, virt);
    WordOfPage(m, directory, directory, DirectoryIndex(virt));
    var pde := Load(m, directory, directory + 4 * DirectoryIndex(virt));
    pde.Some? && !Present(pde.value)
  }

  lemma RestInMemory(stack: seq<nat>, rest: seq<nat>)
    requires forall k :: 0 <= k < |stack| ==> InMemory(stack[k])
    requires stack == [] ==> rest == []
    requires stack != [] ==> rest + [stack[|stack| - 1]] == stack
    ensures rest == Rest(stack) && (forall k :: 0 <= k < |rest| ==> InMemory(rest[k]))
  {
    if stack != [] {
      assert forall k :: 0 <= k < |rest| ==> rest[k] == stack[k];
    }
  }

  /** With the directory self-mapped the call asks for a frame exactly when virt has no table. */
  lemma WantedWithoutTable(m: seq<Word>, directory: nat, virt: nat)
    requires Vmm.Shape(m, directory) && virt < WORD && SelfMapped(m, directory, directory)
    ensures DirectoryIndex(virt) < 1024
    ensures TableWanted(m, directory, virt) <==> Table(m, directory, DirectoryIndex(virt)).None?
  {
    hide Translate; hide And; hide AndNot; hide Present;
    SamePage(virt, virt);
    SelfMappedAccess(m, directory, directory, DirectoryIndex(virt), 0);
  }

  /** What a call does when the tables are in order and the directory is self-mapped. */
  lemma ValidCall(m: seq<Word>, directory: nat, stack: seq<nat>, virt: nat, phys: nat, flags: nat)
    requires Tables(m, directory, stack) && DistinctFrames(stack) && SelfMapped(m, directory, directory)
    requires virt < WORD && phys < WORD && phys % PAGE_SIZE == 0 && flags < PAGE_SIZE
    ensures DirectoryIndex(virt) < 1024 && (stack != [] ==> InMemory(Top(stack).value))
    ensures TableWanted(m, directory, virt) <==> Table(m, directory, DirectoryIndex(virt)).None?
    ensures var done := MapOn(m, directory, Top(stack), virt, phys, flags); var d := DirectoryIndex(virt);
      && (done.result == NoTable <==> Table(m, directory, d).None? && (stack == [] || Top(stack).value == NULL))
      && (Ready(m, directory, stack, virt) ==>
          && done.result == Mapped && Remapped(m, done.mem, directory, virt, phys)
          && Tables(done.mem, directory, if Table(m, directory, d).Some? then stack else Rest(stack))
          && TablesAfter(m, done.mem, directory, stack, d))
  {
    TopFacts(m, directory, stack);
    WantedWithoutTable(m, directory, virt);
    NoTableExactly(m, directory, Top(stack), virt, phys, flags);
    hide MapOn; hide Tables; hide Table; hide TableWanted; hide Remapped;
    if Ready(m, directory, stack, virt) { MapsWhenReady(m, directory, stack, virt, phys, flags); }
  }

  lemma NoTableExactly(m: seq<Word>, directory: nat, top: Option<nat>, virt: nat, phys: nat, flags: nat)
    requires Vmm.Shape(m, directory) && SelfMapped(m, directory, directory) && virt < WORD &&
        DirectoryIndex(virt) < 1024
    requires phys < WORD && phys % PAGE_SIZE == 0 && flags < PAGE_SIZE && (top.Some? ==> InMemory(top.value))
    ensures MapOn(m, directory, top, virt, phys, flags).result == NoTable
      <==> Table(m, directory, DirectoryIndex(virt)).None? && (top.None? || top.value == NULL)
  {
    hide Translate; hide And; hide AndNot; hide Entry; hide ClearFrom; hide Store;
    SelfMappedAccess(m, directory, directory, DirectoryIndex(virt), 0);
    hide Load;
  }

  lemma UnmappedKeeps(m: seq<Word>, directory: nat, top: Option<nat>, virt: nat, phys: nat, flags: nat)
    requires Vmm.Shape(m, directory) && virt < WORD
    requires phys < WORD && phys % PAGE_SIZE == 0 && flags < PAGE_SIZE && (top.Some? ==> InMemory(top.value))
    ensures var done := MapOn(m, directory, top, virt, phys, flags); done.result == NoTable ==> done.mem == m
  {
    hide Translate; hide And; hide AndNot; hide Entry; hide ClearFrom; hide Store; hide Load;
  }

  /** Tables in order stay so when a frame leaves the free ones. */
  lemma RestKeeps(m: seq<Word>, directory: nat, stack: seq<nat>)
    requires Tables(m, directory, stack) && LowMemory(m, directory, stack)
    ensures Rest(stack) <= stack && Tables(m, directory, Rest(stack)) && LowMemory(m, directory, Rest(stack))
  {
    hide Table; hide Translate;
    assert forall x :: x in Rest(stack) ==> x in stack;
  }

  // ---------------------------------------------------------------- calls at their turns

  /**
   A call at its turn: the table it needs is ready, and the directory's page stays where it is; or it needs a table and
   there is no frame for one.
   */
  ghost predicate GoodTurn(m: seq<Word>, directory: nat, stack: seq<nat>, c: Mapping)
    requires Tables(m, directory, stack)
  {
    c.virt < WORD && c.phys < WORD && c.phys % PAGE_SIZE == 0 &&
    (SamePage(c.virt, c.virt);
     if Ready(m, directory, stack, c.virt) then c.virt / PAGE_SIZE == directory / PAGE_SIZE ==> c.phys == directory
     else Table(m, directory, DirectoryIndex(c.virt)).None? && (stack == [] || Top(stack).value == NULL))
  }

  ghost function StackAfter(m: seq<Word>, directory: nat, stack: seq<nat>, c: Mapping): seq<nat>
    requires Vmm.Shape(m, directory) && c.virt < WORD
  {
    SamePage(c.virt, c.virt);
    if Table(m, directory, DirectoryIndex(c.virt)).Some? then stack else Rest(stack)
  }

  /** What one such call does, and what it keeps for the next. */
  lemma TurnFacts(m: seq<Word>, directory: nat, stack: seq<nat>, c: Mapping, flags: nat)
    requires Tables(m, directory, stack) && DistinctFrames(stack) && SelfMapped(m, directory, directory)
    requires GoodTurn(m, directory, stack, c) && flags < PAGE_SIZE
    ensures DirectoryIndex(c.virt) < 1024 && (stack != [] ==> InMemory(Top(stack).value))
    ensures var done := MapOn(m, directory, Top(stack), c.virt, c.phys, flags);
      var rest := StackAfter(m, directory, stack, c);
      && Tables(done.mem, directory, rest) && DistinctFrames(rest) && SelfMapped(done.mem, directory, directory)
      && (done.result == Mapped <==> Ready(m, directory, stack, c.virt))
      && (if done.result == Mapped then Remapped(m, done.mem, directory, c.virt, c.phys) else done.mem == m)
  {
    ValidCall(m, directory, stack, c.virt, c.phys, flags);
    UnmappedKeeps(m, directory, Top(stack), c.virt, c.phys, flags);
    FewerFrames(m, directory, stack);
    hide MapOn; hide TableWanted; hide And; hide AndNot; hide Tables; hide Table; hide Translate; hide DistinctFrames;
    if Ready(m, directory, stack, c.virt) {
      var done := MapOn(m, directory, Top(stack), c.virt, c.phys, flags);
      hide Ready;
      SelfMappedAfter(m, done.mem, directory, c.virt, c.phys, directory);
    }
  }

  lemma FewerFrames(m: seq<Word>, directory: nat, stack: seq<nat>)
    requires Tables(m, directory, stack) && DistinctFrames(stack)
    ensures Tables(m, directory, Rest(stack)) && DistinctFrames(Rest(stack))
  {
    hide Table;
    assert forall x :: x in Rest(stack) ==> x in stack;
  }

  /** Every call is good at its turn. */
  ghost predicate GoodTurns(m: seq<Word>, directory: nat, stack: seq<nat>, calls: seq<Mapping>, flags: nat)
    requires Tables(m, directory, stack) && DistinctFrames(stack) && SelfMapped(m, directory, directory)
    requires flags < PAGE_SIZE
    decreases |calls|
  {
    calls == [] ||
    (GoodTurn(m, directory, stack, calls[0]) &&
     (TurnFacts(m, directory, stack, calls[0], flags);
      GoodTurns(MapOn(m, directory, Top(stack), calls[0].virt, calls[0].phys, flags).mem, directory,
                StackAfter(m, directory, stack, calls[0]), calls[1..], flags)))
  }

  /** Memory and free frames after the calls. */
  ghost function TurnsLeave(m: seq<Word>, directory: nat, stack: seq<nat>, calls: seq<Mapping>,
          flags: nat): (seq<Word>, seq<nat>)
    requires Tables(m, directory, stack) && DistinctFrames(stack) && SelfMapped(m, directory, directory)
    requires flags < PAGE_SIZE && GoodTurns(m, directory, stack, calls, flags)
    decreases |calls|
  {
    if calls == [] then (m, stack)
    else
      TurnFacts(m, directory, stack, calls[0], flags);
      TurnsLeave(MapOn(m, directory, Top(stack), calls[0].virt, calls[0].phys, flags).mem, directory,
                 StackAfter(m, directory, stack, calls[0]), calls[1..], flags)
  }

  lemma LowTurn(m: seq<Word>, directory: nat, stack: seq<nat>, c: Mapping, flags: nat)
    requires Tables(m, directory, stack) && DistinctFrames(stack) && LowMemory(m, directory, stack)
    requires Harmless(c) && flags < PAGE_SIZE
    ensures SelfMapped(m, directory, directory) && GoodTurn(m, directory, stack, c)
    ensures stack != [] ==> InMemory(Top(stack).value)
    ensures LowMemory(MapOn(m, directory, Top(stack), c.virt, c.phys, flags).mem, directory,
                      StackAfter(m, directory, stack, c))
  {
    LowReady(m, directory, stack, c.virt);
    HarmlessDirectory(m, directory, stack, c);
    assert GoodTurn(m, directory, stack, c);
    TurnFacts(m, directory, stack, c, flags);
    ValidCall(m, directory, stack, c.virt, c.phys, flags);
    RestKeeps(m, directory, stack);
    hide MapOn; hide TableWanted; hide Tables; hide Table; hide Translate; hide Remapped; hide LowMemory;
    hide TablesAfter;
    hide GoodTurn;
    var done := MapOn(m, directory, Top(stack), c.virt, c.phys, flags);
    if Ready(m, directory, stack, c.virt) {
      hide Ready;
      LowKept(m, done.mem, directory, stack, StackAfter(m, directory, stack, c), c, DirectoryIndex(c.virt));
    }
  }

  /** A harmless call for the directory's own page maps it to itself. */
  lemma HarmlessDirectory(m: seq<Word>, directory: nat, stack: seq<nat>, c: Mapping)
    requires Vmm.Shape(m, directory) && LowMemory(m, directory, stack) && Harmless(c)
    ensures c.virt / PAGE_SIZE == directory / PAGE_SIZE ==> c.phys == directory
  {
    hide Translate; hide Table;
    PagePlace(directory, c.virt);
  }

  lemma LowDirectory(m: seq<Word>, directory: nat, stack: seq<nat>)
    requires Vmm.Shape(m, directory) && LowMemory(m, directory, stack)
    ensures SelfMapped(m, directory, directory)
  {
    hide Translate; hide Table;
  }

  /** Where everything is low, harmless calls are good at every turn, and leave everything low. */
  lemma {:induction false} LowTurns(m: seq<Word>, directory: nat, stack: seq<nat>, calls: seq<Mapping>, flags: nat)
    requires Tables(m, directory, stack) && DistinctFrames(stack) && LowMemory(m, directory, stack)
    requires flags < PAGE_SIZE && forall i :: 0 <= i < |calls| ==> Harmless(calls[i])
    ensures SelfMapped(m, directory, directory) && GoodTurns(m, directory, stack, calls, flags)
    ensures var (m', stack') := TurnsLeave(m, directory, stack, calls, flags);
      Vmm.Shape(m', directory) && LowMemory(m', directory, stack')
    decreases |calls|
  {
    hide MapOn; hide GoodTurn; hide StackAfter; hide Remapped; hide Translate; hide Table; hide Ready;
    if calls == [] {
      LowDirectory(m, directory, stack);
    } else {
      var c := calls[0];
      LowTurn(m, directory, stack, c, flags);
      TurnFacts(m, directory, stack, c, flags);
      hide Tables; hide LowMemory; hide DistinctFrames;
      LowTurns(MapOn(m, directory, Top(stack), c.virt, c.phys, flags).mem, directory,
               StackAfter(m, directory, stack, c), calls[1..], flags);
    }
  }

  lemma RunMore(states: seq<seq<Word>>, directory: nat, calls: seq<Mapping>, succeeded: seq<bool>, i: nat, ok: bool,
          m: seq<Word>)
    requires i < |calls| && MapRun(states, directory, calls[..i], succeeded) && |m| == MEMORY_WORDS
    requires if ok then Remapped(states[i], m, directory, calls[i].virt, calls[i].phys) else m == states[i]
    ensures MapRun(states + [m], directory, calls[..i + 1], succeeded + [ok])
  {
    hide Remapped;
  }

  function Probe(m: seq<Word>, directory: nat, virt: nat): Option<bool>
    requires |m| == MEMORY_WORDS && InMemory(directory) && virt < WORD
  {
    SamePage(virt, virt);
    WordOfPage(m, directory, directory, DirectoryIndex(virt));
    var pde := Load(m, directory, directory + 4 * DirectoryIndex(virt));
    if pde.None? then None
    else if !Present(pde.value) then Some(false)
    else
      AddressAligned(pde.value);
      WordOfPage(m, directory, Address(pde.value), TableIndex(virt));
      var pte := Load(m, directory, Address(pde.value) + 4 * TableIndex(virt));
      if pte.None? then None else Some(Present(pte.value))
  }

  /** With the directory and the table of virt self-mapped, the test agrees with what the processor finds. */
  lemma ProbeFinds(m: seq<Word>, directory: nat, stack: seq<nat>, virt: nat)
    requires Tables(m, directory, stack) && virt < WORD && SelfMapped(m, directory, directory) &&
        DirectoryIndex(virt) < 1024
    requires var table := Table(m, directory, DirectoryIndex(virt)); table.Some? ==>
        SelfMapped(m, directory, table.value)
    ensures Probe(m, directory, virt) == Some(Translate(m, directory, virt).Some?)
  {
    hide And; hide AndNot;
    var table := Table(m, directory, DirectoryIndex(virt));
    SelfMappedAccess(m, directory, directory, DirectoryIndex(virt), 0);
    if table.Some? { SelfMappedAccess(m, directory, table.value, TableIndex(virt), 0); }
    hide Load; hide SelfMapped;
  }
}
