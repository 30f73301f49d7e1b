/**
 Mapping a page while paging is on: the code that edits the tables reaches them by virtual addresses, through the very
 translation that it edits.

 An access to an address that does not translate is a page fault, which ends the call where it stands.
 */
module Vmm {
  import opened Basics
  import opened Bits
  import opened Frames
  import opened Paging

  ghost predicate Shape(m: seq<Word>, directory: nat) {
    |m| == MEMORY_WORDS && InMemory(directory)
  }

  // ---------------------------------------------------------------- access by virtual address

  /** The word at a physical address. */
  function Physical(m: seq<Word>, x: nat): Word {
    if x / 4 < |m| then m[x / 4] else ABSENT
  }

  /** The processor's walk of the tables reads what an access to the same address would. */
  lemma FetchIsPhysical(m: seq<Word>, frame: nat, i: nat)
    requires |m| == MEMORY_WORDS && frame % PAGE_SIZE == 0 && i < 1024
    ensures Fetch(m, frame, i) == Physical(m, frame + 4 * i)
  {
    assert (frame + 4 * i) / 4 == frame / 4 + i;
  }

  /** A write to what is not memory leaves memory alone. */
  function Written(m: seq<Word>, x: nat, v: Word): seq<Word> {
    if x / 4 < |m| then m[x / 4 := v] else m
  }

  function Load(m: seq<Word>, directory: nat, a: nat): Option<Word>
    requires |m| == MEMORY_WORDS && InMemory(directory) && a < WORD
  {
    var x := Translate(m, directory, a);
    if x.None? then None else Some(Physical(m, x.value))
  }

  function Store(m: seq<Word>, directory: nat, a: nat, v: Word): (r: Option<seq<Word>>)
    requires |m| == MEMORY_WORDS && InMemory(directory) && a < WORD
    ensures r.Some? ==> |r.value| == MEMORY_WORDS
  {
    var x := Translate(m, directory, a);
    if x.None? then None else Some(Written(m, x.value, v))
  }

  /** A page whose virtual addresses are its physical ones. */
  predicate SelfMapped(m: seq<Word>, directory: nat, page: nat)
    requires |m| == MEMORY_WORDS && InMemory(directory) && page < WORD
  {
    Translate(m, directory, page) == Some(page)
  }

  lemma WordPlace(page: nat, i: nat)
    requires page % PAGE_SIZE == 0 && page < WORD && i < 1024
    ensures page + 4 * i < WORD && (page + 4 * i) / PAGE_SIZE == page / PAGE_SIZE
    ensures (page + 4 * i) % PAGE_SIZE == 4 * i
  {
    var q := page / PAGE_SIZE;
    assert page == PAGE_SIZE * q && q < 0x10_0000;
  }

  /** All words of a page translate alike. */
  lemma WordOfPage(m: seq<Word>, directory: nat, page: nat, i: nat)
    requires Shape(m, directory) && page % PAGE_SIZE == 0 && page < WORD && i < 1024
    ensures page + 4 * i < WORD
    ensures var x := Translate(m, directory, page);
      Translate(m, directory, page + 4 * i) == if x.None? then None else Some(x.value + 4 * i)
    ensures Translate(m, directory, page).Some? ==> Translate(m, directory, page).value % PAGE_SIZE == 0
  {
    hide Present; hide Address; hide DirectoryIndex; hide TableIndex;
    WordPlace(page, i);
    SamePage(page, page + 4 * i);
    IndexBounds(page);
    var pde := Slot(m, directory, DirectoryIndex(page));
    AddressAligned(Fetch(m, Address(pde), TableIndex(page)));
  }

  lemma AddressAligned(e: nat)
    ensures Address(e) % PAGE_SIZE == 0 && Address(e) <= e
  {
    assert Pow2(12) == 4096;
    hide AndNot; hide Pow2;
    MaskLow(e, 12);
    PageAligned(Address(e));
  }

  // ---------------------------------------------------------------- the call, step by step

  datatype MapResult = Mapped | NoTable | Fault

  datatype Outcome = Outcome(result: MapResult, mem: seq<Word>)

  datatype Access = Access(ok: bool, mem: seq<Word>)

  /** Clearing a page word by word, from word i on. */
  function ClearFrom(m: seq<Word>, directory: nat, page: nat, i: nat): (r: Access)
    requires |m| == MEMORY_WORDS && InMemory(directory) && page % PAGE_SIZE == 0 && page < WORD && i <= 1024
    ensures |r.mem| == MEMORY_WORDS
    decreases 1024 - i
  {
    if i == 1024 then Access(true, m)
    else
      WordOfPage(m, directory, page, i);
      var next := Store(m, directory, page + 4 * i, 0);
      if next.None? then Access(false, m) else ClearFrom(next.value, directory, page, i + 1)
  }

  /** The last step: the entry for virt is written in the table its directory entry names. */
  function PutEntry(m: seq<Word>, directory: nat, virt: nat, e: Word): (r: Outcome)
    requires |m| == MEMORY_WORDS && InMemory(directory) && virt < WORD
    ensures |r.mem| == MEMORY_WORDS
  {
    SamePage(virt, virt);
    WordOfPage(m, directory, directory, DirectoryIndex(virt));
    var pde := Load(m, directory, directory + 4 * DirectoryIndex(virt));
    if pde.None? then Outcome(Fault, m)
    else
      AddressAligned(pde.value);
      WordOfPage(m, directory, Address(pde.value), TableIndex(virt));
      var done := Store(m, directory, Address(pde.value) + 4 * TableIndex(virt), e);
      if done.None? then Outcome(Fault, m) else Outcome(Mapped, done.value)
  }

  /** Mapping a page when the frame allocator would hand out top next. */
  function MapOn(m: seq<Word>, directory: nat, top: Option<nat>, virt: nat, phys: nat, flags: nat): (r: Outcome)
    requires |m| == MEMORY_WORDS && InMemory(directory) && virt < WORD
    requires top.Some? ==> top.value % PAGE_SIZE == 0 && top.value < WORD
    requires phys < WORD && phys % PAGE_SIZE == 0 && flags < PAGE_SIZE
    ensures |r.mem| == MEMORY_WORDS
  {
    SamePage(virt, virt);
    WordOfPage(m, directory, directory, DirectoryIndex(virt));
    EntryFacts(phys, flags);
    var pde := Load(m, directory, directory + 4 * DirectoryIndex(virt));
    if pde.None? then Outcome(Fault, m)
    else if Present(pde.value) then PutEntry(m, directory, virt, Entry(phys, flags))
    else if top.None? || top.value == NULL then Outcome(NoTable, m)
    else
      EntryFacts(top.value, flags);
      var cleared := ClearFrom(m, directory, top.value, 0);
      if !cleared.ok then Outcome(Fault, cleared.mem)
      else
        WordOfPage(cleared.mem, directory, directory, DirectoryIndex(virt));
        var installed := Store(cleared.mem, directory, directory + 4 * DirectoryIndex(virt), Entry(top.value, flags));
        if installed.None? then Outcome(Fault, cleared.mem)
        else PutEntry(installed.value, directory, virt, Entry(phys, flags))
  }

  // ---------------------------------------------------------------- accesses to self-mapped pages

  lemma SelfMappedAccess(m: seq<Word>, directory: nat, page: nat, i: nat, v: Word)
    requires Shape(m, directory) && InMemory(page) && SelfMapped(m, directory, page) && i < 1024
    ensures Load(m, directory, page + 4 * i) == Some(Slot(m, page, i))
    ensures Store(m, directory, page + 4 * i, v) == Some(m[page / 4 + i := v])
  {
    hide Translate;
    WordOfPage(m, directory, page, i);
    assert (page + 4 * i) / 4 == page / 4 + i;
  }

  /** Changing a page that is neither the directory nor a table in use changes no translation. */
  lemma OtherFrame(m: seq<Word>, m': seq<Word>, directory: nat, stack: seq<nat>, page: nat)
    requires Tables(m, directory, stack) && |m'| == MEMORY_WORDS && InMemory(page) && page in stack
    requires forall w :: 0 <= w < MEMORY_WORDS && !(page / 4 <= w < page / 4 + 1024) ==> m'[w] == m[w]
    ensures SameTranslation(m, m', directory)
  {
    hide Present; hide Address;
    forall w: nat | w < WORD ensures Translate(m', directory, w) == Translate(m, directory, w) {
      SamePage(w, w);
      var d := DirectoryIndex(w);
      FramesApart(page, directory);
      assert Slot(m', directory, d) == Slot(m, directory, d);
      if Table(m, directory, d).Some? {
        FramesApart(page, Table(m, directory, d).value);
        assert Slot(m', Address(Slot(m, directory, d)), TableIndex(w)) == Slot(m, Address(Slot(m, directory, d)),
            TableIndex(w));
      }
    }
  }

  /** Memory with the first i words of a page cleared. */
  ghost predicate ClearedTo(m0: seq<Word>, m: seq<Word>, page: nat, i: nat) {
    && |m0| == |m| == MEMORY_WORDS && InMemory(page) && i <= 1024
    && forall w :: 0 <= w < MEMORY_WORDS ==> m[w] == if page / 4 <= w < page / 4 + i then 0 else m0[w]
  }

  lemma ClearedMore(m0: seq<Word>, m: seq<Word>, page: nat, i: nat)
    requires ClearedTo(m0, m, page, i) && i < 1024
    ensures page / 4 + i < MEMORY_WORDS && ClearedTo(m0, m[page / 4 + i := 0], page, i + 1)
  {
  }

  lemma ClearedStays(m0: seq<Word>, m: seq<Word>, directory: nat, stack: seq<nat>, page: nat, i: nat)
    requires Tables(m0, directory, stack) && page in stack && ClearedTo(m0, m, page, i) &&
        SelfMapped(m0, directory, page)
    ensures SelfMapped(m, directory, page)
  {
    OtherFrame(m0, m, directory, stack, page);
  }

  /** Clearing a self-mapped free frame clears it. */
  lemma {:induction false} ClearsSelfMapped(m0: seq<Word>, m: seq<Word>, directory: nat, stack: seq<nat>, page: nat,
          i: nat)
    requires Tables(m0, directory, stack) && page in stack && SelfMapped(m0, directory, page) &&
        ClearedTo(m0, m, page, i)
    ensures ClearFrom(m, directory, page, i).ok && Cleared(m0, ClearFrom(m, directory, page, i).mem, page)
    decreases 1024 - i
  {
    hide Translate;
    if i < 1024 {
      ClearedStays(m0, m, directory, stack, page, i);
      SelfMappedAccess(m, directory, page, i, 0);
      ClearedMore(m0, m, page, i);
      hide ClearedTo; hide Tables;
      ClearsSelfMapped(m0, m[page / 4 + i := 0], directory, stack, page, i + 1);
    }
  }

  // ---------------------------------------------------------------- when mapping is right

  function Top(stack: seq<nat>): Option<nat> {
    if stack == [] then None else Some(stack[|stack| - 1])
  }

  function Rest(stack: seq<nat>): seq<nat> {
    if stack == [] then [] else stack[..|stack| - 1]
  }

  /** The call reports success and changes the translation of virt's page, to phys, and of no other. */
  ghost predicate Right(m: seq<Word>, directory: nat, top: Option<nat>, virt: nat, phys: nat, flags: nat)
    requires Shape(m, directory) && virt < WORD && phys < WORD && phys % PAGE_SIZE == 0 && flags < PAGE_SIZE
    requires top.Some? ==> top.value % PAGE_SIZE == 0 && top.value < WORD
  {
    var done := MapOn(m, directory, top, virt, phys, flags);
    done.result == Mapped && Remapped(m, done.mem, directory, virt, phys)
  }

  /** The table that will hold virt's entry is there, or can be had, and is self-mapped. */
  ghost predicate Ready(m: seq<Word>, directory: nat, stack: seq<nat>, virt: nat)
    requires Tables(m, directory, stack) && virt < WORD
  {
    SamePage(virt, virt);
    var table := Table(m, directory, DirectoryIndex(virt));
    if table.Some? then SelfMapped(m, directory, table.value)
    else
      && stack != [] && InMemory(Top(stack).value) && Top(stack).value != NULL
      && SelfMapped(m, directory, Top(stack).value)
  }

  lemma TopFacts(m: seq<Word>, directory: nat, stack: seq<nat>)
    requires Tables(m, directory, stack)
    ensures stack != [] ==>
      InMemory(Top(stack).value) && Top(stack).value in stack && Rest(stack) + [Top(stack).value] == stack
  {
    assert stack != [] ==> InMemory(stack[|stack| - 1]);
  }

  /** The last step, when the directory and the table are self-mapped. */
  lemma PutEntryIs(m: seq<Word>, directory: nat, table: nat, virt: nat, e: Word)
    requires Shape(m, directory) && virt < WORD && DirectoryIndex(virt) < 1024 && InMemory(table)
    requires SelfMapped(m, directory, directory) && SelfMapped(m, directory, table)
    requires Table(m, directory, DirectoryIndex(virt)) == Some(table)
    ensures PutEntry(m, directory, virt, e) == Outcome(Mapped, m[table / 4 + TableIndex(virt) := e])
  {
    hide And; hide AndNot; hide Translate;
    SelfMappedAccess(m, directory, directory, DirectoryIndex(virt), 0);
    SelfMappedAccess(m, directory, table, TableIndex(virt), e);
    hide Load; hide Store; hide SelfMapped;
  }

  lemma PutsSelfMapped(m: seq<Word>, directory: nat, stack: seq<nat>, table: nat, virt: nat, phys: nat, e: Word)
    requires Tables(m, directory, stack) && virt < WORD && DirectoryIndex(virt) < 1024 && Present(e) &&
        Address(e) == phys
    requires SelfMapped(m, directory, directory) && Table(m, directory, DirectoryIndex(virt)) == Some(table)
    requires InMemory(table) && SelfMapped(m, directory, table)
    ensures var done := PutEntry(m, directory, virt, e);
      && done.result == Mapped && Remapped(m, done.mem, directory, virt, phys) && Tables(done.mem, directory, stack)
      && forall j: nat :: j < 1024 ==> Table(done.mem, directory, j) == Table(m, directory, j)
  {
    hide And; hide AndNot; hide Translate; hide Present; hide Address;
    PutEntryIs(m, directory, table, virt, e);
    WriteEntry(m, directory, stack, virt, phys, e);
    var m' := PutEntry(m, directory, virt, e).mem;
    forall j: nat | j < 1024 ensures Table(m', directory, j) == Table(m, directory, j) {
      EntryElsewhere(m, directory, table, TableIndex(virt), e, j);
    }
    hide Tables; hide Remapped; hide PutEntry; hide Table;
  }

  /** Clearing the frame handed out and installing it, when both it and the directory are self-mapped. */
  lemma InstallsSelfMapped(m: seq<Word>, directory: nat, stack: seq<nat>, d: nat, e: Word) returns (m2: seq<Word>)
    requires Tables(m, directory, stack) && DistinctFrames(stack) && stack != [] && d < 1024 &&
        InMemory(Top(stack).value)
    requires Present(e) && Address(e) == Top(stack).value
    requires SelfMapped(m, directory, directory) && Table(m, directory, d).None? &&
        SelfMapped(m, directory, Top(stack).value)
    ensures directory + 4 * d < WORD
    ensures var cleared := ClearFrom(m, directory, Top(stack).value, 0);
      && cleared.ok && Store(cleared.mem, directory, directory + 4 * d, e) == Some(m2)
      && Cleared(m, cleared.mem, Top(stack).value) && m2 == cleared.mem[directory / 4 + d := e]
      && Tables(m2, directory, Rest(stack)) && SameTranslation(m, m2, directory)
      && forall j: nat :: j < 1024 ==> Table(m2, directory, j) == if j == d then Some(Top(stack).value)
         else Table(m, directory, j)
  {
    hide And; hide AndNot; hide Present; hide Address; hide Translate;
    var frame := Top(stack).value;
    TopFacts(m, directory, stack);
    ClearsSelfMapped(m, m, directory, stack, frame, 0);
    var m1 := ClearFrom(m, directory, frame, 0).mem;
    hide ClearFrom;
    OtherFrame(m, m1, directory, stack, frame);
    SelfMappedAccess(m1, directory, directory, d, e);
    m2 := m1[directory / 4 + d := e];
    TakenFrame(m, directory, stack, Rest(stack), frame);
    InstallTable(m, m1, directory, Rest(stack), frame, d, e);
    forall j: nat | j < 1024 ensures Table(m2, directory, j) == if j == d then Some(frame) else Table(m, directory, j) {
      InstalledSlots(m, m1, directory, frame, d, e, j);
    }
    hide Tables; hide Store; hide Table; hide SameTranslation;
  }

  /** No table but that of directory entry d is new, and that one only where there was none. */
  ghost predicate TablesAfter(m: seq<Word>, m': seq<Word>, directory: nat, stack: seq<nat>, d: nat)
    requires Shape(m, directory) && Shape(m', directory)
  {
    forall j: nat :: j < 1024 ==>
      Table(m', directory, j) == if j == d && Table(m, directory, j).None? then Top(stack) else Table(m, directory, j)
  }

  lemma MapsExisting(m: seq<Word>, directory: nat, stack: seq<nat>, table: nat, virt: nat, phys: nat, flags: nat)
    requires Tables(m, directory, stack) && virt < WORD && DirectoryIndex(virt) < 1024
    requires phys < WORD && phys % PAGE_SIZE == 0 && flags < PAGE_SIZE && (stack != [] ==> InMemory(Top(stack).value))
    requires SelfMapped(m, directory, directory) && Table(m, directory, DirectoryIndex(virt)) == Some(table)
    requires InMemory(table) && SelfMapped(m, directory, table)
    ensures Right(m, directory, Top(stack), virt, phys, flags)
    ensures Tables(MapOn(m, directory, Top(stack), virt, phys, flags).mem, directory, stack)
    ensures TablesAfter(m, MapOn(m, directory, Top(stack), virt, phys, flags).mem, directory, stack,
        DirectoryIndex(virt))
    ensures Entry(phys, flags) < WORD
    ensures MapOn(m, directory, Top(stack), virt, phys, flags).mem
      == m[table / 4 + TableIndex(virt) := Entry(phys, flags)]
  {
    hide And; hide AndNot; hide Translate; hide Present; hide Address; hide Entry;
    EntryFacts(phys, flags);
    SelfMappedAccess(m, directory, directory, DirectoryIndex(virt), 0);
    PutEntryIs(m, directory, table, virt, Entry(phys, flags));
    PutsSelfMapped(m, directory, stack, table, virt, phys, Entry(phys, flags));
    hide Tables; hide PutEntry; hide Remapped; hide Load; hide SelfMapped;
  }

  lemma MapsNew(m: seq<Word>, directory: nat, stack: seq<nat>, virt: nat, phys: nat, flags: nat)
    requires Tables(m, directory, stack) && DistinctFrames(stack) && virt < WORD && DirectoryIndex(virt) < 1024
    requires phys < WORD && phys % PAGE_SIZE == 0 && flags < PAGE_SIZE && stack != [] && InMemory(Top(stack).value)
    requires SelfMapped(m, directory, directory) && Table(m, directory, DirectoryIndex(virt)).None?
    requires Top(stack).value != NULL && SelfMapped(m, directory, Top(stack).value)
    ensures Right(m, directory, Top(stack), virt, phys, flags)
    ensures Tables(MapOn(m, directory, Top(stack), virt, phys, flags).mem, directory, Rest(stack))
    ensures TablesAfter(m, MapOn(m, directory, Top(stack), virt, phys, flags).mem, directory, stack,
        DirectoryIndex(virt))
  {
    hide And; hide AndNot; hide Translate; hide Present; hide Address; hide Entry; hide ClearFrom;
    var frame := Top(stack).value;
    EntryFacts(phys, flags);
    EntryFacts(frame, flags);
    SelfMappedAccess(m, directory, directory, DirectoryIndex(virt), 0);
    var m2 := InstallsSelfMapped(m, directory, stack, DirectoryIndex(virt), Entry(frame, flags));
    PutsSelfMapped(m2, directory, Rest(stack), frame, virt, phys, Entry(phys, flags));
    hide Tables; hide PutEntry; hide Load; hide Store; hide Table;
  }

  /** With the directory self-mapped and the table ready, the call is right and leaves the tables in order. */
  lemma MapsWhenReady(m: seq<Word>, directory: nat, stack: seq<nat>, virt: nat, phys: nat, flags: nat)
    requires Tables(m, directory, stack) && DistinctFrames(stack) && SelfMapped(m, directory, directory)
    requires virt < WORD && phys < WORD && phys % PAGE_SIZE == 0 && flags < PAGE_SIZE &&
        Ready(m, directory, stack, virt)
    ensures DirectoryIndex(virt) < 1024 && (stack != [] ==> InMemory(Top(stack).value))
    ensures Right(m, directory, Top(stack), virt, phys, flags)
    ensures Tables(MapOn(m, directory, Top(stack), virt, phys, flags).mem, directory,
                   if Table(m, directory, DirectoryIndex(virt)).Some? then stack else Rest(stack))
    ensures TablesAfter(m, MapOn(m, directory, Top(stack), virt, phys, flags).mem, directory, stack,
        DirectoryIndex(virt))
  {
    SamePage(virt, virt);
    TopFacts(m, directory, stack);
    var table := Table(m, directory, DirectoryIndex(virt));
    hide Translate; hide Present; hide Address;
    if table.Some? {
      MapsExisting(m, directory, stack, table.value, virt, phys, flags);
    } else {
      MapsNew(m, directory, stack, virt, phys, flags);
    }
    hide Tables; hide Right; hide MapOn;
  }

  /** Memory after a call that installed a frame as a table: the frame is clear but for the page's entry. */
  ghost predicate WithTable(m: seq<Word>, m': seq<Word>, directory: nat, frame: nat, virt: nat, pde: nat, pte: nat)
    requires Shape(m, directory) && virt < WORD
  {
    && |m'| == MEMORY_WORDS && InMemory(frame)
    && forall w :: 0 <= w < MEMORY_WORDS ==>
        m'[w] == if w == directory / 4 + DirectoryIndex(virt) then pde
                 else if w == frame / 4 + TableIndex(virt) then pte
                 else if frame / 4 <= w < frame / 4 + 1024 then 0
                 else m[w]
  }

  lemma NewWrites(m: seq<Word>, directory: nat, stack: seq<nat>, virt: nat, phys: nat, flags: nat)
    requires Tables(m, directory, stack) && DistinctFrames(stack) && virt < WORD && DirectoryIndex(virt) < 1024
    requires phys < WORD && phys % PAGE_SIZE == 0 && flags < PAGE_SIZE && stack != [] && InMemory(Top(stack).value)
    requires SelfMapped(m, directory, directory) && Table(m, directory, DirectoryIndex(virt)).None?
    requires Top(stack).value != NULL && SelfMapped(m, directory, Top(stack).value)
    ensures WithTable(m, MapOn(m, directory, Top(stack), virt, phys, flags).mem, directory, Top(stack).value, virt,
                      Entry(Top(stack).value, flags), Entry(phys, flags))
  {
    hide And; hide AndNot; hide Translate; hide Present; hide Address; hide Entry; hide ClearFrom;
    var frame := Top(stack).value;
    EntryFacts(phys, flags);
    EntryFacts(frame, flags);
    SelfMappedAccess(m, directory, directory, DirectoryIndex(virt), 0);
    var m2 := InstallsSelfMapped(m, directory, stack, DirectoryIndex(virt), Entry(frame, flags));
    TopFacts(m, directory, stack);
    hide SameTranslation;
    PutEntryIs(m2, directory, frame, virt, Entry(phys, flags));
    FramesApart(frame, directory);
    hide Tables; hide PutEntry; hide Load; hide Store; hide Table;
  }

  /**
   Everything such a call writes: in the table the page's frame with the flags and the present bit, and, where there
   was no table, the same of the frame handed out in the directory, with the rest of that frame clear.  No other word
   of memory changes.
   */
  lemma ReadyWrites(m: seq<Word>, directory: nat, stack: seq<nat>, virt: nat, phys: nat, flags: nat)
    requires Tables(m, directory, stack) && DistinctFrames(stack) && SelfMapped(m, directory, directory)
    requires virt < WORD && phys < WORD && phys % PAGE_SIZE == 0 && flags < PAGE_SIZE &&
        Ready(m, directory, stack, virt)
    ensures DirectoryIndex(virt) < 1024 && (stack != [] ==> InMemory(Top(stack).value))
    ensures var m' := MapOn(m, directory, Top(stack), virt, phys, flags).mem;
      var table := Table(m, directory, DirectoryIndex(virt));
      var present := if flags % 2 == 1 then flags else flags + 1;
      if table.Some? then
        InMemory(table.value) && phys + present < WORD
        && m' == m[table.value / 4 + TableIndex(virt) := phys + present]
      else WithTable(m, m', directory, Top(stack).value, virt, Top(stack).value + present, phys + present)
  {
    hide MapOn; hide Right; hide TablesAfter; hide WithTable; hide Present; hide Address; hide Entry; hide And;
    hide AndNot; hide Translate; hide Remapped; hide DistinctFrames;
    SamePage(virt, virt);
    TopFacts(m, directory, stack);
    EntryFacts(phys, flags);
    EntryIs(phys, flags);
    var table := Table(m, directory, DirectoryIndex(virt));
    if table.Some? {
      MapsExisting(m, directory, stack, table.value, virt, phys, flags);
    } else {
      EntryIs(Top(stack).value, flags);
      NewWrites(m, directory, stack, virt, phys, flags);
    }
    hide Tables;
  }

  // ---------------------------------------------------------------- when it is not

  /** Writing a zero can only take translations away. */
  lemma ZeroUnmaps(m: seq<Word>, directory: nat, x: nat, a: nat)
    requires Shape(m, directory) && a < WORD
    ensures Translate(Written(m, x, 0), directory, a) in {Translate(m, directory, a), None}
  {
    hide Present; hide Address; hide DirectoryIndex; hide TableIndex;
    ZeroEntry();
    SamePage(a, a);
    IndexBounds(a);
  }

  lemma IndexBounds(a: nat)
    requires a < WORD
    ensures DirectoryIndex(a) < 1024 && TableIndex(a) < 1024
  {
  }

  /** So can clearing a page, wherever its addresses lead, and it leaves each word as it was or zero. */
  lemma {:induction false} ClearUnmaps(m: seq<Word>, directory: nat, page: nat, i: nat, a: nat)
    requires Shape(m, directory) && page % PAGE_SIZE == 0 && page < WORD && i <= 1024 && a < WORD
    ensures Translate(ClearFrom(m, directory, page, i).mem, directory, a) in {Translate(m, directory, a), None}
    ensures forall w :: 0 <= w < MEMORY_WORDS ==> ClearFrom(m, directory, page, i).mem[w] in {m[w], 0}
    decreases 1024 - i
  {
    if i < 1024 {
      WordOfPage(m, directory, page, i);
      var x := Translate(m, directory, page + 4 * i);
      if x.Some? {
        ZeroUnmaps(m, directory, x.value, a);
        hide Translate;
        ClearUnmaps(Written(m, x.value, 0), directory, page, i + 1, a);
      }
    }
  }

  /** A write that hits neither virt's directory entry nor its table entry does not change its translation. */
  lemma MissedWrite(m: seq<Word>, directory: nat, table: nat, virt: nat, x: nat, e: Word)
    requires Shape(m, directory) && virt < WORD && DirectoryIndex(virt) < 1024 && InMemory(table)
    requires Table(m, directory, DirectoryIndex(virt)) == Some(table)
    requires x / 4 != directory / 4 + DirectoryIndex(virt) && x / 4 != table / 4 + TableIndex(virt)
    ensures Translate(Written(m, x, e), directory, virt) == Translate(m, directory, virt)
  {
    hide Present; hide Address;
  }

  /** A write to the directory entry that names a table where there is no memory maps virt to the last page. */
  lemma DirectoryHit(m: seq<Word>, directory: nat, virt: nat, x: nat, e: Word)
    requires Shape(m, directory) && virt < WORD && DirectoryIndex(virt) < 1024
    requires x / 4 == directory / 4 + DirectoryIndex(virt) && !InMemory(Address(e))
    requires Present(e)
    ensures Translate(Written(m, x, e), directory, virt) == Some(0xFFFF_F000 + virt % PAGE_SIZE)
  {
    AbsentEntry();
    hide Present; hide Address;
  }

  lemma StrayEntry(m: seq<Word>, directory: nat, table: nat, virt: nat, e: Word)
    requires Shape(m, directory) && virt < WORD && DirectoryIndex(virt) < 1024 && InMemory(table)
    requires SelfMapped(m, directory, directory) && Table(m, directory, DirectoryIndex(virt)) == Some(table)
    ensures table + 4 * TableIndex(virt) < WORD
    ensures var x := Translate(m, directory, table + 4 * TableIndex(virt));
      PutEntry(m, directory, virt, e) == if x.None? then Outcome(Fault, m) else Outcome(Mapped, Written(m, x.value, e))
  {
    hide And; hide AndNot; hide Translate;
    SelfMappedAccess(m, directory, directory, DirectoryIndex(virt), 0);
    WordOfPage(m, directory, table, TableIndex(virt));
    hide Load; hide SelfMapped;
  }

  /** A frame address where there is no memory. */
  const FAR: nat := 0x8000_0000

  lemma StrayPlace(table: nat, page: nat, i: nat)
    requires InMemory(table) && page % PAGE_SIZE == 0 && page != table && i < 1024
    ensures (page + 4 * i) / 4 != table / 4 + i
  {
  }

  /**
   A last step through a table that is not self-mapped goes wrong for some frame: it faults, or leaves virt as it
   was, or lands on the directory entry itself.
   */
  lemma StrayPut(m: seq<Word>, directory: nat, table: nat, virt: nat, flags: nat) returns (phys: nat)
    requires Shape(m, directory) && virt < WORD && DirectoryIndex(virt) < 1024 && InMemory(table)
    requires flags < PAGE_SIZE && SelfMapped(m, directory, directory) && !SelfMapped(m, directory, table)
    requires Table(m, directory, DirectoryIndex(virt)) == Some(table)
    ensures phys in {0, FAR} && Entry(phys, flags) < WORD
    ensures var done := PutEntry(m, directory, virt, Entry(phys, flags));
      done.result == Fault || Translate(done.mem, directory, virt) != Some(phys + virt % PAGE_SIZE)
  {
    hide Present; hide Address; hide Entry; hide Translate; hide And; hide AndNot;
    var d, i := DirectoryIndex(virt), TableIndex(virt);
    EntryFacts(0, flags);
    EntryFacts(FAR, flags);
    WordOfPage(m, directory, table, i);
    var x := Translate(m, directory, table + 4 * i);
    var hit := x.Some? && x.value / 4 == directory / 4 + d;
    phys := if hit || Translate(m, directory, virt) != Some(FAR + virt % PAGE_SIZE) then FAR else 0;
    StrayEntry(m, directory, table, virt, Entry(phys, flags));
    if x.Some? {
      StrayPlace(table, Translate(m, directory, table).value, i);
      hide PutEntry; hide Table; hide Written;
      if hit {
        DirectoryHit(m, directory, virt, x.value, Entry(phys, flags));
      } else {
        MissedWrite(m, directory, table, virt, x.value, Entry(phys, flags));
      }
    }
  }

  /** Writing one directory entry leaves alone what the other entries' tables translate. */
  lemma OtherEntry(m: seq<Word>, directory: nat, d: nat, e: Word, a: nat)
    requires Shape(m, directory) && d < 1024 && a < WORD && DirectoryIndex(a) < 1024 && DirectoryIndex(a) != d
    requires Table(m, directory, DirectoryIndex(a)).Some? ==> Table(m, directory, DirectoryIndex(a)).value != directory
    ensures Translate(m[directory / 4 + d := e], directory, a) == Translate(m, directory, a)
  {
    hide Present; hide Address;
    var m' := m[directory / 4 + d := e];
    var t := Table(m, directory, DirectoryIndex(a));
    if t.Some? && InMemory(t.value) { FramesApart(t.value, directory); }
  }

  lemma SelfMappedElsewhere(m: seq<Word>, directory: nat, page: nat, d: nat)
    requires Shape(m, directory) && page < WORD && d < 1024 && Table(m, directory, d).None?
    ensures Translate(m, directory, page).Some? ==> DirectoryIndex(page) != d
  {
  }

  /**
   What is left after clearing through a stray mapping: either the call faults, or the stray mapping is still there.
   */
  lemma StrayInstall(m: seq<Word>, directory: nat, stack: seq<nat>, frame: nat, d: nat, e: Word)
    requires Tables(m, directory, stack) && d < 1024 && Table(m, directory, d).None? &&
        SelfMapped(m, directory, directory)
    requires InMemory(frame) && !SelfMapped(m, directory, frame) && Present(e) && Address(e) == frame &&
        directory + 4 * d < WORD
    requires ClearFrom(m, directory, frame, 0).ok
    ensures var installed := Store(ClearFrom(m, directory, frame, 0).mem, directory, directory + 4 * d, e);
      installed.Some? ==>
        && SelfMapped(installed.value, directory, directory) && !SelfMapped(installed.value, directory, frame)
        && Table(installed.value, directory, d) == Some(frame)
  {
    var m1 := ClearFrom(m, directory, frame, 0).mem;
    ClearUnmaps(m, directory, frame, 0, directory);
    ClearUnmaps(m, directory, frame, 0, frame);
    SamePage(directory, directory);
    SamePage(frame, frame);
    FaultsAtOnce(m, directory, frame, 0);
    SelfMappedElsewhere(m, directory, directory, d);
    SelfMappedElsewhere(m, directory, frame, d);
    TablesLeft(m, m1, directory, stack, DirectoryIndex(directory));
    TablesLeft(m, m1, directory, stack, DirectoryIndex(frame));
    hide ClearFrom; hide Tables; hide Present; hide Address; hide DirectoryIndex; hide TableIndex; hide Translate;
    WordOfPage(m1, directory, directory, d);
    if Translate(m1, directory, directory).Some? {
      SelfMappedAccess(m1, directory, directory, d, e);
      OtherEntry(m1, directory, d, e, directory);
      OtherEntry(m1, directory, d, e, frame);
    }
  }

  lemma FaultsAtOnce(m: seq<Word>, directory: nat, page: nat, i: nat)
    requires Shape(m, directory) && page % PAGE_SIZE == 0 && page < WORD && i < 1024
    ensures Translate(m, directory, page).None? ==> ClearFrom(m, directory, page, i) == Access(false, m)
  {
    WordOfPage(m, directory, page, i);
    hide Translate;
  }

  /** Where words have only been zeroed, the tables left are tables there were. */
  lemma TablesLeft(m: seq<Word>, m1: seq<Word>, directory: nat, stack: seq<nat>, d: nat)
    requires Tables(m, directory, stack) && |m1| == MEMORY_WORDS && d < 1024
    requires forall w :: 0 <= w < MEMORY_WORDS ==> m1[w] in {m[w], 0}
    ensures Table(m1, directory, d).Some? ==>
        Table(m1, directory, d) == Table(m, directory, d) && Table(m1, directory, d).value != directory
  {
    ZeroEntry();
    hide Present; hide Address;
    assert Slot(m1, directory, d) in {Slot(m, directory, d), 0};
  }

  lemma WrongAt(m: seq<Word>, directory: nat, top: Option<nat>, virt: nat, phys: nat, flags: nat)
    requires Shape(m, directory) && virt < WORD && phys < WORD && phys % PAGE_SIZE == 0 && flags < PAGE_SIZE
    requires top.Some? ==> top.value % PAGE_SIZE == 0 && top.value < WORD
    requires var done := MapOn(m, directory, top, virt, phys, flags);
      done.result == Fault || Translate(done.mem, directory, virt) != Some(phys + virt % PAGE_SIZE)
    ensures !Right(m, directory, top, virt, phys, flags)
  {
    hide Translate; hide MapOn;
  }

  lemma WrongWithTable(m: seq<Word>, directory: nat, top: Option<nat>, table: nat, virt: nat, flags: nat)
    returns (phys: nat)
    requires Shape(m, directory) && SelfMapped(m, directory, directory) && InMemory(table) &&
        !SelfMapped(m, directory, table)
    requires virt < WORD && DirectoryIndex(virt) < 1024 && flags < PAGE_SIZE && (top.Some? ==> InMemory(top.value))
    requires Table(m, directory, DirectoryIndex(virt)) == Some(table)
    ensures phys in {0, FAR} && !Right(m, directory, top, virt, phys, flags)
  {
    hide Translate; hide Present; hide Address; hide Entry; hide And; hide AndNot; hide ClearFrom;
    SelfMappedAccess(m, directory, directory, DirectoryIndex(virt), 0);
    phys := StrayPut(m, directory, table, virt, flags);
    hide PutEntry; hide Load; hide Store;
    WrongAt(m, directory, top, virt, phys, flags);
  }

  lemma WrongWithFrame(m: seq<Word>, directory: nat, stack: seq<nat>, frame: nat, virt: nat, flags: nat)
    returns (phys: nat)
    requires Tables(m, directory, stack) && SelfMapped(m, directory, directory) && InMemory(frame) &&
        !SelfMapped(m, directory, frame)
    requires virt < WORD && DirectoryIndex(virt) < 1024 && flags < PAGE_SIZE && frame != NULL
    requires Table(m, directory, DirectoryIndex(virt)).None?
    ensures phys in {0, FAR} && !Right(m, directory, Some(frame), virt, phys, flags)
  {
    hide Translate; hide Present; hide Address; hide Entry; hide And; hide AndNot; hide ClearFrom;
    var d := DirectoryIndex(virt);
    SelfMappedAccess(m, directory, directory, d, 0);
    EntryFacts(frame, flags);
    phys := 0;
    if ClearFrom(m, directory, frame, 0).ok {
      StrayInstall(m, directory, stack, frame, d, Entry(frame, flags));
      var installed := Store(ClearFrom(m, directory, frame, 0).mem, directory, directory + 4 * d, Entry(frame, flags));
      if installed.Some? { phys := StrayPut(installed.value, directory, frame, virt, flags); }
    }
    hide PutEntry; hide Load; hide Store; hide Tables; hide SelfMapped; hide Table;
    WrongAt(m, directory, Some(frame), virt, phys, flags);
  }

  lemma WrongWithout(m: seq<Word>, directory: nat, top: Option<nat>, virt: nat, phys: nat, flags: nat)
    requires Shape(m, directory) && SelfMapped(m, directory, directory) && virt < WORD && DirectoryIndex(virt) < 1024
    requires phys < WORD && phys % PAGE_SIZE == 0 && flags < PAGE_SIZE && (top.None? || top.value == NULL)
    requires Table(m, directory, DirectoryIndex(virt)).None?
    ensures MapOn(m, directory, top, virt, phys, flags) == Outcome(NoTable, m)
  {
    hide Translate; hide And; hide AndNot; hide Entry; hide ClearFrom;
    SelfMappedAccess(m, directory, directory, DirectoryIndex(virt), 0);
    hide Load;
  }

  /** When the table is not ready the call goes wrong for some frame. */
  lemma WrongUnlessReady(m: seq<Word>, directory: nat, stack: seq<nat>, virt: nat, flags: nat) returns (phys: nat)
    requires Tables(m, directory, stack) && SelfMapped(m, directory, directory)
    requires virt < WORD && flags < PAGE_SIZE && !Ready(m, directory, stack, virt) &&
        (stack != [] ==> InMemory(Top(stack).value))
    ensures phys in {0, FAR} && !Right(m, directory, Top(stack), virt, phys, flags)
  {
    hide Translate; hide Present; hide Address; hide Entry; hide And; hide AndNot; hide ClearFrom; hide MapOn;
    SamePage(virt, virt);
    var table := Table(m, directory, DirectoryIndex(virt));
    if table.Some? {
      phys := WrongWithTable(m, directory, Top(stack), table.value, virt, flags);
    } else if stack == [] || Top(stack).value == NULL {
      phys := 0;
      WrongWithout(m, directory, Top(stack), virt, phys, flags);
    } else {
      phys := WrongWithFrame(m, directory, stack, Top(stack).value, virt, flags);
    }
  }

  /**
   With the tables in order and the directory self-mapped, the call maps virt to every frame it may be asked for
   exactly when the table that takes the entry is self-mapped: the one in use, or else the frame that the allocator
   hands out.
   */
  lemma MapsExactlyWhenReady(m: seq<Word>, directory: nat, stack: seq<nat>, virt: nat, flags: nat)
    requires Tables(m, directory, stack) && DistinctFrames(stack) && SelfMapped(m, directory, directory)
    requires virt < WORD && flags < PAGE_SIZE
    ensures stack != [] ==> InMemory(Top(stack).value)
    ensures Ready(m, directory, stack, virt)
      <==> forall phys: nat :: phys < WORD && phys % PAGE_SIZE == 0 ==>
          Right(m, directory, Top(stack), virt, phys, flags)
  {
    TopFacts(m, directory, stack);
    hide Right; hide Tables; hide SelfMapped;
    if Ready(m, directory, stack, virt) {
      forall phys: nat | phys < WORD && phys % PAGE_SIZE == 0
          ensures Right(m, directory, Top(stack), virt, phys, flags) {
        MapsWhenReady(m, directory, stack, virt, phys, flags);
      }
    } else {
      var phys := WrongUnlessReady(m, directory, stack, virt, flags);
    }
  }

  /** With the directory's own page unmapped every call faults and changes nothing. */
  lemma NoDirectory(m: seq<Word>, directory: nat, top: Option<nat>, virt: nat, phys: nat, flags: nat)
    requires Shape(m, directory) && Translate(m, directory, directory).None? && virt < WORD
    requires top.Some? ==> top.value % PAGE_SIZE == 0 && top.value < WORD
    requires phys < WORD && phys % PAGE_SIZE == 0 && flags < PAGE_SIZE
    ensures MapOn(m, directory, top, virt, phys, flags) == Outcome(Fault, m)
  {
    hide Translate; hide And; hide AndNot; hide Present; hide ClearFrom; hide Store;
    SamePage(virt, virt);
    WordOfPage(m, directory, directory, DirectoryIndex(virt));
  }

  /** A right call leaves a page self-mapped exactly when it maps another page, or this one to itself. */
  lemma SelfMappedAfter(m: seq<Word>, m': seq<Word>, directory: nat, virt: nat, phys: nat, page: nat)
    requires Shape(m, directory) && Shape(m', directory) && virt < WORD && Remapped(m, m', directory, virt, phys)
    requires page < WORD && page % PAGE_SIZE == 0
    ensures SelfMapped(m', directory, page)
        <==> if virt / PAGE_SIZE == page / PAGE_SIZE then phys == page else SelfMapped(m, directory, page)
  {
    hide Translate;
  }

  // ---------------------------------------------------------------- two calls that go wrong

  /**
   After boot, a call that needs a table and is handed a frame at or above 64 MiB faults while clearing it, and changes
   nothing.
   */
  lemma HighFrameFaults(m: seq<Word>, directory: nat, tables: seq<nat>, frame: nat, virt: nat, phys: nat, flags: nat)
    requires IdentityMap(m, directory, tables) && directory < 0x400_0000
    requires InMemory(frame) && frame >= 0x400_0000 && 0x400_0000 <= virt < WORD
    requires phys < WORD && phys % PAGE_SIZE == 0 && flags < PAGE_SIZE
    ensures MapOn(m, directory, Some(frame), virt, phys, flags) == Outcome(Fault, m)
  {
    hide Translate; hide And; hide AndNot; hide Entry; hide Present; hide ClearFrom; hide Store; hide PutEntry;
    IdentityBelow64M(m, directory, tables, directory);
    IdentityBelow64M(m, directory, tables, frame);
    SamePage(virt, virt);
    var d := DirectoryIndex(virt);
    assert d >= 16;
    assert Slot(m, directory, d) == 0;
    ZeroEntry();
    hide IdentityMap;
    SelfMappedAccess(m, directory, directory, d, 0);
    FaultsAtOnce(m, directory, frame, 0);
  }

  /**
   An entry for a table whose page is mapped to another page of memory lands in that page, and the call reports
   success.
   */
  lemma LostEntry(m: seq<Word>, directory: nat, top: Option<nat>, table: nat, p: nat, v: nat, q: nat, flags: nat)
    requires Shape(m, directory) && InMemory(table) && InMemory(p) && p != table && p != directory && v < WORD
    requires DirectoryIndex(v) < 1024 && Table(m, directory, DirectoryIndex(v)) == Some(table)
    requires SelfMapped(m, directory, directory) && Translate(m, directory, table) == Some(p)
    requires top.Some? ==> top.value % PAGE_SIZE == 0 && top.value < WORD
    requires q < WORD && q % PAGE_SIZE == 0 && flags < PAGE_SIZE
    ensures Entry(q, flags) < WORD
    ensures var done := MapOn(m, directory, top, v, q, flags);
      && done == Outcome(Mapped, m[p / 4 + TableIndex(v) := Entry(q, flags)])
      && Translate(done.mem, directory, v) == Translate(m, directory, v)
  {
    hide Present; hide Address; hide Entry; hide And; hide AndNot; hide Translate; hide ClearFrom;
    EntryFacts(q, flags);
    SelfMappedAccess(m, directory, directory, DirectoryIndex(v), 0);
    WordOfPage(m, directory, table, TableIndex(v));
    StrayEntry(m, directory, table, v, Entry(q, flags));
    FramesApart(p, directory);
    FramesApart(p, table);
    var x := p + 4 * TableIndex(v);
    assert x / 4 == p / 4 + TableIndex(v);
    MissedWrite(m, directory, table, v, x, Entry(q, flags));
    hide PutEntry; hide Load; hide Table;
  }

  /** What boot leaves of a page below 64 MiB: it is mapped to itself, by a table that is. */
  lemma BootPage(m: seq<Word>, directory: nat, tables: seq<nat>, page: nat)
    requires IdentityMap(m, directory, tables) && page < 0x400_0000
    requires forall k :: 0 <= k < 16 ==> tables[k] < 0x400_0000
    ensures DirectoryIndex(page) < 16 && SelfMapped(m, directory, page)
    ensures Table(m, directory, DirectoryIndex(page)) == Some(tables[DirectoryIndex(page)])
    ensures SelfMapped(m, directory, tables[DirectoryIndex(page)]) && InMemory(tables[DirectoryIndex(page)])
  {
    IdentityBelow64M(m, directory, tables, page);
    IdentityBelow64M(m, directory, tables, tables[DirectoryIndex(page)]);
    IdentityPage(m, directory, tables, DirectoryIndex(page), 0);
    hide Translate; hide Present; hide Address;
  }

  lemma FirstTableMoved(m: seq<Word>, directory: nat, tables: seq<nat>, stack: seq<nat>, p: nat, v: nat, flags: nat)
    requires IdentityMap(m, directory, tables) && Tables(m, directory, stack)
    requires directory < 0x400_0000 && forall k :: 0 <= k < 16 ==> tables[k] < 0x400_0000
    requires InMemory(p) && v % PAGE_SIZE == 0 && v < 0x40_0000 && v != tables[0]
    requires flags < PAGE_SIZE && (stack != [] ==> InMemory(Top(stack).value))
    ensures InMemory(tables[0]) && Right(m, directory, Top(stack), tables[0], p, flags)
    ensures var m1 := MapOn(m, directory, Top(stack), tables[0], p, flags).mem;
      && SelfMapped(m1, directory, directory) && Translate(m1, directory, tables[0]) == Some(p)
      && Translate(m1, directory, v) == Some(v) && Table(m1, directory, 0) == Some(tables[0])
  {
    var t := tables[0];
    BootPage(m, directory, tables, t);
    BootPage(m, directory, tables, directory);
    BootPage(m, directory, tables, v);
    var table := tables[DirectoryIndex(t)];
    assert directory != t && directory != table && DirectoryIndex(v) == 0 && t < WORD;
    hide IdentityMap; hide Present; hide Address; hide Translate; hide Table;
    MapsExisting(m, directory, stack, table, t, p, flags);
    var m1 := MapOn(m, directory, Top(stack), t, p, flags).mem;
    hide MapOn; hide Tables; hide Entry;
    MovedPage(m, m1, directory, t, p, directory);
    MovedPage(m, m1, directory, t, p, v);
    EntryElsewhere(m, directory, table, TableIndex(t), Entry(p, flags), 0);
  }

  /** A right call moves its own page and leaves another one mapped to itself. */
  lemma MovedPage(m: seq<Word>, m1: seq<Word>, directory: nat, t: nat, p: nat, page: nat)
    requires Shape(m, directory) && Shape(m1, directory) && t < WORD && page < WORD && Remapped(m, m1, directory, t, p)
    requires t % PAGE_SIZE == 0 && page % PAGE_SIZE == 0 && t != page && SelfMapped(m, directory, page)
    ensures SelfMapped(m1, directory, page) && Translate(m1, directory, t) == Some(p)
  {
    assert t / PAGE_SIZE != page / PAGE_SIZE;
    hide Translate;
  }

  lemma EntryElsewhere(m: seq<Word>, directory: nat, table: nat, i: nat, e: Word, d: nat)
    requires Shape(m, directory) && InMemory(table) && table != directory && i < 1024 && d < 1024
    ensures Table(m[table / 4 + i := e], directory, d) == Table(m, directory, d)
  {
    FramesApart(table, directory);
  }

  /**
   After boot, once the first table's own page is mapped to an ordinary page p, a call for a page of the first 4 MiB
   reports success, writes its entry into p, and leaves its page mapped to itself.
   */
  lemma RemappedTableLost(m: seq<Word>, directory: nat, tables: seq<nat>, stack: seq<nat>, p: nat, v: nat, q: nat,
          flags: nat)
    requires IdentityMap(m, directory, tables) && Tables(m, directory, stack)
    requires directory < 0x400_0000 && forall k :: 0 <= k < 16 ==> tables[k] < 0x400_0000
    requires InMemory(p) && p != directory && p != tables[0] && v % PAGE_SIZE == 0 && v < 0x40_0000 && v != tables[0]
    requires q < WORD && q % PAGE_SIZE == 0 && flags < PAGE_SIZE && (stack != [] ==> InMemory(Top(stack).value))
    ensures Right(m, directory, Top(stack), tables[0], p, flags) && Entry(q, flags) < WORD
    ensures var first := MapOn(m, directory, Top(stack), tables[0], p, flags).mem;
      var second := MapOn(first, directory, Top(stack), v, q, flags);
      && second == Outcome(Mapped, first[p / 4 + TableIndex(v) := Entry(q, flags)])
      && Translate(second.mem, directory, v) == Some(v)
  {
    hide Translate; hide Entry; hide MapOn; hide Table; hide SelfMapped; hide Right; hide And; hide AndNot;
    hide IdentityEntry;
    FirstTableMoved(m, directory, tables, stack, p, v, flags);
    LostEntry(MapOn(m, directory, Top(stack), tables[0], p, flags).mem, directory, Top(stack), tables[0], p, v, q,
        flags);
  }

  // ---------------------------------------------------------------- calls that keep out of low memory

  const LIMIT: nat := 0x400_0000

  /** Everything the calls reach, or may be handed, lies below 64 MiB, which is mapped to itself. */
  ghost predicate LowMemory(m: seq<Word>, directory: nat, stack: seq<nat>)
    requires Shape(m, directory)
  {
    && directory < LIMIT && (forall k :: 0 <= k < |stack| ==> stack[k] < LIMIT)
    && (forall a: nat :: a < LIMIT ==> Translate(m, directory, a) == Some(a))
    && (forall j: nat :: j < 1024 && Table(m, directory, j).Some? ==> Table(m, directory, j).value < LIMIT)
  }

  /** A call for a page at or above 64 MiB, or one that maps a page to itself. */
  predicate Harmless(c: Mapping) {
    c.virt < WORD && c.phys < WORD && c.phys % PAGE_SIZE == 0 &&
        (c.virt >= LIMIT || c.phys == c.virt - c.virt % PAGE_SIZE)
  }

  lemma LowReady(m: seq<Word>, directory: nat, stack: seq<nat>, virt: nat)
    requires Tables(m, directory, stack) && LowMemory(m, directory, stack) && virt < WORD
    ensures SelfMapped(m, directory, directory) && DirectoryIndex(virt) < 1024
    ensures Ready(m, directory, stack, virt)
      <==> Table(m, directory, DirectoryIndex(virt)).Some? || (stack != [] && Top(stack).value != NULL)
  {
    SamePage(virt, virt);
    TopFacts(m, directory, stack);
    hide Translate; hide Present; hide Address;
  }

  lemma PagePlace(a: nat, v: nat)
    ensures a / PAGE_SIZE == v / PAGE_SIZE ==> v - v % PAGE_SIZE + a % PAGE_SIZE == a
    ensures a < LIMIT <= v ==> a / PAGE_SIZE != v / PAGE_SIZE
  {
  }

  /** A harmless call leaves low memory as it was. */
  lemma LowKept(m: seq<Word>, m': seq<Word>, directory: nat, stack: seq<nat>, stack': seq<nat>, c: Mapping, d: nat)
    requires Shape(m, directory) && Shape(m', directory) && LowMemory(m, directory, stack) && Harmless(c)
    requires Remapped(m, m', directory, c.virt, c.phys) && stack' <= stack && TablesAfter(m, m', directory, stack, d)
    ensures LowMemory(m', directory, stack')
  {
    hide Translate; hide Table; hide Remapped; hide Harmless;
    forall a: nat | a < LIMIT ensures Translate(m', directory, a) == Some(a) {
      LowAddress(m, m', directory, c, a);
    }
  }

  lemma LowAddress(m: seq<Word>, m': seq<Word>, directory: nat, c: Mapping, a: nat)
    requires Shape(m, directory) && Shape(m', directory) && Harmless(c) && a < LIMIT
    requires Remapped(m, m', directory, c.virt, c.phys) && Translate(m, directory, a) == Some(a)
    ensures Translate(m', directory, a) == Some(a)
  {
    hide Translate;
    PagePlace(a, c.virt);
  }
}
