/**
 Two-level 32-bit paging: the translation that a page directory in physical memory defines, and the code that edits it.

 Physical memory is a sequence of words.  The processor walks the tables at their physical addresses.
 */
module Paging {
  import opened Basics
  import opened Bits
  import opened Frames

  const MEMORY_WORDS: nat := 0x200_0000

  function DirectoryIndex(v: nat): nat {
    v / 0x40_0000
  }

  function TableIndex(v: nat): nat {
    v / PAGE_SIZE % 1024
  }

  predicate Present(e: nat) {
    And(e, 1) != 0
  }

  /** The address part of an entry. */
  function Address(e: nat): nat {
    AndNot(e, 0xFFF)
  }

  /** A page-aligned frame inside memory. */
  predicate InMemory(frame: nat) {
    frame % PAGE_SIZE == 0 && frame / 4 + 1024 <= MEMORY_WORDS
  }

  /** Word i of the frame at the given address. */
  function Slot(m: seq<Word>, frame: nat, i: nat): Word
    requires |m| == MEMORY_WORDS && InMemory(frame) && i < 1024
  {
    m[frame / 4 + i]
  }

  /** What a read finds where there is no memory. */
  const ABSENT: Word := 0xFFFF_FFFF

  /** Word i of the frame at the given address, be it memory or not. */
  function Fetch(m: seq<Word>, frame: nat, i: nat): Word
    requires |m| == MEMORY_WORDS && i < 1024
  {
    if InMemory(frame) then Slot(m, frame, i) else ABSENT
  }

  /** What the processor finds for virtual address v. */
  function Translate(m: seq<Word>, directory: nat, v: nat): Option<nat>
    requires |m| == MEMORY_WORDS && InMemory(directory) && v < WORD
  {
    var pde := Slot(m, directory, DirectoryIndex(v));
    if !Present(pde) then None
    else
      var pte := Fetch(m, Address(pde), TableIndex(v));
      if !Present(pte) then None else Some(Address(pte) + v % PAGE_SIZE)
  }

  // ---------------------------------------------------------------- entries

  /** The entry that maps a frame with some flags. */
  function Entry(frame: nat, flags: nat): nat {
    Or(Or(frame, flags), 1)
  }

  lemma PageAligned(a: nat)
    ensures a % PAGE_SIZE == 0 <==> Aligned(a, 12)
  {
    assert Pow2(12) == 4096;
    AlignedIsMultiple(a, 12);
    MultipleIsAligned(a / 4096, 12);
  }

  /** The low twelve bits of an entry do not disturb its address. */
  lemma AddressOf(frame: nat, low: nat)
    requires frame % PAGE_SIZE == 0 && low < PAGE_SIZE
    ensures Address(frame + low) == frame
  {
    PageAligned(frame);
    assert Pow2(12) == 4096;
    hide AndNot; hide Aligned; hide Pow2;
    MaskLow(frame + low, 12);
    AlignedUnique(Address(frame + low), frame, 12);
  }

  lemma OrLow(frame: nat, low: nat)
    requires frame % PAGE_SIZE == 0 && low < PAGE_SIZE
    ensures Or(frame, low) == frame + low
  {
    assert Pow2(12) == 4096;
    PageAligned(frame);
    OrDisjoint(frame, low, 12);
  }

  lemma FlagsMasked(flags: nat)
    requires flags < PAGE_SIZE
    ensures And(flags, 0xFFF) == flags
  {
    assert Pow2(12) == 4096;
    hide And; hide Pow2;
    AndMask(flags, 12);
  }

  lemma EntryIs(frame: nat, flags: nat)
    requires frame % PAGE_SIZE == 0 && flags < PAGE_SIZE
    ensures Entry(frame, flags) == frame + if flags % 2 == 1 then flags else flags + 1
  {
    hide Or;
    OrLow(frame, flags);
    OrOne(frame + flags);
  }

  lemma LowSum(frame: nat, flags: nat) returns (low: nat)
    requires frame % PAGE_SIZE == 0 && flags < PAGE_SIZE && frame < WORD
    ensures low == (if flags % 2 == 1 then flags else flags + 1)
    ensures low < PAGE_SIZE && (frame + low) % 2 == 1 && frame + low < WORD
  {
    low := if flags % 2 == 1 then flags else flags + 1;
    var q := frame / PAGE_SIZE;
    assert frame == 2 * (2048 * q) && q <= 0xF_FFFF;
    assert low == 2 * (flags / 2) + 1;
    OddBetween(frame + low, 2048 * q + flags / 2);
  }

  lemma EntryFacts(frame: nat, flags: nat)
    requires frame % PAGE_SIZE == 0 && flags < PAGE_SIZE && frame < WORD
    ensures Entry(frame, flags) < WORD && Present(Entry(frame, flags)) && Address(Entry(frame, flags)) == frame
  {
    hide Or; hide And; hide AndNot; hide Address; hide Entry; hide Present;
    EntryIs(frame, flags);
    var low := LowSum(frame, flags);
    LowBit(frame + low);
    AddressOf(frame, low);
  }

  lemma LowBit(e: nat)
    ensures Present(e) <==> e % 2 == 1
  {
    assert Pow2(0) == 1;
    TestBit(e, 0);
  }

  lemma ZeroEntry()
    ensures !Present(0)
  {
  }

  lemma AbsentEntry()
    ensures Present(ABSENT) && Address(ABSENT) == 0xFFFF_F000
  {
    hide And; hide AndNot; hide Address; hide Present;
    LowBit(0xFFFF_FFFF);
    AddressOf(0xFFFF_F000, 0xFFF);
  }

  // ---------------------------------------------------------------- the tables in use

  /** Directory entry i is present: its table is at this address. */
  function Table(m: seq<Word>, directory: nat, i: nat): Option<nat>
    requires |m| == MEMORY_WORDS && InMemory(directory) && i < 1024
  {
    var pde := Slot(m, directory, i);
    if Present(pde) then Some(Address(pde)) else None
  }

  /** The directory and its tables are different frames, none of them free. */
  ghost predicate Tables(m: seq<Word>, directory: nat, stack: seq<nat>) {
    && |m| == MEMORY_WORDS && InMemory(directory)
    && (forall i: nat :: i < 1024 && Table(m, directory, i).Some? ==>
          InMemory(Table(m, directory, i).value) && Table(m, directory, i).value != directory &&
              Table(m, directory, i).value !in stack)
    && (forall i: nat, j: nat :: i < j < 1024 && Table(m, directory, i).Some? ==>
       Table(m, directory, j) != Table(m, directory, i))
    && directory !in stack
    && (forall k :: 0 <= k < |stack| ==> InMemory(stack[k]))
  }

  /** Memory with a frame cleared. */
  ghost predicate Cleared(m: seq<Word>, m': seq<Word>, frame: nat) {
    && |m| == |m'| == MEMORY_WORDS && InMemory(frame)
    && forall w :: 0 <= w < MEMORY_WORDS ==> m'[w] == if frame / 4 <= w < frame / 4 + 1024 then 0 else m[w]
  }

  lemma FramesApart(a: nat, b: nat)
    requires InMemory(a) && InMemory(b) && a != b
    ensures a / 4 + 1024 <= b / 4 || b / 4 + 1024 <= a / 4
  {
  }

  lemma SamePage(v: nat, w: nat)
    requires v < WORD && w < WORD
    ensures v / PAGE_SIZE == w / PAGE_SIZE <==> DirectoryIndex(v) == DirectoryIndex(w) && TableIndex(v) == TableIndex(w)
    ensures DirectoryIndex(v) < 1024
  {
    assert DirectoryIndex(v) == v / PAGE_SIZE / 1024 && DirectoryIndex(w) == w / PAGE_SIZE / 1024;
  }

  /** The translation with the page of v mapped to a frame and everything else as before. */
  ghost predicate Remapped(m: seq<Word>, m': seq<Word>, directory: nat, v: nat, frame: nat)
    requires |m| == |m'| == MEMORY_WORDS && InMemory(directory)
  {
    forall w: nat :: w < WORD ==>
      Translate(m', directory, w) == if w / PAGE_SIZE == v / PAGE_SIZE then Some(frame + w % PAGE_SIZE)
          else Translate(m, directory, w)
  }

  ghost predicate SameTranslation(m: seq<Word>, m': seq<Word>, directory: nat)
    requires |m| == |m'| == MEMORY_WORDS && InMemory(directory)
  {
    forall w: nat :: w < WORD ==> Translate(m', directory, w) == Translate(m, directory, w)
  }

  /** Writing one entry of a table in use. */
  lemma WriteEntry(m: seq<Word>, directory: nat, stack: seq<nat>, v: nat, frame: nat, e: Word)
    requires Tables(m, directory, stack) && v < WORD && Present(e) && Address(e) == frame
    requires Table(m, directory, DirectoryIndex(v)).Some?
    ensures var t := Table(m, directory, DirectoryIndex(v)).value;
      && InMemory(t) && Tables(m[t / 4 + TableIndex(v) := e], directory, stack)
      && Remapped(m, m[t / 4 + TableIndex(v) := e], directory, v, frame)
  {
    hide Present; hide Address;
    SamePage(v, v);
    var t := Table(m, directory, DirectoryIndex(v)).value;
    var m' := m[t / 4 + TableIndex(v) := e];
    forall i: nat | i < 1024 ensures Slot(m', directory, i) == Slot(m, directory, i) &&
        Table(m', directory, i) == Table(m, directory, i) {
      FramesApart(t, directory);
    }
    forall w: nat | w < WORD
      ensures Translate(m', directory, w) == if w / PAGE_SIZE == v / PAGE_SIZE then Some(frame + w % PAGE_SIZE)
          else Translate(m, directory, w)
    {
      SamePage(v, w);
      var d := DirectoryIndex(w);
      if d != DirectoryIndex(v) && Table(m, directory, d).Some? {
        assert Table(m, directory, d) != Table(m, directory, DirectoryIndex(v));
        FramesApart(t, Table(m, directory, d).value);
      }
    }
  }

  /** The words of a directory, a table in use and the new table after the new table is installed. */
  lemma InstalledSlots(m: seq<Word>, m1: seq<Word>, directory: nat, frame: nat, i: nat, e: Word, j: nat)
    requires Cleared(m, m1, frame) && InMemory(directory) && frame != directory && i < 1024 && j < 1024
    ensures var m2 := m1[directory / 4 + i := e];
      && Slot(m2, directory, j) == (if j == i then e else Slot(m, directory, j))
      && Slot(m2, frame, j) == 0
      && (forall a: nat :: InMemory(a) && a != directory && a != frame ==> Slot(m2, a, j) == Slot(m, a, j))
  {
    FramesApart(directory, frame);
    forall a: nat | InMemory(a) && a != directory && a != frame
      ensures Slot(m1[directory / 4 + i := e], a, j) == Slot(m, a, j)
    {
      FramesApart(directory, a);
      FramesApart(a, frame);
    }
  }

  /** Installing a cleared frame that was free as a new table changes no translation. */
  lemma InstallTable(m: seq<Word>, m1: seq<Word>, directory: nat, stack: seq<nat>, frame: nat, i: nat, e: Word)
    requires Tables(m, directory, stack + [frame]) && frame !in stack && Cleared(m, m1, frame)
    requires i < 1024 && Table(m, directory, i) == None && Present(e) && Address(e) == frame
    ensures var m2 := m1[directory / 4 + i := e];
      Tables(m2, directory, stack) && Table(m2, directory, i) == Some(frame) && SameTranslation(m, m2, directory)
  {
    ZeroEntry();
    assert (stack + [frame])[|stack|] == frame;
    var m2 := m1[directory / 4 + i := e];
    forall j: nat | j < 1024
      ensures Table(m2, directory, j) == if j == i then Some(frame) else Table(m, directory, j)
    {
      InstalledSlots(m, m1, directory, frame, i, e, j);
    }
    forall k | 0 <= k < |stack| ensures InMemory(stack[k]) { assert (stack + [frame])[k] == stack[k]; }
    forall w: nat | w < WORD ensures Translate(m2, directory, w) == Translate(m, directory, w) {
      SamePage(w, w);
      InstalledSlots(m, m1, directory, frame, i, e, DirectoryIndex(w));
      InstalledSlots(m, m1, directory, frame, i, e, TableIndex(w));
      hide Present; hide Address; hide Slot; hide DirectoryIndex; hide TableIndex;
      assert Table(m, directory, DirectoryIndex(w)).Some? ==> Table(m, directory, DirectoryIndex(w)).value != frame;
    }
  }

  // ---------------------------------------------------------------- the initial translation

  lemma OddBetween(n: nat, k: nat)
    requires n == 2 * k + 1
    ensures n % 2 == 1
  {
  }

  lemma AboveIsOdd(frame: nat)
    requires frame % PAGE_SIZE == 0
    ensures (frame + 3) % 2 == 1
  {
    var k := frame / PAGE_SIZE;
    OddBetween(frame + 3, 2048 * k + 1);
  }

  /** An entry for a present, writable frame. */
  lemma DirectEntry(frame: nat)
    requires frame % PAGE_SIZE == 0 && frame + PAGE_SIZE <= WORD
    ensures Or(frame, 3) < WORD && Present(Or(frame, 3)) && Address(Or(frame, 3)) == frame
  {
    hide Or; hide And; hide AndNot; hide Address; hide Present;
    AboveIsOdd(frame);
    OrLow(frame, 3);
    LowBit(frame + 3);
    AddressOf(frame, 3);
  }

  function IdentityEntry(baseMb: nat, i: nat): Word
    requires baseMb <= 60 && i < 1024
  {
    OrLow(baseMb * 0x10_0000 + i * 4096, 3);
    Or(baseMb * 0x10_0000 + i * 4096, 3)
  }

  ghost predicate FilledTable(m: seq<Word>, m': seq<Word>, table: nat, baseMb: nat) {
    && |m| == |m'| == MEMORY_WORDS && InMemory(table) && baseMb <= 60
    && forall w :: 0 <= w < MEMORY_WORDS ==>
         m'[w] == if table / 4 <= w < table / 4 + 1024 then IdentityEntry(baseMb, w - table / 4) else m[w]
  }

  /** The statically allocated directory and its sixteen tables. */
  ghost predicate BootTables(tables: seq<nat>, directory: nat) {
    && |tables| == 16 && InMemory(directory) && directory !in tables
    && (forall k :: 0 <= k < 16 ==> InMemory(tables[k]))
    && (forall j, k :: 0 <= j < k < 16 ==> tables[j] != tables[k])
  }

  ghost predicate TablesFilled(m: seq<Word>, tables: seq<nat>, n: nat) {
    && |m| == MEMORY_WORDS && n <= |tables| == 16 && (forall k :: 0 <= k < 16 ==> InMemory(tables[k]))
    && forall k: nat, i: nat :: k < n && i < 1024 ==> Slot(m, tables[k], i) == IdentityEntry(4 * k, i)
  }

  ghost predicate DirectoryFilled(m: seq<Word>, directory: nat, tables: seq<nat>, n: nat) {
    && |m| == MEMORY_WORDS && InMemory(directory) && n <= |tables| == 16
    && forall k: nat :: k < 1024 ==> Slot(m, directory, k) == if k < n then Or(tables[k], 3) else 0
  }

  ghost predicate IdentityMap(m: seq<Word>, directory: nat, tables: seq<nat>) {
    BootTables(tables, directory) && TablesFilled(m, tables, 16) && DirectoryFilled(m, directory, tables, 16)
  }

  lemma FilledMore(m: seq<Word>, m': seq<Word>, tables: seq<nat>, directory: nat, n: nat)
    requires BootTables(tables, directory) && n < 16 && TablesFilled(m, tables, n) &&
        FilledTable(m, m', tables[n], 4 * n)
    ensures TablesFilled(m', tables, n + 1)
  {
    hide IdentityEntry;
    forall k: nat, i: nat | k < n + 1 && i < 1024 ensures Slot(m', tables[k], i) == IdentityEntry(4 * k, i) {
      if k < n { FramesApart(tables[k], tables[n]); }
    }
  }

  lemma FilledStill(m: seq<Word>, m': seq<Word>, tables: seq<nat>, directory: nat)
    requires BootTables(tables, directory) && TablesFilled(m, tables, 16) && Cleared(m, m', directory)
    ensures TablesFilled(m', tables, 16) && DirectoryFilled(m', directory, tables, 0)
  {
    hide IdentityEntry;
    forall k: nat, i: nat | k < 16 && i < 1024 ensures Slot(m', tables[k], i) == IdentityEntry(4 * k, i) {
      FramesApart(tables[k], directory);
    }
  }

  lemma DirectoryMore(m: seq<Word>, tables: seq<nat>, directory: nat, n: nat, e: Word)
    requires BootTables(tables, directory) && n < 16 && TablesFilled(m, tables, 16) &&
        DirectoryFilled(m, directory, tables, n)
    requires e == Or(tables[n], 3)
    ensures var m' := m[directory / 4 + n := e];
      TablesFilled(m', tables, 16) && DirectoryFilled(m', directory, tables, n + 1)
  {
    hide IdentityEntry; hide Or;
    var m' := m[directory / 4 + n := e];
    forall k: nat, i: nat | k < 16 && i < 1024 ensures Slot(m', tables[k], i) == IdentityEntry(4 * k, i) {
      FramesApart(tables[k], directory);
    }
    forall k: nat | k < 1024 ensures Slot(m', directory, k) == if k < n + 1 then Or(tables[k], 3) else 0 {
      assert k != n ==> Slot(m', directory, k) == Slot(m, directory, k);
    }
  }

  lemma Decompose(v: nat)
    ensures v == DirectoryIndex(v) * 0x40_0000 + TableIndex(v) * 4096 + v % 4096
  {
    var q := v / 4096;
    assert DirectoryIndex(v) == q / 1024;
  }

  /** Every address below 64 MiB translates to itself, and no other address is mapped. */
  lemma IdentityBelow64M(m: seq<Word>, directory: nat, tables: seq<nat>, v: nat)
    requires IdentityMap(m, directory, tables) && v < WORD
    ensures Translate(m, directory, v) == if v < 0x400_0000 then Some(v) else None
  {
    hide Or; hide And; hide AndNot; hide Present; hide Address;
    SamePage(v, v);
    var d, t := DirectoryIndex(v), TableIndex(v);
    Decompose(v);
    if d < 16 {
      IdentityPage(m, directory, tables, d, t);
    } else {
      ZeroEntry();
    }
    hide DirectoryIndex; hide TableIndex; hide IdentityMap;
  }

  lemma IdentityPage(m: seq<Word>, directory: nat, tables: seq<nat>, d: nat, t: nat)
    requires IdentityMap(m, directory, tables) && d < 16 && t < 1024
    ensures Table(m, directory, d) == Some(tables[d])
    ensures Present(Slot(m, tables[d], t)) && Address(Slot(m, tables[d], t)) == d * 0x40_0000 + t * 4096
  {
    hide Or; hide Present; hide Address;
    DirectEntry(tables[d]);
    DirectEntry(d * 0x40_0000 + t * 4096);
    assert Slot(m, tables[d], t) == IdentityEntry(4 * d, t);
  }

  /** Every entry that boot makes is present and writable, and nothing else: it ends in 3. */
  lemma BootEntries(m: seq<Word>, directory: nat, tables: seq<nat>, d: nat, t: nat)
    requires IdentityMap(m, directory, tables) && d < 1024 && t < 1024
    ensures Slot(m, directory, d) == if d < 16 then tables[d] + 3 else 0
    ensures d < 16 ==> Slot(m, tables[d], t) == d * 0x40_0000 + t * 4096 + 3
  {
    hide Or;
    if d < 16 {
      OrLow(tables[d], 3);
      OrLow(d * 0x40_0000 + t * 4096, 3);
      assert Slot(m, tables[d], t) == IdentityEntry(4 * d, t);
    }
  }

  /** The boot tables are in order, provided none of them is free. */
  lemma BootTablesInUse(m: seq<Word>, directory: nat, tables: seq<nat>, stack: seq<nat>)
    requires IdentityMap(m, directory, tables)
    requires directory !in stack && (forall k :: 0 <= k < 16 ==> tables[k] !in stack) &&
        forall k :: 0 <= k < |stack| ==> InMemory(stack[k])
    ensures Tables(m, directory, stack)
  {
    ZeroEntry();
    forall i: nat | i < 1024 ensures Table(m, directory, i) == if i < 16 then Some(tables[i]) else None {
      if i < 16 { DirectEntry(tables[i]); }
    }
  }

  // ---------------------------------------------------------------- any sequence of maps

  datatype Mapping = Mapping(virt: nat, phys: nat)

  /** What address w translates to after some mappings were made, newest last, over an initial translation. */
  function After(initial: Option<nat>, done: seq<Mapping>, w: nat): Option<nat> {
    if done == [] then initial
    else
      var last := done[|done| - 1];
      if w / PAGE_SIZE == last.virt / PAGE_SIZE then Some(last.phys + w % PAGE_SIZE)
          else After(initial, done[..|done| - 1], w)
  }

  /** Successive states of memory: each call mapped a page, or failed and left memory alone. */
  ghost predicate MapRun(states: seq<seq<Word>>, directory: nat, calls: seq<Mapping>, succeeded: seq<bool>) {
    && |states| == |calls| + 1 && |succeeded| == |calls| && InMemory(directory)
    && (forall i :: 0 <= i < |states| ==> |states[i]| == MEMORY_WORDS)
    && forall i :: 0 <= i < |calls| ==>
         if succeeded[i] then Remapped(states[i], states[i + 1], directory, calls[i].virt, calls[i].phys)
             else states[i + 1] == states[i]
  }

  function Successful(calls: seq<Mapping>, succeeded: seq<bool>): seq<Mapping>
    requires |calls| == |succeeded|
  {
    if calls == [] then []
    else
      var n := |calls| - 1;
      Successful(calls[..n], succeeded[..n]) + if succeeded[n] then [calls[n]] else []
  }

  /**
   Over any sequence of calls every address translates as its page's last successful mapping says, and else as at
   first.
   */
  lemma {:induction false} MapsCompose(states: seq<seq<Word>>, directory: nat, calls: seq<Mapping>,
          succeeded: seq<bool>, w: nat)
    requires MapRun(states, directory, calls, succeeded) && w < WORD
    ensures Translate(states[|calls|], directory, w) == After(Translate(states[0], directory, w),
        Successful(calls, succeeded), w)
    decreases |calls|
  {
    hide Translate;
    if calls != [] {
      var n := |calls| - 1;
      MapsCompose(states[..n + 1], directory, calls[..n], succeeded[..n], w);
      var done := Successful(calls[..n], succeeded[..n]);
      if succeeded[n] {
        assert (done + [calls[n]])[..|done|] == done;
      } else {
        assert done + [] == done;
      }
    }
  }

  /** The frame handed out is no longer free, and was no table. */
  lemma TakenFrame(m: seq<Word>, directory: nat, stack: seq<nat>, rest: seq<nat>, frame: nat)
    requires Tables(m, directory, stack) && DistinctFrames(stack) && rest + [frame] == stack
    ensures Tables(m, directory, rest) && frame !in rest && InMemory(frame) && frame < WORD
    ensures stack[|stack| - 1] == frame
  {
    assert stack[|rest|] == frame;
    assert forall k :: 0 <= k < |rest| ==> rest[k] == stack[k];
    assert forall x :: x in rest ==> x in stack;
  }
}
