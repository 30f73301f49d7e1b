# CobraOS core: a verified model

CobraOS is a small 32-bit x86 kernel written in C.  This project models the parts of it whose correctness is not obvious
from reading one function, and proves what those parts are for.

| part | files | what is proved |
|---|---|---|
| Buddy heap (`heap.c`) | `Bits`, `BuddyTree`, `HeapState`, `HeapRequests`, `HeapPointers`, `Heap`, `Calloc` | The allocator works on real header words in one 4 MiB word array, with XOR buddies and free lists threaded through the headers. Its state always represents a binary tree in normal form; the free blocks are a function of the live ones; allocation fails exactly when no aligned region is clear; frees commute, undo allocations, and in any order restore the single free block. `kmalloc_aligned` and `kcalloc` are proved on top; a pointer handed out stays one that `kfree` accepts until its block is freed or its client writes over the word before it. |
| Text editor (`snake.c`) | `TextDoc`, `History`, `Serial`, `Documents`, `Editor` | The line buffers refine one flat string with a position, on which every edit and every key is described; undo and redo form a bounded zipper, redo is idle exactly when no undo waits to be redone since the last edit, with the exact condition under which k undos restore the document; parsing and saving are inverse, with the exact condition in each direction; a document loaded, edited in any session, saved and loaded again comes back, exactly under that condition. |
| RAM filesystem (`ramfs.c`, `shell.c`, `snake.c`) | `FileData`, `FsTree`, `Paths`, `Saves`, `RamFs` | Creating and deleting keep a rooted tree; the path walker is a fold over the components, in which a name goes down and `..` up again; the printed path of a node resolves to it exactly when its names can be looked up; what `mkdir` and `touch` make is found again exactly when the last name fits and is not `.` or `..`; file writes refine a byte sequence and `cat` puts out the file; a whole-file save is found by its path exactly in the cases given, and a failed one leaves the tree alone exactly in the cases given. |
| Frames and pages (`pmm.c`, `multiboot.c`, `paging.c`, `vmm.c`, `kernel.c`) | `Frames`, `Multiboot`, `Paging`, `Vmm`, `PageTables`, `Boot` | Stack and bitmap agree; the memory map leaves exactly the available pages outside the kernel free; the boot tables map every address below 64 MiB to itself. `map_page` edits the tables through the very translation it edits, maps its page exactly when the table it needs is mapped to itself, and then writes nothing but the entries asked for; any sequence of calls that are right at their turns changes exactly the pages named, and from boot on that holds of all calls that keep out of low memory on a machine with none above 64 MiB. |
| Timers (`timer.c`, `shutdown.c`, `spinlock.c`) | `Timers`, `Shutdown`, `ShutdownRuns`, `Spinlock` | The queue stays in deadline order; a tick fires each due timer once, in that order, unless a callback before its turn touched it; over every run of the shutdown's steps on that queue a pending shutdown is exactly a queued timer, no queued timer is ever set up, and none is taken before its delay has passed; the lock excludes, keeps interrupts off its holder's CPU and puts the interrupt flag back, and no waiter is left out once it is released, over every interleaving. |
| Scheduler (`task.c`) | `Scheduler` | At most the current task is running; a preempted task is ready again, and every other keeps its state; a task that stays ready runs within as many calls as there are other tasks. |

## How the model is built

- Code that changes state is a class with the source's fields, or a method with the source's loops.  Each method is tied to a
  function or predicate on values, and the theorems are lemmas about those.
- The heap's memory is an array of 32-bit words; addresses are the kernel's byte addresses.  A ghost tree says which blocks
  exist.  `Agree` ties the free-list heads, every header word and the ghost lists to that tree, and nothing else in memory is
  assumed, so client data cannot matter.
- Page tables are words in an array of physical memory; 32-bit two-level paging is read as in section 4.3 ("32-bit paging") of
  the Intel SDM, volume 3A.  Once paging is on, every access of `map_page` and `is_mapped` to the tables is translated first
  (`Vmm.Load`, `Vmm.Store`), and one that does not translate is a fault that ends the call.  The frame allocator's bitmap and
  stack and the heap's arena are reached directly, as if mapped to themselves.
- Linked lists that only their own module walks (timers, tasks, child lists, the editor's line array) are sequences that the
  methods reassign; their nodes are known by numbers.
- Arithmetic is written with its 32-bit wrap-around where the source's result depends on it (the timer comparison, the tick
  conversion, the memory total, the bit operations).  `Bits` defines `&`, `|`, `^` and `~` on numbers by recursion on bits.
- `Basics` holds what several parts share: optional values, 32-bit words, and lists without repetition.
- Outcomes of allocations that the modelled code only tests (the editor's buffers and snapshots, filesystem nodes, task stacks)
  are boolean parameters, so every theorem covers every pattern of failures unless it says otherwise.  Clock readings are
  parameters as well.

## Where the code does not do what it promises

- **Carriage returns.**  The parser is meant to drop the `\r` of a `\r\n` pair, but tests `buf[line_len - 1]`, an index from the
  start of the buffer (`arch/x86/snake/snake.c:594`).  `Serial.ReturnsDropped` says exactly when it does what is meant,
  `Serial.ReturnKept` and `Serial.CharacterLost` show it failing either way, and `Serial.SaveParse` gives the exact condition for
  the round trip.
- **Page tables behind paging.**  `map_page` writes through the physical addresses of the tables, and its comment
  (`arch/x86/cpu/vmm.c:24-27`) hopes they are mapped there.  With the directory mapped to itself, it is right for every frame
  exactly when the table it needs, or the frame it is handed for one, is mapped to itself: `Vmm.MapsExactlyWhenReady`; with the
  directory unmapped it faults: `Vmm.NoDirectory`.  `Vmm.HighFrameFaults` shows the first failure, a
  frame at or above 64 MiB handed out after boot; `Vmm.RemappedTableLost` the second, a call that reports success and writes into
  another page because the table's own page was mapped elsewhere.  `Vmm.SelfMappedAfter` says which calls keep a page mapped to
  itself, and `Boot.StartMemory` on which machines boot leaves only such tables and frames.
- **Frame 0.**  `pmm_alloc_page` can hand out page 0, which its callers read as failure; the page is then lost to the allocator.
  A call that reports no table leaves the free pages alone exactly when there were none: `PageTables.Mmu.MapPage`.
  `Boot.FrameZeroLost` is an input: a map with page 0 alone.
- **Pages that are partly there.**  An available region whose length is no multiple of a page has its last, partial page freed.
  `Multiboot.PartlyAvailable` says exactly which freed pages reach past their region; `Multiboot.LowMemoryPage` is the ordinary
  machine's first 639 KiB.
- **The heap's memory is handed out twice.**  The arena at 32 MiB lies outside the kernel image, so its pages are freed to the
  frame allocator as well.  They stay the heap's own exactly when no available region reaches them: `Boot.ArenaNotShared`;
  `Boot.ArenaShared` shows the ordinary machine, where all of them are shared.
- **Undo at the limit.**  Every edit pushes a snapshot before it is known whether anything changes, and an edit that changes
  nothing pops it again.  On a full stack the push has already dropped the oldest snapshot, so 100 edits can be undone only if no
  refused edit follows the last effective one: `History.UndosRestore` is the exact condition, `History.TypingNotUndone` an input.
- **Names `.` and `..`.**  `mkdir .` makes a directory that no path reaches: `Paths.DotMadeIsLost` in a fresh tree,
  `Paths.MadeResolves` and `Paths.PathTextResolves` exactly.
- **Long names.**  The uniqueness test sees the whole name and the node stores 255 characters of it: `Paths.LongNamesClash` makes
  two siblings of one name.  The input is `ramfs_create`'s own: the shell's line holds 255 characters
  (`arch/x86/kernel/shell.c:19`) and `fs_write_file` cuts names before it, so no present caller passes one.
  `RamFs.FileSystem.Create` says exactly when names stay distinct.
- **A failed save empties the file.**  `fs_write_file` gives the old bytes up before it asks for memory for the new ones:
  `Saves.FailedSaveEmpties` is an input, `Saves.FailedSaveAlone` says exactly when a failed save leaves the tree alone.
- **Saving a missing file.**  A bare name is looked up in the working directory but made in the root, and a name too long is cut
  before it is made.  `Saves.SavedResolves` says exactly when the path leads to what was saved; `Saves.MadeElsewhere` shows that
  from another directory it does not.
- **Wrap-around.**  Timers are inserted by the unsigned order of their deadlines and expire by a signed difference.
  `Timers.DueInFrontExactly` and `Timers.WrapExactly` say exactly when a due timer waits behind one that is not, and
  `Timers.WrapDelays` shows it.  What a tick fires is claimed for deadlines on the near side of the wrap-around.
- **Long delays.**  Multiplying a delay of more than about 42949 seconds by 100 overflows a word, and the shutdown comes too
  early: `Shutdown.ToTicksRoundsUp` says exactly from where on.  The time shown as left is right all the same, for every deadline
  the module keeps: `Shutdown.TimeLeft`, `ShutdownRuns.ShownOverRuns`.
- **Rescheduling before the callback.**  Between taking the shutdown timer off the queue and calling its function the lock is
  free.  A shutdown scheduled there goes off at once: `ShutdownRuns.CallbackOutcome` says exactly when, `ShutdownRuns.TooEarly` is
  an input.  The kernel calls `timer_tick` only from the clock interrupt, with interrupts off from its stub to its return, so
  nothing on that CPU runs in the gap: it takes a second CPU, or a tick called with interrupts on.
- **Deleting the working directory.**  Nothing stops it, and the shell is then left without one: `RamFs.FileSystem.Delete` says
  exactly when, `Paths.WorkingDirectoryLost` is an input.

## Model

| member | source | states |
|---|---|---|
| BuddyTree.Tiling | arch/x86/kernel/heap.c:95-132 | every byte of the arena lies in exactly one block, aligned to its size |
| BuddyTree.XorIsBuddy | arch/x86/kernel/heap.c:89-93 | address XOR size is the sibling region under the same parent |
| BuddyTree.NormalForm | arch/x86/kernel/heap.c:112-132 | two fully merged arenas with the same live blocks are the same arena: the free blocks are a function of the live ones |
| BuddyTree.RoomIsFreeBlock | arch/x86/kernel/heap.c:159-194 | in a merged arena an aligned region free of live blocks lies inside one free block |
| BuddyTree.FreeBlockIsRoom | arch/x86/kernel/heap.c:159-194 | and every free block gives such a region: together, an allocation finds room exactly when there is any |
| BuddyTree.ReserveSpec | arch/x86/kernel/heap.c:159-194 | carving a block adds it to the live blocks, adds nothing else, and keeps the normal form |
| BuddyTree.ReleaseSpec | arch/x86/kernel/heap.c:196-212 | freeing removes one live block and restores the normal form |
| BuddyTree.FreeUndoesAlloc | arch/x86/kernel/heap.c:159-212 | freeing what was just allocated gives back the very same free blocks |
| BuddyTree.FreesCommute | arch/x86/kernel/heap.c:196-212 | two frees in either order leave the same heap |
| BuddyTree.FreeingAllRestores | arch/x86/kernel/heap.c:112-132 | freeing every live block, in any order, leaves the one 4 MiB block |
| HeapRequests.NoRoom | arch/x86/kernel/heap.c:175-180 | when the lists from the needed order up are empty, no aligned region of that order is clear of live blocks |
| HeapRequests.TooLarge | arch/x86/kernel/heap.c:163-173 | a request over 4 MiB has no room in any state |
| HeapRequests.NoRoomMeans | arch/x86/kernel/heap.c:166-180 | every total has its least order, so a request has no room exactly when every aligned region of that order meets a live block |
| HeapRequests.CarvedByNormalForm | arch/x86/kernel/heap.c:182-194 | the split-and-take loop reaches the arena that reserving the block directly would |
| HeapRequests.AllFreed | arch/x86/kernel/heap.c:78-86 | with no live block the free lists are what initialisation made them |
| HeapState.SplitAgrees | arch/x86/kernel/heap.c:95-110 | the header words written by a split are those of the two halves, and every other header is intact |
| HeapState.MergeAgrees | arch/x86/kernel/heap.c:112-132 | raising the lower buddy's order word merges the two blocks, and every other header is intact |
| HeapRequests.StoreAgrees | arch/x86/kernel/heap.c:214-226 | whatever a client stores in its payload, lists and headers stay right |
| Heap.BuddyHeap.constructor | arch/x86/kernel/heap.c:78-86 | over memory holding anything, the heap starts as one free block on its list |
| Heap.BuddyHeap.BuddyOf | arch/x86/kernel/heap.c:89-93 | XOR with the size is the other half of the parent, below or above |
| Heap.BuddyHeap.InsertFreeBlock | arch/x86/kernel/heap.c:134-138 | a loose free block becomes the head of its order's list, nothing else changing |
| Heap.BuddyHeap.RemoveFreeBlock | arch/x86/kernel/heap.c:140-157 | the walk finds the block's one place in its list, so the panic loop is never reached, and unlinks it, keeping the order of the rest |
| Heap.BuddyHeap.SplitBlock | arch/x86/kernel/heap.c:95-110 | the head of a list becomes two free halves, upper half first on the list below; no live byte moves |
| Heap.BuddyHeap.Coalesce | arch/x86/kernel/heap.c:112-132 | merging goes on until the arena is in normal form; live blocks and their bytes are untouched |
| Heap.BuddyHeap.OrderOf | arch/x86/kernel/heap.c:166-173 | the least order from 5 up that holds the total, or a total no block holds |
| Heap.BuddyHeap.FirstList | arch/x86/kernel/heap.c:175-177 | the first non-empty list from the needed order up |
| Heap.BuddyHeap.Carve | arch/x86/kernel/heap.c:182-194 | the upper end of the first listed block is carved out; words of live blocks keep their values |
| Heap.BuddyHeap.BuddyAlloc | arch/x86/kernel/heap.c:159-194 | fails exactly for a zero size or when no aligned region of the least fitting order is clear, and then changes nothing; otherwise serves the request from the first non-empty list |
| Heap.BuddyHeap.BuddyFree | arch/x86/kernel/heap.c:196-212 | finds the block through the word before the pointer, never reaches the panic loop, and frees exactly that block; other live bytes keep their values |
| Heap.BuddyHeap.Store | arch/x86/kernel/heap.c:214-226 | a client's write to its own payload is safe for the allocator |
| HeapRequests.RoundedFacts | arch/x86/kernel/heap.c:214-226 | the size asked for becomes the least multiple of 8 that holds it |
| Heap.BuddyHeap.Kmalloc | arch/x86/kernel/heap.c:214-226 | complete: NULL exactly when the rounded size plus header finds no aligned clear region |
| Heap.BuddyHeap.Kfree | arch/x86/kernel/heap.c:228 | exactly the pointer's block leaves the live blocks; NULL changes nothing |
| HeapPointers.HandedIsLive | arch/x86/kernel/heap.c:196-212 | a pointer in a client's hands is one kfree accepts, and leads to its block |
| HeapPointers.AllocationSpares | arch/x86/kernel/heap.c:159-226 | an allocation leaves every live block and its words, and hands out a new pointer |
| HeapPointers.AlignedSpares | arch/x86/kernel/heap.c:246-281 | so does an aligned allocation |
| HeapPointers.StoredHanded | arch/x86/kernel/heap.c:196-212 | a store leaves a pointer what it was exactly when it misses the word before it or writes the same there |
| HeapPointers.HandedKept | arch/x86/kernel/heap.c:159-281 | a step that only allocates, frees another block, or keeps that word leaves the pointer in its client's hands |
| HeapPointers.HandedThroughout | arch/x86/kernel/heap.c:159-281 | so over any run of such steps, and kfree still accepts it |
| Heap.BuddyHeap.PowerFor | arch/x86/kernel/heap.c:253-262 | the least power of two not below the alignment, or that it exceeds a word |
| HeapRequests.AlignedFits | arch/x86/kernel/heap.c:264-278 | the rounded-up pointer, its size bytes and the word before it lie inside the payload |
| Heap.BuddyHeap.KmallocAligned | arch/x86/kernel/heap.c:246-281 | an aligned pointer whose bytes and back-pointer lie in one fresh block, which kfree finds; NULL exactly when kmalloc of the padded size has no room |
| Calloc.Kcalloc | arch/x86/kernel/heap.c:230-244 | fails as kmalloc of the product would, overflow included; otherwise zeroes exactly the bytes asked for, all in its own payload |
| Calloc.ZeroBytes | arch/x86/kernel/heap.c:283-288 | the byte loop clears its range, changes no other byte, and disturbs no header |
| Calloc.ClearsOne | arch/x86/kernel/heap.c:283-288 | clearing one byte of a little-endian word leaves its other three |
| TextDoc.LocatePos | arch/x86/snake/snake.c:786-843 | a cursor place is recovered from its position in the flat text |
| TextDoc.PosLocate | arch/x86/snake/snake.c:786-843 | every position of the flat text is a cursor place: the two views are one-to-one |
| TextDoc.InsertCharRefines | arch/x86/snake/snake.c:845-857 | typing inserts the character at the position and moves on by one; the cursor stays in document and window |
| TextDoc.InsertNewlineRefines | arch/x86/snake/snake.c:859-893 | a line break inserts '\n' at the position |
| TextDoc.JoinNextRemoves | arch/x86/snake/snake.c:487-495 | joining two lines removes exactly the newline between them |
| TextDoc.DeleteForwardRefines | arch/x86/snake/snake.c:930-957 | delete is possible exactly before the end of the text, and removes the character at the position |
| TextDoc.DeleteBackwardRefines | arch/x86/snake/snake.c:895-928 | backspace is possible exactly after the start of the text, and removes the character before the position |
| TextDoc.MoveRefines | arch/x86/snake/snake.c:786-843 | every movement leaves the text alone and the cursor inside the document and the 80x24 window; where each key goes is in the rows that follow |
| TextDoc.LeftRefines | arch/x86/snake/snake.c:788-795 | left moves back by one position, across lines, and stops at 0 |
| TextDoc.RightRefines | arch/x86/snake/snake.c:796-803 | right moves on by one position, across lines, and stops at the end |
| TextDoc.HomeEndRefine | arch/x86/snake/snake.c:820-825 | home and end go to just after and just before the nearest newlines |
| TextDoc.RowColumn | arch/x86/snake/snake.c:786-843 | the cursor is the number of newlines before its position and the distance to the last of them |
| TextDoc.UpDownRefine | arch/x86/snake/snake.c:804-819 | up goes one row of the text up, at the old column or that row's end, and from the first row to the start of the text; down likewise, and from the last row to the end |
| TextDoc.PagesRefine | arch/x86/snake/snake.c:826-838 | the page keys go 24 rows, or as many as there are, in the same way |
| TextDoc.ScrollLeast | arch/x86/snake/snake.c:774-784 | the window shows the cursor, moving no further than any window that does |
| Editor.LineReserve | arch/x86/snake/snake.c:433-449 | growing keeps the text; it fails only without memory and then changes nothing |
| Editor.LineInsertChar | arch/x86/snake/snake.c:451-460 | the shifted buffer holds the text with the character inserted, or is unchanged |
| Editor.LineDeleteChar | arch/x86/snake/snake.c:462-468 | the shifted buffer holds the text without the character |
| Editor.LineSplit | arch/x86/snake/snake.c:470-485 | the two buffers hold the text's two parts |
| Editor.LineJoin | arch/x86/snake/snake.c:487-495 | the grown buffer holds both texts |
| Editor.StackPush | arch/x86/snake/snake.c:362-373 | a push onto a full stack drops the oldest snapshot and no other |
| Editor.TextEditor.constructor | arch/x86/snake/snake.c:497-548 | one empty line, no history |
| Editor.TextEditor.PushUndo | arch/x86/snake/snake.c:386-392 | the current document becomes the newest snapshot, if it could be cloned |
| Editor.TextEditor.ScrollToCursor | arch/x86/snake/snake.c:774-784 | the window follows the cursor and nothing else changes |
| Editor.TextEditor.InsertCharacter | arch/x86/snake/snake.c:845-857 | either the edit, its snapshot and nothing left to redo, or no change beyond the discarded snapshot; the modified mark is set exactly by an edit |
| Editor.TextEditor.InsertLineBreak | arch/x86/snake/snake.c:859-893 | likewise, whichever of its two allocations fails |
| Editor.TextEditor.DeleteBack | arch/x86/snake/snake.c:895-928 | likewise; it changes the document whenever there is something to delete and memory to join |
| Editor.TextEditor.DeleteAhead | arch/x86/snake/snake.c:930-957 | likewise, forward |
| Editor.TextEditor.MoveCursor | arch/x86/snake/snake.c:786-843 | the movement on lines that TextDoc's rows place in the text, with the window following |
| Editor.TextEditor.Undo | arch/x86/snake/snake.c:405-417 | the newest snapshot comes back and the current document goes to the redo stack, or is lost when it cannot be cloned |
| Editor.TextEditor.Redo | arch/x86/snake/snake.c:419-431 | the mirror image of undo |
| Editor.TextEditor.Load | arch/x86/snake/snake.c:640-675 | succeeds exactly when the path leads to a file and there is memory for its bytes and lines; then the document parsed from the file, with no history; otherwise nothing changes |
| Editor.TextEditor.SaveDocument | arch/x86/snake/snake.c:743-772 | the file system takes the saved form of the lines, or nothing is asked of it; only a save it took clears the modified mark |
| History.StepSound | arch/x86/snake/snake.c:362-431 | undo count plus redo count never exceeds 100 and every stored document is well formed, whatever memory each command finds |
| History.RunSound | arch/x86/snake/snake.c:362-431 | so over every run of commands |
| History.UndoneSound | arch/x86/snake/snake.c:405-431 | undo and redo never find the other stack full, so they evict no snapshot, whether or not the current document can be cloned |
| History.RedoUndo | arch/x86/snake/snake.c:405-431 | redo inverts undo: document, cursor, scroll and both stacks |
| History.UndoRedo | arch/x86/snake/snake.c:405-431 | undo inverts redo |
| History.EditEndsRedo | arch/x86/snake/snake.c:845-957 | after an edit that changed the document, redo changes nothing |
| History.QuietKeepsHistory | arch/x86/snake/snake.c:786-957 | a movement, or an edit that changed nothing, leaves the text and what the next undo and the next redo show |
| History.RedoIdle | arch/x86/snake/snake.c:375-431 | over every run: redo changes nothing exactly when no undo still waits to be redone since the last edit that changed the document, and undo exactly when nothing is left to take back |
| History.TypedOver | arch/x86/snake/snake.c:401-431 | an input: a character typed and undone, another typed, and redo leaves the second |
| History.RedosUndos | arch/x86/snake/snake.c:405-431 | k redos invert k undos |
| History.UndosRestore | arch/x86/snake/snake.c:362-399 | after a run that kept k <= 100 snapshots, whatever memory it found, k undos show the first of them exactly when k < 100, or no refused edit pushed a snapshot after the last one, or the second equals the first |
| History.UndosRestoreCloned | arch/x86/snake/snake.c:362-399 | when every snapshot could be cloned: exactly when k < 100 or no refused edit follows the last effective one |
| History.TypingNotUndone | arch/x86/snake/snake.c:375-399 | from the empty document, 100 characters and a Delete at the end: 100 undos do not give the empty document back |
| History.RunUndo | arch/x86/snake/snake.c:362-399 | what the undo stack holds after any run: the newest snapshots of the effective edits, up to its capacity |
| Serial.JoinSplit | arch/x86/snake/snake.c:580-638 | joining the split lines gives the text back |
| Serial.SplitJoin | arch/x86/snake/snake.c:580-638 | splitting joined lines gives the lines back |
| Serial.SaveParse | arch/x86/snake/snake.c:580-638 | saving what was parsed reproduces the buffer exactly when the carriage-return test never holds |
| Serial.SaveParseWithoutReturns | arch/x86/snake/snake.c:580-638 | in particular for every buffer without '\r' |
| Serial.ReturnsDropped | arch/x86/snake/snake.c:593-596 | the test never looks past the buffer; every line loses its own final carriage return and nothing else exactly when the test, which looks at the buffer's start, holds of just the lines that end in one |
| Serial.ReturnKept | arch/x86/snake/snake.c:594-596 | a carriage return that should go stays, for every line of two or more characters after a first short one |
| Serial.CharacterLost | arch/x86/snake/snake.c:594-596 | a line without one loses its last character |
| Serial.ParseSave | arch/x86/snake/snake.c:743-772 | parsing a saved document returns its lines and flag exactly when the flag is set, there is one line, or the last line is not empty |
| Serial.SaveSize | arch/x86/snake/snake.c:747-751 | the size computed up front is the length of the saved form |
| Serial.SaveBuffer | arch/x86/snake/snake.c:753-764 | the loop fills exactly that many bytes with the saved form |
| Serial.ParseBuffer | arch/x86/snake/snake.c:580-638 | the scanning loop computes the parse |
| Documents.DecodedEncoded | arch/x86/snake/snake.c:64-157 | the text of bytes and the bytes of a text are inverse |
| Documents.SessionHolds | arch/x86/snake/snake.c:845-957 | over any session, whatever memory it finds, every document on screen and stacks holds only characters loaded or typed |
| Documents.NoNewlineTyped | arch/x86/snake/snake.c:1069-1075 | so no line ever holds a newline, whatever file was loaded |
| Documents.SavedLoads | arch/x86/snake/snake.c:640-772 | a document saved is found by the same path exactly when the path reaches it, byte for byte, and loads as the same lines and flag exactly under the condition of Serial.ParseSave |
| Documents.EditedSavedLoaded | arch/x86/snake/snake.c:640-772 | a file without carriage returns, edited in any session, saved and loaded again, shows what the editor showed, exactly under that condition |
| FileData.ReadWritten | arch/x86/fs/ramfs.c:74-114 | what was written is read back from the same place |
| FileData.ReadElsewhere | arch/x86/fs/ramfs.c:74-114 | a read away from a write sees the old bytes |
| FileData.WriteTwice | arch/x86/fs/ramfs.c:266-282 | a write and another where it ended are one write of both |
| FileData.WritesJoin | arch/x86/fs/ramfs.c:266-282 | any number of successive writes through one handle concatenate |
| FileData.WritesAppend | arch/x86/fs/ramfs.c:225-241 | writing from the end appends the chunks, leaving the old bytes |
| FsTree.ReachesRoot | arch/x86/fs/ramfs.c:130-134 | from every node the parent links lead to the root |
| FsTree.OneList | arch/x86/fs/ramfs.c:130-157 | a node other than the root is in exactly one child list, its parent's, once |
| FsTree.CreatedTree | arch/x86/fs/ramfs.c:169-190 | creating keeps a rooted tree in which files have no children |
| FsTree.CreatedNames | arch/x86/fs/ramfs.c:169-190 | sibling names stay distinct exactly when the stored name was not taken |
| FsTree.DeletedTree | arch/x86/fs/ramfs.c:192-217 | deleting a childless node keeps the tree and the distinct names |
| FsTree.DeleteUndoesCreate | arch/x86/fs/ramfs.c:169-217 | deleting what was just created gives the old tree back |
| FsTree.WithDataTree | arch/x86/fs/ramfs.c:89-114 | writing bytes changes no link and no name |
| Paths.TokensJoin | arch/x86/fs/ramfs.c:298-365 | components of a path are those of its parts around any slash |
| Paths.DownAndUp | arch/x86/fs/ramfs.c:331-360 | down by a name that can be looked up and then ".." leads back |
| Paths.UpsClimb | arch/x86/fs/ramfs.c:336-339 | k components ".." lead to the node k levels up |
| Paths.UpsReachRoot | arch/x86/fs/ramfs.c:336-339 | as many as a node is deep lead to the root, and one more stays there |
| Paths.DotStays | arch/x86/fs/ramfs.c:331-335 | a component "." makes no difference, wherever it stands |
| Paths.PathTextResolves | arch/x86/kernel/shell.c:174-185 | the text printed for a node resolves to it exactly when its names can be looked up; otherwise no path from the root reaches it |
| Paths.PathTextClean | arch/x86/kernel/shell.c:174-185 | the text printed for a node has no empty component, and is the slash alone exactly for the root |
| Paths.WalkResolvable | arch/x86/fs/ramfs.c:284-368 | a walk only reaches nodes whose names, all the way up, can be looked up |
| Paths.WalkCreated | arch/x86/fs/ramfs.c:284-368 | a walk that succeeded still leads to the same node once another exists |
| Paths.MadeResolves | arch/x86/kernel/shell.c:766-819 | after mkdir or touch, resolving the same path gives the new node exactly when the last name fits and is not "." or ".." |
| Paths.DotMadeIsLost | arch/x86/kernel/shell.c:766-819 | in a fresh tree, making "." succeeds and no path leads to the new directory |
| Paths.WorkingDirectoryLost | arch/x86/fs/ramfs.c:192-217 | in a fresh tree, a directory made and entered can be deleted, and the working directory is then no node |
| Paths.LongNameLost | arch/x86/fs/ramfs.c:321-329 | a path whose last component exceeds 255 characters resolves to nothing |
| Paths.LongNamesClash | arch/x86/fs/ramfs.c:169-190 | in a fresh tree, two long names that share 255 characters are both made, as siblings of one name |
| Paths.WrittenIsFound | arch/x86/fs/ramfs.c:284-368 | writing a file leaves every path where it was |
| Saves.FailedSaveAlone | arch/x86/snake/snake.c:102-157 | a failed save leaves the tree alone exactly when the path leads to a directory or an empty file, or leads nowhere and no file could be made |
| Saves.FailedSaveEmpties | arch/x86/snake/snake.c:139-154 | a file of one byte is empty after a save that finds no memory |
| Saves.MadeElsewhere | arch/x86/snake/snake.c:120-137 | a bare name saved from a working directory other than the root does not resolve afterwards |
| Saves.SavedResolves | arch/x86/snake/snake.c:102-157 | after a successful save the file holds the bytes, and the path leads to it exactly when it did before, or its name fits and it has a slash or the working directory is the root |
| RamFs.FileSystem.constructor | arch/x86/fs/ramfs.c:159-165 | a tree of the root alone |
| RamFs.FileSystem.FindChild | arch/x86/fs/ramfs.c:116-128 | the first child with the name; nothing in a file |
| RamFs.FileSystem.Create | arch/x86/fs/ramfs.c:169-190 | each error code exactly in its case and with no change; otherwise one new node, the tree kept, and distinct names exactly when the stored one was free |
| RamFs.FileSystem.RemoveChild | arch/x86/fs/ramfs.c:136-157 | the walk unlinks the child and keeps the order of the others |
| RamFs.FileSystem.Delete | arch/x86/fs/ramfs.c:192-217 | each error code exactly in its case and with no change; otherwise the node is gone and the tree is kept, and the working directory is lost exactly when it was the node |
| RamFs.FileSystem.ResolvePath | arch/x86/fs/ramfs.c:284-368 | the scanning loop leads where the walk over the components does, which Paths.DownAndUp, UpsClimb and DotStays pin |
| RamFs.FileSystem.SplitPath | arch/x86/kernel/shell.c:772-795 | the node the directory part leads to, and the last name; too long exactly when the directory part does not fit its buffer |
| RamFs.FileSystem.Make | arch/x86/kernel/shell.c:766-819 | succeeds exactly when the directory part leads to a directory that has no such name and there is memory, and reports every other case as what it is; the path then leads to the new node exactly when its last name can be looked up |
| RamFs.FileSystem.ChangeDir | arch/x86/kernel/shell.c:842-863 | the working directory moves exactly to where the path leads, when that is a directory |
| RamFs.FileSystem.Open | arch/x86/fs/ramfs.c:225-241 | a handle only for a file, at the start or, appending, at the end |
| RamFs.FileSystem.Read | arch/x86/fs/ramfs.c:248-264 | delivers the file's bytes from the position on and moves by as many |
| RamFs.FileSystem.Write | arch/x86/fs/ramfs.c:266-282 | zero-pads, overwrites and moves on, or changes nothing |
| RamFs.FileSystem.CopyOut | arch/x86/kernel/shell.c:756-761 | the 256-byte loop ends having put out exactly the file |
| RamFs.FileSystem.Cat | arch/x86/kernel/shell.c:733-764 | puts out the file the path leads to, and nothing in every other case |
| RamFs.FileSystem.ReadWhole | arch/x86/snake/snake.c:64-100 | all bytes of the file the path leads to |
| RamFs.FileSystem.CreateMissing | arch/x86/snake/snake.c:102-137 | the file a save makes for a path that leads nowhere, or no change |
| RamFs.FileSystem.WriteWhole | arch/x86/snake/snake.c:102-157 | the tree and the result are those of Saves.Saved, for paths that lead to a file, to a directory, and nowhere |
| Frames.PushAgrees | arch/x86/kernel/pmm.c:78-82 | pushing a page and setting its bit keep stack and bitmap in agreement |
| Frames.PopAgrees | arch/x86/kernel/pmm.c:52-58 | popping and clearing keep them in agreement |
| Frames.NeverFull | arch/x86/kernel/pmm.c:73-76 | by pigeonhole the stack-overflow arm is unreachable for frames below 32768 |
| Frames.FrameAllocator.Init | arch/x86/kernel/pmm.c:35-46 | an empty stack and a clear bitmap |
| Frames.FrameAllocator.AllocPage | arch/x86/kernel/pmm.c:48-61 | the top page, no longer free, or NULL when there is none |
| Frames.FrameAllocator.FreePage | arch/x86/kernel/pmm.c:63-83 | the page goes on top unless its frame is free already or the stack is full |
| Frames.FrameAllocator.FreePageCount | arch/x86/kernel/pmm.c:85 | the counter is the number of free pages |
| Multiboot.EntriesAt | arch/x86/kernel/multiboot.c:24-30 | for any addresses each one size field and four bytes past the one before, the first at the start and only the next past the end, the walk reads exactly the entries there |
| Multiboot.LaidOut | arch/x86/kernel/multiboot.c:24-30 | every map has such addresses |
| Multiboot.OrdinaryMap | arch/x86/kernel/multiboot.c:28-29 | an ordinary map: entries of 20 bytes lie 24 apart |
| Multiboot.AdjoiningTotal | arch/x86/kernel/multiboot.c:25-27 | the lengths of available regions that adjoin add up to what they span |
| Multiboot.FreedAt | arch/x86/kernel/multiboot.c:39-53 | so the free pages are those of the entries at these addresses |
| Multiboot.CountAvailable | arch/x86/kernel/multiboot.c:22-30 | the first walk adds up the available regions, modulo 2^32 |
| Multiboot.FreeRegion | arch/x86/kernel/multiboot.c:43-49 | the inner loop frees the pages it reaches outside the kernel image, one for each frame, the partial last page included |
| Multiboot.FreeAvailable | arch/x86/kernel/multiboot.c:40-53 | the second walk does so for every available entry |
| Multiboot.ParseMemoryMap | arch/x86/kernel/multiboot.c:19-53 | afterwards every free page was reached in some available region outside the kernel image, and every page so reached is free or shares its frame with one that is; regions need not be aligned and may overlap; with Multiboot.FreedAt, of the entries where they lie |
| Multiboot.AlignedFree | arch/x86/kernel/multiboot.c:40-53 | with regions that begin on page boundaries, the free pages are exactly the pages reached |
| Multiboot.PartlyAvailable | arch/x86/kernel/multiboot.c:43-49 | a page reached goes past its region's end exactly when it is the last and the length is no multiple of a page |
| Multiboot.LowMemoryPage | arch/x86/kernel/multiboot.c:43-49 | an input: 639 KiB from 0, whose page at 636 KiB is freed |
| Paging.EntryFacts | arch/x86/cpu/vmm.c:20-28 | an entry built from a page-aligned address and flags below 4096 is present and has that address |
| Vmm.FetchIsPhysical | arch/x86/cpu/vmm.c:9-30 | the processor's walk of the tables reads what an access to the same physical address would, memory or not |
| Paging.WriteEntry | arch/x86/cpu/vmm.c:23-28 | writing a page-table entry changes the translation of its page and of no other |
| Paging.InstallTable | arch/x86/cpu/vmm.c:15-21 | installing a cleared table that is no table in use changes no translation |
| Paging.MapsCompose | arch/x86/cpu/vmm.c:9-30 | after any sequence of calls, each right or without effect, each address translates by the last right one for its page, or as at first |
| Paging.IdentityBelow64M | arch/x86/cpu/paging.c:29-64 | every address below 64 MiB translates to itself, every other to nothing |
| Paging.BootEntries | arch/x86/cpu/paging.c:25-64 | every entry of the boot directory and tables, written out: the frame, present and writable, and nothing beyond the sixteenth |
| Paging.BootTablesInUse | arch/x86/cpu/paging.c:29-64 | the boot tables are tables in use, given that none of them is a free page; Boot.BootState shows that none is |
| Vmm.WordOfPage | arch/x86/cpu/vmm.c:9-28 | all words of a page translate alike |
| Vmm.MapsWhenReady | arch/x86/cpu/vmm.c:9-30 | with directory and table mapped to themselves the call changes its page's translation, to the frame, and no other, and keeps the tables in order |
| Vmm.MapsExactlyWhenReady | arch/x86/cpu/vmm.c:9-30 | with the directory mapped to itself, the call is right for every frame exactly when the table in use, or else the frame handed out, is mapped to itself |
| Vmm.ReadyWrites | arch/x86/cpu/vmm.c:15-28 | every word such a call writes: the page's entry with the flags asked for, the directory's for a new table, the rest of that table clear, and nothing else |
| Vmm.NoDirectory | arch/x86/cpu/vmm.c:9-14 | with the directory's own page unmapped every call faults and changes nothing |
| Vmm.SelfMappedAfter | arch/x86/cpu/vmm.c:23-28 | a right call leaves a page mapped to itself exactly when it maps another page, or this one to itself |
| Vmm.HighFrameFaults | arch/x86/cpu/vmm.c:14-19 | after boot, a call that needs a table and is handed a frame at or above 64 MiB faults and changes nothing |
| Vmm.LostEntry | arch/x86/cpu/vmm.c:23-29 | the entry for a table whose page is mapped to another page lands there, and the call reports success |
| Vmm.RemappedTableLost | arch/x86/cpu/vmm.c:23-29 | after boot, once the first table's page is mapped to an ordinary page, a call for a page of the first 4 MiB reports success and leaves that page as it was |
| Vmm.LowKept | arch/x86/cpu/vmm.c:9-30 | a call that keeps out of low memory leaves tables and free frames mapped to themselves |
| PageTables.Mmu.FillTable | arch/x86/cpu/paging.c:25-27 | the loop fills a table with consecutive present pages |
| PageTables.Mmu.PagingInit | arch/x86/cpu/paging.c:29-64 | the boot directory and tables are in place |
| PageTables.ValidCall | arch/x86/cpu/vmm.c:9-30 | what a call does when the tables are in order: it asks for a frame exactly without a table, and fails exactly when then none, or page 0, is handed out |
| PageTables.Mmu.MapSteps | arch/x86/cpu/vmm.c:9-30 | the accesses, each translated, in order; the frame asked for is gone from the free ones whatever follows |
| PageTables.Mmu.MapPage | arch/x86/cpu/vmm.c:9-30 | right when the table it needs is mapped to itself; the free pages afterwards in every case; a call that reports no table leaves them alone exactly when there were none |
| PageTables.Mmu.MapLow | arch/x86/cpu/vmm.c:9-30 | a call that keeps out of low memory succeeds exactly when there is a table or a frame other than page 0, changes only its page, and keeps what the next call needs |
| PageTables.Mmu.MapTurn | arch/x86/cpu/vmm.c:9-30 | a call that is ready, or finds no frame, succeeds exactly in the first case, and keeps what the next call needs |
| PageTables.Mmu.MapTurns | arch/x86/cpu/vmm.c:9-30 | on any machine, after any calls each ready or without a frame at its turn, each address translates by the last success for its page, or as at first |
| PageTables.LowTurns | arch/x86/cpu/vmm.c:9-30 | where everything is in low memory, calls that keep out of it are ready, or without a frame, at every turn |
| PageTables.Mmu.MapMany | arch/x86/cpu/vmm.c:9-30 | so after any number of such calls each address translates by the last success for its page, or as at first |
| PageTables.ProbeFinds | arch/x86/cpu/vmm.c:34-42 | with directory and table mapped to themselves, is_mapped says whether the processor finds a translation |
| PageTables.Mmu.IsMapped | arch/x86/cpu/vmm.c:34-42 | the loads find what PageTables.Probe says, or fault |
| Boot.BootState | arch/x86/kernel/kernel.c:228-230 | after boot no table is free, and everything map_page reaches or is handed is mapped to itself exactly on a machine with no memory above 64 MiB |
| Boot.StartMemory | arch/x86/kernel/kernel.c:228-230 | paging and then the memory map: the tables are in order and a page is free exactly when the map offers it outside the image |
| Boot.FrameZeroLost | arch/x86/kernel/pmm.c:48-61 | boot on a map with page 0 alone: it is the one free page, a call for a page at 64 MiB reports no table, and no page is free afterwards |
| Boot.ArenaNotShared | arch/x86/kernel/kernel.c:228-232 | no page of the heap's arena is free for others exactly when no available region reaches the part of it outside the kernel image |
| Boot.ArenaShared | arch/x86/kernel/kernel.c:228-232 | with one region from below the arena past its end, every page of the arena is free for others |
| Timers.DueIsPast | arch/x86/cpu/timer.c:52 | on the near side of the wrap-around the sign test says that the deadline is not after now |
| Timers.DueInTime | arch/x86/cpu/timer.c:52 | of any two tick counts less than 2^31 apart, wrapped around or not, the sign test says whether the deadline has come |
| Timers.AddedDue | arch/x86/cpu/timer.c:101-113 | a timer added for some delay is due once that has passed, and one tick later at the earliest |
| Timers.PeriodicReturns | arch/x86/cpu/timer.c:53-62 | the tick leaves the timer it takes on the queue exactly when it is periodic, due again one period later |
| Timers.DueInFrontExactly | arch/x86/cpu/timer.c:26-52 | no due timer waits behind one that is not exactly when every due deadline is below every one that is not due |
| Timers.WrapExactly | arch/x86/cpu/timer.c:26-52 | one does exactly when a due deadline lies 2^31 or more above the tick while something is not due, or one not due more than 2^31 below it while something is due |
| Timers.WrapDelays | arch/x86/cpu/timer.c:26-52 | an input on which one does |
| Timers.SetUpOk | arch/x86/cpu/timer.c:92-99 | setting a timer up leaves the queue in order exactly when the timer was not queued |
| Timers.RequeuedOk | arch/x86/cpu/timer.c:26-44 | taking a timer off and putting it back keeps deadline order, single membership, and active exactly when queued |
| Timers.RequeuedDue | arch/x86/cpu/timer.c:46-73 | a timer requeued beyond now only leaves the due ones, whose order is kept: what makes the loop end |
| Timers.TickFires | arch/x86/cpu/timer.c:46-73 | a tick fires each timer at most once, in deadline order, only queued and due ones, and every due one that no callback touches |
| Timers.FiredInQueueOrder | arch/x86/cpu/timer.c:46-73 | the timers fired stand in the order of the queue |
| Timers.AdditionOrder | arch/x86/cpu/timer.c:26-32 | a timer added with a deadline no earlier than a queued one's stays behind it through any later commands that touch neither: equal deadlines are in the order of the additions |
| Timers.FiredUnlessTouched | arch/x86/cpu/timer.c:46-73 | a due timer fires unless a callback before its turn added or cancelled it, and then it does not |
| Timers.FireListAll | arch/x86/cpu/timer.c:46-73 | with callbacks that leave due timers alone, exactly the due timers fire, in order |
| Timers.TimerQueue.constructor | arch/x86/cpu/timer.c:75-86 | an empty queue |
| Timers.TimerQueue.Setup | arch/x86/cpu/timer.c:92-99 | the timer is reset and the list ends at it; the queue stays in order exactly when it was not queued |
| Timers.TimerQueue.QueueInsert | arch/x86/cpu/timer.c:26-32 | the timer goes after every deadline that is no later |
| Timers.TimerQueue.QueueRemove | arch/x86/cpu/timer.c:34-44 | the timer's place closes up; an absent one changes nothing |
| Timers.TimerQueue.Add | arch/x86/cpu/timer.c:101-113 | the timer is queued at its new deadline only, and the queue is in order |
| Timers.TimerQueue.Cancel | arch/x86/cpu/timer.c:119-132 | afterwards the timer is not queued; the result says whether it was |
| Timers.TimerQueue.PopFirst | arch/x86/cpu/timer.c:53-62 | the first timer comes off, and a periodic one is queued again one period after now |
| Timers.TimerQueue.Tick | arch/x86/cpu/timer.c:46-73 | the loop ends whatever the callbacks add; nothing due is left; the timers fired, in order, and the state after each callback are given; a timer left alone is re-armed or dropped exactly when it was fired |
| Shutdown.ToTicksRoundsUp | arch/x86/cpu/include/timer.h:8 | the conversion never gives less time than asked for exactly when the product, rounded up, fits a word, and then less than one tick more |
| Shutdown.RemainingExactly | arch/x86/cpu/shutdown.c:95-106 | the arithmetic alone: the result is the time left exactly when its product fits a word |
| Shutdown.TimeLeft | arch/x86/cpu/shutdown.c:62-106 | for every deadline that scheduling notes it does: the time left, and 0 once it has passed, also across the wrap-around |
| Shutdown.CancelledIdle | arch/x86/cpu/shutdown.c:86-91 | after cancel_shutdown the timer is not queued, wherever the tick is |
| Shutdown.DeadlineNotBefore | arch/x86/cpu/shutdown.c:62-84 | the deadline shown is not before the queued one exactly when the additions wrap around for both or neither |
| Shutdown.StepSound | arch/x86/cpu/shutdown.c:37-91 | every step, in any order, keeps the queue in order, a queued timer pending, and, unless the tick holds it, a pending one queued |
| Shutdown.PendingShutdown.constructor | arch/x86/cpu/shutdown.c:13-16 | no shutdown pending |
| Shutdown.PendingShutdown.Cancel | arch/x86/cpu/shutdown.c:86-91 | afterwards none is pending and its timer is not queued, also while the tick holds the timer |
| Shutdown.PendingShutdown.Schedule | arch/x86/cpu/shutdown.c:62-84 | exactly one is pending afterwards, queued at its deadline, its timer never set up while queued; no other timer changes; also while the tick holds the timer |
| Shutdown.PendingShutdown.ScheduleDefault | arch/x86/cpu/shutdown.c:108-113 | a pending shutdown is left alone; otherwise 60000 ticks from now |
| Shutdown.PendingShutdown.Fire | arch/x86/cpu/shutdown.c:37-60 | the machine goes down exactly when a shutdown is pending |
| Shutdown.PendingShutdown.RemainingMs | arch/x86/cpu/shutdown.c:95-106 | what is shown for the state, which over every run is what ShutdownRuns.ShownOverRuns says |
| Shutdown.PendingShutdown.CallQueue | arch/x86/cpu/timer.c:92-132 | other code's calls leave the shutdown as it is |
| Shutdown.PendingShutdown.Tick | arch/x86/cpu/timer.c:46-73 | with any schedules, cancels and queue calls made while callbacks run: the state after each of them, nothing due left unless the machine is down; and when none concerns the shutdown, it goes down exactly when one is pending and its deadline has come |
| ShutdownRuns.PendingExactlyQueued | arch/x86/cpu/shutdown.c:37-91 | over every run on the timer queue, outside a running tick a shutdown is pending exactly when its timer is queued |
| ShutdownRuns.SetUpUnqueued | arch/x86/cpu/shutdown.c:62-84 | over every run, each schedule sets up a timer that its own cancel has left unqueued; without that cancel the queue would survive exactly when the timer was not queued, which outside a tick means when nothing was pending |
| ShutdownRuns.CancelledNeverFires | arch/x86/cpu/shutdown.c:86-91 | after a cancel the machine stays up on every run that schedules no other, wherever the tick was |
| ShutdownRuns.ModeOverRuns | arch/x86/cpu/shutdown.c:37-84 | over every run the machine goes down in the mode of the last schedule before |
| ShutdownRuns.NotBeforeItsTime | arch/x86/cpu/shutdown.c:62-84 | over every run, the tick can take a queued shutdown exactly when as many ticks have passed since its schedule as the delay asked for, so not before the delay has passed in milliseconds when the conversion fits a word |
| ShutdownRuns.ShownOverRuns | arch/x86/cpu/shutdown.c:62-106 | over every run, while a shutdown is pending, the time shown is the time left until the deadline of its schedule, to the tick, and 0 once that has passed |
| ShutdownRuns.CallbackOutcome | arch/x86/cpu/shutdown.c:37-60 | what a callback does, by what came between its timer being taken and the call: exactly when it goes down, and exactly when too early |
| ShutdownRuns.TooEarly | arch/x86/cpu/shutdown.c:37-84 | an input: ten minutes scheduled in between, and the machine goes down at once |
| Spinlock.MutualExclusion | arch/x86/kernel/spinlock.c:4-13 | over every interleaving at most one activity holds the lock, and the word says whether one does |
| Spinlock.AttemptTakes | arch/x86/kernel/spinlock.c:5-8 | code trying for the lock has it after one more read and test-and-set exactly when the word was clear, and otherwise waits |
| Spinlock.WaiterServed | arch/x86/kernel/spinlock.c:4-24 | over every interleaving with masking acquisitions: a waiter takes a clear lock in one round, and a held one in one round after the release of the holder, which runs on another CPU |
| Spinlock.HolderMasked | arch/x86/kernel/spinlock.c:15-34 | a CPU that holds the lock through the masking variant has interrupts off, and no handler of its own tries for it |
| Spinlock.PlainHolderInterrupted | arch/x86/kernel/spinlock.c:4-13 | with the plain variant a handler can spin for ever on its own CPU's lock |
| Spinlock.FlagsRestored | arch/x86/cpu/timer.c:12-24 | however interleaved, an acquire and release leave the interrupt flag as it was, by popf as by the conditional sti |
| Spinlock.SavedKept | arch/x86/kernel/spinlock.c:15-24 | the saved flags of an acquisition survive every interrupt taken during it |
| Scheduler.ScheduleKeepsOneRunning | arch/x86/kernel/task.c:99-125 | no task but the current one is ever running |
| Scheduler.Nearer | arch/x86/kernel/task.c:99-125 | one call runs a ready task or brings it strictly nearer in the scan |
| Scheduler.BoundedWaiting | arch/x86/kernel/task.c:99-125 | a task that stays ready runs within as many calls as there are other tasks, whatever the others do between calls |
| Scheduler.ScheduleStates | arch/x86/kernel/task.c:99-125 | one call, task by task: one that is ready takes over if there is any; the old one stays, ready if it was running and in its own state otherwise; every other task but the terminated keeps its state |
| Scheduler.PreemptedRunsAgain | arch/x86/kernel/task.c:99-125 | a preempted task that nobody blocks or ends runs again within as many calls as there are other tasks |
| Scheduler.TwoTasks | arch/x86/kernel/task.c:114-124 | an input: of two tasks the running one is preempted, and ready |
| Scheduler.TaskQueue.constructor | arch/x86/kernel/task.c:33-52 | the first task, running |
| Scheduler.TaskQueue.Create | arch/x86/kernel/task.c:54-97 | a ready task at the end of the queue, or no change |
| Scheduler.TaskQueue.ReapTerminated | arch/x86/kernel/task.c:12-31 | exactly the terminated tasks other than the current one go, the rest keep their order |
| Scheduler.TaskQueue.FindNext | arch/x86/kernel/task.c:105-109 | the circular scan ends at the first ready task, or back at the current one |
| Scheduler.TaskQueue.SwitchTo | arch/x86/kernel/task.c:114-124 | the chosen task is the current and running one, the old one ready if it was running |
| Scheduler.TaskQueue.Schedule | arch/x86/kernel/task.c:99-125 | the queue turns as the ring specification says, of which ScheduleStates, Nearer and BoundedWaiting speak |
| Scheduler.TaskQueue.Exit | arch/x86/kernel/task.c:127-138 | the current task is terminated and another takes over if one is ready |

## Left out

- Heap.BuddyHeap.constructor: only the arm that the shipped constants take (one 4 MiB block); the arm for a smaller arena would need a bound on the orders that coalescing looks at.
- Heap.BuddyHeap.Kfree: a pointer that no live block stands for (a double free, a foreign pointer, a pointer whose preceding word the client has overwritten) is outside the contract; the kernel's panic loop for it is not modelled.
- Krealloc: declared in the heap's header and not defined there.
- Editor.TextEditor.constructor: an editor whose first line or undo stacks could not be allocated is not modelled.
- Editor.TextEditor.Load: a load that runs out of memory half-way is a failure that changes nothing; the freeing of what was built is not modelled.
- Editor.TextEditor.SaveDocument: characters are required to be bytes, which Documents.SessionHolds keeps for what can be loaded and typed.
- Editor.LineReserve: capacities are unbounded numbers; doubling past 2^32 is not modelled.
- Editor state: snapshots are values, so the freeing of their line buffers, and leaks, are not modelled.
- RamFs.FileSystem.Delete: handles open on the deleted node keep its number; a read or write through one is outside the contracts.
- RamFs.FileSystem.Read: offset plus size is required to stay below 2^32, as the source relies on.
- RamFs.FileSystem.Write: the same, and growth is only offered up to the 4 MiB the heap can hand out.
- Printing: the screen routine reads '%' in a name as a directive; the printed path is the text of Paths.PathText for names without it.
- Node types other than plain file and plain directory, the filesystem lock and its messages.
- Frames.FrameAllocator.FreePage: page addresses beyond the bitmap are excluded, as the source would write outside it.
- Multiboot.ParseMemoryMap: available regions that wrap around 2^32 or reach above 128 MiB, where the frame bitmap ends, are excluded; regions need not be aligned and may overlap; the loop that stops a machine without a map is not modelled.
- Multiboot.FreeRegion: the same regions are excluded.
- Multiboot.FreeAvailable: the same regions are excluded.
- PageTables.Mmu.MapPage: flags of 4096 and more, and the page-size bit of a directory entry, are excluded; so are protection bits and the TLB, so a changed entry takes effect at once.
- Vmm.Load: memory is the 128 MiB the frame bitmap covers; what lies above reads as all ones, for accesses as for the processor's walk, and takes no writes.
- Boot.StartMemory: available regions are required to begin on page boundaries, so that the frames handed out are pages; a memory map at or above 64 MiB, or one reached through pages the boot code has changed, is outside the model: the map is a function from addresses to entries.
- Boot.ArenaNotShared: the same alignment is required.
- Timers.TimerQueue.Tick: deadlines and periods that cross the 32-bit wrap-around are excluded, and Timers.WrapExactly says what they would change; a callback sets up only timers that it has cancelled, as schedule_shutdown does.
- Shutdown.PendingShutdown.Tick: calls made during the tick are timely in the same sense.
- Shutdown messages and the power-off port writes.
- Spinlock: memory ordering beyond the atomicity of each step; non-maskable interrupts.
- Scheduler.TaskQueue.Create: process numbers are unbounded, and stacks and register images are not modelled; a context switch is taken as making the next task current.
- Port I/O, interrupt controllers, keyboard, clock and screen drivers, descriptor tables, ring buffers, number formatting and the shell's command table.
