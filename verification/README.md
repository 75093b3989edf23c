# Proofs about the allocator, the shell, the thread programs and the HTTP helpers

This project models the algorithms of the repository whose correctness is not visible from reading one function, and
proves what they are for. The main results hold for all inputs, all runs or all interleavings. Where the code falls short
they give the exact condition; next to some of these stands a concrete failing input or run.

**The allocator** (`lab1/myMalloc.c`). `MyMalloc.Allocator` is the program: a map from word addresses to words, the
global variables, and a method for each function with the loads and stores of the source in the source's order, down
to the packed size and state words and the `next` and `prev` fields inside free payloads. A ghost field ties the
memory to a heap of blocks and lists:

| file | contents |
|---|---|
| `HeapLayout.dfy` | blocks by address; split, absorb, add a chunk, extend a chunk, and what each keeps |
| `LayoutTheorems.dfy` | coalesced layouts are determined by their live blocks; every byte lies in one block; sums of sizes |
| `FreeLists.dfy` | size classes and the 59 circular lists as sequences |
| `HeapModel.dfy` | the heap, its invariant, malloc and free as functions on it, the answers of `sbrk` |
| `HeapTheorems.dfy` | what malloc and free mean, search, growth, round trips, whole runs |
| `HeapMemory.dfy`, `Bytes.dfy` | memory words: tags, list pointers, payloads, dead addresses, bytes inside words |
| `MallocSteps.dfy` | groups of stores of the C code and the heap they lead to |
| `MyMalloc.dfy` | the C code |
| `Collision.dfy` | the branch at lines 172-193, which breaks the boundary tags |
| `ListChecks.dfy` | `detect_cycles`, `verify_pointers`, `verify_freelist` |

The invariant (`HeapModel.Inv`): between fence posts the blocks follow each other without gap, each right neighbour's
left size is the block's size, addresses and sizes are multiples of 8, sizes of ordinary blocks are at least 32, the
free blocks are exactly the members of the lists, each on the list of its size, no two neighbours are free, and the
blocks cover exactly the bytes obtained from `sbrk`. The arena size is any multiple of 8 that is at least 528; only
then does `init` put its block on the list that `size_to_list_index` gives. The comment in `lab1/myMalloc.h` speaks of
three state bits; the code masks two, and the model follows the code.

Calls of `sbrk` are answered from a list: no memory, or a chunk at an aligned address that overlaps nothing granted
before. When a chunk is contiguous with the last one and the block before the old fence post is allocated, the branch
at lines 172-193 runs. It is modelled as it is written. `Collision.ConsistentIffNoCollision` proves, of the program and
for every size, that malloc leaves symmetric tags exactly when this does not happen, a condition on the heap before the
call and the next answer of `sbrk`; `Collision.CollisionReachable` gives runs that get there. Theorems about whole runs
are about runs in which no call meets the branch; every contract says what happens when one does.

**Threads** (`lab4`). `BoundedBuffer.dfy`, `SpinLock.dfy` and `Transfer.dfy` are transition systems, one step for each
statement that another thread can observe, with any number of threads and a schedule that is an arbitrary sequence of
thread numbers.

**The shell** (`lab3`). `Pipeline.dfy` is the descriptor table that `Command::execute` works on, with every `open`,
`dup`, `pipe` and `fork` allowed to fail. `LineEditor.dfy` is the line editor with its buffer, history and the
characters it sends to a terminal, `KeyBytes.dfy` the bytes it reads and the lines that come of them. `Glob.dfy`
compiles a glob to an extended regular expression and gives that expression its POSIX meaning; `GlobExpand.dfy` expands
a word against a directory tree.

**The web server and its CGI programs** (`lab5`). `PointInPoly.dfy`, `FormDecoding.dfy`, `EscapeShell.dfy`,
`Base64.dfy` and `SanitizePath.dfy`. `CStrings.dfy` reads a character array up to its NUL; `Options.dfy` is an option
type and `Numbers.dfy` the lesser and the greater of two numbers.

These results say that the code does not do what one would expect of it, and exactly when:

- `Collision.ConsistentIffNoCollision`: the collision above.
- `ListChecks.RingIsAlmost`: the list check never looks at one `prev` field of each list.
- `Pipeline.RestoredIff`: when a `dup` that saves one of the shell's own streams fails, the shell keeps a redirected one.
- `Pipeline.EndOfFileWhileWaiting`, `Pipeline.EndOfFileIffNoStrayWriter`, `Pipeline.WriterHoldsItsReader`: after a failing
  `dup` the last stage and the waiting shell hold the write end of the pipe that the last stage reads, the shell may keep
  one for good, and every stage that writes to a pipe also holds its read end.
- `LineEditor.UpDownRestores`, `LineEditor.RecoverableIff`: whether the way up and down again from a recalled entry that
  was changed ends on the line changed, and whether any way does. A line typed over an entry comes back after more downs
  (`LineEditor.MoreDownsRecover`); one made by deleting from an entry is lost (`LineEditor.ChangedEntryLost`).
- `Glob.MeaningKeptIff`: which escaped characters of a pattern keep their meaning.
- `EscapeShell.EscapedReadsBack`, `EscapeShell.NothingActs`: an escaped newline disappears, blanks still separate words,
  and a leading `#` starts a comment.
- `BoundedBuffer.DeadlockFreeIff`, `BoundedBuffer.AssertHoldsIff`: which producers and consumers can deadlock, and for
  which the assertion of the consumer can fail.

## Model

| member | source | states |
|---|---|---|
| MyMalloc.Allocator.constructor | lab1/myMalloc.c:320-341 | `init` runs to its end if and only if its `sbrk` succeeds, and then establishes the heap invariant in memory, with one free block on the last list |
| MyMalloc.Allocator.GetSize | lab1/myMalloc.h:88-90 | reading a right tag gives the size of the block |
| MyMalloc.Allocator.GetState | lab1/myMalloc.h:96-98 | reading a right tag gives the state of the block |
| MallocSteps.Unpack | lab1/myMalloc.h:88-106 | packing a size and a state into one word loses neither, for every size that is a multiple of 8 |
| FreeLists.SizeToListIndex | lab1/myMalloc.c:90-98 | the loop gives the least list whose bucket holds the size, or the last list |
| FreeLists.IndexExact | lab1/myMalloc.c:90-98 | every list but the last holds blocks of one size only |
| MyMalloc.Allocator.InsertIntoFreelist | lab1/myMalloc.c:100-107 | the four pointer stores, at the tail of the list of the block's size |
| HeapMemory.LinkThreaded | lab1/myMalloc.c:100-107 | after these stores all 59 rings have mutually inverse `next` and `prev`, with the block last on its list, and nothing but link words of free blocks and sentinels has changed |
| HeapMemory.UnlinkThreaded | lab1/myMalloc.c:109-112 | after the two stores of a removal all rings are whole again without the block |
| MyMalloc.Allocator.RemoveFromFreelist | lab1/myMalloc.c:109-112 | the block leaves its list; tags and payloads of live blocks are untouched |
| FreeLists.DelistOk | lab1/myMalloc.c:109-112 | without the block, every other free block is still on exactly the list of its size |
| FreeLists.EnlistOk | lab1/myMalloc.c:100-107 | with the block, every free block is on exactly the list of its size and nothing else is on a list |
| MyMalloc.Allocator.AllocateChunk | lab1/myMalloc.c:45-85 | a chunk gets two fence posts and one block between them, or nothing changes when `sbrk` fails |
| HeapLayout.AddChunkCore | lab1/myMalloc.c:57-85 | a new region between fence posts keeps the layout well formed with all neighbours linked both ways |
| MyMalloc.Allocator.SearchList | lab1/myMalloc.c:128-133 | following `next` through memory finds the first large enough node of one list, or none |
| MyMalloc.Allocator.FindBlock | lab1/myMalloc.c:126-135 | the nested search loops find the block that the abstract search finds |
| MyMalloc.Allocator.SplitOff | lab1/myMalloc.c:141-150 | the split stores make a well formed free block behind the chosen one, enter it in its list and change no payload |
| HeapLayout.SplitCore | lab1/myMalloc.c:141-147 | splitting keeps sizes, gaps and left sizes consistent |
| MyMalloc.Allocator.Carve | lab1/myMalloc.c:137-159 | taking, splitting and marking a block keeps the heap invariant and every live payload |
| MyMalloc.Allocator.PlaceBehindFencepost | lab1/myMalloc.c:172-193 | every word the branch for an allocated last block writes, its entry into a free list included; and what that leaves, also when the request is larger than the chunk: the header behind the fence post with the left size of the block before it, and every live payload; of a chunk with room, a free block behind it with right tags, or a left size that passes over a gap of less than 32 bytes |
| MyMalloc.Allocator.MergeLast | lab1/myMalloc.c:195-201 | a contiguous chunk joins the free block before the old fence post, which disappears, and the heap stays consistent |
| MyMalloc.Allocator.Grow | lab1/myMalloc.c:162-205 | one turn of the growth loop: no memory, a grown heap that satisfies the invariant, or the collision |
| MyMalloc.Allocator.AllocateObject | lab1/myMalloc.c:114-208 | without a collision the heap invariant holds afterwards, the result is that of the abstract malloc, no word of a live payload has changed, and the loop ends; when a free block is large enough the block returned is the best fit of them, and otherwise the best fit in the heap after growing; with a collision, whatever the size, memory is as the branch leaves it |
| HeapTheorems.AllocMeaning | lab1/myMalloc.c:114-208 | malloc makes exactly one more block live, 8-aligned, at least as large as asked and by less than 32 bytes larger, or none when it fails; all other live blocks keep address and size |
| HeapTheorems.ReturnedApart | lab1/myMalloc.c:114-208 | the returned block overlaps no block that was live before |
| HeapModel.BlockBytes | lab1/myMalloc.c:117-119 | the block has room for the request, and less than 8 bytes of padding above the minimum |
| HeapModel.AllocInv | lab1/myMalloc.c:114-208 | malloc keeps the heap invariant, for every answer of `sbrk` |
| HeapModel.GrownInv | lab1/myMalloc.c:162-205 | growing keeps the heap invariant, contiguous or not |
| HeapModel.GrownNoCollision | lab1/myMalloc.c:162-207 | a call that has grown the heap once cannot collide in a later turn |
| HeapTheorems.FailsOnlyWithoutMemory | lab1/myMalloc.c:123-207 | malloc returns NULL only after an `sbrk` that failed, and every `sbrk` before that one succeeded |
| HeapTheorems.GrowthCount | lab1/myMalloc.c:123-207 | with contiguous chunks and the last free block as the only candidate of s bytes, exactly the least k calls of `sbrk` with s + k * arena >= t are made |
| HeapTheorems.SearchComplete | lab1/myMalloc.c:121-135 | the search finds a block exactly when some free block anywhere is large enough |
| HeapTheorems.BestFit | lab1/myMalloc.c:90-135 | the block that the search finds below the last list has the least sufficient size in the whole heap and is the oldest of its list; on the last list it is the first that fits |
| HeapTheorems.AllocTakesBestFit | lab1/myMalloc.c:121-207 | malloc succeeds whenever a free block is large enough, without `sbrk`; otherwise it grows the heap until one is, and no further; the block it returns was free, and if it had at most 488 bytes it had the least sufficient size of all free blocks and was first on its list, else no list of one size had a sufficient block and it was the first that fits on the last list |
| HeapTheorems.FreedGoesLast | lab1/myMalloc.c:100-246 | a block freed between blocks that are not free goes to the end of the list of its size, and no other list changes |
| HeapTheorems.FirstFreedFirstUsed | lab1/myMalloc.c:100-246 | of two blocks of one size, freed one after the other, the next malloc of that size returns the first freed |
| HeapTheorems.RemainderGoesLast | lab1/myMalloc.c:137-150 | the block cut leaves its list and the remainder goes to the end of the list of its size; all other nodes keep their order |
| HeapTheorems.ChunkGoesLast | lab1/myMalloc.c:203-205 | a chunk that is not contiguous goes to the end of the last list |
| MyMalloc.Allocator.CoalesceRight | lab1/myMalloc.c:226-233 | the right neighbour is swallowed exactly when free, and leaves its list |
| MyMalloc.Allocator.CoalesceLeft | lab1/myMalloc.c:235-243 | the same on the left, found through the left size field |
| HeapLayout.AbsorbCore | lab1/myMalloc.c:227-242 | joining two blocks keeps the layout well formed and linked both ways |
| MyMalloc.Allocator.DeallocateObject | lab1/myMalloc.c:214-246 | a live block is freed with the heap invariant and all other live payloads kept, and its old header keeps reading UNALLOCATED; a pointer that is not live is reported and nothing changes |
| HeapModel.ReleaseInv | lab1/myMalloc.c:214-246 | free keeps the heap invariant: no two neighbours are free afterwards |
| HeapTheorems.ReleaseMeaning | lab1/myMalloc.c:214-246 | free makes exactly one block not live; all other live blocks and fence posts stay |
| MyMalloc.Allocator.FreeTwice | lab1/myMalloc.c:214-246 | after a free any number of further frees, some of them repeated, leave a second free of the same pointer caught, also when its block was merged into another |
| LayoutTheorems.CanonicalLayout | lab1/myMalloc.c:226-243 | coalesced layouts with the same fence posts and live blocks are equal |
| LayoutTheorems.OneFreeBlockPerRegion | lab1/myMalloc.c:226-243 | with nothing live, every region is one free block |
| HeapTheorems.MallocFreeRestores | lab1/myMalloc.c:137-246 | freeing the block of a malloc that needed no `sbrk` restores every address, size, left size and state |
| HeapTheorems.FreeOrderIrrelevant | lab1/myMalloc.c:214-246 | freeing the same blocks in any order gives the same layout |
| HeapTheorems.FreeAllLeavesOneBlock | lab1/myMalloc.c:214-246 | freeing all live blocks, in any order, leaves one free block in every region |
| HeapTheorems.RunInv | lab1/myMalloc.c:343-377 | the heap invariant holds after every run of malloc and free in which no call collides |
| HeapTheorems.Conservation | lab1/myMalloc.c:65-246 | after every such run from `init`, block bytes with fence posts sum to the bytes obtained from `sbrk`, and each of those bytes lies in exactly one block |
| MyMalloc.Allocator.MyMalloc | lab1/myMalloc.c:343-350 | malloc returns NULL or a pointer 16 bytes behind the header of the best fit, in the heap as it is or, when nothing in it suffices, as it has grown; or, after a collision, behind the header that the branch has written |
| MyMalloc.Allocator.MyFree | lab1/myMalloc.c:373-377 | free keeps the heap valid whatever non-live pointer it is given, and keeps every other live payload |
| MyMalloc.Allocator.MyRealloc | lab1/myMalloc.c:360-371 | the first min(size, old payload size) bytes reappear at the new block, no other live payload changes, the old block is free; a failing malloc changes nothing; without an old block it is malloc, collisions included |
| MyMalloc.Allocator.MemCopy | lab1/myMalloc.c:368-368 | n bytes are copied between two live payloads; every byte of the destination behind them, and every word outside it, is unchanged |
| Bytes.MergedByte | lab1/myMalloc.c:368-368 | in the last, partial word exactly the copied bytes come from the source, and the others stay |
| Collision.CollisionBreaksTags | lab1/myMalloc.c:172-193 | after the branch no layout with symmetric boundary tags contains both the returned block and the live block before the old fence post |
| Collision.GapLosesFencePost | lab1/myMalloc.c:182-189 | when 8, 16 or 24 bytes of the chunk remain, no layout with symmetric tags that contains the block contains the fence post of the chunk |
| Collision.ConsistentIffNoCollision | lab1/myMalloc.c:114-208 | for every size of request: after malloc some layout with symmetric tags counts the block and every live block, if and only if no free block was large enough, the chunk was contiguous and the last block was allocated did not all hold |
| Collision.CollisionReachable | lab1/myMalloc.c:172-193 | for every arena size: one malloc that fills the first chunk, then any malloc with a contiguous `sbrk`, meets the branch |
| ListChecks.ScanForCycle | lab1/myMalloc.c:253-259 | the slow and fast pointers, although the fast one may jump over the sentinel, report nothing exactly when the list comes back to its sentinel, and otherwise a node that lies on a cycle |
| ListChecks.DetectCycles | lab1/myMalloc.c:250-262 | NULL if and only if every one of the 59 lists comes back to its sentinel; terminates on every finite set of nodes |
| ListChecks.VerifyPointers | lab1/myMalloc.c:264-274 | NULL if and only if every node of every list passes the two-way test |
| ListChecks.VerifyFreelist | lab1/myMalloc.c:276-290 | accepts exactly the memories in which every list is almost a ring |
| ListChecks.ValidHeapPasses | lab1/myMalloc.c:276-290 | every heap that satisfies the invariant is accepted |
| ListChecks.ValidClosed | lab1/myMalloc.c:276-290 | on every valid heap the nodes of the lists are mapped and closed under `next` and `prev`, so that the checks can run |
| ListChecks.RingIsAlmost | lab1/myMalloc.c:264-274 | what the check misses: the `prev` of the first block, or of the sentinel of an empty list |
| ListChecks.StrayPrevAccepted | lab1/myMalloc.c:264-290 | for every valid heap and each of its 59 lists: with the unchecked `prev` pointing to any address (empty list) or to any node that points to the first block, all lists still pass while the damaged one is no ring |
| ListChecks.DamagedHeapAccepted | lab1/myMalloc.c:276-290 | verify_freelist accepts a heap in which the sentinel of an empty list has the sentinel of another list for its `prev` |
| BoundedBuffer.BufferSafe | lab4/bounded-buffer.cc:29-50 | at every interleaving of any producers and consumers: empty + full + threads in flight is 10, and what was dequeued is a prefix of what was enqueued |
| BoundedBuffer.SlotFree | lab4/bounded-buffer.cc:32-35 | a producer about to store finds no unread value in its slot |
| BoundedBuffer.ValueThere | lab4/bounded-buffer.cc:43-46 | a consumer about to read finds the oldest unread value at the head |
| BoundedBuffer.NoDeadlock | lab4/bounded-buffer.cc:29-74 | when from 0 to 10 more values are to be produced than consumed, some thread can move in every reachable state in which some thread is not done |
| BoundedBuffer.DeadlockFreeIff | lab4/bounded-buffer.cc:29-74 | no schedule deadlocks if and only if from 0 to 10 more values are to be produced than consumed |
| BoundedBuffer.CanFinish | lab4/bounded-buffer.cc:29-74 | in these cases every run can be completed to one in which all threads make all their rounds and all values are produced and consumed |
| BoundedBuffer.AssertNeverFails | lab4/bounded-buffer.cc:65-74 | with one producer and one consumer, as in main, the assertion holds at every interleaving |
| BoundedBuffer.AssertHoldsIff | lab4/bounded-buffer.cc:54-74 | for any threads the assertion holds at every interleaving, if and only if there are neither a producer of two values and two consumers, nor two producers and a consumer of two values |
| BoundedBuffer.FourRoundsFail | lab4/bounded-buffer.cc:54-74 | the runs that fail: two rounds of producers, then two of consumers |
| SpinLock.SpinLockCorrect | lab4/count_spin.cc:7-44 | mutual exclusion for any number of threads; once all are done count is the sum of all ntimes modulo 2^32, and equal to it if and only if that sum is at most 2^31 - 1 |
| SpinLock.FreeLockEnters | lab4/count_spin.cc:11-24 | in every reachable state with the lock free, any unfinished thread that is scheduled enters |
| SpinLock.AllIncrementsMade | lab4/count_spin.cc:33-46 | whatever has been scheduled, the run can be completed to one in which all threads make all their rounds and count is the sum of all ntimes, if that is an int |
| Transfer.NoDeadlock | lab4/deadlock.cc:10-34 | any number of threads of both kinds never deadlock |
| Transfer.CanFinish | lab4/deadlock.cc:10-48 | from every reachable state some schedule lets all threads make all their rounds |
| Transfer.FinalBalances | lab4/deadlock.cc:10-48 | when all threads are done, each balance has lost the transfers away from it and gained those to it, and both mutexes are free |
| Transfer.AllTransfersMade | lab4/deadlock.cc:10-48 | every run can be completed to one in which all transfers are made and the balances are 100000000 and 100 for each transfer more or less |
| Transfer.Conservation | lab4/deadlock.cc:10-48 | the balances add up to 200000000 whenever both mutexes are free, and stay within int for ten million transfers each way |
| Transfer.AtMostOneOpen | lab4/deadlock.cc:10-34 | at most one transfer is between its debit and its credit |
| Pipeline.Shell.Execute | lab3/command.cc:209-337 | for every number of stages and every failing open, dup, pipe or fork: the table while the shell waits, and the one at exit, which is that of the entry when the three saving dups succeed; the stages that are forked; each forked stage has the streams it is meant to have; the exit status is taken from the last stage forked |
| Pipeline.ChildStreams | lab3/command.cc:235-308 | descriptors 0, 1 and 2 of every forked stage, in terms of the command, the calls that fail and the table at entry: path and append flag of each file, pipe k - 1 or k, or the inherited stream |
| Pipeline.WhoIsForked | lab3/command.cc:235-316 | stage k is forked if and only if the input could be opened, the pipes up to k could be made, the output of the last stage could be opened if k is that, and the fork succeeds; in the order of the pipeline |
| Pipeline.WaitingStreams | lab3/command.cc:235-330 | descriptors 0, 1 and 2 of the shell while it waits, in the same terms |
| Pipeline.ExitStreams | lab3/command.cc:209-337 | descriptors 0, 1 and 2 of the shell when Execute returns, in the same terms; all others are those of the entry |
| Pipeline.Shell.Connect | lab3/command.cc:235-298 | one turn before fork: standard input from the pipe before, standard output to the pipe behind, or an exit from which the table can be restored |
| Pipeline.Shell.Restore | lab3/command.cc:332-337 | the sequence of every exit brings back the table of the entry |
| Pipeline.RestoredIff | lab3/command.cc:209-337 | the table at exit is that of the entry if and only if every stream whose saving dup failed was not redirected before the exit |
| Pipeline.ShellKeepsPipeOpen | lab3/command.cc:209-337 | a run of two stages after which the shell writes into its own pipe: the dup that saves its output and the fork of the second stage fail |
| Pipeline.EndOfFileIffNoStrayWriter | lab3/command.cc:236-337 | after Execute some process besides stage k holds the write end of pipe k, if and only if the last stage keeps it (stage k + 1 is the last, has no output file, is forked, and the dup for its output or the one that saved the output failed) or the shell does (the saving dup failed and the loop ended in the turn of stage k + 1, or behind it when that is the last and has no output file) |
| Pipeline.EndOfFileWhileWaiting | lab3/command.cc:236-330 | while the shell waits, some process besides stage k holds the write end of pipe k, if and only if stage k + 1 is the last, has no output file, and the dup for its output or the one that saved the output failed; the shell is then one of them |
| Pipeline.SecondStageKeepsItsPipeOpen | lab3/command.cc:236-330 | a run of two stages in which only that dup fails: the shell waits for the second stage, which keeps the pipe it reads open |
| Pipeline.WriterHoldsItsReader | lab3/command.cc:258-306 | every stage that writes to a pipe, and no other, also holds that pipe's read end |
| Pipeline.Shell.ChangeDirectory | lab3/command.cc:124-144 | the error redirection of cd is undone if and only if `dup(2)` succeeded or nothing was redirected |
| LineEditor.Editor.InsertChar | lab3/read-line.c:77-93 | the buffer changes as the zipper does, the line stays within 2046 characters, and the terminal shows exactly the line, its column at the cursor |
| LineEditor.Editor.DeleteChar | lab3/read-line.c:95-108 | the same for deleting under the cursor |
| LineEditor.Editor.BackspaceChar | lab3/read-line.c:110-116 | the same for deleting before the cursor |
| LineEditor.Editor.MoveHome | lab3/read-line.c:132-137 | the same for the move to the beginning |
| LineEditor.Editor.MoveEnd | lab3/read-line.c:139-144 | the same for the move to the end, which rewrites the characters it passes |
| LineEditor.Editor.ClearLine | lab3/read-line.c:146-162 | afterwards the row is blank and the line empty |
| LineEditor.Editor.LoadHistory | lab3/read-line.c:164-174 | the line is the entry, with the terminal in agreement |
| LineEditor.Editor.AddToHistory | lab3/read-line.c:43-75 | the array of 100 entries becomes what Remember says |
| LineEditor.RememberMeaning | lab3/read-line.c:43-75 | the newest entry is the command, repeats in a row are kept once, only the oldest entry of a full history is lost |
| LineEditor.Editor.Dispatch | lab3/read-line.c:456-569 | every key leaves buffer, history position and saved line as the key function says, and the terminal in agreement |
| LineEditor.PressOk | lab3/read-line.c:456-569 | every key keeps the line, the saved line and the history within 2046 printable characters |
| LineEditor.Editor.Finish | lab3/read-line.c:573-581 | the final newline and NUL fit behind every line, and what is returned and remembered is read from the buffer as a C string |
| LineEditor.Editor.ReadLine | lab3/read-line.c:447-582 | for every sequence of input bytes the line and the history are those of running the key function |
| KeyBytes.CodesAreRead | lab3/read-line.c:456-569 | 10 and 13, 31, 4, 8 and 127, 1, 5, the sequences ESC [ A, B, C, D, H, F and 3 ~, and the printable characters are read as their keys to their last byte, whatever follows |
| KeyBytes.NothingElseIsRead | lab3/read-line.c:456-569 | what is read as a key begins with one of its codes and takes no more; anything else is skipped, with the number of bytes stated |
| KeyBytes.TypedLine | lab3/read-line.c:447-582 | printable bytes and a newline return the line typed, of which the first 2046 characters count, and remember it |
| KeyBytes.InsertedInside | lab3/read-line.c:456-569 | n times ESC [ D and m times ESC [ C, then some text: it goes n - m places before the end |
| KeyBytes.HomeAndEnd | lab3/read-line.c:456-569 | text typed behind either code for Home comes first, behind either code for End last |
| KeyBytes.Erased | lab3/read-line.c:456-569 | backspaces take away what is left of the cursor and deletes what is under it and to its right, by every code for them |
| KeyBytes.Recalled | lab3/read-line.c:456-582 | n times ESC [ A and d times ESC [ B return the entry that many places up and down, or the line typed before |
| KeyBytes.UsageGivesUp | lab3/read-line.c:476-481 | 31 returns an empty string, or a newline when nothing was typed, and nothing is remembered |
| KeyBytes.EndOfInput | lab3/read-line.c:456-460 | input that ends before the line gives no line |
| LineEditor.Redrawn | lab3/read-line.c:88-107 | rewriting the rest of the line and backing up leaves the row showing exactly the new line |
| LineEditor.BackspaceUndoesInsert | lab3/read-line.c:77-116 | backspace takes back a typed character if and only if the line was not full or the cursor at its beginning |
| LineEditor.UpDownRestores | lab3/read-line.c:522-548 | for every n > 0 and every session, n times up and n times down end at the place k, the greater of n and the history position; they show the same line as before if and only if the line at k reads the same, which behind the newest entry is the line saved when browsing began, or the line shown when it had not |
| LineEditor.UpsThenDowns | lab3/read-line.c:522-548 | where any number of ups followed by any number of downs leads, from every session |
| LineEditor.MoreDownsRecover | lab3/read-line.c:522-548 | from every session, with as many more downs as there are entries from the position on, the line saved when browsing began comes back, or the line shown when it had not |
| LineEditor.RecoverableIff | lab3/read-line.c:522-548 | some ups followed by some downs show the line again, if and only if it is that line or reads as an entry other than the oldest |
| LineEditor.ChangedEntryLost | lab3/read-line.c:498-548 | a recalled entry changed into neither the saved line nor an entry, without a character typed, is lost: once it is left, no sequence of ups and downs shows it again |
| LineEditor.RecalledAndCut | lab3/read-line.c:502-548 | keys from a fresh session that lose the line: up, backspace |
| LineEditor.TypedOverRecalled | lab3/read-line.c:456-569 | keys from a fresh session that end on the entry instead of the line typed: up, a character, up, down; one more down brings the line |
| Glob.WildcardToRegex | lab3/shell.l:171-196 | the loop emits the translation between its anchors |
| Glob.TranslationKeepsMeaning | lab3/shell.l:171-196 | for every pattern whose backslashes, if any, are plain, the emitted expression compiles and finds a name if and only if the glob matches it |
| Glob.MeaningKeptIff | lab3/shell.l:171-196 | the expression compiles and finds for all names what the glob matches, if and only if every backslash stands before a character that is ordinary in expressions, or before a backslash that a closing parenthesis, bracket or brace follows |
| Glob.BackslashLosesMeaning | lab3/shell.l:183-185 | an escaped star is emitted raw: the name it stands for is refused and another accepted |
| GlobExpand.Scan | lab3/shell.l:95-135 | the directory loop keeps exactly the entries that match and that the dot rules let through |
| GlobExpand.ExpandWildcard | lab3/shell.l:57-169 | the results appended are those of Expand; the recursion ends on the length of the suffix |
| GlobExpand.NoBackslashPlain | lab3/shell.l:171-196 | every word without a backslash is among those that the expansion is proved for |
| GlobExpand.ExpandIsComponentwise | lab3/shell.l:57-169 | a path is a result if and only if its components can be chosen one after the other, wildcards from the directory reached so far, literals unchecked |
| GlobExpand.SuffixMadeOf | lab3/shell.l:57-73 | a suffix is its components with one slash between neighbours, with or without one at the end, and there is only one way to cut it |
| GlobExpand.ResultsArePaths | lab3/shell.l:57-169 | the results are exactly the chosen names with one slash between neighbours, behind a slash when they start from the root; a wildcard stands for the entries, of the directory with that path, that it matches, those with a leading dot only behind a dot |
| GlobExpand.ResultSplits | lab3/shell.l:57-169 | cutting a result at its slashes gives back exactly the names chosen |
| GlobExpand.WordsAre | lab3/shell.l:485-511 | the words are those paths, each once, in the order of their characters |
| GlobExpand.RootSlashes | lab3/shell.l:57-95 | further slashes behind the one at the front make no difference |
| GlobExpand.ReaddirOrderIrrelevant | lab3/shell.l:114-149 | the results and their order do not depend on the order of readdir |
| GlobExpand.SortedUnique | lab3/shell.l:149-149 | sorted sequences with the same elements are equal |
| GlobExpand.ExpandAbsolute | lab3/shell.l:488-502 | starting from the first literal component gives the same results as starting from the root |
| GlobExpand.Word | lab3/shell.l:485-511 | the sorted results, or the text itself when there are none |
| PointInPoly.CountCrossings | lab5/http-root-dir/cgi-src/imagemap.c:309-360 | although the loop skips runs of vertices on one side, it counts the crossings of all edges |
| PointInPoly.PointInPoly | lab5/http-root-dir/cgi-src/imagemap.c:299-363 | the parity of the crossings of the polygon made of the vertices before the end mark |
| PointInPoly.CrossesIsRay | lab5/http-root-dir/cgi-src/imagemap.c:309-360 | an edge is counted if and only if its ends are on different sides of the height of the point, an end on it being above, and the ray from the point to the right meets the edge |
| PointInPoly.MeetsOnLine | lab5/http-root-dir/cgi-src/imagemap.c:319-321 | the computed abscissa is that of the line through both ends at the height of the point |
| PointInPoly.CrossingsCount | lab5/http-root-dir/cgi-src/imagemap.c:309-360 | the count is the number of edges that cross, the last vertex being joined to the first |
| PointInPoly.RotationInvariant | lab5/http-root-dir/cgi-src/imagemap.c:313-363 | the count does not depend on the vertex the list starts with |
| PointInPoly.ReversalInvariant | lab5/http-root-dir/cgi-src/imagemap.c:313-363 | nor on the direction of the list |
| PointInPoly.RectangleAgrees | lab5/http-root-dir/cgi-src/imagemap.c:281-285 | on rectangles the polygon test is `pointinrect` without the left and the lower side |
| FormDecoding.GetWord | lab5/http-root-dir/cgi-src/util.c:9-20 | the part before the stop character goes to the word, the part behind it stays in the line |
| FormDecoding.UnescapeUrl | lab5/http-root-dir/cgi-src/util.c:73-83 | decoding in place gives the decoded string, up to the first NUL decoded; no character is overwritten before it is read |
| FormDecoding.PlusToSpace | lab5/http-root-dir/cgi-src/util.c:85-89 | every plus sign of the string, and nothing else, becomes a blank |
| FormDecoding.HexDecodes | lab5/http-root-dir/cgi-src/util.c:64-71 | x2c gives the value of two hexadecimal digits of either case |
| FormDecoding.AnyBytesDecode | lab5/http-root-dir/cgi-src/util.c:64-71 | what x2c makes of two bytes that need not be hexadecimal digits |
| FormDecoding.DecodeQuery | lab5/http-root-dir/cgi-src/query.c:43-48 | the loop returns the pairs of DecodedQuery, consuming the query string |
| FormDecoding.DecodingInvertsEncoding | lab5/http-root-dir/cgi-src/query.c:43-48 | for every list of at most 10000 NUL-free names and values, names without an equals sign, and every way to encode them in less than 128 characters a pair, the loop returns the list |
| FormDecoding.PartsDecode | lab5/http-root-dir/cgi-src/query.c:43-48 | every part of a query gives one pair, cut at the first equals sign of what it decodes to, all name when there is none, empty parts included; only an empty part at the very end gives none |
| EscapeShell.EscapeShellCmd | lab5/http-root-dir/cgi-src/util.c:137-149 | inserting in place gives the escaped string |
| EscapeShell.EachCharacterEscaped | lab5/http-root-dir/cgi-src/util.c:137-149 | exactly the characters of the list get a backslash, wherever they stand, and every other character stays bare |
| EscapeShell.NothingActs | lab5/http-root-dir/cgi-src/util.c:137-149 | in the escaped text, read by the token rules of POSIX, no operator, quote, expansion or pattern acts, if and only if no # at the start of a word stands anywhere before a newline |
| EscapeShell.EscapedReadsBack | lab5/http-root-dir/cgi-src/util.c:137-149 | a POSIX shell reads the escaped text as one word, the original, if and only if that is not empty, does not start with # and has no blank, tab or newline |
| Base64.Base64Decode | lab5/myhttpd.cc:242-267 | for every input the decoded bytes, a NUL, and nothing behind output[maxLen - 1] |
| Base64.DecodingInvertsEncoding | lab5/myhttpd.cc:242-267 | of every padded encoding the first 3 * ((maxLen - 1) / 3) bytes come back; all of them if and only if 3 * ceil(n / 3) < maxLen |
| Base64.PaddingOptional | lab5/myhttpd.cc:242-267 | without padding the same bytes come back: a last group of two characters gives one byte, one of three gives two |
| Base64.OneCharacterLeft | lab5/myhttpd.cc:242-267 | a last group of one character gives one byte, four times its value |
| Base64.OutsideIsA | lab5/myhttpd.cc:242-267 | characters outside the alphabet are read as its first letter |
| Base64.QuartetIs24Bits | lab5/myhttpd.cc:242-267 | the encoding that is undone: the four 6-bit digits of a number of 24 bits, as RFC 4648 has it |
| SanitizePath.Strip | lab5/myhttpd.cc:293-300 | the loop with its moving pointer strips the string in place |
| SanitizePath.StrippingDropsDotDotSegments | lab5/myhttpd.cc:293-300 | for every path the loop drops exactly the segments that are ".." and keeps the others in order |
| SanitizePath.Sanitize | lab5/myhttpd.cc:292-305 | the result never contains two dots in a row; it is the stripped path unless that still does |
| SanitizePath.RootIffDotsInSegment | lab5/myhttpd.cc:292-305 | the path is replaced by the root if and only if the part before its first slash, or some segment other than "..", contains two dots in a row |

## Left out

- Collision: runs in which a call meets the branch at lab1/myMalloc.c:172-193 end there; what later calls do to the broken heap is not modelled.
- MyMalloc.Allocator.MyRealloc: does not cover moving a block when the inner malloc meets that branch; the free at the end would then run on the broken heap.
- MyMalloc.Allocator.AllocateObject: sizes are unbounded integers, so the wrap-around of `raw_size + 7` for requests near 2^64 does not show.
- MyMalloc.Allocator.constructor: when `sbrk` fails in `init`, the stores to the sentinels before the one that stops the program are not carried out.
- MyMalloc.Allocator.MyMalloc: the mutex around malloc and free is not modelled; calls run one after the other.
- MyMalloc.Allocator.PlaceBehindFencepost: when the request is larger than the chunk, the stores behind the header fall outside memory obtained from `sbrk`; the first of them is reported as a fault and ends the call.
- my_calloc: multiplication and memset on top of malloc would add only an easy member.
- osChunkList, verify_tags, verify_chunk, printing: the loop of `verify_chunk` never runs its body.
- MallocSteps.WithPages: pages obtained from `sbrk` are zero, as the system hands them out.
- BoundedBuffer, SpinLock, Transfer: modelled on values as transition systems, since a class cannot show interleavings; loop counters are unbounded integers, and the conversion from `long` to `int` in the spin lock wraps around.
- Pipeline.Shell.Execute: that a wait ends, background jobs and the clean-up of process substitution are not modelled. A descriptor number is the lowest free one, but nothing proved depends on it. Whatever the shell holds when a command begins, left-over pipe ends included, counts as inherited.
- Command::execute: exit, environment built-ins, source and subshells touch no descriptor of the pipeline.
- LineEditor.Editor.ReadLine: tab completion, the non-terminal branch and an escape sequence cut off by the end of the input are left out; the saved line is kept as a string, since the source only copies it whole.
- LineEditor.Editor.Dispatch: the tab key does nothing, since completion is left out.
- LineEditor.Terminal: the row is unbounded; wrapping at the edge of a real terminal is not modelled.
- Glob.MeaningKeptIff: a translation with an unescaped opening parenthesis, opening bracket, alternative or interval is outside the notation that is read, and counts as not keeping the meaning; so does a repetition of nothing, which POSIX leaves undefined. That a backslash before an ordinary character makes it literal follows common implementations; POSIX leaves that undefined too. Bracket expressions in patterns are literal, as the code has them.
- GlobExpand.ResultsArePaths: directory entries are taken to be non-empty and free of slashes, and in GlobExpand.WordsAre also listed once; a relative text does not begin with an empty component, since it would be absolute.
- GlobExpand.Word: the removal of backslashes by the scanner and the rescanning of the results are left out.
- GlobExpand.ExpandWildcard: words with a wildcard component in which a backslash is not plain are excluded; what such a component finds is not the glob (Glob.MeaningKeptIff).
- PointInPoly.PointInPoly: real numbers, no rounding; the two mirrored branches of the loop are one. The caller stores the end mark -1 within the 100 places and at least one vertex before it.
- FormDecoding.UnescapeUrl: a percent sign less than two characters before the end makes the source read beyond the string; such strings are excluded. `char` is taken to be signed.
- FormDecoding.DecodeQuery: parts of more than 127 characters, and more than 10000 pairs, overrun the arrays of query.c and are excluded.
- SanitizePath.Strip: `strcpy` on overlapping strings is taken as the shift to the left it is meant to be.
- HTTP sockets, request parsing, CGI forking, directory listings, statistics, pointincircle, the rest of the CGI programs, lab2 and the system call demonstrations.
