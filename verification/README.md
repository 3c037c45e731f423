# Verified models of sugarnspice

The repository is a collection of small C programs. This project models those
whose correctness is hard to see and proves what they are for:

* a futex lock, the counting semaphore built on it, its mutex-and-condition
  twin, and the two test programs that use them (`Xlock`, `XlockClient`,
  `Semaphore`, `Xsem`, `Psem`, `SemClient`, with `Counting` as their helper);
* the multi-threaded initramfs writer: the record format with a decoder, the
  record writers on a rewindable file, the threads as a machine, and the thread
  bodies as loops (`CpioFormat`, `CpioWriter`, `CpioParallel`, `CpioThreads`);
* algorithms over arrays: balanced brackets in one shared buffer (`Brackets`),
  schoolbook multiplication (`Bignum`), two substring searches (`Strstr`), a
  sorted-array map (`SparseArray`) and allocation accounting (`MallocStats`).

## How the concurrent parts are modelled

A process or thread is a program counter in a sequence of any length. One step
is one read, one write, one compare-and-swap, one futex call or one condition
variable call; `Enabled` says when a process can take it and `Apply` what it
does. A run is any sequence of states that are linked by steps of any process,
so a statement about all runs is a statement about all schedules. That a call does
come to its end is stated as: every run, at whatever point, can go on to its end. `FUTEX_WAIT`
sleeps only on the expected value, `FUTEX_WAKE` wakes an arbitrary set of
sleepers that is not empty when there is one (the code passes -1 as the number
to wake), and every sleeper may wake up for no reason. The loops of `xlock.c`,
`xsem.c` and `psem.c` are the cycles of these machines: as methods with a body
they would exclude the other processes. In `CpioParallel` a record handler is a
single step, since the inode counter is all that it shares; a dump is split
into pieces of any size, kept apart from other dumps by the spin lock alone.

Everything else has the form of its source: classes with the fields of the C
structures, loops with invariants, and the shared buffer as an array.

Where the code and what is written about it differ, the model follows the code:

* `gen_init_cpio.c` announces a trailer "if all went well", but the result of a
  worker never reaches main (it joins into a pointer that it then ignores), so
  the trailer follows whatever lines were accepted.
* `test_large_mult.c` speaks of 10!, its loop goes up to 100.
* `my_strstr_hash` leaves out the last alignment and never finds the empty
  pattern at 0; `AgreesWithStrstr` and `EmptyPatternDiffers` say exactly when it
  agrees with `strstr`.
* `my_strstr` also leaves out the last alignment, and for some patterns it misses
  earlier occurrences; `CompleteExactly` says for which.

## Model

| member | source | states |
|---|---|---|
| `Xlock.InvStep` | xlock.c:149-192 | Every step keeps: the word is 0 or 1 and equals the number of holders, and while it is 0 a sleeper implies a process about to wake or to retry the CAS. |
| `Xlock.UnlockSucceeds` | xlock.c:155-192 | A holder finds the word at 1, so its unlocking CAS succeeds first try. |
| `Xlock.MutualExclusion` | xlock.c:164-192 | The word is 1 exactly when a process is between its two CASes, and no two are. |
| `Xlock.LockSafety` | xlock.c:149-192 | All of the above in every state of every run; a locking CAS on a free lock succeeds as well. |
| `Xlock.RunGetsOut` | xlock.c:149-192 | Every run can go on, with nobody newly coming, until all processes have got the lock and left it again. |
| `XlockClient.InvStep` | test_xlock.c:33-85 | Under the lock the number in the file is the start plus all finished rounds plus the one just written; the file is empty only midway in a holder's increment. |
| `XlockClient.NoLostUpdate` | test_xlock.c:68-107 | When all processes have finished, the number has grown by nr_forks times MAX_ITER, for every interleaving of the single file operations. |
| `XlockClient.Progress` | test_xlock.c:68-85 | A process that has not finished and does not sleep on the lock has a step of its own to take. |
| `XlockClient.NoStuckState` | test_xlock.c:68-85 | If every process has finished or sleeps on the lock, all have finished. |
| `XlockClient.RunFinishes` | test_xlock.c:68-107 | Every run, at whatever point, can go on until all processes have finished; the number has then grown by nr_forks times MAX_ITER. |
| `Xsem.InvStep` | xsem.c:82-107 | Every step keeps the lock invariant, count == initial + ups - downs >= 0, what the holder knows of the count, and the bound on the count while somebody sleeps. |
| `Xsem.NoLostWakeup` | xsem.c:82-107 | In every reachable state with a sleeper on the count, count <= ups that still have to issue their wake + downs on their way to the count. |
| `Xsem.NoStuckState` | xsem.c:85-97 | When all are idle or asleep, the lock word is 0, nobody sleeps on the lock, and a sleeper on the count implies that it is 0. |
| `Xsem.Progress` | xsem.c:82-107 | A process that is neither idle nor asleep has a step of its own to take. |
| `Xsem.RunSettles` | xsem.c:82-107 | Every run, at whatever point, can go on without a new call until every call has returned, but for downs that sleep while the count is 0: a down takes a unit that is there. |
| `Xsem.Conservation` | xsem.c:87-103 | count == initial + ups - downs and count >= 0 in every state of every run. |
| `Xsem.Refines` | xsem.c:82-107 | Each step is one step of the atomic semaphore or invisible. |
| `Xsem.RunRefines` | xsem.c:82-107 | A whole run, seen through the abstraction, is a run of the atomic semaphore with pauses. |
| `Psem.InvStep` | psem.c:29-52 | Every step keeps: the mutex is locked exactly while one process is inside, count >= 0, and the bound on the count while somebody waits. |
| `Psem.NoLostWakeup` | psem.c:29-52 | With a waiter, count <= ups that still have to broadcast + downs on their way to the count. |
| `Psem.NoStuckState` | psem.c:29-52 | When nobody can move, the mutex is free, all are idle or waiting, and a waiter implies count == 0. |
| `Psem.RunSettles` | psem.c:29-52 | Every run, at whatever point, can go on without a new call until every call has returned, but for downs that wait while the count is 0. |
| `Psem.Refines` | psem.c:29-52 | Each step is one step of the same atomic semaphore or invisible. |
| `Psem.RunRefines` | psem.c:29-52 | A whole run refines a run of the atomic semaphore. |
| `SemClient.InvStep` | test_sem.c:36-56 | Over the atomic semaphore, count plus the clients that hold a unit is the number of units; with one unit check_count counts the clients past their increment. |
| `SemClient.XsemStepIsAtomic` | test_sem.c:20-26 | A step of a client over xsem is a step of the same client over the atomic semaphore. |
| `SemClient.PsemStepIsAtomic` | test_sem.c:20-26 | The same over psem, which is why the macro may swap them. |
| `SemClient.XsemClientSafe` | test_sem.c:36-56 | Over xsem, at most sem_count clients are between SEM_DOWN and SEM_UP, and with sem_count 1 the final check_count is nr_threads. |
| `SemClient.PsemClientSafe` | test_sem.c:36-56 | The same over psem. |
| `SemClient.XsemRunExits` | test_sem.c:36-56 | Over xsem, with at least one unit, every run can go on until all clients have exited; with sem_count 1 check_count is then nr_threads. |
| `SemClient.PsemRunExits` | test_sem.c:36-56 | The same over psem. |
| `CpioFormat.HexRoundTrip` | gen_init_cpio.c:178-193 | The decoder reads back what %08X prints. |
| `CpioFormat.HeaderRoundTrip` | gen_init_cpio.c:210-225 | The thirteen fields of a header are read back in their order behind the magic. |
| `CpioFormat.HeaderColumns` | gen_init_cpio.c:210-225 | Which field stands in which eight columns of the header, behind the magic 070701. |
| `CpioFormat.RecordRoundTrip` | gen_init_cpio.c:203-232 | A record decodes to its entry from any position, and leaves the decoder at the alignment of its data. |
| `CpioFormat.TrailerIsEnd` | gen_init_cpio.c:171-201 | The trailer is 512 bytes: one record named TRAILER!!! with one link, no inode and no data, and null bytes behind it. |
| `CpioFormat.TrailerDecodes` | gen_init_cpio.c:171-201 | At any position the decoder ends an archive there. |
| `CpioFormat.RoundTrip` | gen_init_cpio.c:171-201 | For all lists of entries: printed records, with the trailer or without it, decode under the strict grammar with checked padding to exactly those entries in that order. |
| `CpioWriter.InodeCounter.GetIno` | gen_init_cpio.c:33-35 | Returns the counter and advances it modulo 2^32. |
| `CpioWriter.Stream.PushString` | gen_init_cpio.c:122-131 | Appends the name and its null byte in front of the stream position and accounts for both. |
| `CpioWriter.Stream.PushPad` | gen_init_cpio.c:133-141 | Appends the null bytes that bring the offset to a multiple of 4. |
| `CpioWriter.Stream.PushRest` | gen_init_cpio.c:143-161 | Appends name and padding as a record that starts aligned needs it. |
| `CpioWriter.Stream.PushHdr` | gen_init_cpio.c:163-169 | Appends the header and counts 110 bytes. |
| `CpioWriter.Stream.CpioTrailer` | gen_init_cpio.c:171-201 | From offset 0 appends exactly the trailer, 512 bytes that decode to the end record and null bytes. |
| `CpioWriter.TypedBits` | gen_init_cpio.c:210-214 | The mode of a member has the bits of its file type, and all other bits as given. |
| `CpioWriter.EntriesDescribe` | gen_init_cpio.c:340-485 | The entries of each kind of line, field by field and with the literal type bits: inode, owner, links, times, device numbers, name and data. |
| `CpioWriter.CpioMkslink` | gen_init_cpio.c:203-232 | From an aligned offset adds a record that decodes to one link with the given fields, target and null byte as data, and ends aligned. |
| `CpioWriter.CpioMkgeneric` | gen_init_cpio.c:252-278 | Adds a record that decodes to one directory, pipe or socket with the given fields and two links, and ends aligned. |
| `CpioWriter.CpioMknod` | gen_init_cpio.c:340-372 | Adds a record that decodes to one device, block only for 'b', with maj as rmajor and min as rminor, and ends aligned. |
| `CpioWriter.PushLinks` | gen_init_cpio.c:438-478 | Walks the packed names in order despite stripped slashes and adds one record for each, the data with the last. |
| `CpioWriter.CpioMkfile` | gen_init_cpio.c:395-485 | An unreadable file adds nothing and takes no inode; else one inode for all links. |
| `CpioWriter.PackNames` | gen_init_cpio.c:529-555 | The buffer of strlen(line) bytes holds name and links one behind the other and is never exceeded. |
| `CpioWriter.NamesFit` | gen_init_cpio.c:523-555 | The packed names of a line are no longer than its text, also where sscanf needs no blank between tokens: behind a number, and behind a word that it cuts at PATH_MAX. |
| `CpioWriter.HardLinks` | gen_init_cpio.c:438-478 | All links of a line share inode and link count, keep their order, and only the last carries the data. |
| `CpioWriter.CpioMkfileLine` | gen_init_cpio.c:511-561 | What a file line adds decodes to one member for its name and each link, with the given fields; a file that cannot be read adds none. |
| `CpioWriter.Handle` | gen_init_cpio.c:605-628 | What the handler of a line adds decodes to exactly the members that the line asks for, from an aligned offset to an aligned offset; it fails exactly for a file that cannot be read, and then adds nothing and takes no inode. |
| `CpioWriter.WriteToStdout` | gen_init_cpio.c:56-94 | Appends to stdout what is in front of the stream position and nothing behind it. |
| `CpioWriter.TryDumpToStdout` | gen_init_cpio.c:96-120 | With the lock, stdout gains what was written and the stream is empty at offset 0, its stale bytes untouched; without, nothing changes. |
| `CpioParallel.MineMeaning` | gen_init_cpio.c:652-690 | The lines of a worker are exactly the accepted ones dealt to it by line number, in front of its first line without a type. |
| `CpioParallel.TurnLeads` | gen_init_cpio.c:652-707 | A worker goes on to the attempt to dump exactly after a line of its own that has a type, to its end behind the last line or at one of its own without a type, else to the next line. |
| `CpioParallel.InvStep` | gen_init_cpio.c:638-718 | Every step keeps: stdout is the logged records plus the emitted part of the dump in progress, each file's front is its pending records, and logged, pending and coming lines of a worker are its lines in order. |
| `CpioParallel.ArchiveIsComplete` | gen_init_cpio.c:638-870 | For every schedule and pattern of trylock successes, the final stdout is the logged records, which decode to the entries of the logged lines, and behind them exactly the end record with its null bytes; each worker's logged lines are its lines in order. |
| `CpioParallel.ItemsDescribed` | gen_init_cpio.c:605-704 | The members that stand in the archive for a logged line are, field by field, those that the line asks for, under the inode 721 + ticket modulo 2^32. |
| `CpioParallel.NotStuck` | gen_init_cpio.c:96-120 | Until the program has exited some thread has a step that gets it on, and never only a failing trylock. |
| `CpioParallel.StepLowers` | gen_init_cpio.c:638-870 | Every step of any thread, failed trylocks included, leaves less to do, unless it emits nothing. |
| `CpioParallel.RunExits` | gen_init_cpio.c:638-870 | Every run, at whatever point, goes on to one in which the program has exited. |
| `CpioParallel.EachLineOnce` | gen_init_cpio.c:638-870 | A line is in the archive if and only if it had to be serialised, and never twice. |
| `CpioParallel.InodesDiffer` | gen_init_cpio.c:24-35 | Different lines have different inodes modulo 2^32 while no more than 2^32 were handed out. |
| `CpioThreads.SerialiseLine` | gen_init_cpio.c:695-704 | A handler call does to the stream what the step of the machine does to a worker. |
| `CpioThreads.WorkerThreadRoutine` | gen_init_cpio.c:638-718 | What one worker dumps and leaves in its file, for any trylock failures, are the records of its lines in order, with consecutive inodes; dumped are exactly those after which some trylock has succeeded. |
| `CpioThreads.FinishArchive` | gen_init_cpio.c:840-870 | stdout gains every file's leftover in the order of the joins, then the end record with its null bytes. |
| `Brackets.GenBrackets` | test_brackets.c:4-20 | The printed lines are the prefix in the shared buffer followed by the list of completions, and the prefix is intact afterwards. |
| `Brackets.Run` | test_brackets.c:33-36 | main prints the completions of the empty prefix. |
| `Brackets.GenIsBalanced` | test_brackets.c:4-20 | A string is printed if and only if it is a balanced string of n pairs, balance being stated by counts over all prefixes. |
| `Brackets.GenIncreases` | test_brackets.c:7-14 | The lines are strictly increasing lexicographically. |
| `Brackets.NonePrintedTwice` | test_brackets.c:7-14 | No line is printed twice. |
| `Brackets.GenSize` | test_brackets.c:7-14 | The number of completions is the ballot number C(l+r, l) - C(l+r, l-1). |
| `Brackets.CatalanMany` | test_brackets.c:7-14 | (n + 1) times the number of lines is C(2n, n). |
| `Bignum.Bignum.Alloc` | test_large_mult.c:20-26 | A new number has the given cells, all 0. |
| `Bignum.CellFits` | test_large_mult.c:49-60 | In every row each cell is at most 99 before it is reduced, and each carry at most 9. |
| `Bignum.MultRow` | test_large_mult.c:49-60 | A row adds digit times number times its power of ten; each cell is what the row stores there, at most 99 on the way, reduced to a digit; the top cell was still 0 and gets the last carry. |
| `Bignum.Mult` | test_large_mult.c:42-62 | The result's digits are 0..9 and stand for the product. |
| `Bignum.DigitAt` | test_large_mult.c:42-62 | Cell k of an array of digits is decimal digit k of its value, so the digits are determined. |
| `Bignum.Set` | test_large_mult.c:64-77 | Succeeds exactly when the number fits the cells, which then stand for it, also when it is negative; else they hold its low digits. |
| `Bignum.SumIsDigitSum` | test_large_mult.c:110-114 | The sum of the cells is the digit sum of the number. |
| `Bignum.FactorialDigits` | test_large_mult.c:79-119 | main ends with the digits of the factorial of its limit and their sum. |
| `Strstr.HashNew` | my_strstr.c:15-27 | The polynomial hash modulo 2^64; one character is read even for length 0. |
| `Strstr.HashAddSub` | my_strstr.c:29-43 | The rolled hash modulo 2^64. |
| `Strstr.RollWindow` | my_strstr.c:29-43 | Rolling the hash of a window gives the hash of the next window. |
| `Strstr.StrstrHash` | my_strstr.c:44-63 | For a non-empty pattern, the first occurrence among alignments 0 .. n-m-1 or -1: no hash comparison loses a match. For the empty one, the first index where the hash rolled along the string is 0. |
| `Strstr.AgreesWithStrstr` | my_strstr.c:54-62 | The result is that of strstr if and only if the pattern is not at the very end or also occurs earlier. |
| `Strstr.MissesLastAlignment` | my_strstr.c:54-62 | An input on which it is not: "b" in "ab". |
| `Strstr.EmptyPatternDiffers` | my_strstr.c:50-56 | For the empty pattern it is never that of strstr. |
| `Strstr.Table` | my_strstr.c:77-87 | Every cell of the table is the length of a proper border of its prefix. |
| `Strstr.LongestExactly` | my_strstr.c:77-87 | All cells are longest borders if and only if, wherever the pattern does not go on as the cell before says, the prefix has no border at all. |
| `Strstr.Overlaps` | my_strstr.c:77-87 | The loop computes that table. |
| `Strstr.ScanIsSound` | my_strstr.c:90-114 | A result other than -1 is an occurrence, and not one that ends the string. |
| `Strstr.CompleteExactly` | my_strstr.c:77-114 | The search finds the first occurrence among alignments 0 .. n-m-1 in every string if and only if the pattern's first two characters are equal and no fallback of the table passes over a border that goes on differently. |
| `Strstr.MissedOccurrence` | my_strstr.c:77-114 | For every other pattern, a string of the pattern's own characters in which the first occurrence is missed. |
| `Strstr.PassedOver` | my_strstr.c:90-114 | For every pattern: an occurrence that does not end the string is found, or an earlier one is, or it starts inside a partial match that fails. |
| `Strstr.FoundIfFresh` | my_strstr.c:90-114 | An occurrence with no first character of the pattern in front of it is found. |
| `Strstr.Search` | my_strstr.c:64-115 | The loop computes the scan in at most 2n iterations although the index is stepped back; its result is never wrong, it is the first occurrence for the patterns of `CompleteExactly`, and for all patterns it passes over an occurrence only inside a failing partial match. |
| `Strstr.MissesAnOccurrence` | my_strstr.c:97-110 | A concrete input on which the search misses an occurrence: "ab" in "aabb". |
| `SparseArray.BinarySearch` | test_sparse_array.c:20-53 | The position of the index, or the complement of the only position that keeps the order. |
| `SparseArray.MapInserted` | test_sparse_array.c:106-112 | Inserting at that position in both arrays keeps them sorted and aligned and adds the pair to the map. |
| `SparseArray.ShiftUp` | test_sparse_array.c:107-112 | The move plus the store insert one element. |
| `SparseArray.SparseArray.constructor` | test_sparse_array.c:55-70 | A new array stands for the empty map and has room for 64 objects. |
| `SparseArray.SparseArray.Grow` | test_sparse_array.c:90-105 | Whichever realloc fails, both arrays hold what they held and the size is the same; on success it has doubled. |
| `SparseArray.SparseArray.Set` | test_sparse_array.c:79-127 | The map gains the pair, or on a failed realloc is what it was; fails exactly when a new index needs a growth that fails; the size doubles exactly when it must; the last branch is unreachable. |
| `SparseArray.SparseArray.Get` | test_sparse_array.c:129-140 | The object the map holds for the index, or -1 and the caller's variable untouched. |
| `SparseArray.RunSets` | test_sparse_array.c:152-183 | After any run of sets with any realloc failures the array stands for the map of those that took effect. |
| `SparseArray.LastSetWins` | test_sparse_array.c:171-183 | That map holds the object of the last effective set of an index. |
| `SparseArray.NeverSetKeeps` | test_sparse_array.c:171-183 | An index that was not set is as it was. |
| `MallocStats.AllocKeepsBalance` | malloc_stats.c:24-49 | Recording a new pointer keeps: allocs - frees of each tag is the number of tracked pointers with that tag, modulo 2^64, and each seen tag is listed once. |
| `MallocStats.AllocBalanceExact` | malloc_stats.c:24-49 | It is kept if and only if the pointer was not tracked already. |
| `MallocStats.TwoFailuresUnbalance` | malloc_stats.c:84-88 | An input on which it is not: malloc fails twice, and NULL is recorded twice. |
| `MallocStats.FreeKeepsBalance` | malloc_stats.c:69-82 | Freeing any pointer, tracked or not, keeps it. |
| `MallocStats.NamesAreFirstSeen` | malloc_stats.c:29-40 | The list of tags is the allocated tags in first-seen order. |
| `MallocStats.TrackedAreInUse` | malloc_stats.c:24-95 | The tracked pointers are those allocated and not freed since, each with the size and tag of its last allocation. |
| `MallocStats.CountersCount` | malloc_stats.c:24-95 | After any sequence of operations, nr_allocs of a tag is the number of its allocations and nr_frees that of the frees of pointers in use under it, modulo 2^64. |
| `MallocStats.RunIsBalanced` | malloc_stats.c:84-95 | Both hold after every sequence of do_alloc and do_free with new pointers from malloc. |
| `MallocStats.AllocStats.constructor` | malloc_stats.c:97-101 | All tables start empty, which is balanced. |
| `MallocStats.AllocStats.DebugAlloc` | malloc_stats.c:24-49 | Updates the tables as the specification that `CountersCount` and `AllocKeepsBalance` are about. |
| `MallocStats.AllocStats.DebugFree` | malloc_stats.c:69-82 | Updates the tables as the specification that `CountersCount` and `FreeKeepsBalance` are about. |
| `MallocStats.AllocStats.Execute` | malloc_stats.c:84-95 | Any sequence of calls leaves the tables balanced. |
| `MallocStats.AllocStats.PrintStats` | malloc_stats.c:51-67 | After any sequence of operations, one row for each tag in first-seen order with its number of allocations, of frees, and their difference; in balanced tables that counts the tracked pointers. |

## Left out

- Xsem.Conservation: the count is an unbounded integer; a count beyond the range of a C int is not modelled, and the initial count is taken to be at least 0.
- Xlock.LockSafety: unlock is called by the holder only, as all callers in the repository do.
- XlockClient.NoLostUpdate: the file is absent or holds a number at the start; a failing open, read or write is not modelled.
- CpioWriter.CpioMkfileLine: file sizes are below 2^32, and what is read is as long as the file.
- CpioParallel.ArchiveIsComplete: lines come classified and tokenised, names differ from the trailer's name, and writes, malloc and thread creation succeed.
- CpioFormat.RoundTrip: one archive without compression; the limit on which file types may have data is not checked.
- Strstr.Search: the pattern is not empty, since the code writes its first table cell in any case.
- Strstr.StrstrHash: the pattern is no longer than the buffer of the string; for a longer one the code reads behind that buffer.
- CpioThreads.WorkerThreadRoutine: the loop of one worker alone; what other threads do in between is in CpioParallel.
- SparseArray.SparseArray.Set: the doubling of the size is not limited to the range of int.
- MallocStats.RunIsBalanced: the allocations of the bookkeeping itself succeed.
- Creating, opening and destroying locks and semaphores, which is file and mmap handling.
- strtok, sscanf, getopt, temporary file names and the expansion of variables in file locations; a known type without arguments, on which the program passes a null pointer to sscanf.
- That the archive is a multiple of 512 bytes: the trailer counts from an offset that was reset to 0.
- bignum_print, which only prints, and debug output everywhere.
- The bit array shift, the binary search of test_bsearch.c and the hash table of test_myhash.c, which do not compute what they are meant to; the bit array's set and get would be easy.
- The square root by floats, the unfinished barrier, and the producer program, whose queue has no full check.
- The programs around scheduling, signals, forking, sockets, pipes and timers, which are system calls in a row.
