# Verified models of the LStore core

These Dafny files model the hardest state machines and algorithms of LStore's client library and
prove properties of them over every input, every interleaving or every run. Code that updates
state in place is modelled by classes, or by methods with loops, each proved equal to a function of the old state;
the properties are then proved about those functions and kept as invariants.

| files | what is modelled | source |
|---|---|---|
| `AmpStore`, `AmpScan`, `AmpOrder`, `AmpTails` | the page store of the AMP cache, its two eviction scans, and the flushes of the forced one | cache_amp.c |
| `AmpProtocol`, `AmpEffects`, `AmpInvariant`, `AmpRuns`, `AmpCache` | the cache as a transition system, what each of its operations brings about, its invariant, its runs, and the imperative routines | cache_amp.c |
| `AmpSpins`, `AmpStranding` | when forced eviction makes a request go round for ever, and when it leaves a thread with nobody to wake it | cache_amp.c |
| `Streams`, `Prefetch` | the prefetch stream table of a segment and the prefetch window | cache_amp.c |
| `FileHandles`, `Readahead`, `WriteTable`, `CopyPool` | shared file handles, readahead, checksum coalescing, the copy slot pool | lio_core_io.c |
| `DirListing`, `TapeCodec` | resumable directory listing, the tape attribute codec | lio_fuse_core.c |
| `Fsck`, `TaskSlots` | the consistency check pipeline, and the slot bookkeeping it shares with the copy pool | lio_core_os.c |
| `ErasurePlan`, `ErasureFiles`, `ErasureCode`, `ErasureBlocks`, `ErasureDecode`, `ErasureRoundTrip` | the packet search, blocked coding and decoding, RAID4, and a file's whole life | erasure_tools.c, raid4.c |
| `Totals`, `Division`, `Sequences`, `Options` | sums over maps, facts about products and remainders, sequences without repetitions, optional values | |

`dafny verify dfyconfig.toml` checks everything.

## Main results

- **Cache, over every run.** Through any interleaving of page requests, waits, forced evictions that
  drop the lock to flush, releases and destructions, `bytes_used` is the bytes of all live pages plus
  the bytes freed by threads that have yet to reach cache_amp.c:1004, and neither it nor the memory
  really held exceeds `max_bytes` (`AmpRuns.EveryRun`).
- **Cache, each operation.** A release takes exactly the flagged pages out of memory, stack and index and their
  sizes off `bytes_used`; a request that ends has made a new page on top of the stack; an attempt gets
  exactly what leaves the stack, at once or after its flushes (`AmpEffects.ReleaseEffect`,
  `AmpEffects.CreateEffect`, `AmpEffects.AttemptEffect`).
- **Eviction.** The forced scan terminates although it puts pages back on top; it loses no write; it
  gives up only when nothing but pages in release is left, save perhaps a top page just aged; and
  both scans work strictly from the least recently used end and take no page more than they need
  (`AmpScan.ForcedEviction`, `AmpScan.NoWriteLost`, `AmpOrder.EvictsFromTheBottom`,
  `AmpOrder.EvictsNoMoreThanNeeded`).
- **Handles.** Over every interleaving of opens, writes and closes no descriptor is left with a freed
  handle exactly when every teardown is made by the only closer of its handle
  (`FileHandles.LiveExactlyWhenSafe`), and then a handle torn down after k > 0 writes has all k stored
  (`FileHandles.EveryWriteIsStored`).
- **Listings.** Whatever the buffer sizes, the pieces of a resumed directory listing are the whole
  listing once, in order (`DirListing.ResumedIsWhole`, `DirListing.ReadAll`).
- **Codecs.** The tape attribute setter reads back what the getter wrote for all byte strings
  (`TapeCodec.RoundTrip`); writes in any order coalesce to the Adler-32 of the whole content
  (`WriteTable.AnyOrder`).
- **Erasure coding.** Coding a block at a time is coding whole strips; decoding restores the file exactly when it
  reaches far enough; and a plan, an encoding, a loss and a decoding compose to the identity
  (`ErasureBlocks.EncodeFile`, `ErasureDecode.DecodeFile`, `ErasureRoundTrip.EncodeLoseDecode`).
- **Pipelines.** For every completion order the consistency check returns each broken object once and
  the copy pool reaps each task once (`Fsck.FsckAll`, `CopyPool.CopyPath`).

## Where the code does not do what one would expect

Each of these is kept as the code has it; the named member gives the exact condition or the input.

- `_amp_free_mem` returns an `int` (cache_amp.c:780), so a shortage of 2^31 bytes or more can look like
  room. The bound on memory holds on the first page for every `max_bytes` exactly when a page is at
  most 2^31 - 1 bytes (`AmpRuns.PageSizeLimit`); `AmpRuns.EveryRun` assumes such pages.
- `_amp_attempt_free_mem` reports success with nothing freed exactly when there is nothing to take and the
  cache is empty or more than ten times the shortage is free (cache_amp.c:957-958;
  `AmpSpins.NothingFound`, `AmpSpins.ClaimWithoutSpace`). A waiting request then comes back to the very
  state it left, exactly when every page on the stack is in release, that guard holds, and it has nobody
  to signal on the way (`AmpSpins.ComesBackExactlyWhen`), and so for any number of rounds
  (`AmpSpins.SpinsForever`). A lone request on an empty cache does so exactly when its page is
  larger than `max_bytes` (`AmpSpins.LoneRequest`).
- A thread can park in forced eviction with no page in release and no flush that could signal it. The steps
  after which that is so are given exactly, on the state before them (`AmpStranding.StrandsExactlyWhen`,
  `AmpStranding.StrandedExactlyWhen`). An attempt strands its thread when there is no page in release and no
  flush, every page on the stack is clean and idle, save a top one that is the only one never used and
  is spared, and all of them together are not enough (`AmpStranding.FallsShort`); at most that one page is
  left then (`AmpStranding.StrandedWithOnePage`). The end of the last flush does, when the pages it
  released have left before. So does destroying the last pages in release, since `_amp_pages_destroy` signals
  nobody. A second request for a page on a cache that one unused page fills is such a run, after which
  every thread waits (`AmpStranding.SecondRequestStrands`). In other states a thread that is forcing or
  has been signalled may still send the signal of cache_amp.c:1053 when it returns.
- `_amp_force_free_mem` never returns less than it was asked for, so no thread is ever put on the
  waiting stack of lines 1086-1098 (the last two conjuncts of `AmpRuns.EveryRun`).
- The flush ranges of a forced eviction use the page size of the last page looked at, of whatever segment
  (cache_amp.c:972-977). The first byte of every page to flush is always covered. The last bytes of all of
  a segment's pages are covered exactly when its pages are no larger than that, or lie within ten pages of
  that size and end within eleven (`AmpTails.CoveredExactlyWhen`). They can be relied on, whatever the cache
  holds, exactly when all segments have pages of one size (`AmpTails.OnePageSize`, with a store on which they
  are missed in `AmpTails.MixedIsMissed`).
- A prefetch that starts at a page-aligned end of file fetches nothing, and an empty file is fetched from
  (`Prefetch.FetchLetThrough`, `Prefetch.EmptyFileFetched`).
- The return at cache_amp.c:579, for a segment that is being removed, leaves the bytes of a request on the
  counter, exactly when the request was not refused before and had something to fetch
  (`Prefetch.StepLeaks`, `Prefetch.EveryRun`, and an input in `Prefetch.OneRequestLeaks`). From then on the
  cache prefetches nothing (`Prefetch.LeakStopsPrefetching`).
- Two descriptors can both be closing one handle, and the slower is left with freed memory
  (`FileHandles.TwoClosersGoWrong`).
- `lfs_readdir` at an offset beyond the cached entries delivers the next uncached entries under the wrong
  offsets. With all names different it answers correctly exactly when the offset is not beyond the
  cached entries, or there is no room, or nothing more to list (`DirListing.OpenDir.ReadDir`).
- `bread` is documented to pad with zero bytes; `BLANK_CHAR` is the character '0' (erasure_tools.c:93-104). The
  model pads with 0x30.
- `et_decode` writes the last strip cut off at `fsize`, and earlier ones uncut. When the padding exceeds the last
  block the file can come out longer, or the length of the write be negative (`ErasureDecode.DecodeFile`,
  `ErasureDecode.FitsWhateverIsLost`, and an input in `ErasureRoundTrip.TooMuchPadding`).
- `et_generate_plan` goes on with an unset size when every packet size pads the file more than
  tenfold (erasure_tools.c:900-934); the model returns no plan there, and says exactly when
  (`ErasurePlan.GeneratePlan`, and an input in `ErasureRoundTrip.NoPlanForOneByte`).
- `lfs_set_tape_attr` does not compare the sizes in the attribute with its length. The values lie in the
  attribute exactly when the sizes add up to no more than what follows the header in it; with one byte more the
  last value ends with the terminator of the copy, and with more than that they lie outside the copy
  (`TapeCodec.ValuesInside`, and inputs in `TapeCodec.SizesTooLarge`).

## Model

| member | source | states |
|---|---|---|
| `AmpRuns.EveryRun` | cache_amp.c:328-1142 | in every state any run reaches from an empty cache, bytes_used is the live pages' bytes plus the uncredited ones, both stay within max_bytes, no index entry is stale, no parked thread is off the list to signal, and none waits for space |
| `AmpRuns.PageSizeLimit` | cache_amp.c:780-830 | the first page is honoured under every max_bytes if and only if its size is a 32-bit int |
| `AmpRuns.RoomMade` | cache_amp.c:1126-1131 | a count left that is not positive means the page fits within max_bytes |
| `AmpRuns.ApplyBounded` | cache_amp.c:1019-1142 | every operation keeps bytes_used within max_bytes |
| `AmpRuns.DirtyPagesSurvive` | cache_amp.c:780-1012 | no operation other than a page's own release or destruction takes a dirty page out of memory |
| `AmpRuns.SignalReachesAll` | cache_amp.c:361-374 | signalling leaves no parked thread unsignalled |
| `AmpSpins.NothingFound` | cache_amp.c:866-962 | a forced scan finds nothing if and only if every page on the stack is in release, but possibly a top one that was never used |
| `AmpSpins.ClaimWithoutSpace` | cache_amp.c:954-962 | a thread is told it succeeded with nothing taken if and only if there was nothing to take and the cache is empty or over ten times the shortage is free; without that it parks |
| `AmpSpins.ComesBackExactlyWhen` | cache_amp.c:1080-1101 | from any reachable state a waiting request asks, attempts, returns and is in the very state it left if and only if it lacks space, all pages are in release, the guard of line 957 holds, and it signals nobody |
| `AmpSpins.SpinsForever` | cache_amp.c:1080-1101 | such a thread left to itself goes round any number of times with nothing changed |
| `AmpSpins.LoneRequest` | cache_amp.c:1113-1135 | a lone request on an empty cache reaches that state if and only if its page is larger than max_bytes (for 32-bit sizes) |
| `AmpStranding.StrandsExactlyWhen` | cache_amp.c:837-1058 | the exact steps, told from the state before them, after which a thread waits for a signal with no page in release and no flush to send one |
| `AmpStranding.FallsShort` | cache_amp.c:866-951 | with no page in release, a scan unlinks nothing and falls short iff every stacked page but a spared one is clean and idle and together they are not enough, and then it frees exactly those |
| `AmpStranding.AttemptFallsShort` | cache_amp.c:866-1031 | what a forcing thread will be told is fixed by the store before its attempt |
| `AmpStranding.StrandedExactlyWhen` | cache_amp.c:605-1058 | over every run, a waiting thread always has a page in release or a flush to wait for if and only if none of those steps is taken |
| `AmpStranding.StrandedWithOnePage` | cache_amp.c:866-951 | an attempt that strands its thread leaves at most one page on the stack, one that it has just aged |
| `AmpStranding.SecondRequestStrands` | cache_amp.c:1113-1135 | a run of five operations from an empty cache that strands a thread, with no other thread left to signal it |
| `AmpStranding.LeavingAfter` | cache_amp.c:866-951 | a scan takes no page out of release, and there is one afterwards iff there was one or it counted pending bytes |
| `AmpInvariant.ApplyKeeps` | cache_amp.c:328-1142 | every operation of the cache, by any thread, keeps the invariant: exact accounting, sound stack and index, sound thread states, nobody forgotten |
| `AmpInvariant.NewPageKeeps` | cache_amp.c:328-355 | a new page keeps the invariant and adds its own size to the live bytes |
| `AmpInvariant.FreeMemKeeps` | cache_amp.c:780-830 | opportunistic freeing keeps the invariant |
| `AmpInvariant.AttemptTurnKeeps` | cache_amp.c:837-986 | a forced scan keeps the invariant when it drops the lock with its freed bytes still in bytes_used |
| `AmpInvariant.FlushDoneKeeps` | cache_amp.c:993-1011 | the late credit keeps the invariant |
| `AmpInvariant.ForceReturnsKeeps` | cache_amp.c:1028-1057 | parking or returning after an attempt keeps the invariant |
| `AmpInvariant.CreateTurnKeeps` | cache_amp.c:1125-1136 | a blocking request keeps the invariant at each turn of its loop |
| `AmpInvariant.ReleaseOneKeeps` | cache_amp.c:613-637 | releasing a page keeps the invariant, in limbo or not |
| `AmpInvariant.DestroyOneKeeps` | cache_amp.c:665-692 | destroying a page keeps the invariant, idle or in use |
| `AmpInvariant.AccessKeeps` | cache_amp.c:713-732 | touching a page keeps the invariant |
| `AmpInvariant.ProcessWaitersKeeps` | cache_amp.c:361-401 | signalling keeps the invariant |
| `AmpInvariant.ThreadMoves` | cache_amp.c:1019-1142 | a thread may take any sound state that carries the same credit |
| `AmpScan.ForcedEviction` | cache_amp.c:864-951 | freed pages were on the stack, clean and idle; bytes reported are the bytes that left the stack; short of the target only pages in release remain, and perhaps a top page just aged |
| `AmpScan.ScanStepProgress` | cache_amp.c:869-951 | each turn ages a page for good or moves the cursor up: the scan terminates |
| `AmpScan.ScanStepKeeps` | cache_amp.c:869-951 | each turn keeps the byte books, every page's fate and what is left behind the cursor |
| `AmpScan.NoWriteLost` | cache_amp.c:877-977 | a dirty page taken off the stack has a flush pending or its offset lies in the flush issued for its own segment |
| `AmpTails.CoveredExactlyWhen` | cache_amp.c:896-977 | all pages that an eviction takes from a segment are covered to their last byte if and only if the whole file is flushed, or they are no larger than the last page looked at, or they lie within ten of its sizes and end within eleven |
| `AmpTails.SpanOf` | cache_amp.c:896-913 | each span goes exactly from the first page taken of its segment to the last one |
| `AmpTails.FlushIsRange` | cache_amp.c:966-981 | to the byte, what the flush of a segment covers, from the first page taken on |
| `AmpTails.OnePageSize` | cache_amp.c:896-977 | no page is ever cut off, on any store and for any target, if and only if all segments have one page size |
| `AmpTails.MixedIsMissed` | cache_amp.c:896-977 | for any two page sizes, a store on which the eviction cuts a page off |
| `AmpScan.OpportunisticFreeing` | cache_amp.c:798-829 | what left memory is what was counted, only clean idle aged pages left, and no other record changed |
| `AmpOrder.FreesFromTheBottom` | cache_amp.c:797-823 | exactly the evictable pages below some stack position are freed; above it nothing is touched; it stops there for one of three stated reasons |
| `AmpOrder.EvictsFromTheBottom` | cache_amp.c:866-951 | no page above some position is touched; each one from it on left the stack, was in release, or has just had its second chance; and no never used page is taken while a page has not been looked at |
| `AmpOrder.FreesNoMoreThanNeeded` | cache_amp.c:797-823 | without some page that the opportunistic scan freed it would have fallen short |
| `AmpOrder.EvictsNoMoreThanNeeded` | cache_amp.c:869-951 | without some page that the forced scan took it would have fallen short |
| `AmpEffects.ReleaseEffect` | cache_amp.c:605-643 | the listed pages that are flagged are in neither memory, stack nor index afterwards, all others are as they were and in order; bytes_used falls by exactly their sizes; every parked thread is signalled |
| `AmpEffects.DestroyEffect` | cache_amp.c:654-697 | the listed pages that nobody uses leave memory, stack and index with their bytes; the used ones are clean and doomed; no other page is touched |
| `AmpEffects.NewPageEffect` | cache_amp.c:328-355 | a page that was not live is on top of the stack, clean, idle, empty, never used and in no index; nothing else changes |
| `AmpEffects.CreateEffect` | cache_amp.c:1125-1136 | a blocking request that ends has made such a page of its segment, on what making room left; otherwise it waits |
| `AmpEffects.RequestEffect` | cache_amp.c:1113-1142 | so for a non-blocking request, which otherwise leaves what making room left |
| `AmpEffects.RoomEffect` | cache_amp.c:1126-1131 | room is made only when the page does not fit, and it fits afterwards iff no bytes are reported missing |
| `AmpEffects.AccessEffect` | cache_amp.c:713-732 | a use marks a linked page; a second use puts it on top with the others in order; an unlinked page is left alone |
| `AmpEffects.SignalEffect` | cache_amp.c:361-401 | every parked thread is signalled, every other thread is where it was, and the list is empty |
| `AmpEffects.AttemptEffect` | cache_amp.c:837-986 | an attempt gets exactly the bytes that left the stack; those that left memory go off bytes_used at once, or after the flushes that it drops the lock for |
| `AmpEffects.FlushDoneEffect` | cache_amp.c:993-1057 | after the flushes the freed bytes go off bytes_used and the thread gets all that left the stack |
| `AmpEffects.ReturnEffect` | cache_amp.c:1028-1057 | a thread that is short parks at the bottom the first time and on top later, behind or before the others; one that is not returns, and signals iff it came as a first waiter |
| `AmpEffects.AwaitEffect` | cache_amp.c:1080-1084 | a waiting thread asks for exactly what it lacks, and tries again iff it lacks nothing |
| `AmpEffects.ForcedEffect` | cache_amp.c:1084-1100 | a thread back from forcing has what it asked for and goes on waiting |
| `AmpStore.DropAtKeeps` | cache_amp.c:804-811 | freeing a page keeps stack and index sound and takes its size off the live and the stacked bytes |
| `AmpStore.UnlinkAtKeeps` | cache_amp.c:914-924 | limbo keeps the live bytes and takes the size off the stacked ones |
| `AmpStore.AgeAtKeeps` | cache_amp.c:927-935 | moving a page round keeps both |
| `AmpCache.AmpCache.NewPage` | cache_amp.c:328-355 | in-place page creation: the id returned is of a new page on top of the stack, clean, idle and in no index |
| `AmpCache.AmpCache.FreeMem` | cache_amp.c:780-830 | the loop over the stack from the bottom is the recursive scan, with its 32-bit result |
| `AmpCache.AmpCache.FreeMemTurn` | cache_amp.c:798-822 | one turn of that loop, cursor included |
| `AmpCache.AmpCache.ForcedScan` | cache_amp.c:864-951 | the loop that frees, unlinks and re-queues under a moving cursor is the recursive scan |
| `AmpCache.AmpCache.ForcedScanTurn` | cache_amp.c:870-950 | one turn of that loop, cursor and range table included |
| `AmpCache.AmpCache.AddToTable` | cache_amp.c:896-913 | the segment's span after a dirty page |
| `AmpCache.AmpCache.IssueFlushes` | cache_amp.c:966-981 | one flush per segment in the table, with its widened range |
| `AmpCache.AmpCache.MakeRoom` | cache_amp.c:1126-1131 | bytes still missing for a page |
| `AmpCache.AmpCache.RequestNow` | cache_amp.c:1113-1142 | a non-blocking request yields a page if and only if none is missing, and it is newly made |
| `AmpCache.AmpCache.CreateTurn` | cache_amp.c:1125-1136 | a blocking request ends iff no bytes are missing, and then with a newly made page; otherwise it waits |
| `AmpCache.AmpCache.AwaitTurn` | cache_amp.c:1080-1084 | whether to force, and for how much |
| `AmpCache.AmpCache.AttemptTurn` | cache_amp.c:837-986 | the attempt up to where it lets go of the lock, and the flushes it issues |
| `AmpCache.AmpCache.AfterForcedScan` | cache_amp.c:954-1011 | the three outcomes of a scan |
| `AmpCache.AmpCache.FlushDone` | cache_amp.c:993-1011 | the rest of the attempt |
| `AmpCache.AmpCache.ForceReturns` | cache_amp.c:1028-1057 | parking at the bottom first and on top afterwards, or returning |
| `AmpCache.AmpCache.ForcedTurn` | cache_amp.c:1086-1100 | what the waiting loop does with the result |
| `AmpCache.AmpCache.ProcessWaiters` | cache_amp.c:361-401 | popping and signalling every parked thread, then the first queued one that fits |
| `AmpCache.AmpCache.PageRelease` | cache_amp.c:613-637 | a flagged page is gone from memory, stack and index with its bytes |
| `AmpCache.AmpCache.PagesRelease` | cache_amp.c:605-643 | exactly the flagged pages of the list are gone, with their bytes, and waiters are signalled |
| `AmpCache.AmpCache.PageDestroy` | cache_amp.c:665-692 | one page of the destruction |
| `AmpCache.AmpCache.PagesDestroy` | cache_amp.c:654-697 | the unused pages of the list are gone with their bytes and the used ones are doomed |
| `AmpCache.AmpCache.PageAccess` | cache_amp.c:713-732 | a second use moves the page to the top; a flush does nothing |
| `Streams.StreamTable.constructor` | cache_amp.c:1248-1272 | every slot starts empty under its own negative mark |
| `Streams.StreamTable.Get` | cache_amp.c:161-185 | the table after a request is a FIFO of the last max_streams creations; a hit changes nothing |
| `Streams.StreamTable.Recycle` | cache_amp.c:166-183 | reusing the oldest slot in place, removed under its old key and reinserted under the new, keeps index and ring in agreement |
| `Streams.StreamTable.Held` | cache_amp.c:161-164 | an offset is a key of the index if and only if it is among the newest creations |
| `Streams.StreamTable.Nearest` | cache_amp.c:186-213 | the least stream at or after the offset and within its length, or none, and the end of the maximal chain from it |
| `Streams.ChainEnd` | cache_amp.c:197-210 | every link up to the end follows the one before it closely enough, and the end is followed by none |
| `Streams.WindowSlides` | cache_amp.c:166-183 | a creation pushes the oldest out once the table is full |
| `Streams.RingTurns` | cache_amp.c:169-183 | writing the slot at the index and advancing it modulo the size is the FIFO step |
| `Streams.EveryRequestSequence` | cache_amp.c:161-185 | after any sequence of requests no offset is held twice and the last one is held |
| `Prefetch.FetchLetThrough` | cache_amp.c:535-574 | a fetch is page aligned, starts at the request's page, is shorter than the limit plus two pages; its last page begins before end of file iff the file is not empty, and it is empty iff the request starts at a page-aligned end of file |
| `Prefetch.FetchesAllWanted` | cache_amp.c:540-574 | a fetch has every byte wanted of it, as far as the file, the fetch limit and the least prefetch allow, and its last page begins no later than some such byte |
| `Prefetch.LetThroughExactlyWhen` | cache_amp.c:535-559 | a request is let through iff it begins by the end of file and nothing is on the counter |
| `Prefetch.AskEffect` | cache_amp.c:576-596 | the fetch and its bytes are outstanding, nothing more is let through while it has pages, and completion undoes both |
| `Prefetch.EmptyFileFetched` | cache_amp.c:544-568 | an empty file is fetched from |
| `Prefetch.EveryRun` | cache_amp.c:417-495 | over any run at most one outstanding fetch has pages; when all are done the counter is what leaked; and nothing leaks if and only if every request for a segment being removed was refused or had nothing to fetch |
| `Prefetch.StepLeaks` | cache_amp.c:535-579 | a step leaks if and only if it is a request for a segment being removed that was not refused and has something to fetch |
| `Prefetch.OneRequestLeaks` | cache_amp.c:535-579 | an input: one such request for the first page of a file |
| `Prefetch.LeakStopsPrefetching` | cache_amp.c:551-559 | once anything has leaked no request is ever let through again |
| `Prefetch.Prefetcher.Ask` | cache_amp.c:535-596 | the clipping in place is the step, with the fetch it starts |
| `Prefetch.Prefetcher.Completed` | cache_amp.c:417-495 | completion takes off exactly what the request put on |
| `FileHandles.LiveExactlyWhenSafe` | lio_core_io.c:445-691 | over every interleaving no descriptor is left with a freed handle iff every teardown is by the handle's only closer |
| `FileHandles.EverySafeRun` | lio_core_io.c:445-691 | in such runs an open descriptor's handle is live and indexed, its count is the open descriptors, teardown is once, and after the latest version was stored |
| `FileHandles.EveryWriteIsStored` | lio_core_io.c:445-691 | in every safe run a live handle is modified iff it has been written on, and one torn down after k > 0 writes has all k stored |
| `FileHandles.WritesCounted` | lio_core_io.c:1008-1008 | the version of a handle is the number of writes on it, also when it goes |
| `FileHandles.WriteEffect` | lio_core_io.c:1008-1008 | a write marks the handle and makes one more version, and changes nothing else |
| `FileHandles.CloseEffect` | lio_core_io.c:572-578 | a close takes the descriptor off; the last one goes on to flush; the record loses one reference |
| `FileHandles.FlushedEffect` | lio_core_io.c:580-601 | after the flush the exnode is stored iff something has been written |
| `FileHandles.SavedEffect` | lio_core_io.c:638-644 | all that has been written so far is stored |
| `FileHandles.LeaveEffect` | lio_core_io.c:659-686 | with somebody back on the handle only the descriptor goes; otherwise the handle and its index entry go too |
| `FileHandles.OneCloserIsSafe` | lio_core_io.c:572-674 | runs in which no second descriptor reaches zero while one is closing are safe |
| `FileHandles.TwoClosersGoWrong` | lio_core_io.c:572-674 | a run of six steps after which a descriptor holds a freed handle |
| `FileHandles.UnsafeTeardown` | lio_core_io.c:616-674 | a teardown beside another closer always leaves that one with a freed handle |
| `FileHandles.StepKeeps` | lio_core_io.c:445-691 | every safe step keeps the invariant |
| `FileHandles.OpenKeeps` | lio_core_io.c:445-489 | an open keeps it, also inside another's flush window |
| `FileHandles.CloseKeeps` | lio_core_io.c:572-578 | a close keeps it |
| `FileHandles.LeaveKeeps` | lio_core_io.c:616-674 | the second look keeps it when there is no other closer |
| `FileHandles.FileTable.Open` | lio_core_io.c:445-489 | in place: share the indexed handle, or create and index one |
| `FileHandles.ShareKeeps` | lio_core_io.c:449-456 | sharing an indexed handle keeps the invariant, adds one open descriptor to it, and leaves the index and every other handle, with its descriptors, as they were |
| `FileHandles.CreateKeeps` | lio_core_io.c:458-489 | creating a handle keeps the invariant, indexes it under its view with that one open descriptor, and leaves every other handle, with its descriptors, as it was |
| `FileHandles.FileTable.Write` | lio_core_io.c:1008-1008 | a write marks the handle modified and keeps the table sound |
| `FileHandles.FileTable.Close` | lio_core_io.c:572-578 | one reference less; the descriptor goes on closing iff that was the last |
| `FileHandles.FileTable.Flushed` | lio_core_io.c:580-601 | after the flush, saving or leaving by the modified flag as it is then |
| `FileHandles.FileTable.Saved` | lio_core_io.c:638-644 | the current version is stored |
| `FileHandles.FileTable.Leave` | lio_core_io.c:659-686 | the table stays sound iff the teardown was safe |
| `DirListing.OpenDir.constructor` | lio_fuse_core.c:320-353 | the cache starts as the two dot entries |
| `DirListing.OpenDir.ReadDir` | lio_fuse_core.c:382-436 | up to the cached entries a call answers as random access to the one listing would; beyond them it gives the next uncached entries under later offsets; with different names it is right iff the offset is not beyond the cache, or there is no room, or nothing is left |
| `DirListing.OpenDir.FromCache` | lio_fuse_core.c:386-403 | rewinding delivers the cached entries from the offset on |
| `DirListing.OpenDir.FromIterator` | lio_fuse_core.c:407-436 | the iterator part caches each entry before it offers it |
| `DirListing.Delivered` | lio_fuse_core.c:382-436 | the two parts together are the answer |
| `DirListing.MisplacedIsWrong` | lio_fuse_core.c:407-436 | with different names, what is delivered beyond the cache is right only when it is nothing |
| `DirListing.ResumedIsWhole` | lio_fuse_core.c:364-439 | for every schedule of buffer sizes, the pieces are one uninterrupted reading |
| `DirListing.WholeListing` | lio_fuse_core.c:320-436 | with room enough: every entry once, in order, under its own index |
| `DirListing.ReadAll` | lio_fuse_core.c:364-439 | calls resumed on one open directory deliver that reading |
| `TapeCodec.RoundTrip` | lio_fuse_core.c:1036-1209 | the setter reads back exactly the values printed, whatever bytes they hold, and refuses iff the key counts differ |
| `TapeCodec.SameKindOfFile` | lio_fuse_core.c:1034-1174 | the attribute of one file is taken back for another iff both are symbolic links or neither is |
| `TapeCodec.ValuesInside` | lio_fuse_core.c:1021-1092 | for any attribute, the values lie in it iff the sizes add up to no more than what follows the header; one byte more takes the terminator; more is outside the copy |
| `TapeCodec.SizesTooLarge` | lio_fuse_core.c:1081-1092 | inputs for both |
| `TapeCodec.SplitStaysInside` | lio_fuse_core.c:1081-1092 | values are cut out of a string iff the sizes add up to no more than its length, and then they are its front cut at the sizes |
| `TapeCodec.PrintIsInjective` | lio_fuse_core.c:1181-1202 | different values never give the same attribute |
| `TapeCodec.PrintedForm` | lio_fuse_core.c:1181-1202 | the attribute byte for byte |
| `TapeCodec.HeaderIsTokens` | lio_fuse_core.c:1036-1079 | an attribute is taken iff its tokens are the count under n_keys and each size, not negative, under its own key; the sizes are those |
| `TapeCodec.HeaderFits` | lio_fuse_core.c:1154-1189 | the header of any values fits the 1024 byte buffer |
| `TapeCodec.ScanDecimal` | lio_fuse_core.c:1045-1066 | reading a printed number gives the number |
| `TapeCodec.LineTokens` | lio_fuse_core.c:1064-1066 | a header line is tokenised into its key and its number |
| `TapeCodec.GetTapeAttr` | lio_fuse_core.c:1181-1202 | the buffer filled by running position is the printed form |
| `TapeCodec.SetTapeAttr` | lio_fuse_core.c:1036-1092 | the tokenising loops are the parse, error for error |
| `TapeCodec.SplitValues` | lio_fuse_core.c:1081-1092 | cutting by running position is the split |
| `Fsck.FsckIter.constructor` | lio_core_os.c:1579-1613 | nothing checked, nothing in flight |
| `Fsck.FsckIter.Launch` | lio_core_os.c:1546-1555 | a free slot takes the next object; each object stays in one place |
| `Fsck.FsckIter.Fill` | lio_core_os.c:1512-1527 | the first call leaves a slot idle only when no object is left |
| `Fsck.FsckIter.FillSlots` | lio_core_os.c:1514-1526 | a check for each slot in turn; objects are left only if every slot is busy |
| `Fsck.FsckIter.TakeBack` | lio_core_os.c:1532-1557 | the object reported is the one that was in the slot before it was reused |
| `Fsck.FsckIter.Next` | lio_core_os.c:1504-1573 | returns the next broken object, or FINISHED exactly when none is left in flight, for any completion order |
| `Fsck.AnyOrderFindsAll` | lio_core_os.c:1532-1566 | in whatever order the checks finish, the broken objects found are all the broken ones, once each |
| `Fsck.AllBrokenAreBroken` | lio_core_os.c:1559-1563 | those are the objects with a state that is not good, as often as they were listed |
| `Fsck.FsckAll` | lio_core_os.c:1504-1573 | calls up to FINISHED return every broken object once and no other, and visited_count is the number of objects |
| `TaskSlots.Launch` | lio_core_os.c:1524-1525 | launching into a free slot keeps every job in exactly one place |
| `TaskSlots.Reap` | lio_core_os.c:1532-1535 | so does a completion from any slot |
| `TaskSlots.AllBack` | lio_core_os.c:1532-1566 | with no slot in flight the completions are a permutation of the jobs |
| `CopyPool.CopyPath` | lio_core_io.c:1529-1623 | each file's task is reaped once with its own paths, at most max_spawn run at a time, and failure is reported iff some task failed |
| `CopyPool.NoFailures` | lio_core_io.c:1584-1622 | the count is zero iff every task that came back succeeded |
| `CopyPool.FilesAreAll` | lio_core_io.c:1537-1547 | every file is copied as often as it was listed, and no directory |
| `CopyPool.Pool.Start` | lio_core_io.c:1565-1578 | a free slot is filled; no argument of a task in flight is overwritten |
| `CopyPool.Pool.Reaped` | lio_core_io.c:1581-1591 | a task comes back and its slot is the one freed |
| `CopyPool.Pool.CopyFile` | lio_core_io.c:1565-1594 | the next slot is free again, and no more than max_spawn were busy |
| `CopyPool.Pool.CopyAll` | lio_core_io.c:1533-1595 | every file among the entries is started, within the limit |
| `CopyPool.Pool.Drain` | lio_core_io.c:1599-1611 | everything started comes back |
| `Readahead.Handle.Read` | lio_core_io.c:868-921 | an accepted read covers the clipped range; a stretched one fetches exactly to the window's end or end of file, another only what is asked; the window ends zero to max(readahead, trigger) past the requested end |
| `Readahead.WindowHolds` | lio_core_io.c:896-908 | the window stays until a read passes its end |
| `Readahead.StretchesAreApart` | lio_core_io.c:896-908 | in any forward run with trigger >= readahead, two readaheads end more than readahead bytes apart |
| `WriteTable.AnyOrder` | lio_core_io.c:251-284 | writes that fill a content without overlap coalesce to its Adler-32 with nothing missing or overlapping, in any order of arrival |
| `WriteTable.CountsAreTotals` | lio_core_io.c:254-276 | for any table, missing is the total of all gaps and overlap the total of all overlaps between each range and the one before |
| `WriteTable.NothingCounted` | lio_core_io.c:260-267 | nothing is missing iff no range begins beyond the one before it; nothing overlaps iff none begins before |
| `WriteTable.RewriteCounted` | lio_core_io.c:260-267 | an input: five bytes written twice |
| `WriteTable.Accounting` | lio_core_io.c:254-276 | for any table nbytes + missing - overlap is the end of the last range |
| `WriteTable.CleanExactlyWhenTiled` | lio_core_io.c:260-267 | missing and overlap are zero iff the ranges tile the file from its start |
| `WriteTable.TilesChecksum` | lio_core_io.c:273-275 | tiling ranges combine to the checksum of what they cover |
| `WriteTable.CombineIsAppend` | lio_core_io.c:273-273 | combining checksums is checksumming the concatenation |
| `WriteTable.UpdateSums` | lio_core_io.c:1045-1045 | the running sums in closed form |
| `WriteTable.WritesInTurn` | lio_core_io.c:1028-1051 | each piece of a vectored write is written at its own offset with the bytes of the buffer after those before it |
| `WriteTable.InsertedSpaced` | lio_core_io.c:1047-1047 | ordered insertion of a range clear of the others keeps the table ordered and free of overlap |
| `WriteTable.Table.Insert` | lio_core_io.c:1047-1047 | the table after an ordered insertion |
| `WriteTable.Table.Record` | lio_core_io.c:1028-1051 | one range per piece of the vectored write, with that piece's bytes |
| `WriteTable.Table.Store` | lio_core_io.c:251-276 | the accumulating loop is the coalescing |
| `ErasurePlan.GeneratePlan` | erasure_tools.c:899-934 | the plan has the first packet size with less than one percent of padding, or else the smallest of those that pad least; there is none iff every one pads more than tenfold |
| `ErasurePlan.Turn` | erasure_tools.c:903-919 | one turn keeps the least padding and its packet size |
| `ErasurePlan.Search.PaddedIsLeast` | erasure_tools.c:904-907 | the padded size is the least multiple of the divisor that holds the file |
| `ErasurePlan.Search.StripIsWhole` | erasure_tools.c:908-910 | strips are whole multiples of w*packet*base_unit and together the padded file |
| `ErasurePlan.NextDown` | erasure_tools.c:903-903 | the loop leaves no candidate out |
| `ErasureBlocks.BlockSize` | erasure_tools.c:374-383 | the block size is a whole, positive number of coding units |
| `ErasureBlocks.BlockFillsBuffer` | erasure_tools.c:374-383 | a block has as many units as the buffer has room for, and at least one |
| `ErasureBlocks.EncodeBlock` | erasure_tools.c:419-419 | coding a block unit by unit |
| `ErasureBlocks.EncodeFile` | erasure_tools.c:349-441 | the parity region is the parity of the whole strips, whatever the buffer size, and nothing outside it is touched |
| `ErasureBlocks.EncodeTurn` | erasure_tools.c:403-431 | each block extends the parity of every strip and disturbs none |
| `ErasureBlocks.BlockLength` | erasure_tools.c:405-405 | blocks tile the strip, each a whole number of units |
| `ErasureCode.EncodedInBlocks` | erasure_tools.c:403-431 | coding a units and then b is coding a + b |
| `ErasureCode.EncodedInPlace` | erasure_tools.c:409-419 | a block read out of the strips is coded as it is in place |
| `ErasureCode.DecodedIsData` | erasure_tools.c:576-576 | with a correct decoder the survivors of any number of units give back the data |
| `ErasureCode.Raid4ParityIsXor` | raid4.c:39-60 | each byte of the parity is the XOR of the bytes in its place in all strips |
| `ErasureCode.Raid4Restores` | raid4.c:68-85 | XORing the parity with the other strips gives the lost one |
| `ErasureCode.Raid4IsCode` | raid4.c:53-85 | RAID4 is a position-wise code that corrects the loss of any one data strip |
| `ErasureDecode.DecodeFile` | erasure_tools.c:486-618 | the result is the original file iff the file reaches the end of every erased strip before the last and, if the last is erased, the start of its last block |
| `ErasureDecode.FitsWhateverIsLost` | erasure_tools.c:587-593 | every loss can be restored iff the padding is no longer than the last block |
| `ErasureDecode.DecodeTurn` | erasure_tools.c:550-608 | one block further, the erased strips are restored one block further and nothing else changes |
| `ErasureDecode.FrontRestored` | erasure_tools.c:579-586 | writing the rebuilt blocks restores the erased strips before the last one block further |
| `ErasureDecode.WriteLast` | erasure_tools.c:587-593 | the last strip is cut off at the end of the file |
| `ErasureRoundTrip.EncodeLoseDecode` | erasure_tools.c:349-618 | for any plan of the search and any correct code, encode, lose, decode gives the file back whenever the padding is at most the last block, and in general iff it fits |
| `ErasureRoundTrip.Raid4Survives` | erasure_tools.c:749-935 | planned for RAID4, a file survives the loss of any one data strip iff it fits, and always when its padding is at most one unit |
| `ErasureRoundTrip.SmallPaddingFits` | erasure_tools.c:587-593 | padding no longer than the last block makes every loss fit |
| `ErasureRoundTrip.TooMuchPadding` | erasure_tools.c:587-593 | an input on which the loss of the last strip is not made good |
| `ErasureRoundTrip.NoPlanForOneByte` | erasure_tools.c:899-934 | an input for which the search has no plan |

## Left out

- Pages are records in a map with identifiers; pointer aliasing and the page data itself are not modelled.
- Which thread owns the cache lock is not modelled: other threads may also run at the heads of the retry loops, so the runs include all of the source's and more.
- `limbo_pages`, `unused_bytes` and the other statistics of the cache.
- The tweak of a stream's prefetch size when its page is aged (cache_amp.c:937-943).
- The part of `_amp_page_access` that decides on a prefetch, `amp_update`, `_amp_miss_tag` and the dirty thread.
- Setting of pages' offsets and dirty bits, and insertion into `s->pages`, happen outside cache_amp.c; they are an arbitrary outside step that keeps the stack and index sound.
- The Stack, skiplist, pigeon-coop, gop/opque, jerasure and zlib libraries are not part of this model; their documented behaviour is, with waitany choosing any task in flight.
- string_token is not part of this model; the codec takes it to behave as strtok_r does, on the bytes up to the first NUL.
- AmpStranding.StrandsExactlyWhen: whether a page in release or a flush is there, not whether the thread then gets its space, nor what other forcing threads will still signal.
- AmpRuns.EveryRun: assumes pages of at most 2^31 - 1 bytes, because the bound is false of the code beyond (AmpRuns.PageSizeLimit).
- AmpCache.AmpCache.PagesDestroy: requires a page that is not to be removed from its segment not to be indexed, which is what the comment at cache_amp.c:645-650 says of its callers.
- FileHandles: error counts, remove-on-close, failures of an open after the handle is in the table (lio_core_io.c:491-502), truncation and the file position.
- FileHandles.EverySafeRun: assumes no teardown beside another closer, because without it the statement is false of the code (FileHandles.TwoClosersGoWrong).
- Readahead: the file position used for negative offsets is given as the offset.
- WriteTable.Table.Insert: a second range at the same offset is taken to be dropped, since the skiplist is not part of this model; the lemmas on tables hold of any table, and non-empty ranges without overlap never share an offset.
- WriteTable: formatting the result as an attribute.
- DirListing: stat data and the closing of the directory.
- TapeCodec.Token: a token that is missing is the empty string here, where strtok_r gives NULL, which the source passes on to strcmp and sscanf.
- TapeCodec: storing the values as attributes, and integers beyond `int`.
- TapeCodec.SetTapeAttr: sizes that run past the end of the attribute are an error in the model; what the source copies then is not part of this model.
- TapeCodec.SplitValues: the same; `TapeCodec.ValuesInside` says exactly when that is.
- Fsck: attribute values and the fields that are freed.
- CopyPool: creating the destination directories, and what a copy task does.
- ErasurePlan: 32-bit overflow of the divisor, defaults and validation of the parameters per method, and `nearest_prime`; the percentage is taken exactly, as 100 * excess < file size.
- ErasureDecode: rebuilding the parity strips, which the source has commented out (erasure_tools.c:595-602).
- ErasureDecode.DecodeFile: what happens when the length of a write would be negative; the model returns nothing there.
- ErasureCode.Raid4IsCode: RAID4's decoder for a lost data strip only; with the parity alone lost there is nothing to rebuild.
- Opening and creating files, and I/O errors, in the erasure tools.
- `cache_lru.c`, whose registration is commented out, `ldiff.c`, path resolution, object removal, the command-line programs and the services.
