# zCore: verified models of kernel mechanisms

This project models parts of the zCore kernel in Dafny and proves what they promise. Each
piece stands on its own.

- **Page tables** (`PageSizes`, `PageTables`, `Tilings`, `RangeSpecs`, `Splits`,
  `PageMapping`). A radix
  page table with 1G, 2M and base pages and three or four levels, kept as its terminal entries
  and the slots that hold lower tables. `map_cont` and `unmap_cont` are loops over a mutable table. They are proved
  against the translation of every single address. Running out of memory may happen at any
  allocation.
- **Locks** (`TicketLock`, `RwLock`, `InterruptNesting`). Step systems in which every atomic
  access is one step and any number of acquisitions is in progress. The interrupt counter is
  cut at every point where an interrupt may arrive.
- **Channel sends** (`HandleTransfer`, `ChannelSend`). Handles are taken out of the process
  before anything is validated. User memory is an oracle.
- **Binary formats** (`LittleEndian`, `DebugLog`, `Zbi`, `ClockRatio`). The framed debug log,
  the boot image item appender, and the reduced clock ratio.
- **Paths and descriptors** (`Segments`, `WorkingDirectory`). The stored working directory.
- **Frame allocator seeding** (`FrameSeeding`).

## Findings

Some statements one would expect turn out to need a condition. Each has a lemma that says
exactly which.

- `map_cont` checks the virtual start twice and the physical start never. The translation is
  `start_paddr + offset` exactly when `start_paddr` is aligned to the base page
  (`PhysicalStartMustBeAligned`).
- Lower tables outlive their pages, so a huge page can be refused where nothing is mapped
  (`LeftoverTableRefusesHugePage`). Unless memory runs out, `map_cont` succeeds exactly when no
  page of its tiling is blocked in the table before the call (`MapContRefusal`). The re-mapping
  done by `unmap_cont` is never refused this way.
- When a send fails validation, the error is that of the lowest failing entry exactly when
  the write-back of the dispositions does not fail with another error (`PrepareMessage`;
  `LateErrorCanDiffer` is a request where it does).
- A downgraded read guard calls `pop_off` a second time, so no execution with a downgrade can
  release everything without a panic (`DowngradeNeverBalances`, `DowngradeThenDropPanics`).
- `downgrade_to_upgradeable` passes its debug assertion exactly when no failed upgradable
  attempt is pending, and keeps the lock word right exactly when no reader is about to undo its
  count. Both hold exactly when the word is WRITER alone (`StoreUpgradedExact`;
  `DowngradeAssertionCanFail` and `StoreUpgradedCanLoseAReader` are runs that fail).
- `reader_count` is exact only outside transitions (`CountersExact`, `ReaderCountCanDiffer`).
- A log record's length survives its 12-bit field exactly when it is below 4096
  (`WireSizeExact`). A read of any other record panics or stops inside the record
  (`WholeRecordRead`, `LongRecordIsCut`).
- An empty or inverted memory region inserts a frame exactly when the frame of its end, less one
  byte, is the frame of its start. The seeding stays right exactly when every such frame is
  touched by some region and is not part of the heap (`SeedingExact`,
  `StrayRegionsBreakSeeding`).

## Model

| member | source | states |
|---|---|---|
| PageSizes.AlignDownUnique | kernel-hal/src/common/vm.rs:53-63 | `align_down` finds the one aligned block that holds an address, and `page_offset` the distance into it |
| PageSizes.NestedBlocks | kernel-hal/src/common/vm.rs:33-38 | an aligned block that meets a larger aligned block lies inside it |
| PageTables.LeafAtCovers | kernel-hal/src/utils/page_table.rs:69-94 | the walk, largest size first, finds exactly the entry whose block covers the address |
| PageTables.RadixLeavesOk | kernel-hal/src/utils/page_table.rs:96-122 | the shape of the tree alone keeps mappings of all sizes from overlapping |
| PageTables.WalkBlockedCorrect | kernel-hal/src/utils/page_table.rs:212-216 | what the walk inspects decides whether any mapping overlaps the page or a table occupies its slot |
| PageMapping.PageTable.EnsureTop | kernel-hal/src/utils/page_table.rs:98-106 | on a four-level table the root slot of the address gets its table, or `NoMemory` is reported and nothing changes; `NoMemory` only where it was missing |
| PageMapping.PageTable.EnsureTable | kernel-hal/src/utils/page_table.rs:314-325 | a missing table is allocated, or `NoMemory` is reported and nothing changes; `NoMemory` only where it was missing |
| PageMapping.PageTable.Map | kernel-hal/src/utils/page_table.rs:212-228 | `AlreadyMapped` exactly when the slot is blocked; otherwise, unless memory runs out, one leaf is added over the frame that holds the address; exactly the tables above it are allocated, and some of them when memory runs out, which needs a table that was missing |
| PageMapping.PageTable.Unmap | kernel-hal/src/utils/page_table.rs:230-240 | the covering leaf alone is removed and returned, or `NotMapped`; tables stay |
| PageMapping.PageTable.Query | kernel-hal/src/utils/page_table.rs:265-274 | `NotMapped` exactly where the address has no translation; otherwise the answer is the translation, and it identifies the covering leaf by size, start, frame and flags |
| PageMapping.PageTable.MapCont | kernel-hal/src/common/vm.rs:99-149 | exactly the first `done` pages of the greedy tiling are added, all of them on success; judged on the table before the call, none of those was blocked, a refusal is `AlreadyMapped` exactly when the next page was, and a clear range is never refused; `NoMemory` needs a missing table above the next page; new leaves have the given flags and consecutive frames, and without `HUGE_PAGE` they are base pages, one at every base page of the range on success |
| RangeSpecs.MapContRefusal | kernel-hal/src/common/vm.rs:118-148 | unless memory runs out, success if and only if no page of the greedy tiling was blocked in the table before the call |
| RangeSpecs.BlockedBefore | kernel-hal/src/common/vm.rs:118-148 | pages and tables added so far never decide whether the next page is blocked |
| RangeSpecs.MapContAdds | kernel-hal/src/common/vm.rs:118-148 | which leaves are new, success or not, and that without `HUGE_PAGE` all are base pages |
| PageMapping.PageTable.UnmapCont | kernel-hal/src/common/vm.rs:151-196 | on success exactly the range loses its translation, and the leaves are those clear of the range plus the greedy re-mapping of the parts that stick out; when no page sticks out it succeeds and allocates nothing; the only error is `NoMemory`, and then nothing is invented and losses stay inside the range or a page meeting it |
| Splits.FirstPagePrunes | kernel-hal/src/common/vm.rs:169-183 | the page over the start is replaced by the re-mapped part before the range |
| Splits.LaterPagePrunes | kernel-hal/src/common/vm.rs:175 | every later page in the range is removed and nothing else changes |
| Splits.PrunePage | kernel-hal/src/common/vm.rs:169-193 | one turn of the loop takes the exact leaves at one cursor to those at the next |
| Splits.PrunedWithoutCuts | kernel-hal/src/common/vm.rs:175-176 | when no page sticks out, exactly the pages in the range go |
| Splits.UnmapUndoesMap | kernel-hal/src/common/vm.rs:99-196 | mapping a free range and unmapping it gives back the very leaves there were |
| RangeSpecs.SplitCuts | kernel-hal/src/common/vm.rs:176-192 | only pages that were there before the call and stick out of the range are split |
| Tilings.GreedyTiles | kernel-hal/src/common/vm.rs:118-148 | the sizes picked tile the range with pages naturally aligned in both address spaces, over the frame that holds the physical start |
| Tilings.CutAtBlockEnd | kernel-hal/src/common/vm.rs:118-138 | any tiling that has entered an aligned block has a cut at the block's end |
| Tilings.GreedyFewest | kernel-hal/src/common/vm.rs:118-138 | no tiling by naturally aligned pages uses fewer pages than the greedy one |
| Tilings.InstallTranslates | kernel-hal/src/common/vm.rs:118-148 | installing any tiling over free addresses translates the range linearly and leaves every other address alone |
| Tilings.MapRangeTranslates | kernel-hal/src/common/vm.rs:99-149 | after success every address of the range maps to the frame of the start plus its offset |
| Tilings.HugeAndBaseAgree | kernel-hal/src/common/vm.rs:118-147 | with and without `HUGE_PAGE` every address has the same translation |
| Tilings.PhysicalStartMustBeAligned | kernel-hal/src/common/vm.rs:106-108 | the translation is `start_paddr + offset` if and only if the physical start is base-aligned |
| RangeSpecs.MapContTranslates | kernel-hal/src/common/vm.rs:118-148 | success or not, a prefix of the range is translated linearly and nothing else changes |
| RangeSpecs.GapIsBase | kernel-hal/src/common/vm.rs:162-165 | an unmapped base-aligned address starts a whole unmapped base page, so the skip misses nothing |
| RangeSpecs.UnmapClears | kernel-hal/src/common/vm.rs:175-191 | removing a leaf leaves no leaf and no table inside its block |
| RangeSpecs.PrefixRemapped | kernel-hal/src/common/vm.rs:180-183 | mapping the part before the range again restores it exactly, or on failure loses only addresses of the split page |
| RangeSpecs.SuffixRemapped | kernel-hal/src/common/vm.rs:184-191 | mapping the part after the range again restores it exactly, or on failure loses only addresses of the split page |
| RangeSpecs.ClearAfterPrefix | kernel-hal/src/common/vm.rs:180-191 | tables created for the part before the range never stand in the way of the part after it |
| RangeSpecs.MapThenUnmap | kernel-hal/src/common/vm.rs:99-196 | mapping and then unmapping a range gives back every old translation |
| RangeSpecs.UnmapInTwoSteps | kernel-hal/src/common/vm.rs:151-196 | unmapping `[a, b)` and then `[b, c)` is unmapping `[a, c)` |
| PageMapping.LeftoverTableRefusesHugePage | kernel-hal/src/utils/page_table.rs:108-122 | on a fresh table, after mapping and unmapping one base page nothing is mapped, and the 2M and the 1G page around it are refused |
| TicketLock.StepKeepsInv | drivers/src/sync/ticket.rs:55-123 | every atomic step keeps tickets distinct, filling `[next_serving, next_ticket)`, with only the served one held, the separate check and exchange of `try_lock` included |
| TicketLock.RunKeepsInv | drivers/src/sync/ticket.rs:55-123 | the same over whole runs |
| TicketLock.MutualExclusion | drivers/src/sync/ticket.rs:64-70 | in every run at most one guard exists |
| TicketLock.OutstandingTicketsAreTheWindow | drivers/src/sync/ticket.rs:56-60 | a ticket is outstanding if and only if it lies in `[next_serving, next_ticket)` |
| TicketLock.ServingCountsReleases | drivers/src/sync/ticket.rs:118-120 | `next_serving` advances by one per release and by nothing else |
| TicketLock.FirstComeFirstServed | drivers/src/sync/ticket.rs:56-60 | ticket `t` enters after exactly `t - next_serving` releases, under every schedule |
| TicketLock.NoOvertaking | drivers/src/sync/ticket.rs:64-70 | while a ticket is held no earlier ticket is outstanding |
| TicketLock.ServedCanStep | drivers/src/sync/ticket.rs:58-60 | whenever a ticket is outstanding the owner of the served one can step and makes progress |
| TicketLock.WaiterCanEnter | drivers/src/sync/ticket.rs:55-72 | from every state a waiting ticket can be brought to its guard within `2 * (t - next_serving) + 1` steps |
| TicketLock.TryLockTakesFreeMutex | drivers/src/sync/ticket.rs:75-98 | on a free mutex an undisturbed `try_lock` ends with the guard and one ticket drawn |
| TicketLock.TryLockRetries | drivers/src/sync/ticket.rs:77-85 | a failed exchange starts over and on a free mutex then succeeds |
| TicketLock.TryLockGivesUp | drivers/src/sync/ticket.rs:80-84 | `try_lock` gives up if and only if the ticket it read is not the one served; if that ticket is still the next one, if and only if some ticket is outstanding |
| TicketLock.LockThenRelease | drivers/src/sync/ticket.rs:55-72 | `lock` on a free mutex enters at its first poll, and the release frees it |
| TicketLock.LockCanEnter | drivers/src/sync/ticket.rs:55-60 | from every state `lock` can be brought to its guard with exactly one release per outstanding ticket |
| RwLock.StepKeepsInv | drivers/src/sync/rwlock.rs:217-351 | every atomic step keeps the lock word equal to what the acquisitions in progress determine |
| RwLock.EveryRunKeepsInv | drivers/src/sync/rwlock.rs:217-708 | the same for every run of any number of acquisitions, downgrades and drops included |
| RwLock.WriterIsAlone | drivers/src/sync/rwlock.rs:288-309 | beside a write guard there are only readers about to back out |
| RwLock.OneUpgradable | drivers/src/sync/rwlock.rs:337-351 | at most one upgradable guard exists |
| RwLock.LockWord | drivers/src/sync/rwlock.rs:219-227 | the word is four times the readers, undoing and downgrading ones included, plus the UPGRADED and WRITER bits; UPGRADED implies a holder that will clear it, and with no one in progress the word is zero |
| RwLock.DropAssertionsHold | drivers/src/sync/rwlock.rs:678-708 | the debug assertions in the three guard drops never fail |
| RwLock.ReadGranted | drivers/src/sync/rwlock.rs:217-234 | `try_read` returns a guard if and only if there is no writer and no upgradable guard |
| RwLock.WriteGranted | drivers/src/sync/rwlock.rs:287-309 | `try_write` returns a guard if and only if nothing is in progress |
| RwLock.UpgradableGranted | drivers/src/sync/rwlock.rs:337-351 | `try_upgradeable_read` returns a guard if and only if there is no writer and no upgradable guard |
| RwLock.UpgradeGranted | drivers/src/sync/rwlock.rs:451-476 | an upgrade succeeds if and only if no reader is counted |
| RwLock.ReadRoundTrip | drivers/src/sync/rwlock.rs:217-234 | a read attempt that ends, granted or not, leaves the lock as it was |
| RwLock.WriteRoundTrip | drivers/src/sync/rwlock.rs:287-309 | dropping a write guard undoes its acquisition |
| RwLock.UpgradableRoundTrip | drivers/src/sync/rwlock.rs:337-351 | dropping an upgradable guard undoes its acquisition |
| RwLock.DowngradeWriteIsDropThenRead | drivers/src/sync/rwlock.rs:567-580 | downgrading a write guard ends like dropping it and reading, and the read is granted |
| RwLock.DowngradeUpgradableIsDropThenRead | drivers/src/sync/rwlock.rs:508-521 | the same for an upgradable guard |
| RwLock.UpgradeIsDropThenWrite | drivers/src/sync/rwlock.rs:451-476 | a granted upgrade ends like dropping the guard and writing |
| RwLock.StoreExcludesSharers | drivers/src/sync/rwlock.rs:672-676 | no step changes the data while shared access exists |
| RwLock.DataStableWhileShared | drivers/src/sync/rwlock.rs:508-580 | over any stretch of a run with shared access the data is one value, across downgrades too |
| RwLock.CountersExact | drivers/src/sync/rwlock.rs:242-257 | `writer_count` is exact; `reader_count` is exact if and only if nothing is between two atomic steps and no failed upgradable attempt is pending |
| RwLock.ReaderCountCanDiffer | drivers/src/sync/rwlock.rs:242-257 | two runs in which `reader_count` is 1 and nobody reads |
| RwLock.StoreUpgradedExact | drivers/src/sync/rwlock.rs:594-613 | the debug assertion passes if and only if no failed upgradable attempt is pending, storing UPGRADED over the word keeps the accounting if and only if no reader is counted, and both if and only if the word is WRITER |
| RwLock.DowngradeAssertionCanFail | drivers/src/sync/rwlock.rs:595-598 | a reachable state with no reader in which the debug assertion fails |
| RwLock.StoreUpgradedCanLoseAReader | drivers/src/sync/rwlock.rs:601 | a reachable state in which the plain store takes the word below zero |
| InterruptNesting.StepKeepsInv | drivers/src/sync/interrupt.rs:124-146 | every step keeps the nesting invariant, an interrupt at any point where interrupts are on included |
| InterruptNesting.NestingDepth | drivers/src/sync/interrupt.rs:124-146 | in every run without a downgrade `noff` counts guards and attempts, interrupts are off while it is positive, nothing panics, and the CPU cell is never borrowed with interrupts on |
| InterruptNesting.MatchedCallsRestoreFlag | drivers/src/sync/interrupt.rs:121-123 | a thread that holds nothing again has the interrupt state it started with, whatever handlers ran |
| InterruptNesting.LockFrom | drivers/src/sync/interrupt.rs:124-132 | from every state an undisturbed acquisition reaches its guard, one level deeper and with interrupts off |
| InterruptNesting.PopUndoesPush | drivers/src/sync/interrupt.rs:134-146 | dropping that guard, or giving up the attempt, restores the whole state but the memory of the outermost level |
| InterruptNesting.ReturnUndoesInterrupt | drivers/src/sync/interrupt.rs:143-145 | a handler that returns at once leaves no trace |
| InterruptNesting.SystemRunKeepsInv | drivers/src/sync/interrupt.rs:113-119 | the invariant holds on every CPU under every interleaving of the CPUs |
| InterruptNesting.RunKeepsBalance | drivers/src/sync/rwlock.rs:508-521 | in all runs `noff` plus the downgrades made equals guards and attempts |
| InterruptNesting.DowngradeNeverBalances | drivers/src/sync/rwlock.rs:567-580 | `noff` is right if and only if no downgrade has happened, and a run with one never releases everything |
| InterruptNesting.DowngradeThenDropPanics | drivers/src/sync/rwlock.rs:567-580 | one write guard, downgraded and dropped, panics in `pop_off`, whether interrupts were on or off before |
| HandleTransfer.OwnedExactly | zircon-syscall/src/channel.rs:366-380 | a batch owns exactly the named handles that existed, each once |
| HandleTransfer.FirstErrorIsLowest | zircon-syscall/src/channel.rs:396-415 | the error kept is the one at the lowest failing index, and there is one if and only if some entry fails |
| HandleTransfer.SentHandles | zircon-syscall/src/channel.rs:396-429 | message handle `i` is the object entry `i` named in the original process, with no more rights; sources allow it, moved values are distinct, and the channel is not sent through itself |
| HandleTransfer.BatchAcceptedExactly | zircon-syscall/src/channel.rs:546-568 | a batch is accepted if and only if every entry may be sent, judged on the original process |
| HandleTransfer.PlainValuesSentUnchanged | zircon-syscall/src/channel.rs:331-342 | through the plain interface every handle arrives with object and rights unchanged |
| HandleTransfer.NarrowedRightsAreKnown | zircon-syscall/src/channel.rs:402-405 | after the check the conversion of requested rights cannot fail |
| HandleTransfer.HandleCheckErrors | zircon-syscall/src/channel.rs:546-568 | which error an entry gets, with the exact condition of each |
| HandleTransfer.ChannelResolved | zircon-object/src/task/process.rs:400-413 | the channel is resolved if and only if the handle exists, is a channel and grants a write, and for a call a read; otherwise which error |
| HandleTransfer.RecordedResults | zircon-syscall/src/channel.rs:408-413 | only the result of a failed entry is changed, to the code of its error |
| HandleTransfer.GatherExact | zircon-syscall/src/channel.rs:594-614 | segments are joined in order if and only if all are well formed and readable and the total fits a message |
| HandleTransfer.GatherError | zircon-syscall/src/channel.rs:595-613 | the first segment that is malformed, too long or unreadable decides the error |
| HandleTransfer.DataLimits | zircon-syscall/src/channel.rs:455-463 | at most 65536 plain bytes or 8192 segments, else `OUT_OF_RANGE` |
| HandleTransfer.ReadIovecs | zircon-syscall/src/channel.rs:580-615 | the loop computes exactly that, with the first failing segment deciding the error |
| ChannelSend.Process.RemoveHandle | zircon-object/src/task/process.rs:605-614 | the handle is removed and returned, or `BAD_HANDLE` |
| ChannelSend.Process.TakeOversized | zircon-syscall/src/channel.rs:350-363 | chunk by chunk the same handles are removed and closed as in one pass over the longest readable prefix of chunks |
| ChannelSend.Process.Take | zircon-syscall/src/channel.rs:349-386 | the process loses exactly the named non-duplicated handles, before any validation |
| ChannelSend.Process.Finish | zircon-syscall/src/channel.rs:396-429 | all entries valid: every handle is handed over in order; otherwise all owned handles are closed, each failing entry records its own error, and the lowest one's is reported if and only if the write-back does not replace it |
| ChannelSend.Process.PrepareMessage | zircon-syscall/src/channel.rs:433-469 | for every request the process keeps exactly the handles that no readable entry takes, chunk by chunk when it is oversized; a plain send moves the named handles, unchanged and each once, into the message or closes them; once the dispositions are read, on success and on every error the process is the old one minus the named handles, which are in the message or closed; success if and only if no early error and every entry valid; errors in the order of the tests; a late error is the lowest failing entry's if and only if the write-back is absent, succeeds, or fails alike |
| ChannelSend.MovedHandlesAreSentOnce | zircon-syscall/src/channel.rs:366-429 | on success every handle taken is in the message at exactly one position |
| ChannelSend.TakesExactly | zircon-syscall/src/channel.rs:349-386 | the handles taken are those named by an entry that can be read and is not a duplication, with the chunks of an oversized request read up to the first failure |
| ChannelSend.EarlyErrorExact | zircon-syscall/src/channel.rs:443-466 | which requests pass the early tests, and that options are judged before the channel and the channel before the bytes |
| ChannelSend.LateErrorCanDiffer | zircon-syscall/src/channel.rs:416-427 | a whole request that names an unknown handle and cannot be written back: the lowest failing entry says `BAD_HANDLE`, the sender is told `INVALID_ARGS` |
| LittleEndian.LoadStore | zircon-object/src/debuglog.rs:117 | a stored value is loaded back, cut to the width it was stored in |
| LittleEndian.StoreByte | zircon-object/src/debuglog.rs:117 | byte `i` of a stored value has weight `256^i` |
| LittleEndian.StoreLoad | zircon-object/src/debuglog.rs:99-100 | any bytes are what storing their value gives |
| DebugLog.WireSizeExact | zircon-object/src/debuglog.rs:100-109 | the low 12 bits of `rollout` give the record length if and only if it is below 4096 |
| DebugLog.RecordRoundTrip | zircon-object/src/debuglog.rs:105-121 | both sizes and the payload are recovered from the bytes of a record |
| DebugLog.HeaderFields | zircon-object/src/debuglog.rs:61-69 | every header field is found at its offset in the wire layout, cut to its width |
| DebugLog.RecordPadded | zircon-object/src/debuglog.rs:106-120 | a record ends with the fewest zeros that make its length a multiple of four |
| DebugLog.RecordsAligned | zircon-object/src/debuglog.rs:106-120 | every record starts at a multiple of four |
| DebugLog.SmallFits | zircon-syscall/src/debuglog.rs:51 | a record fits the 256-byte read buffer if and only if its data is within the 224-byte cap |
| DebugLog.ReadAtBoundary | zircon-object/src/debuglog.rs:92-103 | at a record boundary a read delivers the first `len & 0xFFF` bytes of the record, or panics when that is less than a header or more than the buffer |
| DebugLog.WholeRecordRead | zircon-object/src/debuglog.rs:92-103 | the record is delivered whole if and only if it is below 4096 bytes and fits the buffer; otherwise the read panics or stops inside the record |
| DebugLog.LongRecordIsCut | zircon-object/src/debuglog.rs:100-101 | a record of 4136 bytes of which a read delivers 40 |
| DebugLog.DlogBuffer.Write | zircon-object/src/debuglog.rs:105-121 | one record is appended to the stream |
| DebugLog.DlogBuffer.Read | zircon-object/src/debuglog.rs:92-103 | at every offset: what is there is copied to the front of the buffer and the rest of the buffer is untouched, or the read panics |
| DebugLog.Reader.Read | zircon-object/src/debuglog.rs:45-50 | the next record is delivered whole if it fits, and the offset becomes the next boundary if and only if it does |
| DebugLog.RunKeepsInv | zircon-object/src/debuglog.rs:45-56 | over every interleaving all readers stand at record boundaries behind what they have read |
| DebugLog.ReadersSeeTheLog | zircon-object/src/debuglog.rs:45-56 | no read panics, the `k`-th record any reader obtains is the `k`-th record written, and no read exceeds 256 bytes |
| DebugLog.LogIsWhatWasAppended | zircon-object/src/debuglog.rs:53-56 | the log of a run is what it appended, in order |
| DebugLog.FetchDelivers | zircon-object/src/debuglog.rs:45-50 | a reader that is behind obtains the next record, another one nothing |
| DebugLog.ReaderCatchesUp | zircon-object/src/debuglog.rs:45-50 | from every state as many reads as it is behind bring a reader the whole log |
| Zbi.ItemsConcat | loader/src/zircon.rs:239-244 | the items of two concatenated item sequences are the items of both |
| Zbi.ItemParses | loader/src/zircon.rs:255-270 | the new bytes are one well-formed command-line item that carries the payload |
| Zbi.AppendedParses | loader/src/zircon.rs:239-271 | the image parses into the old items byte for byte and the new item, its file length is 32 plus the new container length, and the rest of the header is kept |
| Zbi.FitsExact | loader/src/zircon.rs:246-251 | the length is refused if and only if it would not survive its 32-bit field |
| Zbi.AppendAllParses | loader/src/zircon.rs:239-271 | the same for any number of appends |
| Zbi.AppendAllFits | loader/src/zircon.rs:239-271 | repeated appends succeed if and only if the final length fits |
| Zbi.LastFilterIsLast | loader/src/zircon.rs:223-229 | the filter used is that of the last option that sets one, and there is none if and only if no option does |
| Zbi.FilterExact | loader/src/zircon.rs:225 | an option sets a filter if and only if it is `core-tests=` and the filter with white space around |
| Zbi.FilterPayload | loader/src/zircon.rs:233-236 | the filter is handed on between the two gtest options, its comma-separated patterns now separated by colons |
| Zbi.AppendItem | loader/src/zircon.rs:253-271 | truncating, resizing and overwriting word by word produces that image |
| Zbi.AppendCoreTestFilter | loader/src/zircon.rs:215-272 | no filter leaves the image alone; a bad container or a length overflow is refused; otherwise the item is appended, and a well-formed image parses into its old items and one command-line item with the chosen payload |
| ClockRatio.Gcd | loader/src/zircon.rs:366-371 | the loop ends with a common divisor that every common divisor divides |
| ClockRatio.Ratio | loader/src/zircon.rs:351-358 | the two parts are the numbers divided by their greatest common divisor, cut to 32 bits; at every non-zero 16-bit megahertz frequency they are coprime and in the exact proportion |
| ClockRatio.RatioExact | loader/src/zircon.rs:351-358 | the reduced parts are coprime and in the exact proportion; the cut loses nothing if and only if the denominator fits |
| ClockRatio.MegahertzFit | loader/src/zircon.rs:343-358 | for every non-zero 16-bit megahertz frequency it does fit |
| Segments.SplitJoin | linux-object/src/process.rs:373-383 | splitting recovers exactly the segments joined |
| Segments.SplitConcat | linux-object/src/process.rs:374 | a separator between two texts separates their parts |
| WorkingDirectory.StackOfJoin | linux-object/src/process.rs:373-383 | re-reading the stored string gives the segments that were stored |
| WorkingDirectory.ChangedNormal | linux-object/src/process.rs:364-384 | the stored string never has an empty, "." or ".." segment |
| WorkingDirectory.WalkResolves | linux-object/src/process.rs:374-382 | pushing and popping computes what reading backwards with cancellation defines |
| WorkingDirectory.ChangedResolves | linux-object/src/process.rs:364-384 | for every path, the empty one included, the new directory is the old one and the path, each ".." cancelling the name before it and nothing at the root |
| WorkingDirectory.ChangesCompose | linux-object/src/process.rs:364-384 | changing to `p` and then to a relative `q` is changing to `p/q` |
| WorkingDirectory.ReportedPathReturns | linux-object/src/process.rs:359-361 | changing to the reported directory leads back to it from anywhere |
| WorkingDirectory.LinuxProcess.ChangeDirectory | linux-object/src/process.rs:364-384 | the loop computes that directory and keeps the normal form |
| WorkingDirectory.LinuxProcess.GetFreeFdFrom | linux-object/src/process.rs:480-485 | the lowest free descriptor at or above the start |
| FrameSeeding.RegionFrames | zCore/src/memory_x86_64.rs:55-56 | the index range of a region is the set of frames it touches, aligned or not |
| FrameSeeding.HeapFoundWheneverPossible | zCore/src/memory_x86_64.rs:38-41 | a heap is found if and only if some region has room for an aligned one |
| FrameSeeding.HeapIsFirstFit | zCore/src/memory_x86_64.rs:38-41 | the heap is at the lowest aligned place of the first region with room |
| FrameSeeding.FindHeap | zCore/src/memory_x86_64.rs:38-41 | the search returns the first fit |
| FrameSeeding.InsertRegions | zCore/src/memory_x86_64.rs:30-81 | the allocator gains, region by region, what the source inserts, up to a region that ends at 0 |
| FrameSeeding.InsertRegion | zCore/src/memory_x86_64.rs:54-72 | one turn of the loop, with the heap cut out of the region that contains it |
| FrameSeeding.InsertedByRegion | zCore/src/memory_x86_64.rs:54-72 | a region that is not empty contributes the frames it touches except those of the heap |
| FrameSeeding.EmptyRegionInserts | zCore/src/memory_x86_64.rs:55-56 | an empty or inverted region touches nothing and inserts the frame of its start if and only if its end, less one byte, is in the same frame |
| FrameSeeding.SeedingExact | zCore/src/memory_x86_64.rs:54-72 | for disjoint regions, inserted frames and heap frames are together exactly the frames touched if and only if every frame inserted by an empty region is touched by some region; and no heap frame is inserted if and only if none of those is one |
| FrameSeeding.NonEmptySeeding | zCore/src/memory_x86_64.rs:54-72 | for disjoint regions that are not empty both hold |
| FrameSeeding.StrayRegionsBreakSeeding | zCore/src/memory_x86_64.rs:55-56 | an empty and an inverted region that insert an untouched frame, and an empty one that inserts a heap frame |

## Left out

- PageTables.WalkBlockedCorrect: a larger leaf above the page counts as blocking it, as in `Map`.
- PageMapping.PageTable.Map: a base or 2M page under an existing larger page is reported as `AlreadyMapped`; the source only debug-asserts that this does not happen.
- PageMapping.PageTable.MapCont: addresses are unbounded, so wrap-around of `start + size` is not modelled.
- TicketLock.StepKeepsInv: tickets are unbounded; wrap-around of the counters is not modelled.
- RwLock.StepKeepsInv: the reader count is unbounded; memory orderings weaker than sequential consistency are not modelled.
- ChannelSend.Process.RemoveHandle: the waiters that are told of the removal are not modelled.
- ChannelSend.Process.Finish: the order in which dropped handles are closed is not claimed.
- DebugLog.RunKeepsInv: only records within the 224-byte cap of the write call are appended; what a read makes of longer ones is stated by `WholeRecordRead`.
- Zbi.AppendCoreTestFilter: options are trimmed of ASCII white space only, and a panic is a returned error.
- FrameSeeding.InsertRegions: a region that ends at 0 is a returned error; `region.end - 1` underflows there, which panics only with overflow checks on. Overflow near the top of the address space is not modelled.
- `update` of a page-table entry, TLB flushes, and how each architecture encodes flags.
- `leak` and the `force_*` functions of the locks, and `is_locked`.
- The channel object itself, `channel_read` and the reply path of `channel_call`.
- The bitmap and buddy allocators behind the frame allocator and the heap.
- `add_file` and the descriptor limit.
- Signal delivery, device drivers, build tooling, console and logging.
