# Recovery, modelled and proved

This project models the parts of a recovery image whose correctness is hardest to see from the code, and proves what
they promise:

- the block cache behind a sideloaded package, which must not let a host change its mind (`Sideload`, `SideloadFile`,
  `SideloadDevice`);
- the shared property area with one writer and many readers (`PropertyLayout`, `PropertyArea`, `PropertyProtocol`,
  `PropertyReads`);
- the threaded, split tar backup and its restore: listing and dividing (`TarPlan`, `TarDivision`, `TarLister`),
  splitting (`TarSplit`), names, archives and restore (`TarBackup`, `TarEncryption`, `TarRunner`), the threads at work
  (`TarThreads`), the writers they share and what goes through them (`TarBuffer`, `TarOutput`) and the progress messages
  (`Progress`);
- the command and retry protocol over boots and crashes (`BootMessage`, `Recovery`, `RecoveryOutcomes`), and what
  happens to commands that do not fit (`RecoveryLimits`, `RecoveryBoots`);
- the file search over a graph with symbolic-link cycles (`FindFile`);
- the settings file (`Settings`), the DER walker (`Der`), slash normalisation and exclusions (`Paths`).

Code that updates things in place is a class or a method with loops, proved against functions on values; the theorems
are lemmas about those functions. Protocols are state machines whose runs are sequences of actions.
`dafny verify dfyconfig.toml` checks everything.

## Conventions

- Widths follow a 64-bit platform: `size_t` is 8 bytes, `unsigned` and `uint32_t` are 4. Truncation to 32 bits is
  `Words.U32`, a 32-bit product `Words.Mul32`; unsigned division by a variable is `Words.Div` and `Words.Rem`.
- The digest function, the host, the file system, the exclusion test and the outcome of an installation are parameters:
  the theorems hold for all of them.
- Memory steps of the property protocol are sequentially consistent. Writes of the bootloader control block are atomic
  and succeed.

## Results that differ from what the code's comments say

- fuse_sideload.cpp:31-33 says a changed block fails with `EINVAL`; the code returns `-EIO` (line 288), and so does
  the model.
- The sideload invariant fails in two families of runs, both excluded by `Sideload.CleanRun` and shown by lemmas. One
  is reads that start in block index 2^32 - 1, the value of "no block", while nothing is cached: they are answered from
  the raw buffer, and agree with later ones exactly when that holds zeros (`Sideload.SentinelReadDisagrees`). The other
  is host calls that fail while another block is cached (line 262 returns with `curr_block` still naming it): the cached
  block is disturbed exactly when the bytes delivered differ from it or, since line 258 clears the tail of a short last
  block before the host is asked, when that tail was not zero. So a host that fails without writing anything can disturb
  it too (`Sideload.SilentFailure`).
- For requests that start below block index 2^32 - 1, a file is served exactly if and only if its block count fits 32
  bits and its last block is whole or starts below 2^32 (`SideloadFile.FixedFile`, `SideloadFile.UnfaithfulReply`):
  lines 254 and 257 multiply in 32 bits. From index 2^32 on, requests come round to the file's first blocks again
  (`SideloadFile.OffsetsWrap`).
- Rule 4 of legacy_properties.h:86 sends a reader back to step 2 with the serial it holds; such a reader cannot finish
  until 2^23 updates have passed (`PropertyProtocol.OldSerialNeverMatches`). The model lets a reader retry either way.
- recovery.cpp:372 says the file name in args[0] is not stored, but `set_retry_bootloader_message` stores it each time,
  so the number of stored copies equals the retry count. Options survive a boot exactly when their lines take at most
  768 characters (`BootMessage.StoredOptionsSurvive`), and the whole retry sequence needs room for four copies
  (`Recovery.LevelsSurviveIff`).
- So the command given is not always the command read. All boots of all runs read it exactly when an update fits at
  retry count 4, or, without an update, the last option that starts with `--` ends inside the field
  (`RecoveryBoots.CommandIsReadIff`). The retry count read goes down in some run exactly when an update fits at retry
  count 1 but not at 4 (`RecoveryBoots.CountNeverFallsIff`): with a package name of 700 characters the counts read are
  0, 1 and 0 (`RecoveryBoots.CountGoesDown`).
- recovery.cpp:117-118 promises at most five attempts. When the command does not fit at retry count 4 the count is
  lost without any crash, and the update is tried again for as long as its name stays inside the field behind ever more
  copies of the program name. The bound holds in all runs exactly when the command fits at retry count 4, asks for no
  update, or has its first `--update_package=` pushed out of the field by five copies (`RecoveryLimits.BoundHoldsIff`);
  otherwise there may be fifty attempts (`RecoveryLimits.FiftyAttempts`).
- An encrypted backup lists what the directories of the top level hold but not those directories themselves
  (twrpTar.cpp:187-200, 235-249), so a restore gives back the whole tree exactly when no item of the top level is a
  directory that is not excluded (`TarPlan.DivisionHoldsTree`, `TarBackup.EncryptedRoundTrip`); an empty one disappears
  (`TarPlan.EmptyDirectoryIsLost`). A plain backup keeps them.
- All threads report through one descriptor, which every thread unsets when it closes an archive (twrpTar.cpp:1405,
  tarWrite.c:50-55). What the others write until the next archive is opened is not reported: the backup size that the
  parent records is too small by exactly that much, and is certain to be right only on a single processor
  (`Progress.BackupSizeIsExactIff`). The file count is always right.
- The version test of the settings file (infomanager.cpp:74-82) does not hold for version 0, the default: such a reader
  takes another version's header for a record, and a file without a header can pass for any version that its first four
  bytes spell (`Settings.OtherVersion`, `Settings.HeaderReadAsRecord`, `Settings.RecordReadAsHeader`).
- A thread needs at most a hundred archives when its regular files total less than 50 * (limit + 1) bytes, and that
  bound is exact (`TarSplit.EnoughArchives`, `TarSplit.TooManyArchives`).
- The tar buffer is allocated with eight times its nominal size; whole blocks always fit exactly when the nominal size
  is at least 64 (`TarBuffer.BufferLargeEnough`).

## Model

| member | source | states |
|---|---|---|
| Sideload.OffsetInBlock | fuse_sideload.cpp:320-332 | although the 32-bit products wrap, the offset inside the block is the true remainder for every 64-bit offset |
| Sideload.BlockStartsInside | fuse_sideload.cpp:254-258 | the wrapped start of a block below file_blocks lies inside the file, so the fetch size is never negative |
| Sideload.ReadParts | fuse_sideload.cpp:320-353 | a reply is spliced from the first and second block fetched at the true offset; an error is that of the fetch that failed |
| Sideload.SpliceAt | fuse_sideload.cpp:336-352 | each byte of a splice is the one at its place in the first or the second block |
| Sideload.FetchKeepsTruth | fuse_sideload.cpp:242-294 | a fetch that is not a disturbing failed call, and does not find the "no block" index already cached, keeps the cached block vouched for by its stored digest and never changes a stored digest |
| Sideload.ReadKeepsTruth | fuse_sideload.cpp:296-359 | the same over a whole read, one block or two, unless it starts in the "no block" index while nothing is cached and the buffer is not all zeros |
| Sideload.ReplyIsBacked | fuse_sideload.cpp:266-294 | for such a read, unless contents it accepts digest to all zeros, every byte of a reply comes from block contents whose digest is the one stored for that position's block |
| Sideload.DigestsAreWriteOnce | fuse_sideload.cpp:266-293 | over any stretch of any run, failed calls included, a stored digest never changes |
| Sideload.ReadsAgree | fuse_sideload.cpp:24-33 | for every host and every clean run, two successful reads of one position return the same byte, or two different contents accepted in that very run for blocks of the file have one digest, or one of them digests to all zeros |
| Sideload.ExceptionsAreReal | fuse_sideload.cpp:280-293 | neither exception can be dropped: given two blocks with one digest, or one that digests to zeros, a host makes two reads disagree |
| Sideload.SentinelReadDisagrees | fuse_sideload.cpp:243-251 | while nothing is cached, block index 2^32 - 1 is answered from the raw buffer and, after another block, with zeros; for every host and digest function the two agree exactly when those bytes of the buffer are zero |
| Sideload.SentinelSpillIsZero | fuse_sideload.cpp:336-352 | a request that starts in the block before and spills over into that index gets zeros there, whatever was in the buffer |
| Sideload.AfterFailedFetch | fuse_sideload.cpp:253-264 | after a host call that fails, re-reading the cached block gives the earlier bytes exactly when the bytes the host delivered repeat them and the cleared tail of a short block held zeros |
| Sideload.FailureCanDisturb | fuse_sideload.cpp:261-262 | a host that writes one byte and fails disturbs the cached block |
| Sideload.SilentFailure | fuse_sideload.cpp:258-262 | a host that fails without writing anything disturbs the cached block exactly when the block asked for is short and the tail was not zero |
| Sideload.ChangedBlockIsRefused | fuse_sideload.cpp:280-289 | a block that does not have the digest stored is refused with EIO, nothing stays cached and no digest changes |
| Sideload.HostErrorIsPassedOn | fuse_sideload.cpp:261-264 | an error of the host is the error of the read, and the cached index stays |
| Sideload.CachedReadsAskNobody | fuse_sideload.cpp:243-251 | reads within the cached block or beyond the last block are answered without asking the host |
| SideloadFile.FetchIsExact | fuse_sideload.cpp:253-259 | for every block below file_blocks the size asked of the host is exactly the block's bytes in the file if and only if the block is not the last one or the last block fits |
| SideloadFile.FetchesAreExact | fuse_sideload.cpp:253-259 | all sizes asked are exact if and only if the last block is whole or starts below 2^32, or its index is out of the 32-bit range |
| SideloadFile.RunMirrors | fuse_sideload.cpp:242-359 | with a host that always leaves the same image in the buffer, every read of every run whose requests start below block index 2^32 - 1 succeeds and is cut from that image, and the cache and digests are the image's |
| SideloadFile.FixedFile | fuse_sideload.cpp:296-359 | with a host serving one file that meets the size condition, every reply of every run whose requests start below block index 2^32 - 1 is the requested slice followed by zeros |
| SideloadFile.OffsetsWrap | fuse_sideload.cpp:320-332 | a request 2^32 blocks further on is answered exactly as it would have been here, so offsets beyond the 32-bit range are not told apart |
| SideloadFile.UnfaithfulReply | fuse_sideload.cpp:382-389 | when the size condition fails, two such reads of a file of ones give a wrong reply |
| SideloadDevice.FuseData.constructor | fuse_sideload.cpp:377-414 | a started device caches no block and has stored no digest |
| SideloadDevice.Start | fuse_sideload.cpp:367-389 | a device is started exactly for block sizes from 4 KiB to 4 MiB and at most 2^18 blocks, counted in 32 bits |
| SideloadDevice.FuseData.CheckDigest | fuse_sideload.cpp:266-293 | the digest is accepted, stored on the first read, or refused with -EIO and an emptied cache; the flat digest table changes in that entry only |
| SideloadDevice.FuseData.ReadBlock | fuse_sideload.cpp:253-261 | the buffer after the host call, with the tail of a short block cleared, and no index outside it |
| SideloadDevice.FuseData.FetchBlock | fuse_sideload.cpp:242-294 | refines Fetch on the abstract cache: result code, cached index, contents, digests |
| SideloadDevice.FuseData.HandleRead | fuse_sideload.cpp:296-359 | refines Read, including the copy into the extra block, with all indices inside the three arrays |
| SideloadDevice.FuseData.Serve | fuse_sideload.cpp:438-480 | what the request loop answers is a run, so the theorems over runs apply to it |
| PropertyLayout.TocRoundTrip | legacy_properties.h:45-46 | a table entry gives back the name length and the record it was made from, and fits 32 bits |
| PropertyLayout.RecordsDisjoint | legacy_property_service.cpp:88-93 | records lie side by side between the table of contents and byte 32640 |
| PropertyLayout.MatchesIsEquality | legacy_property_service.cpp:141-148 | comparing the length and that many bytes decides equality of names |
| PropertyArea.PropArea.Find | legacy_property_service.cpp:133-152 | finds exactly the names of the map, at the record that holds their value |
| PropertyArea.PropArea.UpdateInfo | legacy_property_service.cpp:125-131 | only the record's value and serial change; the serial ends clean with the new length |
| PropertyArea.PropArea.Update | legacy_property_service.cpp:169-176 | the area then holds the old map with the value replaced, and only the record and the area's serial have changed |
| PropertyArea.PropArea.Insert | legacy_property_service.cpp:177-192 | the area then holds the old map with the new pair, in the record after the last |
| PropertyArea.PropArea.Set | legacy_property_service.cpp:154-195 | the area stays equal to a finite map updated by the set rules; a refused call leaves the memory as it was |
| PropertyArea.CodeTells | legacy_property_service.cpp:154-195 | code 0 is given exactly when lengths, read-only rule and room allow the call, and then the name has the value and nothing else changes; any other code is -1 and nothing changes |
| PropertyArea.ReadOnlyNames | legacy_property_service.cpp:171-171 | the names that keep their value are those that start with the letters r, o and a dot |
| PropertyArea.ChangesShow | legacy_property_service.cpp:169-192 | every successful call changes the area's serial, and an update the record's |
| PropertyArea.SetAllKeeps | legacy_property_service.cpp:154-195 | over any sequence of calls names stay, at most 247 are held, ro. names keep their value, and other names can be updated even in a full table |
| PropertyArea.HistoryDecides | legacy_property_service.cpp:154-195 | after any history of calls a ro. name has the first value ever given for it and any other name the last; a name is missing only if no value was given or the table filled up without it |
| PropertyProtocol.SerialsDiffer | legacy_property_service.cpp:127-129 | within fewer than 2^23 updates two serials of a record are equal only if no update came between, and never equal a dirty one |
| PropertyProtocol.StepKeepsInv | legacy_properties.h:75-91 | every memory access of the writer or a reader keeps the protocol invariant |
| PropertyProtocol.ReadReturnsCurrentValue | legacy_properties.h:82-91 | in every interleaving with any number of readers, a finished read with fewer than 2^23 updates in between returns one whole value that was current from load to check |
| PropertyProtocol.PublishedRecordsAreComplete | legacy_property_service.cpp:178-191 | at every step each entry below the count decodes to its name and to a complete record, dirty only while it is being updated; names are distinct |
| PropertyProtocol.PublishedNeverChanges | legacy_properties.h:78-81 | over every run the count never decreases and published entries, names and past values stay |
| PropertyProtocol.WholeUpdate | legacy_property_service.cpp:125-131 | the sequential update of a record is a run of the protocol's memory accesses, from area to area |
| PropertyProtocol.WholeInsert | legacy_property_service.cpp:177-191 | so is the sequential insertion, byte by byte |
| PropertyProtocol.OldSerialNeverMatches | legacy_properties.h:86-86 | a reader that keeps its old serial after an update fails every check until 2^23 updates have passed |
| PropertyProtocol.WrapReturnsOldValue | legacy_property_service.cpp:129-129 | from a reader that holds a value, exactly 2^23 updates lead to a read that returns a value that is no longer current |
| PropertyReads.ReadAlone | legacy_properties.h:82-91 | from every state of the invariant, a reader that runs alone while its record is not being updated finishes, changes nothing else and returns the current value |
| PropertyReads.EveryReadCanFinish | legacy_properties.h:82-91 | at every point of every run each read under way can still be finished |
| PropertyReads.DirtyReadersWait | legacy_properties.h:83-84 | while a record is being updated no read of it gets past its serial, however often it is loaded |
| PropertyReads.RetryTakesAllAgain | legacy_properties.h:86-86 | a reader that goes on with its old serial takes all bytes of the record again |
| PropertyReads.WrapFromStart | legacy_property_service.cpp:125-131 | the wrap-around is reachable from an empty area: insertion, a read, 2^23 updates, and a value returned that is no longer current |
| TarPlan.BytesWithinFolderSize | exclude.cpp:61-90 | for every tree the listing counts no more regular bytes than the size computed beforehand |
| TarPlan.ListHoldsTree | twrpTar.cpp:655-698 | a listing holds every directory, file and link that is not excluded, in order, tagged with thread numbers that never go back |
| TarPlan.ListWeight | twrpTar.cpp:686-693 | each advance of the thread number is paid for by more than the target's bytes, so threads do not advance too early (TarDivision.ListDivides: nor too late) |
| TarPlan.EncryptListFacts | twrpTar.cpp:230-260 | the same over the second pass, where files of the top directory are added without the test |
| TarPlan.ThreadsWithinCores | twrpTar.cpp:169-271 | in both encrypted modes and for every tree and processor count the last thread is at most core_count, so the error exit is unreachable, and every item has a thread that runs |
| TarDivision.ListDivides | twrpTar.cpp:655-698 | a listing leaves a thread exactly when its regular bytes, those held before counted in, pass the target: those of every thread left behind do, without its last item they do not, and those of the present thread do not |
| TarDivision.WorkIsDivided | twrpTar.cpp:169-271 | in both encrypted modes as many threads are started as there are processors, at most eight; every thread but the last one used holds more than an even share of the size, and without its last item at most that, as does the last one, the untested files of the top directory allowed for |
| TarDivision.FolderSizeByKind | exclude.cpp:61-90 | what the bit masks of the folder size come to: files, links, sockets and character devices count even when excluded, block devices only when excluded |
| TarPlan.DivisionHoldsTree | twrpTar.cpp:182-260 | the unencrypted and the encrypted list together hold everything that is not excluded, once, but for the directories of the top level themselves; they hold the whole tree exactly when there are none of those |
| TarPlan.EmptyDirectoryIsLost | twrpTar.cpp:235-249 | an empty directory of the top level is in neither list |
| TarLister.Lister.GetFolderSize | exclude.cpp:61-90 | the loop computes the folder size with the file types used as bit masks |
| TarLister.Lister.GenerateTarList | twrpTar.cpp:655-698 | the loop produces the listing of TarPlan.List, or fails when a directory cannot be opened |
| TarLister.FirstPass | twrpTar.cpp:182-209 | the first pass produces the unencrypted list and the size to encrypt |
| TarLister.SecondPass | twrpTar.cpp:228-260 | the second pass produces the list to encrypt, divided among threads |
| TarLister.DivideThreads | twrpTar.cpp:169-271 | both passes produce the division, whose last thread is at most core_count |
| TarSplit.SplitKeepsItems | twrpTar.cpp:793-833 | the archives of a thread, joined, are its items in order |
| TarSplit.SplitFits | twrpTar.cpp:797-821 | every archive is within the limit or holds a single regular file |
| TarSplit.NeighboursExceed | twrpTar.cpp:799-819 | two neighbouring archives together exceed the limit |
| TarSplit.EnoughArchives | twrpTar.cpp:805-811 | fewer than 50 * (limit + 1) bytes never need more than a hundred archives |
| TarSplit.TooManyArchives | twrpTar.cpp:805-811 | with 50 * (limit + 1) bytes the limit can be passed |
| TarBackup.NamesDistinct | twrpTar.cpp:771-775 | names for threads 0 to 8 and archives 0 to 99 are pairwise distinct and differ from the base name |
| TarEncryption.NamesAreDigits | twrpTar.cpp:771-775 | the suffix is the thread and the number of the archive, the latter in two digits |
| TarThreads.AnyInterleaving | twrpTar.cpp:322-347 | in every interleaving of the threads' steps no thread fails when all need at most a hundred archives, and the disk at the end is the one the threads leave one after the other |
| TarThreads.NeverStuck | twrpTar.cpp:322-347 | until all threads have finished, one of them can take a step |
| TarThreads.RunsAreBounded | twrpTar.cpp:322-347 | every step lowers the number of steps left, so no run of the threads is longer than that number at the start |
| TarThreads.EveryRunEnds | twrpTar.cpp:322-369 | when all threads need at most a hundred archives, every run can be continued until all have finished |
| TarBackup.RestoreEncrypted | twrpTar.cpp:482-624 | with no stale files, restoring a fully encrypted backup delivers each thread's items in list order, each thread once |
| TarBackup.RestoreUserdata | twrpTar.cpp:527-592 | the same for userdata encryption: thread 0 from the unencrypted list, then the encrypted threads |
| TarBackup.RestorePlain | twrpTar.cpp:500-541 | the same for an unencrypted backup, split or in a single file |
| TarBackup.ThreadsPartition | twrpTar.cpp:793-796 | when every item's thread runs, the threads together deliver every item of the list once |
| TarBackup.EncryptedRoundTrip | twrpTar.cpp:152-381 | from directory tree to restore in both encrypted modes: what is restored is everything that is not excluded, once, but for the directories of the top level themselves; it is the whole tree exactly when there are none |
| TarBackup.PlainRoundTrip | twrpTar.cpp:383-423 | from directory tree to restore without encryption: the whole tree in order |
| TarEncryption.UserdataIsRight | twrpTar.cpp:278-331 | after a userdata backup every archive of threads 1 and up is encrypted when the backup is and thread 0's are not; thread 0 holds only what lies below top directories whose names start with app or dalvik, and the others nothing of it |
| TarEncryption.FullIsRight | twrpTar.cpp:322-331 | after a fully encrypted backup every archive is encrypted |
| TarEncryption.PlainIsRight | twrpTar.cpp:400-423 | no file of an unencrypted backup is encrypted |
| TarRunner.TwrpTar.NextArchive | twrpTar.cpp:799-820 | closes the open archive and starts the next under its own name, unless there are a hundred already |
| TarRunner.TwrpTar.AddItem | twrpTar.cpp:794-831 | adding an item takes one step of the next-fit split and announces a regular file |
| TarRunner.TwrpTar.TarList | twrpTar.cpp:763-841 | writes the thread's split archives and announces each regular file once, or fails with -4 exactly when there would be more than a hundred |
| TarRunner.TwrpTar.TarWhole | twrpTar.cpp:777-841 | without splitting, all items of the thread end up in the one file and each regular file is announced once |
| TarRunner.TwrpTar.RunThreads | twrpTar.cpp:322-347 | the threads write their archives, and one of them fails exactly when it needs more than a hundred |
| TarRunner.TwrpTar.CreateEncrypted | twrpTar.cpp:152-381 | the whole encrypted backup fails exactly when a directory cannot be opened or a thread needs too many archives; otherwise a restore finds everything but the directories of the top level, the whole tree exactly when there are none, and exactly the archives that should be are encrypted |
| TarRunner.TwrpTar.CreatePlain | twrpTar.cpp:383-423 | the same without encryption, split or not: a restore finds the whole tree in order, and no archive is encrypted |
| TarRunner.TwrpTar.ExtractOne | twrpTar.cpp:853-872 | extracts a thread's archives in number order until one is missing |
| TarRunner.TwrpTar.Extract | twrpTar.cpp:500-592 | finds a backup and extracts all its threads as TarBackup.Restore describes |
| TarBuffer.StreamConserved | tarWrite.c:57-96 | while the descriptor is set, for every sequence of blocks, bytes written plus bytes pending are the bytes handed in; the buffer stays below its size; reports add up and none is zero |
| TarBuffer.ResultTells | tarWrite.c:57-96 | the result of a call is the length of the data exactly when it has gone to the file or the buffer, and -1 exactly when a write was due and failed, whereupon the buffer is lost and nothing is reported |
| TarBuffer.PlainResultTells | tarWrite.c:110-113 | the unbuffered writer reports a block whether or not the write succeeds |
| TarBuffer.ArchiveComplete | twrpTar.cpp:1385-1388 | after a flush and the two end blocks nothing is pending, at every fill level, and every byte has been reported |
| TarBuffer.BufferLargeEnough | tarWrite.c:41-48 | the allocated buffer holds every block exactly when the nominal size is at least 64 |
| TarBuffer.LibtarBuffer.Init | tarWrite.c:41-48 | an empty buffer of the given size, or of the size in force when that is zero, and the pipe's descriptor set |
| TarBuffer.LibtarBuffer.WriteBlock | tarWrite.c:57-96 | the in-place writer refines Write, failed writes included, without leaving the buffer |
| TarBuffer.LibtarBuffer.FlushBuffer | tarWrite.c:98-102 | announces the end of the archive and changes nothing else |
| TarBuffer.LibtarBuffer.InitNoBuffer | tarWrite.c:104-108 | sets the descriptor and a size of one block; a buffer in use is left alone |
| TarBuffer.LibtarBuffer.WriteNoBuffer | tarWrite.c:110-113 | reports a block, if the descriptor is set, before it is written and even if the write fails |
| TarBuffer.LibtarBuffer.FreeBuffer | tarWrite.c:50-55 | unsets the descriptor and touches nothing else |
| Progress.ReadProgress | twrpTar.cpp:427-453 | the parent's loop computes the totals of ReceiveAll |
| Progress.ParentTotals | twrpTar.cpp:434-453 | after the two headers the parent adds up all messages and counts the zeroes among them; the count announced is never zero |
| Progress.InterleavingTotals | twrpTar.cpp:322-347 | any count over steps is the same for every interleaving of the threads |
| Progress.RunBalances | tarWrite.c:31-113 | in every run of the writers and of any number of threads, the zeroes sent are the marks, and the bytes reported fall short of those written by exactly what was written while the descriptor was unset |
| Progress.SizeIsExactIff | twrpTar.cpp:434-453 | the size the parent ends with is the number of bytes written if and only if no step writes to an archive while the descriptor is unset; its file count is the number of marks whatever the run |
| Progress.ThreadIsTold | twrpTar.cpp:763-841 | a thread running by itself, with either writer and any split into archives, reports every byte it writes and leaves the descriptor unset |
| Progress.ThreadMarks | twrpTar.cpp:821-824 | a thread marks each regular file of its archives once |
| Progress.BlockIsLost | twrpTar.cpp:1387-1405 | any two threads have an interleaving in which exactly 512 bytes are not reported |
| Progress.BackupIsCounted | twrpTar.cpp:273-381 | in both encrypted modes, for every tree and every interleaving of the threads after the unencrypted list, the parent's file count is the number of regular files in the tree, and its size is the bytes written exactly when nothing is written while the shared descriptor is unset |
| Progress.BackupSizeIsExactIff | twrpTar.cpp:322-347 | the size is right in every interleaving if and only if there is a single processor |
| Progress.PlainBackupIsCounted | twrpTar.cpp:383-423 | an unencrypted backup, split or not, compressed or not: the parent counts the regular files of the tree and exactly the bytes written |
| TarOutput.ThreadWrites | twrpTar.cpp:763-841 | a thread by itself, with either writer, from any state: its archives are written whole and in order, each the blocks of its items and two end blocks, and nothing stays in the buffer |
| TarOutput.PlainBackupIsWritten | twrpTar.cpp:383-423 | the bytes of an unencrypted backup are those of its archives, which hold the list in order, and the parent's size is their number |
| TarOutput.BackupIsWritten | twrpTar.cpp:273-381 | in every interleaving of an encrypted backup the bytes written are as many as the archives of all lists take; when all are reported that is the parent's size |
| BootMessage.Store | bootloader_message/bootloader_message.cpp:204-220 | filling the field line by line gives the first 767 characters of the lines, each argument up to a character 0 |
| BootMessage.StoredOptionsSurvive | recovery.cpp:341-354 | options stored and read back are the same exactly when their lines take at most 768 characters |
| BootMessage.ParseTooLong | recovery.cpp:341-354 | options that do not fit are read back cut short: whole ones, then at most the beginning of one, the last never complete |
| BootMessage.TokensAreClean | recovery.cpp:344-349 | the options read from a text without the character 0 can be stored again as they are |
| RecoveryBoots.StoredAgain | recovery.cpp:372-378 | options read from the control block and stored again leave it as it was, even when they were cut |
| RecoveryBoots.CommandsSurviveIff | recovery.cpp:341-354 | a boot reads the commands among stored options whole exactly when the last one ends within the 758 characters the field has behind its header line |
| Recovery.CollectArgs | recovery.cpp:316-381 | a boot takes its arguments from the control block, else from the command file, skipping empty lines and those that start with the character 0, and stores them up to such a character |
| Recovery.BuildRetryOptions | recovery.cpp:1346-1355 | all arguments but old retry counts are kept, args[0] included, and the new count is added |
| Recovery.LevelArgs | recovery.cpp:1346-1360 | at retry count k a boot reads count k and the given command, and rewrites to count k + 1 with one more copy of the program name |
| Recovery.LevelsSurviveIff | recovery.cpp:1346-1360 | every stored form up to the retry limit survives a boot exactly when the longest one takes at most 768 characters |
| Recovery.StepKeepsInv | recovery.cpp:156-185 | for a command that fits at every retry count it can come to, every step, a crash anywhere included, keeps the protocol invariant, and the stored retry count never goes down |
| RecoveryOutcomes.AttemptsAreCaused | recovery.cpp:1592-1612 | in every run of every command, crashes included, every install attempt but one is owed to a crash or to a failure that asks for another attempt |
| RecoveryOutcomes.InstallationIsFinal | recovery.cpp:1588-1597 | after an installation that succeeds, fails for good, or fails at the retry limit, and as long as the device does not crash, there is no other attempt and no other boot of recovery, and the main system starts with the control block cleared and the command file gone |
| RecoveryOutcomes.FailureIsRetried | recovery.cpp:1597-1612 | a failure below the limit that asks for another attempt leads to a reboot with the next retry count in the control block |
| RecoveryOutcomes.RecoveryCanBeLeft | recovery.cpp:1540-1710 | at every point of every run the main system can still be reached without a crash and without another attempt, unless one has been announced, with the control block cleared |
| RecoveryOutcomes.CrashIsSurvived | recovery.cpp:489-518 | wherever recovery runs a crash is possible, and the next power-up starts recovery again exactly when the control block has not been cleared |
| RecoveryOutcomes.CommandFileGoes | recovery.cpp:507-513 | over any run the command file stays as it is until the cache is wiped or it is removed, and does not come back |
| RecoveryOutcomes.WorkMatchesArguments | recovery.cpp:1564-1640 | packages are installed only by boots whose arguments ask for it, and other work is done only where they do not |
| RecoveryOutcomes.LastCountWins | recovery.cpp:1450-1452 | a retry option with any number is read as that number unless another one follows |
| Recovery.BoundIsReached | recovery.cpp:1593-1612 | the bound of five attempts plus the number of crashes is exact: for every update command that fits at every retry count and every number of crashes some run reaches it |
| RecoveryLimits.CountIsCut | recovery.cpp:1346-1355 | when the options do not fit at a retry count, the next boot finds no retry count |
| RecoveryLimits.BoundHoldsIff | recovery.cpp:117-118 | for every storable command: install attempts are at most five plus the number of crashes in every run if and only if the command fits at retry count 4, has no update, or has its first update pushed out of the field by five copies of the program name |
| RecoveryLimits.PushedOutBounds | recovery.cpp:341-354 | when a number of copies pushes the first update out of the field, attempts are at most that number plus the crashes, whether or not the count is lost |
| RecoveryLimits.NoUpdateBounds | recovery.cpp:1581-1584 | a command without an update is never attempted |
| RecoveryLimits.AlwaysReadsBackIff | recovery.cpp:341-360 | in every run every boot reads exactly the options last stored if and only if the command fits at every retry count it can come to |
| RecoveryLimits.CountingWorksIff | recovery.cpp:1581-1612 | for every update command, the retry count read covers the attempts made, crashes apart, in every run exactly when the options fit at retry count 4, or start in the control block with the update's name out of the field |
| RecoveryLimits.AttemptsRunAway | recovery.cpp:117-119 | a command that does not fit at retry count 4, of any number of options, is tried without a crash as often as the name of its first update stays inside the field behind the copies of the program name |
| RecoveryLimits.FiftyAttempts | recovery.cpp:117-119 | with the usual program name and a name of 750 characters there are fifty attempts without a crash |
| RecoveryBoots.CommandIsReadIff | recovery.cpp:372-380 | for every storable command, from the command file or from the control block: in every run, crashes included, every boot parses the `--` options given, the retry count apart, if and only if an update among them fits at retry count 4 or, without an update, the last of them ends inside the field |
| RecoveryBoots.CountNeverFallsIff | recovery.cpp:1346-1360 | for every storable command: in every run the retry counts read at boot never go down if and only if there is no update, or it fits at retry count 4, or not even at retry count 1 |
| RecoveryBoots.CountFalls | recovery.cpp:1346-1360 | an update that fits at retry count 1 but not at 4 has boots, without a crash, that read 0, 1, ..., k - 1 and then 0, where k is the first count at which it does not fit |
| RecoveryBoots.CountGoesDown | recovery.cpp:1346-1360 | with the usual program name and a package name of 700 characters the counts read are 0, 1 and 0 |
| RecoveryBoots.WorkIsNotForgotten | recovery.cpp:489-518 | for every storable command, the control block is cleared only after that boot's work has ended; until then every power-up of a device that is off starts recovery, with the command given if it stays in the field |
| FindFile.Finder.Scan | find_file.cpp:55-73 | reports a match exactly when the directory has one, and otherwise collects its subdirectories and links in order |
| FindFile.NextPaths | find_file.cpp:61-66 | the paths the search goes on to are exactly those the directory leads to |
| FindFile.ExploreFinds | find_file.cpp:36-91 | a path names a match in a directory reachable from the start; after the empty string every directory newly searched has no match and leads only to searched ones |
| FindFile.Finder.Find | find_file.cpp:36-91 | ends on every finite graph, cycles included, and returns what the search function gives: the directory itself, then subdirectories, then links, each path once |
| FindFile.Finder.FindEach | find_file.cpp:75-89 | the same over a list of directories or resolved links |
| FindFile.Search | find_file.cpp:29-31 | a path is returned only for a match in a reachable directory, and the empty string exactly when there is none |
| FindFile.OwnMatchFirst | find_file.cpp:55-73 | a match in the starting directory itself is what is returned |
| FindFile.SubdirectoriesFirst | find_file.cpp:75-89 | when a subdirectory has a match and the directory has none, what is found lies in or beyond a subdirectory, whatever the links lead to |
| FindFile.SearchedOnce | find_file.cpp:37-41 | no path is searched twice |
| FindFile.DotsLeadNowhere | find_file.cpp:57-59 | the entries for the directory and its parent are passed over |
| Settings.FieldRoundTrip | infomanager.cpp:90-94 | a field of up to 510 characters is read back as written whatever the buffer held; a longer one ends the reading |
| Settings.LoadRecords | infomanager.cpp:84-110 | loading written records overlays exactly those before the first over-long one |
| Settings.LoadCut | infomanager.cpp:84-110 | of a file of records cut at any place, the whole records before the first over-long one are read |
| Settings.StaleByte | infomanager.cpp:90-94 | a field without a terminator takes one byte of what the buffer held before |
| Settings.SettingsRoundTrip | infomanager.cpp:62-142 | loading what was saved with the same version adds exactly the entries whose key comes before every over-long entry, all of them exactly when none is over-long |
| Settings.OtherVersion | infomanager.cpp:74-82 | for every two different versions: between nonzero ones the file changes nothing; read with version 0 it changes nothing exactly when it does not start with one whole record; written with version 0, exactly when its first four bytes do not spell the version wanted or no whole record follows them |
| Settings.HeaderReadAsRecord | infomanager.cpp:74-82 | saved with version 2 and loaded without one, a = b becomes an entry with an empty name |
| Settings.RecordReadAsHeader | infomanager.cpp:126-128 | saved without a version, a = b and c = d become b = c when the version wanted spells the first field |
| Settings.Least | infomanager.cpp:130-131 | the first key of the map's iteration |
| Settings.InfoManager.SetValue | infomanager.cpp:201-214 | refuses empty names and names starting with a digit, and keeps existing values of a constant manager |
| Settings.InfoManager.SaveValues | infomanager.cpp:116-142 | writes the header and all pairs in key order |
| Settings.InfoManager.LoadValues | infomanager.cpp:62-114 | reads records over the present values until one is cut short or too long |
| Der.LengthRoundTrip | asn1_decoder.cpp:48-72 | decoding inverts every definite form with fewer than eight length octets, long forms of small lengths included (section 8.1.3 of ITU-T X.690), and consumes exactly its octets |
| Der.DecodedLengthIsEncoding | asn1_decoder.cpp:48-72 | conversely, a decoded length is below 256^7, so the shifts never overflow, and the octets consumed are its encoding in one of these forms |
| Der.SkipsExactlyTheRun | asn1_decoder.cpp:91-102 | over any run of constructed elements, their lengths in any of these forms, the walk stops exactly at the first other tag |
| Der.ElementRoundTrip | asn1_decoder.cpp:77-136 | entering an encoded element of a wanted tag finds exactly its content, passing over it leaves exactly what follows, and another tag is not entered |
| Der.EnteredIsElement | asn1_decoder.cpp:77-89 | conversely, whatever is entered is a tag, the encoding of a length in one of these forms and at least that many bytes |
| Der.Context.GetByte | asn1_decoder.cpp:28-37 | takes one byte off the front of the window, whose end stays |
| Der.Context.SkipBytes | asn1_decoder.cpp:39-46 | takes n bytes off the front, or nothing when there are fewer |
| Der.Context.ReadLength | asn1_decoder.cpp:48-72 | the loop decodes a length and leaves exactly the rest |
| Der.Context.ConstructedSkipAll | asn1_decoder.cpp:91-102 | the loop refines SkipAll and stays inside the window |
| Der.Context.ConstructedGet | asn1_decoder.cpp:77-89 | an inner context is returned exactly when Entered finds one: the element's content, inside this window and buffer, with the low five bits of the tag; what is left is the same on success and failure |
| Der.Context.SequenceGet | asn1_decoder.cpp:108-117 | the same for a sequence tag, its top bit ignored |
| Der.Context.SetGet | asn1_decoder.cpp:119-128 | the same for a set tag |
| Der.Context.SequenceNext | asn1_decoder.cpp:130-136 | skips exactly one element, or fails exactly when there is no whole one |
| Der.Context.StringGet | asn1_decoder.cpp:138-158 | an identifier or octet string is found exactly when its tag, a length above zero and its content are there |
| Der.TagNumbers | asn1_decoder.cpp:77-158 | the tags entered, by number: 0x30 and 0xB0 for sequences, 0x31 and 0xB1 for sets, 0xA0 to 0xBF for constructed elements |
| Der.Follow | asn1_decoder.cpp:77-158 | any chain of calls, going on with inner contexts, stays inside the window it started from |
| Paths.RemoveTrailingSlashes | twrp-functions.cpp:314-337 | the scan yields the path with each slash kept only when something else follows it |
| Paths.NormalIdempotent | twrp-functions.cpp:314-337 | normalising twice is normalising once |
| Paths.NormalFormDecides | twrp-functions.cpp:314-337 | two paths have one normal form exactly when repeated or trailing slashes connect them |
| Paths.LastComponentIs | exclude.cpp:102-104 | the component compared is what follows the last slash, when something does |
| Paths.Exclusions.AddRelative | exclude.cpp:43-45 | adds exactly the paths whose last component is the given one |
| Paths.Exclusions.AddAbsolute | exclude.cpp:57-59 | adds exactly the spellings of the given directory |
| Paths.Exclusions.CheckSkipDirs | exclude.cpp:100-108 | gives one answer for all spellings of a path |

## Left out

- FUSE requests other than reads, the mount and the device file: system calls and constant structures.
- fuse_sideload22.cpp: a near copy of the modelled cache.
- Real SHA-256, futex wake-ups and weak memory ordering.
- Backups over adb, compression, encryption programs and libtar itself: an archive is a list of items with a flag.
- The fallback when a thread cannot be created: its work is then done in place, an order that TarThreads covers.
- The file count announced before a backup (twrpTar.cpp:199 assigns instead of adding); the counts the parent observes
  are modelled.
- Failing writes in Progress, where a run is one in which every thread finishes: a failure ends the backup.
- Changes of the tree between the passes, failing stat calls, and byte totals beyond 64 bits.
- getopt_long spellings other than one option per argument with "=": abbreviations, separate values and a bare "--";
  retry counts in hexadecimal or beyond 32 bits.
- Recovery.Apply: arguments with the character 0 inside, which only CollectArgs and BootMessage.Store follow; the
  commands of the protocol have none.
- A recovery boot that the main system asks for after a crash between clearing the control block and removing the
  command file: runs end when the main system starts.
- User actions at the recovery menu, which can overwrite the control block, and the battery and boot-reason tests
  (a skip may happen at any boot).
- Settings.LoadValues on strings of 65535 bytes or more, whose 16-bit length wraps: the theorems ask for shorter ones.
- TWExclude::clear_relative_dir: a plain removal loop.
- partition.cpp, partitionmanager.cpp, roots.cpp, data.cpp, install.cpp, the user interface and the remaining tools:
  mostly effects behind system calls, or easy next to the parts above.
