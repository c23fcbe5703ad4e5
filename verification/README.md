# Verified models of afsctool and zfsctool

This project states and proves what the two programs of this repository rely on.

- **The decmpfs container.** `Container` describes, as values, the two forms of a compressed file (`Encode`): the
  `com.apple.decmpfs` attribute and the resource fork. `ZlibEncoder` is the ZLIB branch of
  `compressFile`, with its buffers as arrays, its pointers as (block, offset) pairs and both build-time
  ways of sizing the output buffer; `ZlibDecoder` is the ZLIB part of `decompressFile`; `LzEncoder` is
  the LZVN/LZFSE branch, with a reader that knows only the table format. The compressors are
  parameters. Of zlib it is assumed that `uncompress` inverts `compress2`, that a stream is not empty
  and not longer than `compressBound(65536)`, and that its first byte has 8 in the low nibble (section
  2.2 of RFC 1950); `Container.ConformingCodecExists` shows these assumptions can be met together.
- **Replacing a file.** `Rewrite` is the second half of `compressFile` and of `decompressFile`: every
  system call may fail, writes may store only a part, and the contract of `File.Compress` says for every
  schedule exactly when neither the file nor its backup holds the data any more.
- **What becomes of a file.** `Outcome` says of the bytes alone when a file is skipped, given up, or
  written in which form, for all three compressors.
- **The archive.** `Archive` is the `afsc` writer and reader; `EndToEnd` composes it with the container,
  and compression with decompression on disk.
- **The file-type index and its counters.** `Ordering`, `Extension`, `FileTypes` and `Folder`.
- **The worker pool.** `Pool` is the list drained from both ends, the shared counters and the event, and
  `IoLock` the disk lock with its scopes, both as transition systems over any interleaving.
- **Datasets and stamps.** `DataSet` is the counted change of a ZFS property, with a pool of workers or
  in the main thread alone, with or without the disk lock; `Stamp` the note left on a rewritten file.
- **Thread priorities.** `Priority`.

Some results are that the code does not do what it looks like doing. They are stated exactly, with
an example each:

- A failing `setxattr` of the decmpfs attribute after the resource fork has been written loses the
  file although a backup was asked for (`Rewrite.AttrFailureLosesFile`), and so does an `fclose` whose
  result is not looked at when a file is reverted (`Rewrite.RevertLosesFile`). With a conforming codec
  and a complete backup these two are the only ways (`Rewrite.LostWithConformingCodec`,
  `EndToEnd.CompressOnDisk`).
- `~FileProcessor` calls `CleanupThread` a second time, and nothing orders it after the worker's own
  call. The number of jobs is lowered twice for a worker exactly when at some moment both threads have
  found the flag `cleanedUp` clear and neither has set it, and both go on past their calls
  (`Pool.LoweredTwiceExactly`, with two examples, `Pool.LoweredTwice` and `Pool.LoweredTwiceLate`).
  Until the event is closed each worker is counted once.
- The loop that starts the workers compares with the number of jobs as it goes down: when as many
  workers are done as are still to be started, the rest are never started and the event is never
  signalled (`Pool.StartingExactly`, `Pool.LeftUnstarted`, with the example `Pool.StartsTooFew`).
- `resetCompression` is described as restoring the property when no file is still being processed; the
  decrement is outside the lock, so a restore can come after another worker's change. By default it
  cannot, because the disk lock covers the whole rewrite (`DataSet.ExclusiveUnderControl`). Without
  that lock (`-J`) it can exactly when the other worker raised the count while the restore was pending
  (`DataSet.RewritesUnderControl`, `DataSet.SpoiledExactlyWhenPending`, with the example
  `DataSet.RestoreDuringRewrite`).
- `_setCompression` looks at a quit flag, but with a pool the signal handler sets another one: a worker
  with a file in hand still changes the property (`DataSet.QuitWithPool`, with the example
  `DataSet.ChangedAfterQuit`). Without a pool a change whose command is already running still comes
  into effect (`DataSet.QuitWithoutPool`, with the example `DataSet.ChangeUnderway`).
- `GetThreadPriority` is not always stable: asking twice gives the same level exactly when the policy's
  range is not 4 or 5 wide (`Priority.AskingTwice`).

## Model

| member | source | states |
|---|---|---|
| Container.ConformingCodecExists | src/afsctool.c:761-766 | The assumptions on the compressor can be met together, by one that shortens runs of zeros |
| Container.BothFormsOccur | src/afsctool.c:890-937 | With it there is a file that gets a resource fork, and one whose data goes inline |
| Container.PackedBound | src/afsctool.c:884-889 | No run of blocks exceeds its chunks by more than one byte a block |
| Container.WorstCase | src/afsctool.c:621-622 | A fork never needs more than the file size plus 0x13A plus 9 bytes a block, and needs that exactly when every block is a raw one |
| Container.GateIsExact | src/afsctool.c:474-479 | The size gate, although evaluated in unsigned 32-bit arithmetic, admits exactly the sizes the mathematical bound admits |
| Container.GateCoversFork | src/afsctool.c:474-479 | A file that passes the gate gets a fork of at most 0x7FFFFFFF bytes, each of whose 32-bit fields reads back untruncated; for a file of raw blocks the fork has such a size only if the gate is passed |
| Container.ForkHeader | src/afsctool.c:721-727 | Data and map offsets and lengths of the fork agree with each other and with its size; the data's length word covers everything up to the map; the map is the trailer |
| Container.ForkEntry | src/afsctool.c:907-911 | Each table entry, read back from the fork as 32-bit words, leads to just its block |
| Container.ForkTiled | src/afsctool.c:721-731 | The blocks are contiguous, in order, and tile the region from the table's end to the map offset |
| Container.AttrHeaderFields | src/afsctool.c:703-717 | The 16-byte header reads back as magic, type and size, with the payload behind it |
| Container.ForkIsResourceFile | src/afsctool.c:971-982 | The fork is a resource file with one resource, "cmpf" number 1, without name or attributes, whose data is the first in the data area and goes up to the map |
| ZlibDecoder.BlockRoundTrip | src/afsctool.c:1465-1494 | Either kind of block decodes to its chunk; a stream is never taken for a raw block |
| ZlibDecoder.ForkRoundTrip | src/afsctool.c:1416-1503 | A fork made from any file decodes to exactly that file through none of the rejections and no access outside a buffer |
| ZlibDecoder.InlineRoundTrip | src/afsctool.c:1505-1553 | Inline data decodes to the file, raw or compressed |
| ZlibDecoder.RoundTrip | src/afsctool.c:1376-1553 | Whatever form the encoder chooses, the decoder returns the original bytes |
| ZlibDecoder.PathChoice | src/afsctool.c:890-937 | The header's type names where the data is; only files of one chunk go inline, within 3802 bytes; a fork with its attribute is smaller than the file |
| ZlibDecoder.AcceptedOnlyIf | src/afsctool.c:1378-1553 | Whatever the attribute and the fork: what is decoded has a complete header of type 3 or 4, and the size that header and block table say |
| ZlibDecoder.DecodeEntryInto | src/afsctool.c:1447-1500 | One turn of the decoding loop writes the chunk at its place and nothing else, or returns the error of the entry |
| ZlibDecoder.DecodeInto | src/afsctool.c:1447-1501 | The decoding loop computes the specification in place |
| ZlibDecoder.DecompressFile | src/afsctool.c:1378-1553 | The whole decoder returns what the specification says, errors included |
| ZlibEncoder.ImageAdds | src/afsctool.c:899-911 | Storing a block keeps all blocks and table entries stored before it |
| ZlibEncoder.ImageCloses | src/afsctool.c:971-982 | Closing a complete buffer gives exactly the fork, whatever its uninitialised bytes were |
| ZlibEncoder.MakeBlock | src/afsctool.c:758-889 | Compressing a chunk leaves its block in the block buffer, and in growing mode room for it and pointers into the new buffer |
| ZlibEncoder.GrowBy | src/afsctool.c:767-782 | A reallocation keeps everything stored so far, and both pointers point into the new buffer |
| ZlibEncoder.SizedAdvances | src/afsctool.c:899-906 | In both modes the block fits at the cursor and the sizes stay in step |
| ZlibEncoder.FillFork | src/afsctool.c:752-916 | The chunk loop never overruns the output buffer and leaves either the inline form, a failure or all blocks and entries in place |
| ZlibEncoder.WriteTrailer | src/afsctool.c:974-982 | Field after field, the 50-byte trailer is written and nothing else |
| ZlibEncoder.CloseFork | src/afsctool.c:971-988 | The finished buffer, cut to its length, is the fork |
| ZlibEncoder.CompressFile | src/afsctool.c:345-993 | Growing and single-shot buffers yield the same form byte for byte: the specified one |
| LzEncoder.LzEntryExact | src/afsctool.c:802-805 | A table entry is the true offset exactly when that fits 32 bits |
| LzEncoder.LzSlices | src/afsctool.h:88-92 | First entry is the table's size, last the fork's, entries increase strictly, and neighbours cut out each chunk |
| LzEncoder.LzRoundTrip | src/afsctool.c:937-954 | Every emitted fork is small enough for its table to be exact, and a reader of the format gets the file back; so for inline data |
| LzEncoder.EnterOffset | src/afsctool.c:804-822 | The next offset is entered and the buffer grown, its contents kept across the reallocation |
| LzEncoder.AddChunk | src/afsctool.c:899-901 | After the block has been copied too, the buffer is the table and the blocks with one more of each |
| LzEncoder.LzCompressFile | src/afsctool.c:752-916 | The loop computes the specified form; no overrun |
| Outcome.ProfitableExactly | src/afsctool.c:939-941 | The test for too small a saving, without its division: the bytes saved must be more than the percentage asked for |
| Outcome.ZlibGivesUp | src/afsctool.c:412-884 | A file is skipped exactly when it is empty, larger than asked for or past the gate; it is given up when a chunk fails, or does not shrink and is a full one without -L |
| Outcome.ZlibOutcome | src/afsctool.c:870-984 | Otherwise, by the bytes that are written: inline exactly when one chunk fits 3802 bytes with the header; else a fork exactly when fork and header are smaller than the file and save enough; else nothing |
| Outcome.LzGivesUp | src/afsctool.c:412-868 | The same for LZVN and LZFSE, where a chunk fails on no or an empty result |
| Outcome.LzOutcome | src/afsctool.c:637-954 | The same for their forms, with their type numbers, and with the 50 bytes of a trailer counted that they do not have |
| Rewrite.File.Restore | src/afsctool.c:391-400 | A partial write is reported, and puts nothing wrong into a file that was not truncated |
| Rewrite.File.Replace | src/afsctool.c:933-1102 | For every schedule: content lost with the backup about to go exactly in three cases, content lost with the backup kept exactly in the listed ones; and the result when all goes well |
| Rewrite.File.Revert | src/afsctool.c:1147-1189 | The state after reverting, for any outcome of its calls: the flag off and, as far as the removals succeed, neither attribute left |
| Rewrite.File.Compress | src/afsctool.c:546-1228 | At exit the file reads as the original or the backup on disk holds it, if and only if the schedule is none of the losing ones; when the file stays flagged, and with which bytes; when all undoing calls succeed a file that is not compressed is exactly as before, unless the fork was left behind |
| Rewrite.LostWithConformingCodec | src/afsctool.c:1059-1063 | With a conforming codec: exactly which failing calls lose a file; with a complete backup only two do |
| Rewrite.AttrFailureLosesFile | src/afsctool.c:1059-1063 | The first of them loses every file that gets a fork, backup and all |
| Rewrite.RevertLosesFile | src/afsctool.c:1174-1189 | The second loses every file that is compressed |
| Rewrite.LossesHappen | src/afsctool.c:1059-1189 | Both on the encoder's own forms of two concrete files |
| Rewrite.File.WriteBack | src/afsctool.c:1614-1656 | Decompression keeps the content readable for every schedule but exactly the stated ones, and on success leaves a plain file |
| Archive.NameComesBack | src/afsctool.c:3051-3056 | A name is read back exactly when it fits the 23-byte buffer and has no byte that compares equal to EOF |
| Archive.EntriesComeBack | src/afsctool.c:3049-3082 | All entries come back exactly when each is readable |
| Archive.ArchiveRoundTrip | src/afsctool.c:3021-3086 | Mode and attribute list come back exactly when every attribute is readable |
| Archive.ParseExactly | src/afsctool.c:3021-3086 | For any input: what is extracted is what a readable archive at its start holds, no name twice, and all that follows is an unfinished name |
| Archive.ArchiveBytes | src/afsctool.c:2929-2997 | The archive byte by byte |
| Archive.KeptExactly | src/afsctool.c:2961-2963 | Of a list of attributes those with one of the two names and with data are kept, in order, and no other |
| Archive.Create | src/afsctool.c:2929-2997 | The writer produces the format for the two attributes it keeps |
| Archive.ExtractEntry | src/afsctool.c:3051-3075 | One entry is read as specified, at any position of any input |
| Archive.Extract | src/afsctool.c:3021-3086 | The reader computes the specification on any input |
| EndToEnd.KeptReadable | src/afsctool.c:2961-2963 | What the writer keeps can always be read back |
| EndToEnd.ArchivedFileDecodes | src/afsctool.c:2929-3086 | A compressed file put through an archive decodes to the original, whatever other attributes it had |
| EndToEnd.CompressOnDisk | src/afsctool.c:345-1228 | Encoding and replacing together, for any conforming codec and any schedule: the file can be read or its backup is complete, if and only if none of the named calls fails |
| EndToEnd.ThereAndBack | src/afsctool.c:345-1656 | Compressing and decompressing, for any two schedules: exactly when the content is lost; and when all undoing calls succeed, exactly when the file is as it was, with no attribute, flag or backup |
| Ordering.Search | src/afsctool.c:1779-1794 | The 1-based search ends, probes only inside the table, finds the key if it is there and otherwise the one place where it belongs |
| Ordering.InsertSorted | src/afsctool.c:1812-1813 | Insertion there keeps the table strictly sorted |
| Ordering.CompareExactly | src/afsctool.c:1779-1794 | One name is before another exactly when it is a proper prefix or has the smaller character where they first differ |
| Ordering.CaseCompareExactly | src/afsctool.c:1693-1703 | Two extensions count as equal exactly when they differ at most in the case of ASCII letters |
| Ordering.LowerExactly | src/afsctool.c:1720-1721 | Lower case is the one such spelling without capitals |
| Extension.ExtensionExact | src/afsctool.c:1669-1675 | What counts as an extension, independently of the scan |
| Extension.FindExtension | src/afsctool.c:1669-1675 | The backward scan finds it |
| FileTypes.NewExtensionExactly | src/afsctool.c:1669-1721 | A path adds what follows its last dot, spelt without capitals |
| FileTypes.ExtensionsExactly | src/afsctool.c:1688-1722 | No extension that is kept has a capital, and no two differ in case only |
| FileTypes.RoundedIsLeast | src/afsctool.c:182-198 | The rounded size is the least block multiple that holds the file, and rounding is idempotent |
| FileTypes.EnterExtension | src/afsctool.c:1688-1722 | Adds the lower-cased extension unless it is there, and keeps the list sorted without regard to case |
| Folder.FolderInfo.MakeRoom | src/afsctool.c:1768-1808 | Allocation and doubling keep the entries; capacity then covers one more |
| Folder.FolderInfo.InsertAt | src/afsctool.c:1812-1828 | The shift moves every later entry with its counters |
| Folder.FolderInfo.GetFileTypeInfo | src/afsctool.c:1761-1830 | The sorted table is the map from types to extensions and counters, with this path's type and extension added and all else unchanged |
| Folder.FolderInfo.Count | src/afsctool.c:2103-2122 | Increments reach the entry of their type and the folder's totals, and no other |
| Folder.WholeBlocks | src/afsctool.c:2094-2172 | Each fork of a file is counted with the least number of whole blocks that holds it, those of an uncompressed file one after the other, and the total adds attributes and records to that |
| Folder.IsWanted | src/afsctool.c:2076-2088 | The filter loop decides whether the type, "ALL" or the extension is listed |
| Folder.WantedExactly | src/afsctool.c:2076-2088 | A file is wanted exactly when the list has its type, "ALL", or its extension in whatever case |
| Folder.FolderInfo.ProcessFileInfo | src/afsctool.c:2015-2195 | Totals, index and the share of unmatched files after one file; totals stay the sum over all types plus the unmatched |
| Folder.FolderInfo.Report | src/afsctool.c:3245-3337 | The inverted report is exactly the unmatched total and never negative; there is none when no file has counted for a type |
| Folder.ProcessAll | src/afsctool.c:2015-2195 | After any sequence of files: which types are known and their extensions; and the totals, each type's counters and the inverted report are, field by field, the sums of the files' sizes, blocks, attributes and overheads |
| Pool.ItemList.GetFront | src/ParallelProcess_p.hpp:86-99 | Takes the first item, if there is one |
| Pool.ItemList.GetBack | src/ParallelProcess_p.hpp:101-114 | Takes the last item, if there is one |
| Pool.ConservedNext | src/ParallelProcess.cpp:385-401 | No step loses an item or does it twice |
| Pool.PoolKeepsCount | src/ParallelProcess.cpp:336-348 | In every reachable state: conservation, both counters match the workers' positions, and while the event is open each worker has lowered the number of jobs exactly once when past `workerDone` |
| Pool.EventMeansDone | src/ParallelProcess.cpp:336-348 | The event is signalled only when every worker is done; without a quit request everything has then been processed once |
| Pool.ClosedMeansDone | src/ParallelProcess.cpp:228-264 | `run` gets past the event without a quit request only when everything has been processed once |
| Pool.QuitStopsTaking | src/ParallelProcess.cpp:385-401 | In every run after a quit request a worker takes at most one more item, and only if it had looked at the flag before; no more items leave the list than there were such workers |
| Pool.StartingExactly | src/ParallelProcess.cpp:219-223 | The starting loop stops exactly when as many workers are done as are still to be started, and until then starts the next |
| Pool.LeftUnstarted | src/ParallelProcess.cpp:219-262 | Workers it has left out are never started, and then without a quit request the event is never signalled |
| Pool.StartsTooFew | src/ParallelProcess.cpp:219-223 | Example: an empty list and a first worker that is quick |
| Pool.DeletesInOrder | src/ParallelProcess.cpp:277-326 | Workers are deleted in order and one at a time |
| Pool.TakenInOrder | src/ParallelProcess.cpp:515-526 | From a sorted list, forward items are a prefix, reverse items a reversed suffix, and sizes are ordered across the three parts |
| Pool.TakesExtreme | src/ParallelProcess.cpp:385-390 | Each worker takes a smallest, or in reverse a largest, file of those left |
| Pool.LoweredTwiceExactly | src/ParallelProcess_p.hpp:270-305 | In every run the number of jobs is lowered twice for a worker exactly when at some moment it and the main thread have both found its flag clear with neither having set it, and both are past their calls; otherwise once as soon as either is |
| Pool.JobsAtTheEnd | src/ParallelProcess.cpp:277-348 | When all workers are done and deleted, the number of jobs is short of 0 by exactly the number of workers for which it was so |
| Pool.DeletedInTime | src/ParallelProcess_p.hpp:270-305 | A deletion completed before the worker looks at its flag, or begun after the worker has finished, is harmless: the number is lowered once, whatever comes next |
| Pool.LoweredTwice | src/ParallelProcess_p.hpp:270-305 | Example: deleted between the worker's call and its setting the flag |
| Pool.LoweredTwiceLate | src/ParallelProcess_p.hpp:270-305 | Example: the main thread looks first and calls when the worker has long finished |
| IoLock.MutexScope.Lock | src/CritSectEx/CritSectEx.h:526-532 | Idempotent lock |
| IoLock.MutexScope.Unlock | src/CritSectEx/CritSectEx.h:533-538 | Guarded unlock |
| IoLock.MutexScope.Destroy | src/CritSectEx/CritSectEx.h:501-512 | The destructor unlocks what is locked |
| IoLock.OneAtATime | src/afsctool.c:922-928 | At most one worker rewrites, or in exclusive mode reads; nobody holds the lock while compressing or between items |
| IoLock.NoSelfDeadlock | src/ParallelProcess.cpp:462-475 | No worker waits for the mutex it holds itself |
| IoLock.UnlockIsOwn | src/ParallelProcess.cpp:477-487 | No unlock releases another worker's lock, and the end of an item's scope gives the lock back on every path |
| IoLock.NoDeadlock | src/afsctool.c:484-1219 | Somebody can always go on: the owner of the mutex if there is one |
| DataSet.CompressionInfo.SetCompression | src/zfsctool.cpp:485-497 | The call, undisturbed, is the composition of its steps: lock, count, test and, if the test is passed, command |
| DataSet.CompressionInfo.ResetCompression | src/zfsctool.cpp:507-517 | So is this one, with the restore only when the count was 1 |
| DataSet.ReferencesAccountForChange | src/zfsctool.cpp:485-517 | In every interleaving the property is initial, or a reference is held, or a restore is pending |
| DataSet.OnlyCommandsChange | src/zfsctool.cpp:599-640 | In every run the property is what the last successful command, restore or end has set; a failed command changes nothing |
| DataSet.RestoredWhenQuiet | src/zfsctool.cpp:1072-1223 | When all calls have finished the property is restored if no rewrite was abandoned, and the count is that of the abandoned ones |
| DataSet.RestoredAtTheEnd | src/zfsctool.cpp:666-683 | The end of a run, with or without the forced reset, restores the property for good, whatever references were abandoned |
| DataSet.QuitWithPool | src/zfsctool.cpp:182-206 | With a pool, in every run after a quit request: setCompression tests as before, workers between files stay there for good, and each other enters setCompression at most once more, for the file it has |
| DataSet.QuitBeginsNothing | src/zfsctool.cpp:938-940 | Without a pool, too, no file is begun after the request |
| DataSet.QuitWithoutPool | src/zfsctool.cpp:589-630 | Without one, for every moment after the request: only a change whose command is already running can still come into effect; but for it the property keeps its value until a restore and is initial from then on |
| DataSet.ChangedAfterQuit | src/zfsctool.cpp:198-201 | Example of a change after a quit request, with a pool |
| DataSet.ChangeUnderway | src/zfsctool.cpp:592-630 | Example of a change after a quit request, without one |
| DataSet.AbandonedKeepsChange | src/zfsctool.cpp:1079-1098 | Example: one abandoned rewrite keeps the new value in force |
| DataSet.ExclusiveIsPatient | src/zfsctool.cpp:1066-1233 | With the disk lock held from before setCompression to after resetCompression, as is the default, no count is ever raised while a restore is pending; nor by the main thread alone |
| DataSet.ExclusiveUnderControl | src/zfsctool.cpp:1066-1233 | So in every such run for one codec, without failing commands, all rewrites are under that codec, quit requests to the pool included |
| DataSet.RewritesUnderControl | src/zfsctool.cpp:485-517 | In every run for one codec, without failing commands and in either mode, in which no count is raised while a restore is pending, all rewrites are under that codec, and a restore is pending only at count 0 |
| DataSet.RestoreOvertakes | src/zfsctool.cpp:507-517 | From any state with a pending restore and a worker about to raise the count, four or five steps lead to its rewrite under the initial compression |
| DataSet.SpoiledExactlyWhenPending | src/zfsctool.cpp:485-517 | After any run with no such raise, the next raise can by itself lead to a rewrite under the wrong compression if and only if a restore is pending |
| DataSet.RestoreDuringRewrite | src/zfsctool.cpp:507-517 | Example of a restore during another worker's rewrite, without the disk lock |
| Stamp.Split | src/zfsctool.cpp:257-270 | The loop over getline yields the tokens as specified |
| Stamp.DecimalBack | src/zfsctool.cpp:1199-1201 | A printed time reads back as the same long, negative ones included |
| Stamp.StampFits | src/zfsctool.cpp:1199-1201 | Every accepted codec name and time fits the 42-byte buffer |
| Stamp.StampSplits | src/zfsctool.cpp:723-743 | A stamp splits into exactly its three fields |
| Stamp.StampMeans | src/zfsctool.cpp:751-770 | A stamp counts as the same exactly when codec and time are the same |
| Stamp.ThreeFieldsExactly | src/zfsctool.cpp:257-270 | A text splits into three exactly when it is three fields with "@" and ":" between them, a colon at the end aside |
| Stamp.UnstampedExactly | src/zfsctool.cpp:776-793 | A file with no stamp, or none with three fields, is refused exactly when the dataset compresses so already, without force, and not to undo a compression that works |
| Stamp.FirstThenNever | src/zfsctool.cpp:776-793 | An unstamped file is taken the first time and, untouched, refused the second |
| Stamp.LevelsAccepted | src/zfsctool.cpp:1626-1644 | Levels of gzip go up to 9, of zstd to 19 |
| Stamp.RewrittenOnce | src/zfsctool.cpp:776-793 | An untouched rewritten file is refused for the same codec unless forced; with another codec or time it is always taken |
| Priority.StableLevels | src/CritSectEx/msemul.cpp:1541-1611 | For each level the exact width from which it survives the mapping and back |
| Priority.Quarters | src/CritSectEx/msemul.cpp:1541-1586 | The levels' priorities are the ends, the middle and the quarters of the range |
| Priority.NearestLevel | src/CritSectEx/msemul.cpp:1588-1611 | A priority has the level nearest to it, with the rounding on either side of the middle made exact |
| Priority.AllStable | src/CritSectEx/msemul.cpp:1541-1611 | All five do exactly from a width of 8 |
| Priority.AskingTwice | src/CritSectEx/msemul.cpp:1623-1640 | A second reading agrees with the first exactly when the width is not 4 or 5 |
| Priority.Thread.GetThreadPriority | src/CritSectEx/msemul.cpp:1623-1640 | Returns the level and moves the thread to the level's own priority |
| Priority.Equalise | src/CritSectEx/msemul.cpp:1613-1622 | Setting one thread from another's level makes the two equal at any width |
| Priority.GetTwice | src/CritSectEx/msemul.cpp:1623-1640 | A second reading leaves the thread alone |
| Priority.TooNarrow | src/CritSectEx/msemul.cpp:1588-1611 | Example of width 4 |

## Left out

- zlib, LZVN and LZFSE themselves: parameters. The grow-and-retry loop around the LZFSE encoder, which doubles a size that is zero, is not modelled: an empty result counts as a failure.
- The check that LZVN's last chunk is not too small, and the warning about overlapping LZVN output.
- Failing allocations: `compressFile` goes to `bail` with the file untouched, like any other failure before the replacement.
- Memory mapping of large files: the input is a snapshot. `lseek` to the start of an open regular file is taken not to fail.
- ZlibDecoder.DecompressFile: on forks no encoder writes, a place where the code would read or write outside its buffers, or one with more than 65536 blocks, is reported as the error `OutsideBuffer`.
- Times, modes and the flags other than the compression flag, and reading the attributes of the file to be decompressed.
- FileTypes.EnterExtension: an entry's list of extensions is a value that is copied into an array for an insertion, which reallocates and shifts there; that the buffers of different entries share no memory is taken for granted. The array of types is a real array throughout.
- Folder.ProcessAll: files one after another. Workers call `process_file_info` on one shared record without a lock; what is lost when their increments collide is not modelled.
- Hard links, folders and printing in the accounting; `getFileType`, which asks the system.
- Pool: threads are modelled as a transition system; that `run` ends is not claimed, and forcibly stopped threads, timeouts of waits, and the statistics counters are not modelled. `workerDone` is one step, being under a lock. A worker that goes on after its object has been deleted is modelled as if the object were still there.
- `std::sort` and adding files: any sorted list is the start of the statements about order.
- IoLock: the racy flag `ioLockedFlag` and lock counters.
- DataSet: the zfs command that restores the initial value is assumed to succeed; others may fail. The end of a run comes when no worker is inside; workers that are stopped by force are not modelled. A restore's test and command are one step, as the quit flag does not matter to it.
- Stamp: `stoul` on anything but a number and nothing else.
- Priority: `pthread_setschedparam` is assumed to succeed.
- Option parsing, directory traversal, running the `zfs` command, version checks, and the rest of the Windows emulation.
