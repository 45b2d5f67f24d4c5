# Datability's storage, event-loop and message libraries, verified

The application's own Swift code is user interface and network calls.  What it
rests on is vendored: LevelDB (a log-structured key-value store), libuv (the
event loop used by gRPC) and nanopb (Protocol Buffers for small systems).  This
project models the hard parts of the three and proves what they promise.

- The store is a set of entries (user key, sequence number, value or deletion),
  and a read takes the newest entry at or below a snapshot.  Compaction, the
  choice of its inputs, level lookup, the iterators, group commit, the
  write-ahead log, the descriptor log, the skip list, blocks, tables, filters and
  the cache are each proved against that, or against the list, set or byte string
  they stand for.  ReadPath joins the parts a read passes through.  Stored forms
  are fixed by sample bytes as well as by round trips, and readers are also
  specified on bytes no writer made: LogDamage, EditFormat.
- The thread pool is a state machine whose steps are the pieces of code between
  taking and giving back the mutex; the timer heap is the pointer-linked tree;
  Punycode is proved against a decoder written from RFC 3492, sections 5 and 6,
  and its canonical strings are shown to be unique.
- nanopb's encoder and decoder are proved against the wire format of the Protocol
  Buffers encoding specification ("Base 128 Varints", "Message Structure",
  "Packed Repeated Fields"), for fields the receiver knows and others, and for
  input that does not fit.

Where the C or C++ code updates state, the model has classes and loops, and a
specification on values that lemmas reason about.  Parts that run concurrently
are state machines, with the code of each step proved to take that step.

Conventions.  User keys are real numbers, of which only the order is used;
StoredKeys embeds byte strings in them, order kept.  Checksums, hash functions,
key encodings, random heights and the sizes that decide when to cut a file or
block are parameters, so each statement holds whatever they are.  Files are byte
sequences, locks are atomic steps, and a ghost parameter or result names a list
that the code has only implicitly.

## Findings

- Compaction inputs.  SetupOtherInputs looks for boundary files among the files
  of the level (`db/version_set.cc:1407`, `:1422`) but not among those of the
  next.  CompactionSafety.GatheredIsSafeIff gives the exact condition under which
  the inputs are safe for dropping deletion markers, and
  CompactionSafety.BoundaryFileLeftOutResurfaces a well-formed pair of levels on
  which it fails and a deleted value is read again.
- Edit objects.  VersionEdit::Clear (`db/version_edit.cc:26-39`) leaves the
  compaction pointers, so DecodeFrom into a used object is not the inverse of
  EncodeTo.  VersionEdits.ReusedEditReadsBackIff says exactly when it is.  The
  engine decodes into fresh objects only.
- Recovery.  What MarkFileNumberUsed does for the two log numbers in
  VersionSet::Recover (`db/version_set.cc:986-987`) is overwritten on success.
- Unreachable code.  The case of heap_remove in which the removed node is still
  the minimum after the last node was unlinked (`heap-inl.h`), the error "submsg
  size changed" (`pb_encode.c`) and the corruption error of a block iterator over
  a finished block (`table/block.cc`) are proved unreachable.

## Model

| member | source | states |
|---|---|---|
| DbFormat.CompareIsTotalOrder | Datability/Pods/leveldb-library/db/dbformat.cc:51-67 | The comparison of internal keys is a strict total order whose ties are equal keys: ascending user key, then descending sequence number, then values before deletions. |
| Compactions.Compaction.IsBaseLevelForKey | Datability/Pods/leveldb-library/db/version_set.cc:1533-1552 | Asked for keys in ascending order, the cursor answers what a full scan of all deeper levels answers: no file there covers the key. |
| Compactions.Compaction.ShouldStopBefore | Datability/Pods/leveldb-library/db/version_set.cc:1554-1576 | The output is cut exactly when the grandparent files passed since the last cut exceed the limit, and the count restarts at zero then. |
| Compactions.Compaction.CrossedIsSum | Datability/Pods/leveldb-library/db/version_set.cc:1554-1576 | What is counted towards that limit is the bytes of the files passed, none before the first key. |
| Compactions.Compaction.ShouldDrop | Datability/Pods/leveldb-library/db/db_impl.cc:925-961 | Looking only at the previous entry, the loop drops an entry exactly when a newer entry of its key is at or below the smallest snapshot, or it is a deletion marker at or below it that no deeper level needs. |
| Compactions.Compaction.DoCompactionWork | Datability/Pods/leveldb-library/db/db_impl.cc:899-999 | Whatever the sizes and cuts, the output files hold, in order and once each, exactly the input entries the rules keep. |
| CompactionMeaning.KeptIsSurvivors | Datability/Pods/leveldb-library/db/db_impl.cc:899-999 | The kept list is sorted and is, as a set, the inputs minus the dropped entries. |
| CompactionMeaning.OneVersionKept | Datability/Pods/leveldb-library/db/db_impl.cc:940-948 | Of each key the output keeps at most one entry that the smallest snapshot sees. |
| CompactionMeaning.DeeperIsStoredBelow | Datability/Pods/leveldb-library/db/version_set.cc:1533-1552 | Whatever a table at level + 2 or deeper holds, the scan for a base level finds a file for it. |
| CompactionMeaning.KeptMarkerHasFileBelow | Datability/Pods/leveldb-library/db/db_impl.cc:949-959 | The other way round: a deletion marker every snapshot sees is kept only for a file at level + 2 or deeper whose range holds the key. |
| CompactionMeaning.CompactionInvisibleIff | Datability/Pods/leveldb-library/db/db_impl.cc:940-961 | For every key and every snapshot from the smallest on, reads over kept entries plus the rest equal reads over inputs plus the rest, if and only if no dropped marker is newer than an entry of its key outside the inputs. |
| CompactionMeaning.CompactionPreservesReads | Datability/Pods/leveldb-library/db/db_impl.cc:949-959 | Reads are unchanged when the inputs take in every entry of their keys that is older and not deeper than level + 1, the other entries being held by tables of the deeper levels. |
| CompactionMeaning.LiveReadersUnaffected | Datability/Pods/leveldb-library/db/db_impl.cc:889-999 | With the smallest live snapshot as threshold, every held snapshot and every later read sees the same value or absence before and after. |
| CompactionMeaning.SmallestIsSmallest | Datability/Pods/leveldb-library/db/db_impl.cc:890-894 | That threshold is the oldest snapshot held, or the last sequence number if none is. |
| CompactionMeaning.OlderEntryLeftOutResurfaces | Datability/Pods/leveldb-library/db/db_impl.cc:949-959 | A concrete marker and older value: left outside the inputs, the value comes back when the marker is dropped. |
| CompactionInputs.GetOverlappingInputs | Datability/Pods/leveldb-library/db/version_set.cc:519-559 | The restarting scan ends with exactly the files that meet a range; at level 0 the range is the least one that contains the request and is closed under overlap. |
| CompactionInputs.FindLargestKey | Datability/Pods/leveldb-library/db/version_set.cc:1326-1340 | None for no files, else the greatest largest key among them. |
| CompactionInputs.FindSmallestBoundaryFile | Datability/Pods/leveldb-library/db/version_set.cc:1344-1361 | Finds the file that starts soonest after the key with the same user key, and none exactly when no file starts so. |
| CompactionInputs.AddBoundaryInputs | Datability/Pods/leveldb-library/db/version_set.cc:1378-1401 | Ends; adds no file twice; each added file continues the user key at the end of those before; afterwards no file of the level continues the last key. |
| CompactionInputs.GetRange | Datability/Pods/leveldb-library/db/version_set.cc:1205-1224 | The bounds are the least smallest and the greatest largest key of the files. |
| CompactionInputs.VersionSet.SetupOtherInputs | Datability/Pods/leveldb-library/db/version_set.cc:1403-1462 | The inputs of the level lose no file and are closed at their end, the next level contributes all files overlapping them, they grow only below the size limit and only if the next level contributes no more, and the compaction pointer is their largest key. |
| CompactionInputs.OverlappingIsRun | Datability/Pods/leveldb-library/db/version_set.cc:519-559 | On a level of disjoint files the overlapping ones are consecutive. |
| CompactionSafety.RunIsSafeIff | Datability/Pods/leveldb-library/db/version_set.cc:1363-1401 | A run of consecutive files leaves no older entry of its keys behind if and only if no file of the level continues its last user key. |
| CompactionSafety.GatheredIsSafeIff | Datability/Pods/leveldb-library/db/version_set.cc:1403-1462 | The gathered inputs of two levels leave no older entry outside if and only if no file of the deeper level continues the last user key of the inputs there. |
| CompactionSafety.GatheredCompactionInvisible | Datability/Pods/leveldb-library/db/version_set.cc:1403-1462 | Under that condition, compacting the gathered inputs changes no read at or above the smallest snapshot. |
| CompactionSafety.VersionReadsUnchanged | Datability/Pods/leveldb-library/db/db_impl.cc:889-999 | Over a memtable and all seven levels, every read at or above the smallest snapshot is the same after the output of the merge loop has replaced the gathered inputs. |
| CompactionSafety.SplitLevelsAreGathered | Datability/Pods/leveldb-library/db/version_set.cc:1407-1422 | Concrete levels on which the gathered inputs leave a boundary file of the deeper level behind. |
| CompactionSafety.BoundaryFileLeftOutResurfaces | Datability/Pods/leveldb-library/db/version_set.cc:1422 | On those levels a deleted value is read again after the compaction. |
| ThreadPoolProtocol.InitInv | Datability/Pods/Libuv-gRPC/src/threadpool.c:188-234 | The pool starts in the invariant. |
| ThreadPoolProtocol.SubmitKeeps | Datability/Pods/Libuv-gRPC/src/threadpool.c:142-161 | Posting fast or slow work keeps the invariant, with or without the sentinel already linked. |
| ThreadPoolProtocol.SectionEffect | Datability/Pods/Libuv-gRPC/src/threadpool.c:71-128 | What one worker takes in one critical section, including giving back or relinking the sentinel, conserves the queued work and the slow-work count. |
| ThreadPoolProtocol.TryCancelKeeps | Datability/Pods/Libuv-gRPC/src/threadpool.c:269-292 | Cancelling, granted or refused, keeps the invariant. |
| ThreadPoolProtocol.StepKeepsInv | Datability/Pods/Libuv-gRPC/src/threadpool.c:57-315 | Every atomic step of submitters, workers, cancellers and loops keeps the invariant. |
| ThreadPoolRuns.RunKeepsInv | Datability/Pods/Libuv-gRPC/src/threadpool.c:57-315 | It holds in every state of every run. |
| ThreadPoolRuns.SubmittedRequestIsInOnePlace | Datability/Pods/Libuv-gRPC/src/threadpool.c:57-315 | In every state of every run, each submitted request occurs exactly once over all queues, workers, batches and cancellers until it is finished. |
| ThreadPoolRuns.CallbacksOverRuns | Datability/Pods/Libuv-gRPC/src/threadpool.c:269-315 | Work runs at most once and never after a successful cancel; the done callback runs at most once, with UV_ECANCELED exactly when cancelled, and its status never changes. |
| ThreadPoolRuns.CancelSucceedsIff | Datability/Pods/Libuv-gRPC/src/threadpool.c:269-292 | Cancelling succeeds exactly for requests still queued or already cancelled, never for one a worker holds or has run. |
| ThreadPoolRuns.ThrottleOverRuns | Datability/Pods/Libuv-gRPC/src/threadpool.c:45-47 | Running slow work equals the counter and is at most half the threads, rounded up; slow work waiting means the sentinel is linked exactly once. |
| ThreadPoolRuns.WaitsOnlyAtTheLimit | Datability/Pods/Libuv-gRPC/src/threadpool.c:71-77 | A worker goes to sleep only with no other work queued, and beside pending slow work only if at least half of the threads run slow work. |
| ThreadPoolRuns.SectionChoice | Datability/Pods/Libuv-gRPC/src/threadpool.c:79-116 | A worker takes the oldest request, or the oldest slow one if the sentinel is in front and the limit allows, and nothing only if it finds neither. |
| ThreadPoolRuns.QueuesAreFifo | Datability/Pods/Libuv-gRPC/src/threadpool.c:142-161 | Every step adds requests at the back and takes them from the front of the two queues; only a cancelled one leaves from elsewhere. |
| ThreadPoolRuns.CompletionsAreFifo | Datability/Pods/Libuv-gRPC/src/threadpool.c:295-315 | Done callbacks run in the order of completion, loop by loop, over queue and batch. |
| ThreadPoolRuns.QueuedWorkHasAWorker | Datability/Pods/Libuv-gRPC/src/threadpool.c:142-161 | While any request is queued, some worker is awake or has been signalled: no wakeup is lost. |
| ThreadPoolRuns.WorkerCanProceed | Datability/Pods/Libuv-gRPC/src/threadpool.c:57-139 | A worker without work is never stuck inside its critical section. |
| ThreadPoolCode.ThreadPool.Submit | Datability/Pods/Libuv-gRPC/src/threadpool.c:142-161 | The code of post on the global queues takes the step of the protocol. |
| ThreadPoolCode.ThreadPool.NextJob | Datability/Pods/Libuv-gRPC/src/threadpool.c:71-116 | The worker loop over the queues, sentinel and slow queue included, takes what the protocol takes. |
| ThreadPoolCode.ThreadPool.TryCancel | Datability/Pods/Libuv-gRPC/src/threadpool.c:269-292 | The code of cancel answers 0 exactly when the request is cancellable and UV_EBUSY otherwise, and takes the protocol step. |
| ThreadPoolCode.ThreadPool.RunDone | Datability/Pods/Libuv-gRPC/src/threadpool.c:295-315 | The callback gets the status recorded for the request. |
| DbIter.ShownIsInView | Datability/Pods/leveldb-library/db/db_iter.cc:168-198 | The newest visible entry of a key, if not a deletion, is what the map of visible keys has. |
| DbIter.NextPrevInverse | Datability/Pods/leveldb-library/db/db_iter.cc:141-267 | On the map of visible keys the two moves undo each other. |
| DbIter.DBIter.Next | Datability/Pods/leveldb-library/db/db_iter.cc:141-166 | From any valid state, in either direction, moves to the least visible key above the current one, or becomes invalid exactly when there is none. |
| DbIter.DBIter.Prev | Datability/Pods/leveldb-library/db/db_iter.cc:200-267 | From any valid state, in either direction, moves to the greatest visible key below, or becomes invalid exactly when there is none. |
| DbIter.DBIter.Seek | Datability/Pods/leveldb-library/db/db_iter.cc:269-281 | Stands on the least visible key at or above the target. |
| DbIter.DBIter.SeekToFirst | Datability/Pods/leveldb-library/db/db_iter.cc:283-292 | Stands on the least visible key. |
| DbIter.DBIter.SeekToLast | Datability/Pods/leveldb-library/db/db_iter.cc:294-298 | Stands on the greatest visible key. |
| DbIter.DBIter.ShowsTheMap | Datability/Pods/leveldb-library/db/db_iter.cc:64-71 | Wherever it stands, key and value are an item of the map of visible, undeleted keys at the snapshot. |
| Merger.MergingIterator.Next | Datability/Pods/leveldb-library/table/merger.cc:55-79 | The least key of the union above the current one, also right after moving backward. |
| Merger.MergingIterator.Prev | Datability/Pods/leveldb-library/table/merger.cc:81-108 | The greatest key of the union below the current one, also right after moving forward. |
| Merger.MergingIterator.Seek | Datability/Pods/leveldb-library/table/merger.cc:47-53 | The least key of the union at or after the target. |
| Merger.MergingIterator.SeekToFirst | Datability/Pods/leveldb-library/table/merger.cc:31-37 | The least key of the union. |
| Merger.MergingIterator.SeekToLast | Datability/Pods/leveldb-library/table/merger.cc:39-45 | The greatest key of the union. |
| TwoLevel.SeekIsLowerBound | Datability/Pods/leveldb-library/table/two_level_iterator.cc:82-87 | Seeking the index and then one block, or else going on to the next non-empty one, finds the first entry of all blocks at or after the target. |
| TwoLevel.TwoLevelIterator.Seek | Datability/Pods/leveldb-library/table/two_level_iterator.cc:82-87 | Stands on the first entry of the concatenated blocks at or after the target. |
| TwoLevel.TwoLevelIterator.Next | Datability/Pods/leveldb-library/table/two_level_iterator.cc:103-126 | The next entry of the concatenation, over any number of empty blocks. |
| TwoLevel.TwoLevelIterator.Prev | Datability/Pods/leveldb-library/table/two_level_iterator.cc:109-139 | The previous entry of the concatenation, over any number of empty blocks. |
| TwoLevel.TwoLevelIterator.SeekToLast | Datability/Pods/leveldb-library/table/two_level_iterator.cc:96-101 | The last entry of the concatenation. |
| TwoLevel.TwoLevelIterator.CurrentIsAt | Datability/Pods/leveldb-library/table/two_level_iterator.cc:31-39 | The entry shown is the one at that position of the concatenation. |
| LogFormat.LogRoundTrip | Datability/Pods/leveldb-library/db/log_writer.cc:34-108 | For every sequence of records and every checksum function, reading the written file from the start gives exactly the records and reports no corruption. |
| LogFormat.LogCrashSafety | Datability/Pods/leveldb-library/db/log_reader.cc:56-174 | For every byte prefix of the file, reading gives exactly the records that lie wholly inside it and reports no corruption. |
| LogDamage.PhysicalIs | Datability/Pods/leveldb-library/db/log_reader.cc:189-271 | For any file: a record is returned exactly if its header, length and checksum are right where it stands; else its block is dropped, with a report unless the record is blank, or the file ends within it. |
| LogDamage.RecordIsStored | Datability/Pods/leveldb-library/db/log_reader.cc:56-174 | Whatever is returned, from any file, is the payload of consecutive intact records of types FULL or FIRST, MIDDLE and LAST. |
| LogDamage.DamageIsReported | Datability/Pods/leveldb-library/db/log_reader.cc:243-256 | A complete record with a wrong checksum is never returned, is reported, and takes the rest of its block and a record in progress with it. |
| LogFormat.ReadFragments | Datability/Pods/leveldb-library/db/log_reader.cc:56-174 | Reading a fragmented record puts its data together, or finds the end of a cut file, across blocks, trailers and empty fragments. |
| LogFormat.ReadTruncated | Datability/Pods/leveldb-library/db/log_reader.cc:189-271 | A physical record cut off anywhere reads as the end of the file, not as corruption. |
| LogFormat.ReadTrailer | Datability/Pods/leveldb-library/db/log_reader.cc:189-215 | A block tail too short for a header is skipped. |
| LogFormat.MaskedCrcUnmasks | Datability/Pods/leveldb-library/util/crc32c.h:29-38 | Unmasking undoes masking for every 32-bit checksum. |
| Coding.MaskRotates | Datability/Pods/leveldb-library/util/crc32c.h:29-32 | The mask rotates by 15 bits and adds 0xa282ead8. |
| LogFormat.LeftoverIsModulo | Datability/Pods/leveldb-library/db/log_writer.cc:26-29 | Blocks are of 32768 bytes. |
| LogCode.Writer.AddRecord | Datability/Pods/leveldb-library/db/log_writer.cc:34-80 | The fragmenting loop appends exactly the fragments of the record for the current block offset. |
| LogCode.Reader.ReadPhysicalRecord | Datability/Pods/leveldb-library/db/log_reader.cc:189-271 | Reading block by block through the buffer gives the physical record at the current file position, and counts a corruption exactly when bytes are dropped. |
| LogCode.Reader.ReadRecord | Datability/Pods/leveldb-library/db/log_reader.cc:56-174 | The assembling loop gives the logical record at the current position, the position after it, and the number of reports. |
| Punycode.DigitRoundTrip | Datability/Pods/Libuv-gRPC/src/idna.c:104 | The 36 digits are distinct and read back (section 5 of RFC 3492). |
| Punycode.IntegerRoundTrip | Datability/Pods/Libuv-gRPC/src/idna.c:192-218 | Generalized variable-length integers decode to the number encoded and leave the rest, for any bias. |
| PunycodeSamples.BuecherIsWritten | Datability/Pods/Libuv-gRPC/src/idna.c:102-246 | "bcher-kva" is the canonical string for b, U+00FC, c, h, e, r, and the only one. |
| PunycodeSamples.KinpachiIsWritten | Datability/Pods/Libuv-gRPC/src/idna.c:102-246 | Likewise sample (L) of section 7.1 of RFC 3492, whose six deltas exercise every parameter. |
| PunycodeUnique.OneEncoding | Datability/Pods/Libuv-gRPC/src/idna.c:102-246 | Two canonical strings, with lower-case digits, that decode to the same label are equal. |
| Idna.WriteDelta | Datability/Pods/Libuv-gRPC/src/idna.c:192-218 | The digit loop writes the variable-length integer without a wrap of its 32-bit position. |
| Idna.AdaptBias | Datability/Pods/Libuv-gRPC/src/idna.c:220-236 | The bias is the one of section 6.1 of RFC 3492, with no 32-bit wrap. |
| Idna.SkipTo | Datability/Pods/Libuv-gRPC/src/idna.c:167-181 | Overflow of delta is reported exactly by the test of the code, and otherwise the insertion position moves on correctly. |
| Idna.WriteDeltas | Datability/Pods/Libuv-gRPC/src/idna.c:161-243 | When it succeeds, what was written decodes (section 6.2 of RFC 3492) from the basic code points to the whole label. |
| Idna.LabelDecodes | Datability/Pods/Libuv-gRPC/src/idna.c:120-245 | The basic code points, the delimiter and the deltas together decode to the label. |
| Idna.ToAsciiLabel | Datability/Pods/Libuv-gRPC/src/idna.c:102-246 | Rejects a label exactly when it has an invalid code point; copies an all-ASCII label; otherwise writes "xn--" and the canonical string that decodes to the label, or reports overflow, which it never does on labels of at most 3854 code points. |
| TimerHeap.RootIsLeast | Datability/Pods/Libuv-gRPC/src/heap-inl.h:67-69 | In a min-ordered complete tree no node is less than the root. |
| TimerHeap.RewiredIsTree | Datability/Pods/Libuv-gRPC/src/heap-inl.h:72-104 | Rewiring the links around a parent and child gives the tree with the two exchanged. |
| TimerHeap.Heap.PathTo | Datability/Pods/Libuv-gRPC/src/heap-inl.h:162-167 | Walking down from the root along the path computed reaches exactly the position it was computed for, without a 32-bit wrap. |
| TimerHeap.Heap.Insert | Datability/Pods/Libuv-gRPC/src/heap-inl.h:106-148 | Keeps a complete tree of nelts nodes with right parent links in min order, and adds exactly the node. |
| TimerHeap.Heap.Remove | Datability/Pods/Libuv-gRPC/src/heap-inl.h:150-237 | Keeps all that and takes out exactly the node, wherever it is, sifting the last one up or down. |
| TimerHeap.Heap.NodeSwap | Datability/Pods/Libuv-gRPC/src/heap-inl.h:72-104 | Swapping parent and child by rewriting up to eight links leaves the rest of the tree in place. |
| Timers.MinIsLeast | Datability/Pods/Libuv-gRPC/src/timer.c:133-152 | The heap is empty exactly when its minimum is null, and no timer is due before the minimum. |
| Timers.DeadlineIs | Datability/Pods/Libuv-gRPC/src/timer.c:78-80 | A timer is due at the exact sum unless that does not fit in 64 bits, and a longer timeout is never due earlier. |
| Timers.Loop.Start | Datability/Pods/Libuv-gRPC/src/timer.c:66-95 | Fails exactly on a closing handle or no callback, changing nothing; else the timer is due at time plus timeout, saturated at the 64-bit maximum, with the next start number. |
| Timers.Loop.Stop | Datability/Pods/Libuv-gRPC/src/timer.c:97-107 | Afterwards the timer is not in the heap and the others are. |
| Timers.Loop.Again | Datability/Pods/Libuv-gRPC/src/timer.c:110-121 | Restarts a repeating timer after its repeat, leaves a one-shot one alone. |
| Timers.Loop.NextTimeout | Datability/Pods/Libuv-gRPC/src/timer.c:133-152 | -1 exactly with no timers, 0 exactly when one is due, else the exact wait, cut at INT_MAX. |
| Timers.Loop.RunTimers | Datability/Pods/Libuv-gRPC/src/timer.c:154-171 | Ends; fires exactly the timers due, once each, in order of due time and start number; repeating ones are pending again and the others are not. |
| LevelLookup.FindFile | Datability/Pods/leveldb-library/db/version_set.cc:88-106 | The binary search gives the first file whose largest key is at or after the key. |
| LevelLookup.SeekFinds | Datability/Pods/leveldb-library/db/version_set.cc:263-276 | The first entry at or after the lookup key, if of the same user key, is the newest one at the snapshot, and otherwise there is none. |
| LevelLookup.SearchSorted | Datability/Pods/leveldb-library/db/version_set.cc:365-380 | One file decides for a level of disjoint files, also when the user key ends one file and starts the next. |
| LevelLookup.SearchLevel0 | Datability/Pods/leveldb-library/db/version_set.cc:349-364 | Overlapping files from the newest on: the first answer is the newest entry. |
| LevelLookup.Version.Get | Datability/Pods/leveldb-library/db/version_set.cc:326-421 | The answer is the newest entry at or below the snapshot over all files of all levels. |
| LevelLookup.Get | Datability/Pods/leveldb-library/db/db_impl.cc:1100-1145 | Memtable, immutable memtable and version in turn give what reading all entries gives. |
| LevelLookup.NewestFirstIsSorted | Datability/Pods/leveldb-library/db/version_set.cc:278-280 | Orders the candidate files by descending number, losing and adding none. |
| SkipListProtocol.StepKeepsInv | Datability/Pods/leveldb-library/db/skiplist.h:337-368 | Every single store of an insertion and every load of a search keeps the invariant. |
| SkipListRuns.LevelsAreSortedSublists | Datability/Pods/leveldb-library/db/skiplist.h:337-368 | After every store each level is strictly sorted, holds exactly its nodes, and is a sublist of the level below. |
| SkipListRuns.ReturnIsExact | Datability/Pods/leveldb-library/db/skiplist.h:260-302 | When a search returns it has the place of its goal in level 0 at that moment. |
| SkipListRuns.LoadMoves | Datability/Pods/leveldb-library/db/skiplist.h:260-302 | Every load goes down a level or strictly shortens what is left of it. |
| SkipListRuns.SearchNeverMisses | Datability/Pods/leveldb-library/db/skiplist.h:260-322 | However stores interleave with a search, it does not pass over a key that was in the list when it began, and finds it if that is its goal. |
| SkipListCode.SkipList.FindGreaterOrEqual | Datability/Pods/leveldb-library/db/skiplist.h:260-282 | First node at or after the key in level 0, and the predecessor at every level in use. |
| SkipListCode.SkipList.FindLessThan | Datability/Pods/leveldb-library/db/skiplist.h:285-302 | The last node before the key. |
| SkipListCode.SkipList.FindLast | Datability/Pods/leveldb-library/db/skiplist.h:305-322 | The last node. |
| SkipListCode.SkipList.Insert | Datability/Pods/leveldb-library/db/skiplist.h:337-368 | Adds exactly the key, at the levels of its height, and its stores are a run of the protocol. |
| SkipListCode.SkipList.Contains | Datability/Pods/leveldb-library/db/skiplist.h:371-378 | True exactly when some node has the key. |
| SkipListCode.Iterator.Next | Datability/Pods/leveldb-library/db/skiplist.h:207-210 | The least key above the current one. |
| SkipListCode.Iterator.Prev | Datability/Pods/leveldb-library/db/skiplist.h:213-221 | The greatest key below the current one. |
| GroupCommitProtocol.TakeKeepsSyncRule | Datability/Pods/leveldb-library/db/db_impl.cc:1284-1288 | No sync writer is in the group of a leader that does not sync. |
| GroupCommitProtocol.TakeIsLimited | Datability/Pods/leveldb-library/db/db_impl.cc:1266-1301 | A group stays within a megabyte, or 128 KB beyond a small first batch, and ends only at the queue end, a sync writer or that limit. |
| GroupCommitProtocol.StepKeepsInv | Datability/Pods/leveldb-library/db/db_impl.cc:1185-1306 | Every step of writers and leader, also failures and switches of the log file, keeps the invariant. |
| GroupCommitRuns.RunKeepsInv | Datability/Pods/leveldb-library/db/db_impl.cc:1185-1306 | It holds in every state of every run. |
| GroupCommitRuns.OperationHasItsNumber | Datability/Pods/leveldb-library/db/db_impl.cc:1202-1236 | The j-th operation of a member has its own number, and the memtable has it under that number exactly if the group succeeded. |
| GroupCommitRuns.NumbersFollowArrival | Datability/Pods/leveldb-library/db/db_impl.cc:1192-1209 | Numbers are handed out in order of arrival, in disjoint consecutive ranges. |
| GroupCommitRuns.CoveredIsInMemtable | Datability/Pods/leveldb-library/db/db_impl.cc:1209-1236 | Every number up to LastSequence belongs to one finished group, and to the memtable exactly if that succeeded. |
| GroupCommitRuns.WhatReadersSeeStays | Datability/Pods/leveldb-library/db/db_impl.cc:1209-1236 | What a reader at some LastSequence can see is the same in all later states. |
| GroupCommitRuns.CompletedOnce | Datability/Pods/leveldb-library/db/db_impl.cc:1239-1256 | A writer once completed keeps its status. |
| GroupCommitRuns.OneGroupEach | Datability/Pods/leveldb-library/db/db_impl.cc:1239-1256 | Each writer is in one group only and has the status of that group. |
| GroupCommitRuns.AcknowledgedIsStored | Datability/Pods/leveldb-library/db/db_impl.cc:1213-1236 | A write that returned success is in the log, synced if it asked for that, and in the memtable operation by operation. |
| GroupCommitRuns.SyncFailureHalts | Datability/Pods/leveldb-library/db/db_impl.cc:1225-1234 | A failed sync puts the store in the error state. |
| GroupCommitRuns.ErrorsHaveACause | Datability/Pods/leveldb-library/db/db_impl.cc:1221-1234 | Only a failed sync or a background error puts it there, once. |
| GroupCommitRuns.HaltedWritersFail | Datability/Pods/leveldb-library/db/db_impl.cc:1310-1320 | A writer that gets to the front then fails with that error. |
| GroupCommitRuns.HaltedStays | Datability/Pods/leveldb-library/db/db_impl.cc:1310-1320 | In the error state nothing is logged any more. |
| GroupCommitCode.DBImpl.BuildBatchGroup | Datability/Pods/leveldb-library/db/db_impl.cc:1260-1306 | The loop takes the group of the protocol, concatenates its batches in order and leaves the first batch alone. |
| GroupCommitCode.DBImpl.CompleteGroup | Datability/Pods/leveldb-library/db/db_impl.cc:1239-1251 | Exactly the group leaves the queue, and all but the leader get the status. |
| VersionEdits.EditRoundTrip | Datability/Pods/leveldb-library/db/version_edit.cc:41-205 | A fresh edit reads back every edit whose numbers and keys fit, in whatever order the deleted files were written. |
| VersionEdits.ReusedEditReadsBackIff | Datability/Pods/leveldb-library/db/version_edit.cc:26-39 | An edit object that was used before reads a record back exactly when it holds no compaction pointers. |
| EditFormat.TornRecordFails | Datability/Pods/leveldb-library/db/version_edit.cc:107-205 | A record cut off within an entry is corrupt; cut off between entries it is the record of those before. |
| EditFormat.UnknownTagFails | Datability/Pods/leveldb-library/db/version_edit.cc:190-192 | An unknown tag after any entries makes a record corrupt. |
| EditFormat.WrongLevelFails | Datability/Pods/leveldb-library/db/version_edit.cc:97-105 | So does a level that does not exist. |
| EditFormat.NumbersOnDisk | Datability/Pods/leveldb-library/db/version_edit.cc:41-85 | The bytes of sample entries. |
| EditFormat.NewFileOnDisk | Datability/Pods/leveldb-library/db/version_edit.cc:74-84 | The bytes of a sample added file. |
| VersionEdits.VersionEdit.EncodeTo | Datability/Pods/leveldb-library/db/version_edit.cc:41-85 | Writes the entries of the edit in the order of the code. |
| VersionEdits.VersionEdit.DecodeFrom | Datability/Pods/leveldb-library/db/version_edit.cc:107-205 | Succeeds exactly on well-formed records, with the fields they set. |
| StoredKeys.RankKeepsOrder | Datability/Pods/leveldb-library/util/comparator.cc:25-27 | Byte strings embed in the ordered keys of the model, order kept both ways and one-to-one. |
| StoredKeys.PackedKeepsOrder | Datability/Pods/leveldb-library/db/dbformat.cc:51-67 | The comparator on user key and packed tag is the order of internal keys. |
| StoredKeys.KeyRoundTrip | Datability/Pods/leveldb-library/db/dbformat.cc:20-23 | User key and eight bytes of tag read back. |
| StoredKeys.ByteCodecStores | Datability/Pods/leveldb-library/db/version_edit.cc:87-95 | The byte encoding stores a key exactly when its length fits 32 bits. |
| StoredKeys.ByteKeyedFileFits | Datability/Pods/leveldb-library/db/version_edit.cc:74-84 | Edits that add files between any such keys can be written. |
| VersionBuilder.SameFilesSameList | Datability/Pods/leveldb-library/db/version_set.cc:592-606 | The order leaves one way to list a set of files. |
| VersionBuilder.SavedAre | Datability/Pods/leveldb-library/db/version_set.cc:695-754 | Saving after an edit lists, in order, the files that were there and are not deleted, and the added ones. |
| VersionBuilder.OrderIs | Datability/Pods/leveldb-library/db/version_set.cc:592-606 | Files are ordered by smallest key and then by number. |
| VersionBuilder.OneMoreEdit | Datability/Pods/leveldb-library/db/version_set.cc:650-754 | One builder fed one more edit saves what a new builder over the saved version does. |
| VersionBuilder.OnceIsEachInTurn | Datability/Pods/leveldb-library/db/version_set.cc:650-754 | With numbers fresh to their level, any number of edits in one builder saved once give the file list of a version per edit. |
| VersionBuilder.ReusedNumberResurfaces | Datability/Pods/leveldb-library/db/version_set.cc:688-690 | Without that condition, on inputs the engine does not produce, a deleted file would come back. |
| ManifestReplay.SnapshotRestores | Datability/Pods/leveldb-library/db/version_set.cc:1088-1116 | A snapshot record alone rebuilds the version and the compaction pointers it was taken of. |
| ManifestReplay.ReplayedIff | Datability/Pods/leveldb-library/db/version_set.cc:933-946 | A descriptor log is read exactly if every record is an edit that names no other comparator. |
| ManifestReplay.LastPointer | Datability/Pods/leveldb-library/db/version_set.cc:652-657 | The last compaction pointer given for a level counts. |
| ManifestReplay.AgreesStep | Datability/Pods/leveldb-library/db/version_set.cc:801-884 | Replayed and live state agree after one more record, level by level. |
| ManifestReplay.ReplayIsLive | Datability/Pods/leveldb-library/db/version_set.cc:924-1008 | Replaying a snapshot and the encoded edits since gives the version the edits lead to one by one, its compaction pointers, and the numbers of the last edit. |
| ManifestCode.Builder.Apply | Datability/Pods/leveldb-library/db/version_set.cc:650-692 | The loops over an edit change every level and pointer as specified. |
| ManifestCode.Builder.SaveTo | Datability/Pods/leveldb-library/db/version_set.cc:695-754 | The merging loops list every level as specified. |
| ManifestCode.VersionSet.LogAndApply | Datability/Pods/leveldb-library/db/version_set.cc:801-884 | Makes the next version current and leaves a descriptor log that would restore all of it, the first time with a snapshot before the record. |
| ManifestCode.VersionSet.WriteSnapshot | Datability/Pods/leveldb-library/db/version_set.cc:1088-1116 | Writes the record of all files and pointers. |
| ManifestCode.VersionSet.Recover | Datability/Pods/leveldb-library/db/version_set.cc:924-1000 | Succeeds exactly when all records decode, name no other comparator and give the three required numbers, and installs what they describe. |
| ManifestCode.VersionSet.constructor | Datability/Pods/leveldb-library/db/version_set.cc:757-775 | An empty database meets the invariant, whatever the key codec. |
| ManifestCode.PointersAgain | Datability/Pods/leveldb-library/db/version_set.cc:652-657 | Setting the same compaction pointers again changes nothing. |
| BlockFormat.FastPathAgrees | Datability/Pods/leveldb-library/table/block.cc:57-62 | The one-byte fast path decodes lengths as the general one does. |
| BlockFormat.EntryDecodes | Datability/Pods/leveldb-library/table/block.cc:54-74 | Decoding an encoded entry gives its lengths and what follows. |
| BlockFormat.EachRunIsFull | Datability/Pods/leveldb-library/table/block_builder.cc:77-90 | Every interval-th entry starts a run, and no other. |
| BlockFormat.CommonPrefixIsLongest | Datability/Pods/leveldb-library/table/block_builder.cc:79-85 | No more could be shared with the key before. |
| BlockFormat.BlockOnDisk | Datability/Pods/leveldb-library/table/block_builder.cc:5-27 | The bytes of a sample block. |
| BlockCode.PutVarint32 | Datability/Pods/leveldb-library/util/coding.cc:47-79 | The five-way split writes the base-128 form of every 32-bit number. |
| BlockCode.BlockBuilder.Add | Datability/Pods/leveldb-library/table/block_builder.cc:72-106 | Appends the entry, prefix-compressed unless it starts a restart run. |
| BlockCode.BlockBuilder.Finish | Datability/Pods/leveldb-library/table/block_builder.cc:62-70 | The finished block is the encoding of exactly the entries added. |
| BlockCode.BlockIter.Next | Datability/Pods/leveldb-library/table/block.cc:137-140 | Goes to the next entry of the block built from the entries, invalid after the last. |
| BlockCode.BlockIter.Prev | Datability/Pods/leveldb-library/table/block.cc:142-161 | Goes to the entry before, through the restart point, invalid before the first. |
| BlockCode.BlockIter.Seek | Datability/Pods/leveldb-library/table/block.cc:163-201 | Restart-point binary search and linear scan stop at the first key at or after the target, for any restart interval. |
| BlockCode.BlockIter.SeekToLast | Datability/Pods/leveldb-library/table/block.cc:208-213 | Stands on the last entry. |
| BlockCode.BlockIter.ParseNextKey | Datability/Pods/leveldb-library/table/block.cc:224-251 | Rebuilds the next key from its prefix; a finished block never reads as corrupt. |
| Comparators.BelowIsOrder | Datability/Pods/leveldb-library/util/comparator.cc:25-27 | The byte order is a strict total order. |
| Comparators.FindShortestSeparator | Datability/Pods/leveldb-library/util/comparator.cc:29-50 | Leaves the key or gives a key strictly between the two, no longer than the first. |
| Comparators.FindShortSuccessor | Datability/Pods/leveldb-library/util/comparator.cc:52-64 | Leaves exactly the runs of 0xff alone; any other key becomes a greater, no longer one. |
| Comparators.FindInternalSeparator | Datability/Pods/leveldb-library/db/dbformat.cc:69-86 | At or after the first key and before the second; if changed, its user key lies strictly between theirs. |
| Comparators.FindInternalSuccessor | Datability/Pods/leveldb-library/db/dbformat.cc:88-101 | At or after the key. |
| Tables.OnlyThisBlock | Datability/Pods/leveldb-library/table/table.cc:216-244 | The one block the index picks has the first entry of the whole table at or after the key, or that entry has another user key. |
| Tables.InternalGet | Datability/Pods/leveldb-library/table/table.cc:216-244 | Reports the first entry at or after the key or nothing, and nothing only if there is none or it has another user key: index, gaps and filter never hide it. |
| Tables.TableBuilder.Flush | Datability/Pods/leveldb-library/table/table_builder.cc:125-188 | Hands the block to the index under the offset and size it is written at, and goes on five bytes after it. |
| Tables.TableBuilder.Add | Datability/Pods/leveldb-library/table/table_builder.cc:94-123 | For ascending keys, keeps the index separators, the blocks and the filter keys right, whenever blocks are cut. |
| Tables.TableBuilder.Finish | Datability/Pods/leveldb-library/table/table_builder.cc:198-253 | The finished parts are a table of exactly the entries added. |
| FilterBlock.ReaderFindsFilter | Datability/Pods/leveldb-library/table/filter_block.cc:77-104 | The reader asks the filter of the 2 KB the block starts in, and takes blocks past the last filter as matches. |
| FilterBlock.ReaderFindsKeys | Datability/Pods/leveldb-library/table/filter_block.cc:21-104 | Every key added under a block offset is reported as a possible match there. |
| FilterBlock.FilterBlockOnDisk | Datability/Pods/leveldb-library/table/filter_block.cc:35-49 | The bytes of a sample filter block. |
| FilterBlock.BrokenFilterMatches | Datability/Pods/leveldb-library/table/filter_block.cc:77-104 | A filter block that cannot be read rules no key out. |
| FilterBlock.FilterBlockBuilder.StartBlock | Datability/Pods/leveldb-library/table/filter_block.cc:21-27 | Generates filters until the block has its own, and keeps every earlier key in the filter of its block. |
| FilterBlock.FilterBlockBuilder.Finish | Datability/Pods/leveldb-library/table/filter_block.cc:35-49 | Unless the filters outgrow 32 bits, a reader finds every key that was added. |
| FilterBlock.BloomPolicyOk | Datability/Pods/leveldb-library/util/bloom.cc:28-80 | The Bloom filter is a policy without false negatives. |
| Bloom.OrSetsOneBit | Datability/Pods/leveldb-library/util/bloom.cc:50 | Or-ing a bit into a byte sets that bit and no other. |
| Bloom.ProbeIs | Datability/Pods/leveldb-library/util/bloom.cc:46-51 | The probes are h, h + d, h + 2d and so on modulo 2^32. |
| Bloom.DeltaRotates | Datability/Pods/leveldb-library/util/bloom.cc:47 | d is h rotated right by 17 bits. |
| Bloom.BytesIs | Datability/Pods/leveldb-library/util/bloom.cc:30-37 | A filter has at least 64 bits and as many as asked for, in whole bytes. |
| Bloom.MayMatchIff | Datability/Pods/leveldb-library/util/bloom.cc:28-80 | A key may match exactly when every bit it probes was set by some key. |
| Bloom.KeysMatch | Datability/Pods/leveldb-library/util/bloom.cc:28-80 | No false negatives, for any hash function, bits per key and number of probes. |
| Bloom.BloomFilterPolicy.CreateFilter | Datability/Pods/leveldb-library/util/bloom.cc:28-54 | The in-place loops build the specified filter after what was there. |
| Bloom.BloomFilterPolicy.KeyMayMatch | Datability/Pods/leveldb-library/util/bloom.cc:56-80 | The probing loop answers as specified. |
| ReadPath.SeekInBlock | Datability/Pods/leveldb-library/table/block.cc:163-201 | Seeking in the bytes of a data block finds the entry a lookup in its decoded entries finds. |
| ReadPath.TableGet | Datability/Pods/leveldb-library/db/table_cache.cc:100-114 | A lookup in a table of byte keys answers what the search of the levels assumes of the entries of a file. |
| ReadPath.TableIsTwoLevel | Datability/Pods/leveldb-library/table/table.cc:210-214 | The index and blocks of a table meet what the two-level iterator asks, and concatenate to the entries of the table. |
| ReadPath.MergedSeek | Datability/Pods/leveldb-library/table/merger.cc:47-53 | The merging iterator seeks as one iterator over the merged list does. |
| ReadPath.MergedNext | Datability/Pods/leveldb-library/table/merger.cc:55-79 | It moves forward as that iterator does. |
| ReadPath.MergedPrev | Datability/Pods/leveldb-library/table/merger.cc:81-108 | It moves backward as that iterator does. |
| ReadPath.MergedEnds | Datability/Pods/leveldb-library/table/merger.cc:31-45 | It goes to either end as that iterator does. |
| LruList.Remove | Datability/Pods/leveldb-library/util/cache.cc:239-242 | Exactly the entry leaves the circular list. |
| LruList.Append | Datability/Pods/leveldb-library/util/cache.cc:244-250 | The entry becomes the newest. |
| LruList.ChargeWithout | Datability/Pods/leveldb-library/util/cache.cc:307-316 | Taking one entry away takes its charge away. |
| HandleTables.HandleTable.FindPointer | Datability/Pods/leveldb-library/util/cache.cc:114-120 | The slot found points to the entry with key and hash, or ends the chain exactly when there is none. |
| HandleTables.HandleTable.Insert | Datability/Pods/leveldb-library/util/cache.cc:78-92 | Adds the entry, in the place of the one with its key if any, and keeps the load at most one. |
| HandleTables.HandleTable.Remove | Datability/Pods/leveldb-library/util/cache.cc:94-102 | Takes out exactly the entry with key and hash. |
| HandleTables.HandleTable.Resize | Datability/Pods/leveldb-library/util/cache.cc:122-148 | Moves every entry to its bucket among a power of two at least their number. |
| HandleTables.HoldsRemoved | Datability/Pods/leveldb-library/util/cache.cc:94-102 | The buckets hold each remaining entry once. |
| LruCache.LRUCache.Lookup | Datability/Pods/leveldb-library/util/cache.cc:252-259 | Finds the entry exactly when it is cached; it counts one handle more and is no longer among the idle. |
| LruCache.LRUCache.Release | Datability/Pods/leveldb-library/util/cache.cc:261-264 | One handle less; the entry becomes the newest idle one if cached, and is deleted exactly if neither cached nor held. |
| LruCache.LRUCache.Insert | Datability/Pods/leveldb-library/util/cache.cc:266-303 | The entry replaces the one with its key; then the oldest idle entries go, no more than needed, until the charge is within capacity or none is idle; exactly those are deleted. |
| LruCache.LRUCache.EvictWhileOver | Datability/Pods/leveldb-library/util/cache.cc:292-299 | Takes the shortest run of oldest idle entries that brings the charge within capacity. |
| LruCache.LRUCache.FinishErase | Datability/Pods/leveldb-library/util/cache.cc:307-316 | The entry leaves its list and its charge, and is deleted if nobody holds it. |
| LruCache.LRUCache.Erase | Datability/Pods/leveldb-library/util/cache.cc:318-321 | Afterwards no entry has the key; it is deleted only if nobody holds it. |
| LruCache.LRUCache.Prune | Datability/Pods/leveldb-library/util/cache.cc:323-333 | Exactly the idle entries go and are deleted. |
| LruCache.LRUCache.DeletedOnceWhenUnused | Datability/Pods/leveldb-library/util/cache.cc:217-237 | In every reachable state an entry was deleted at most once, and exactly if it is neither cached nor held; cached ones are idle with one reference or in use with more. |
| Varint.VarintRoundTrip | Datability/Pods/nanopb/pb_decode.c:255-275 | Every 64-bit number reads back from its varint, leaving the rest. |
| Varint.Varint32RoundTrip | Datability/Pods/nanopb/pb_decode.c:187-247 | The 32-bit reader reads back every 32-bit number. |
| Varint.GetVarint32RoundTrip | Datability/Pods/leveldb-library/util/coding.cc:112-140 | So does the five-byte reader of the store. |
| Varint.ZigZagRoundTrip | Datability/Pods/nanopb/pb_encode.c:630-639 | Zigzag is undone for every signed 64-bit number. |
| Varint.ZigZagIs | Datability/Pods/nanopb/pb_encode.c:630-639 | 0, -1, 1, -2, 2 are written as 0, 1, 2, 3, 4 and so on. |
| Varint.SignedRoundTrip | Datability/Pods/nanopb/pb_decode.c:1345-1380 | Casting to unsigned, widening and casting back restores every number that fits its width. |
| MessageRoundTrip.PackedRoundTrip | Datability/Pods/nanopb/pb_encode.c:147-207 | A packed array reads back element by element. |
| MessageRoundTrip.SlotRoundTrip | Datability/Pods/nanopb/pb_decode.c:406-483 | Reading the bytes of one field sets that field and no other, and marks it seen. |
| MessageRoundTrip.MessagesRoundTrip | Datability/Pods/nanopb/pb_decode.c:934-1082 | For every descriptor and every message of required, optional, repeated, oneof and nested fields that fits it, decoding the encoding succeeds and restores the message. |
| MessageWire.UnknownFieldsAreIgnored | Datability/Pods/nanopb/pb_decode.c:958-994 | For any sequence of wire fields in any order, the decoder does as if those with unknown tags were not there. |
| MessageWire.UnknownIsSkipped | Datability/Pods/nanopb/pb_decode.c:990-994 | One unknown field of any wire type before any other bytes is passed over. |
| MessageWire.BodyIsSkipped | Datability/Pods/nanopb/pb_decode.c:278-330 | Skipping takes exactly the payload: a varint, 8 bytes, a length and as many bytes, or 4 bytes. |
| MessageWire.SkipIs | Datability/Pods/nanopb/pb_decode.c:320-330 | On any bytes, 8 are skipped for wire type 1 and 4 for wire type 5, and other types than these, 0 and 2 fail. |
| MessageWire.SubmessagesMerge | Datability/Pods/nanopb/pb_decode.c:1525-1547 | A nested message that arrives in two pieces is decoded like one that arrives whole. |
| MessageWire.RequiredIsThere | Datability/Pods/nanopb/pb_decode.c:1039-1078 | A required field, one of the first 64, must be among the wire fields. |
| MessageWire.RequiredIsEnough | Datability/Pods/nanopb/pb_decode.c:1039-1078 | At the end of the input nothing else is asked for. |
| MessageEvolution.NewerSenderIsRead | Datability/Pods/nanopb/pb_decode.c:934-1082 | A receiver that knows any subset of the sender's fields reads exactly those from what the sender wrote. |
| MessageEvolution.EncodingIsFields | Datability/Pods/nanopb/pb_encode.c:528-550 | An encoding is the wire fields of its slots one after the other. |
| MessageEvolution.SimpleMessage | Datability/Pods/nanopb/pb_encode.c:669-675 | The first example of the encoding's documentation, byte by byte. |
| MessageEvolution.NestedMessage | Datability/Pods/nanopb/pb_encode.c:717-765 | The example of a nested message. |
| MessageEvolution.PackedMessage | Datability/Pods/nanopb/pb_encode.c:147-207 | The example of a packed field. |
| MessageBounds.DecodedIsWithin | Datability/Pods/nanopb/pb_decode.c:406-483 | Whatever bytes are decoded, arrays, strings and numbers stay within their fields and at most one member of a union is set. |
| MessageBounds.NumbersAre | Datability/Pods/nanopb/pb_decode.c:1334-1404 | For every number on the wire and every width, the value the field gets, or the error. |
| MessageBounds.ZigZagsAre | Datability/Pods/nanopb/pb_decode.c:1406-1431 | Likewise for zigzag fields. |
| MessageBounds.BlobsAre | Datability/Pods/nanopb/pb_decode.c:1447-1523 | Bytes, strings with their terminator and fixed arrays are taken exactly if they fit. |
| MessageBounds.ShortInputFails | Datability/Pods/nanopb/pb_decode.c:1447-1570 | A length beyond the end of the input is an error. |
| MessageBounds.FullArrayFails | Datability/Pods/nanopb/pb_decode.c:425-470 | An array takes nothing beyond its capacity. |
| MessageBounds.ZeroTagEnds | Datability/Pods/nanopb/pb_decode.c:308-312 | A zero tag ends the message, whatever follows. |
| MessageWriter.OStream.EncodeSubmessage | Datability/Pods/nanopb/pb_encode.c:717-765 | Sizing and writing a nested message agree, so "submsg size changed" is never reported. |
| MessageWriter.GetEncodedSize | Datability/Pods/nanopb/pb_encode.c:567-576 | The sizing pass counts exactly the bytes of the encoding. |
| MessageWriter.EncodeInto | Datability/Pods/nanopb/pb_encode.c:528-550 | Writes the encoding into the buffer, and succeeds exactly when it fits. |
| MessageReader.IStream.DecodeVarint32 | Datability/Pods/nanopb/pb_decode.c:187-253 | The byte loop reads what the 32-bit varint reader is specified to read. |
| MessageReader.IStream.DecodeNoInit | Datability/Pods/nanopb/pb_decode.c:934-1082 | The field loop over a stream decodes as specified, nested messages included. |
| MessageReader.FieldCursor.Find | Datability/Pods/nanopb/pb_common.c:87-104 | Wrapping around from anywhere, the cursor stops at the field with the tag exactly when there is one. |
| MessageReader.CheckRequired | Datability/Pods/nanopb/pb_decode.c:1039-1078 | Accepts exactly when every one of the first 64 required fields was seen, which is all the code keeps track of. |
| MessageReader.DecodeFrom | Datability/Pods/nanopb/pb_decode.c:1084-1096 | Decoding a whole buffer succeeds with the specified message or fails. |

## Left out

- Swift code, Introspect, ActivityIndicatorView, `err_data.c`, `histogram.cc`, `c.cc`, `inet.c`, `fs-poll.c`, `repair.cc`, `dumpfile.cc`, `filename.cc`, `arena.cc`: user interface, constants, plumbing or easy members.
- Environment, files, mutexes and statistics of LevelDB; input and output failures other than those of group commit; Snappy and the body of CRC32C.
- CompactMemTable in the middle of a compaction: a compaction is one step.
- Seek statistics, read sampling, compaction scores, picking a level for a compaction or for a memtable's output.
- Log reading from an initial offset above zero, resynchronizing, and appending to a log that ends inside a record.
- Internal keys that do not parse, and comparators that are not total orders.
- Compactions.Compaction.ShouldDrop: asks for a smallest snapshot below the maximum sequence number, which the engine's sequence numbers always are.
- Waking and sleeping of writers, the delays and file-count limits in MakeRoomForWrite, and the memtable switch other than the new log file: group commit has the steps without them.  DBImpl::Write is proved as its two loops and the protocol, not as one method.
- Weak memory ordering in the skip list: stores are sequentially consistent.  Random heights and arena addresses are parameters.
- The bytes of a whole table file: footer, metaindex, block handles and trailers.  Tables.TableBuilder keeps blocks decoded; ReadPath.SeekInBlock covers a block's bytes.
- FilterBlock.FilterBlockBuilder.Finish: promises nothing once the filters exceed 4 GB, where the code truncates offsets to 32 bits.
- ManifestCode.VersionSet.LogAndApply: failed writes of the descriptor file are not modelled, and file numbers must be fresh to their level, as the engine's are.
- VersionEdits.VersionEdit.EncodeTo: the set of deleted files may be written in any order; the code's is ascending.
- The assertion in MaybeAddFile that files of a level do not overlap, Finalize, version reference counts, reusing the descriptor file.
- ShardedLRUCache, the destructor of the cache, and the mutex around its operations.
- MemTable and WriteBatch encodings, snapshots lists as linked lists.
- Thread start-up, cleanup and fork handling in the thread pool; cancelling a request from inside or after its own done callback.
- Timers.Loop.RunTimers: callbacks leave timers alone, and loop time is below the 64-bit maximum.  TimerHeap.Heap.Insert asks for fewer than 2^32 - 1 nodes.
- UTF-8 decoding and splitting a host name into labels in `idna.c`: labels are decoded code points.
- Idna.ToAsciiLabel: what is stated of the output is of everything written to it; characters beyond the room given are dropped, as in the code.
- nanopb callbacks, extensions, pointer fields, custom streams, fixed-count arrays, proto3 singular fields, field defaults other than zero, and encoder errors on messages that do not fit their descriptor; encodings are below 2^32 bytes and the bit words of seen fields are a set.
