# recoverx: verified models of its cores

recoverx recovers files from disk images. This project models the parts of it that are algorithms rather than glue,
and proves what they promise: reading NTFS files from run lists, queueing and scheduling tasks, searching the
correlation graph, building the timeline, caching, parsing queries, carving, and following FAT32 cluster chains.

`dafny verify dfyconfig.toml` verifies everything. Each module stands for one component:

- `RawImage`: the disk image as a sequence of bytes. A read past the end is cut short, never padded; a seek to a
  negative offset is an outcome of its own, and so is a loop that never makes progress again.
- `NtfsMapping`, `NtfsExecutor`, `NtfsChunked`, `NtfsVcnRange`, `NtfsValidation`, `NtfsIssues`, `NtfsRecovery`,
  `NtfsCodec`: NTFS run lists. Relative runs are resolved, translated, validated in two ways, read in four ways,
  estimated, classified, decoded in two ways, and encoded; `NtfsIssues` says what each validation code means.
- `TaskHeap`, `TaskQueue`, `TaskQueueSpec`: the task queue as a binary heap with lazy deletion beside a table of task
  objects, and its abstract state (slots and records). `Scheduler`, `SchedulerRuns`, `SchedulerProgress`: scheduling
  threads and executions as atomic steps over that abstract state, what holds over whole runs, and why runs end.
- `GraphSearch`, `GraphTraversal`, `GraphDepth`, `CorrelationGraph`: shortest paths and traversal by breadth-first
  search.
- `Timeline`: the lazily sorted and deduplicated event list.
- `LruCache`, `LruInclusion`: the bounded cache with its batch operation, and how caches of two sizes compare.
- `QueryLiterals`, `QueryParser`, `QueryPrinter`, `QueryChains`: recursive descent over tokens, the printer it undoes,
  and what it makes of conditions joined without parentheses.
- `Carving`, `ScanMerge`, `StreamingScanner`, `StreamingWindows`, `StreamingWhole`, `StreamingLimits`, `CarverOrder`,
  `ThreadedScanner`: header/footer carving, the sliding window, when exactly the window finds what one pass over the
  image finds, what several carvers do to each other, and the division of an image among threads.
- `Fat32`, `Fat32Recovery`, `Fat32Volume`: cluster chains, the recovery of deleted files, and the volume by its bytes.
  `FiniteSets`: one fact about set sizes. `StableSorting`: `list.sort`, for the timeline and the threaded scanner.

How the program's terms appear here:

- Loops and objects of the program are methods and classes, each proved against a function on values that mentions no
  loop; the lemmas are about those functions. Where a loop body is a method of its own, the two together are the loop.
- Byte counts of clusters are written `Span(n, cs)`, the sum of `n` cluster sizes; `SpanIsProduct` says it is `n * cs`.
- Bitwise or on Python's unbounded integers is the function `Or` on two's complement without a width.
- `heapq` is modelled by its two sifting procedures. They exchange entries instead of holding one back, which visits the
  same positions and ends in the same list. Priorities of tasks are numbers; the heap compares (negated priority, counter).
- `list.sort` is insertion that keeps equal elements in order; `StableSortIsUnique` says that no other stable sort
  could answer differently.
- Dictionaries that are only walked in insertion order (the edges of the graph, the ordered dictionary of the cache) are
  sequences. Timestamps are counts of microseconds; an event without one sorts as if at the largest timestamp.
- `float(token)` is a parameter of the parser, and a float value is the text it prints as. What is assumed of it is the
  predicate `FloatLaws`: printed text reads back as the same value and as nothing else, and quoted text is no float.
- Exceptions are results: the parser's errors carry the position or token their message shows, and reading below zero
  is `NegativeSeek`, which `recover_non_resident_file` turns into the status `execution_error`.
- Carvers given to the streaming scanner are arbitrary functions from a buffer to files. Formats other than
  header/footer ones are covered only as far as they are honest, that is, report what the buffer holds where they say.
- A FAT32 boot sector is the three numbers its fields work out to; `FromFields` computes them. The program has no writer
  for FAT32, so `WriteChain` and `Lay` are written for the format it reads. A read of a negative
  number of bytes is `NegativeRead`, except that -1 reads to the end.

Three things the code does that its documentation does not say:

- `max_depth` of `traverse_from` also limits the number of nodes returned (src/recoverx/core/correlation/graph.py:126).
- With the default overlap of 4 MiB and the JPEG search limit of 4 MiB, a JPEG file can be one byte too long to be sure
  to lie in one window, and then it is lost (src/recoverx/core/carving/streaming.py:16-17,
  src/recoverx/core/carving/jpg.py:11): `StreamingLimits.JpegOverlapIff` and `StreamingLimits.DefaultsMissAFile`.
- Files of one carver can hide files of a later one that they do not touch (src/recoverx/core/carving/streaming.py:76-93):
  `CarverOrder.JpegHidesPng`.

## Model

| member | source | states |
|---|---|---|
| NtfsRecovery.CleanReadersAgree | src/recoverx/core/filesystems/ntfs/runlists/executor.py:47-156 | if a run list validates clean on an image with at least one whole cluster, then for every chunk size the plain reader, the sparse-aware reader, the joined pieces of the chunked reader (which ends) and the range reader over all VCNs give one byte string: the clusters found by VCN translation, with zeros for holes, of the full length, cut to `real_size` |
| NtfsMapping.ResolveRunlist | src/recoverx/core/filesystems/ntfs/runlists/mapping.py:69-100 | the loop gives each run the VCNs after those of the runs before it and the sum of the relative offsets of the allocated runs up to it |
| NtfsMapping.ResolvedIsContiguous | src/recoverx/core/filesystems/ntfs/runlists/mapping.py:69-100 | for every raw run list the resolved runs lie end to end in VCN space without a gap |
| NtfsMapping.TranslateVcn | src/recoverx/core/filesystems/ntfs/runlists/mapping.py:103-110 | the search loop answers with the first run that covers the VCN: its cluster, -1 in a hole, -2 where nothing is mapped |
| NtfsMapping.VcnToLcnInRun | src/recoverx/core/filesystems/ntfs/runlists/mapping.py:103-110 | in a contiguous list cluster `k` of run `i` translates through run `i` and no other |
| NtfsMapping.RunOfVcn | src/recoverx/core/filesystems/ntfs/runlists/mapping.py:103-110 | every VCN below the total lies in a run |
| NtfsExecutor.ReadResolved | src/recoverx/core/filesystems/ntfs/runlists/executor.py:79-102 | plain execution raises the seek error exactly when a run at a negative position is reached with fewer bytes in hand than `max_bytes`, or than `real_size` where `max_bytes` is not positive; otherwise it returns the contents of the runs in order, cut to `real_size` and to a positive `max_bytes` |
| NtfsExecutor.ReadResolvedSparse | src/recoverx/core/filesystems/ntfs/runlists/executor.py:125-156 | sparse-aware execution returns the contents of the runs in order with zeros for holes and nothing for negative positions, cut to `real_size`, and to `max_bytes` exactly when that is positive |
| NtfsExecutor.CapOnSparse | src/recoverx/core/filesystems/ntfs/runlists/executor.py:132-156 | a positive byte cap cuts what is returned without it, and any other cap is none |
| NtfsExecutor.RunOnDisk | src/recoverx/core/filesystems/ntfs/runlists/executor.py:89-99 | a hole contributes zeros, an allocated run the image from its first cluster to its last byte or the end of the image, a run at a negative position or past the end nothing |
| NtfsExecutor.PlainAgreesWithSparse | src/recoverx/core/filesystems/ntfs/runlists/executor.py:79-156 | what the plain reader gathers run by run, seeking before each read, is what sparse-aware execution returns exactly when no negative position is reached before the cap; in particular whenever no LCN is negative, even if runs overshoot the image |
| NtfsChunked.ReadRunInChunks | src/recoverx/core/filesystems/ntfs/runlists/executor.py:113-123 | for one allocated run: the pieces are non-empty, no longer than the chunk size, and join to one read of the run; the loop ends exactly when the run lies in the image (or wants nothing), and else seeks below zero or never ends |
| NtfsChunked.ReadChunked | src/recoverx/core/filesystems/ntfs/runlists/executor.py:104-123 | the generator ends exactly when every run can be read through, and then its pieces join to the contents cut to `real_size`; otherwise the first run that cannot is named together with the way it fails |
| NtfsVcnRange.ReadVcnRange | src/recoverx/core/filesystems/ntfs/runlists/executor.py:47-65 | for every list and range the range reader gives the pieces of the runs it meets up to the first run past the range, or the error of the first seek or read that fails; on a contiguous list and a range that does not end before it starts these are the mapped clusters of the range, each as VCN translation finds it |
| NtfsVcnRange.RangeIsTranslated | src/recoverx/core/filesystems/ntfs/runlists/executor.py:47-65 | on a contiguous list, reading the range run by run is reading it cluster by cluster through VCN translation, or fails exactly when a run it meets puts the range at a negative position |
| NtfsVcnRange.ContentIsClusters | src/recoverx/core/filesystems/ntfs/runlists/executor.py:79-102 | reading run by run is reading cluster by cluster through VCN translation |
| NtfsExecutor.EstimateRecoverableBytes | src/recoverx/core/filesystems/ntfs/runlists/executor.py:158-184 | for every run list, negative positions and overshooting runs included: the second value is the length of what uncapped sparse-aware execution returns, the third is what the runs promise and the image does not hold, the first is the promised size cut to `real_size` |
| NtfsValidation.ValidateRunlist | src/recoverx/core/filesystems/ntfs/runlists/validation.py:22-121 | the loop reports, in order, the issues of each run and of the whole list as the specification lists them |
| NtfsValidation.CheckCircularRuns | src/recoverx/core/filesystems/ntfs/runlists/validation.py:124-141 | the cluster-by-cluster loop reports, for each run, its first cluster that was recorded before |
| NtfsValidation.CleanIffSound | src/recoverx/core/filesystems/ntfs/runlists/validation.py:22-121 | on contiguous lists there is no issue exactly when the list is not empty, every run has 1 to 1,000,000 clusters, sits at a position that is not negative and inside the volume (if its size is known), is disjoint from the allocated runs before it, and the list ends inside the total |
| NtfsIssues.IssueIff | src/recoverx/core/filesystems/ntfs/runlists/validation.py:22-121 | for every list and every issue: the issue is reported exactly when the numbers of the list are as its code and its values say |
| NtfsIssues.CircularIsShared | src/recoverx/core/filesystems/ntfs/runlists/validation.py:124-141 | a cluster reported as circular lies in the run named and in an earlier run |
| NtfsValidation.OverlapIffCircular | src/recoverx/core/filesystems/ntfs/runlists/validation.py:98-141 | for every list without negative LCN the interval test reports an overlap exactly when the cluster-by-cluster test reports a repetition |
| NtfsValidation.NoReportIffInjective | src/recoverx/core/filesystems/ntfs/runlists/validation.py:98-141 | for contiguous lists without negative LCN, neither test reports anything exactly when VCN translation is injective on the clusters that are not in holes |
| NtfsRecovery.IsSparseRunlist | src/recoverx/core/filesystems/ntfs/runlists/sparse.py:6-10 | true exactly when some run is sparse |
| NtfsRecovery.RecoverNonResidentFile | src/recoverx/core/filesystems/ntfs/recovery.py:159-180 | the contents of the runs cut to `real_size` and to a positive byte cap, or the seek error exactly when no run is sparse and one at a negative position is reached with too few bytes in hand; unless an LCN is negative the choice of reader never changes the recovered bytes |
| NtfsRecovery.CleanFileByte | src/recoverx/core/filesystems/ntfs/recovery.py:159-180 | for a record that validates clean: byte `p` of run `i` of the file is byte `p` behind the cluster the summed offsets name, and zero in a hole, and the file has exactly the bytes of the counted clusters |
| NtfsRecovery.ClassifyRecoverability | src/recoverx/core/filesystems/ntfs/recovery.py:212-241 | `corrupted` exactly when validation reports something or nothing can be recovered, `partially_recoverable` exactly when a clean list loses some bytes and keeps others; with at least one whole cluster on the image the answer is `recoverable` exactly when `real_size` > 0, there are runs, each has 1 to 1,000,000 clusters inside the image that no earlier run shares, and `last_vcn - starting_vcn + 1` is not positive or at least the sum of the cluster counts; otherwise it is `corrupted` |
| NtfsRecovery.CleanIffOnVolume | src/recoverx/core/filesystems/ntfs/recovery.py:221-228 | on every image a record validates clean exactly when it has runs, each fits the image and is disjoint from those before, and their cluster counts fit the span of its virtual cluster numbers where that is positive |
| NtfsRecovery.CleanLosesNothing | src/recoverx/core/filesystems/ntfs/recovery.py:221-241 | with at least one whole cluster on the image, a run list that loses bytes never validates clean, and a clean one yields bytes exactly when `real_size` > 0 |
| NtfsRecovery.TinyImageIsPartial | src/recoverx/core/filesystems/ntfs/recovery.py:221-241 | the premise is needed: on an image of less than one cluster a clean run list can lose bytes and keep others |
| NtfsCodec.OrAdds | src/recoverx/core/filesystems/ntfs/attributes.py:176-188 | bitwise or with a shifted value adds it when the bits do not meet, for negative values too |
| NtfsCodec.ReadUnsigned | src/recoverx/core/filesystems/ntfs/attributes.py:176-178 | the or-and-shift loop reads a little-endian number |
| NtfsCodec.ReadSigned | src/recoverx/core/filesystems/ntfs/attributes.py:182-188 | the loop with its sign extension reads a number in two's complement |
| NtfsCodec.DecodeRunlistEntry | src/recoverx/core/filesystems/ntfs/runlists/mapping.py:38-66 | one entry is decoded exactly when a whole entry that is no terminator starts at the position; otherwise nothing is decoded and the position stays |
| NtfsCodec.ParseRunlist | src/recoverx/core/filesystems/ntfs/attributes.py:161-199 | the loop returns the runs of all entries up to the terminator, a cut-off entry, or the end of the data |
| NtfsCodec.DecodersAgree | src/recoverx/core/filesystems/ntfs/attributes.py:161-199 | on any bytes, decoding entry after entry and parsing the whole list give the same runs |
| NtfsCodec.ParseEncoded | src/recoverx/core/filesystems/ntfs/attributes.py:161-199 | runs encoded with any legal field widths, anywhere in the data, parse back to themselves |
| NtfsCodec.KnownRunlist | src/recoverx/core/filesystems/ntfs/attributes.py:161-199 | the bytes 21 18 34 56, 11 02 F0, 01 05, 00 are a run of 0x18 clusters at 0x5634, one of two clusters sixteen before it, and a hole of five |
| NtfsCodec.CodecRoundTrip | src/recoverx/core/filesystems/ntfs/runlists/mapping.py:69-100 | fragments at absolute positions, turned into signed deltas, encoded with a zero terminator, parsed and resolved, come back as the same fragments with contiguous VCNs, whatever bytes surround them |
| TaskHeap.SiftDown | src/recoverx/core/distributed/queue.py:22 | an entry carried towards the root restores the heap order and keeps the entries as a multiset |
| TaskHeap.SiftUp | src/recoverx/core/distributed/queue.py:28 | lesser children moved up from the root restore the heap order and keep the entries as a multiset |
| TaskHeap.HeapPush | src/recoverx/core/distributed/queue.py:22 | a push keeps the heap order and adds exactly the new entry |
| TaskHeap.HeapPop | src/recoverx/core/distributed/queue.py:28 | a pop keeps the heap order and removes exactly one entry: the least priority value, and among equals the least counter |
| TaskHeap.RootIsLeast | src/recoverx/core/distributed/queue.py:28 | in a heap no entry comes before the root |
| TaskQueue.TaskQueue.Push | src/recoverx/core/distributed/queue.py:18-23 | the entry gets the next counter, the table gets the task, counters stay distinct, and the abstract queue gains exactly one slot |
| TaskQueue.TakeNext | src/recoverx/core/distributed/queue.py:27-34 | the popping loop ends with a pending entry such that every pending task has a lower priority, or the same and no earlier counter, or with an empty heap that held none pending; what is left is exactly what comes after it |
| TaskQueue.TaskQueue.Pop | src/recoverx/core/distributed/queue.py:25-34 | after any operations: the task handed out becomes ASSIGNED and had an entry such that every entry with a pending task has a task of lower priority, or of the same and no earlier counter; or there is no pending task and the answer is None; no other task changes |
| TaskQueue.TaskQueue.Peek | src/recoverx/core/distributed/queue.py:36-41 | None exactly when no pending task is in the heap, that is when a pop would answer None; else some pending task |
| TaskQueue.TaskQueue.Complete | src/recoverx/core/distributed/queue.py:43-50 | a known task is COMPLETED and recorded, an unknown one changes nothing |
| TaskQueue.TaskQueue.Fail | src/recoverx/core/distributed/queue.py:52-63 | with retries left the task is PENDING again with one more retry and exactly one new entry under a new counter, otherwise FAILED and the heap is untouched |
| TaskQueue.TaskQueue.Cancel | src/recoverx/core/distributed/queue.py:65-71 | succeeds exactly on PENDING and ASSIGNED tasks, and then the task is CANCELLED |
| Scheduler.StepKeepsInv | src/recoverx/core/distributed/scheduler.py:22-54 | every atomic step of every thread keeps the invariant: slots name known tasks with distinct counters, a pending task has exactly one slot and no holder, a held task has one holder and no slot, and retry counts match the failures |
| Scheduler.SubmitKeepsInv | src/recoverx/core/distributed/scheduler.py:22-28 | submitting a task with a fresh id keeps the invariant |
| Scheduler.StartKeepsInv | src/recoverx/core/distributed/scheduler.py:38-41 | entering the thread table and starting the thread keeps it |
| Scheduler.CompleteKeepsInv | src/recoverx/core/distributed/scheduler.py:47-48 | reporting success keeps it |
| Scheduler.FinishKeepsInv | src/recoverx/core/distributed/scheduler.py:52-54 | dropping the thread table entry keeps it |
| Scheduler.PopKeepsInv | src/recoverx/core/distributed/scheduler.py:33-36 | a pop keeps the invariant |
| Scheduler.MarkKeepsInv | src/recoverx/core/distributed/scheduler.py:37 | marking a task RUNNING keeps it, whatever happened to the task since it was popped |
| Scheduler.FailKeepsInv | src/recoverx/core/distributed/scheduler.py:49-51 | a failure with its re-push keeps the invariant |
| Scheduler.CancelKeepsInv | src/recoverx/core/distributed/scheduler.py:80-81 | a cancellation at any moment keeps the invariant |
| SchedulerRuns.NoTaskLost | src/recoverx/core/distributed/scheduler.py:22-54 | in every interleaving, at every moment, every submitted task is exactly one of: pending with exactly one slot, in the hands of exactly one execution, or ended |
| SchedulerRuns.PopTakesHighest | src/recoverx/core/distributed/queue.py:18-34 | in every interleaving, every pop takes the pending task whose recorded priority is highest, the earliest queued among equals |
| SchedulerRuns.SubmittedAsGiven | src/recoverx/core/distributed/scheduler.py:22-28 | a submission stores the priority and the retry limit it was given, in a pending task with one new slot behind all others |
| SchedulerRuns.SubmittedRetriesBounded | src/recoverx/core/distributed/queue.py:52-63 | from its submission on, in every interleaving, a task keeps its priority, is started at most once more than the retries it was submitted with, and is FAILED only after exactly that many failures |
| SchedulerRuns.RetriesBounded | src/recoverx/core/distributed/queue.py:52-63 | a task is started at most `max_retries` + 1 times, FAILED only after exactly that many failures, and COMPLETED after one start more than failures |
| SchedulerRuns.EndedStays | src/recoverx/core/distributed/queue.py:25-71 | a completed, failed or cancelled task that nobody holds never changes again |
| SchedulerProgress.StepMeasure | src/recoverx/core/distributed/scheduler.py:33-54 | every step other than a submission changes nothing or lowers a measure of retries, phases and slots |
| SchedulerProgress.RunsEnd | src/recoverx/core/distributed/scheduler.py:33-54 | without submissions a run has at most as many effective steps as the measure says |
| SchedulerProgress.NoDeadlock | src/recoverx/core/distributed/scheduler.py:33-54 | while some task has not ended, the scheduler itself can take a step that lowers the measure |
| CorrelationGraph.CorrelationGraph.AddEdge | src/recoverx/core/correlation/graph.py:90-109 | the edge is appended under an id no other edge has |
| CorrelationGraph.CorrelationGraph.AddNode | src/recoverx/core/correlation/graph.py:57-77 | the node is stored under its id, and nothing else changes |
| CorrelationGraph.CorrelationGraph.Clear | src/recoverx/core/correlation/graph.py:175-178 | nodes, edges and the counter start over |
| CorrelationGraph.CorrelationGraph.FindPath | src/recoverx/core/correlation/graph.py:144-159 | the search ends on every graph; if there is a walk from start to goal the answer is one, and none has fewer edges; otherwise it is empty |
| GraphSearch.SearchStep | src/recoverx/core/correlation/graph.py:147-158 | each turn of the loop keeps the search invariant: entries are walks in order of length, and everything nearer than the front is visited |
| GraphSearch.FrontIsShortest | src/recoverx/core/correlation/graph.py:148-150 | when the goal comes to the front, no walk to it is shorter |
| GraphSearch.SearchFails | src/recoverx/core/correlation/graph.py:147-159 | when the queue runs empty, no walk leads to the goal |
| GraphSearch.WalkIff | src/recoverx/core/correlation/graph.py:154-158 | a walk is a path of edges along a sequence of names, each edge joining two neighbouring names whichever way it points |
| GraphTraversal.ReachesIff | src/recoverx/core/correlation/graph.py:134-141 | for the traversal the same, along names that are not empty behind the first |
| CorrelationGraph.CorrelationGraph.TraverseFrom | src/recoverx/core/correlation/graph.py:122-142 | on every graph: the nodes returned are stored nodes within `max_depth` steps, each once, nearest first, exactly as many as there are or as `max_depth` allows, and all of them if they are no more; if the component has at most `max_depth` names, all its stored nodes |
| GraphTraversal.FrontWithinDepth | src/recoverx/core/correlation/graph.py:126-129 | the depth test never drops an unvisited node while the result is short and the component is small or stored |
| GraphDepth.LevelMeets | src/recoverx/core/correlation/graph.py:126-129 | once the front lies beyond the depth, everything within it has been visited |
| Timeline.Deduplicate | src/recoverx/core/forensics/timeline.py:44-58 | the loop keeps the first event of every key, in order |
| Timeline.SortStable | src/recoverx/core/forensics/timeline.py:39 | events of equal sort key keep their order |
| Timeline.StableSortIsUnique | src/recoverx/core/forensics/timeline.py:39 | every sorted rearrangement that keeps events of equal key in order is the one computed, so nothing depends on the sorting method |
| Timeline.BuildEarly | src/recoverx/core/forensics/timeline.py:28-42 | sorting and deduplicating a part before more is added changes nothing in the end |
| Timeline.Timeline.Events | src/recoverx/core/forensics/timeline.py:28-42 | whatever was added and read before, the list is one stable sort and one deduplication of everything ever added |
| Timeline.Timeline.AddEvent | src/recoverx/core/forensics/timeline.py:20-22 | the history grows by the event and the timeline stays consistent with it |
| Timeline.Timeline.AddEvents | src/recoverx/core/forensics/timeline.py:24-26 | the history grows by the events in order |
| Timeline.FirstAddedSurvives | src/recoverx/core/forensics/timeline.py:38-58 | of the events with one key exactly the first that was added is shown |
| Timeline.FinalIsSorted | src/recoverx/core/forensics/timeline.py:38-42 | the list is sorted by time and MFT reference, an event without a time counting as one at the last microsecond |
| Timeline.UntimedComeLast | src/recoverx/core/forensics/timeline.py:39 | behind an event without a time stand only others and events of the very last microsecond |
| Timeline.ShownInOrder | src/recoverx/core/forensics/timeline.py:39 | of two events shown the first has the earlier time, or the same and no greater MFT reference, an event without a time counting as one at the last microsecond of the year 9999 |
| Timeline.ShownIffFirst | src/recoverx/core/forensics/timeline.py:44-58 | an event is shown exactly when no event of the same time, type, MFT reference, file name and source was added before it |
| Timeline.ShownOnce | src/recoverx/core/forensics/timeline.py:44-58 | no two events shown agree in these five |
| LruInclusion.LruInclusion | src/recoverx/core/indexing/cache.py:14-44 | over every trace of get, set, set_many, delete and clear, the smaller cache is the larger one with some keys left out: the same values in the same relative recency, and neither exceeds its size |
| LruInclusion.HitsIncluded | src/recoverx/core/indexing/cache.py:14-44 | a hit in the smaller cache is a hit with the same value in the larger |
| LruCache.BatchIsOneByOne | src/recoverx/core/indexing/cache.py:27-32 | one eviction after a batch leaves what an eviction after each item would leave |
| LruCache.UpdateThenMove | src/recoverx/core/indexing/cache.py:29-31 | updating all values first and moving all keys afterwards is putting the items one after the other |
| LruCache.SetKeeps | src/recoverx/core/indexing/cache.py:21-25 | after a set the key stands last with its value, and an entry of another key is kept exactly when fewer than one less than the size limit of other entries are more recent |
| LruCache.BoundedCache.Get | src/recoverx/core/indexing/cache.py:14-19 | the value if there is one; only its recency changes |
| LruCache.BoundedCache.Set | src/recoverx/core/indexing/cache.py:21-25 | the entry becomes the most recent, and the oldest go until the rest fits |
| LruCache.BoundedCache.SetMany | src/recoverx/core/indexing/cache.py:27-32 | equal to setting the items one by one, and within the size limit |
| LruCache.BoundedCache.Delete | src/recoverx/core/indexing/cache.py:34-36 | the entry of the key goes, if there is one; the others keep their order |
| LruCache.BoundedCache.Clear | src/recoverx/core/indexing/cache.py:38-40 | the cache is empty |
| LruCache.BoundedCache.EvictLoop | src/recoverx/core/indexing/cache.py:42-44 | the oldest entries go until the rest fits, and no more |
| QueryParser.QueryParser.ParseQuery | src/recoverx/core/query/parser.py:26-32 | the object's parse is the grammar function on its tokens, with the same error for every rejected list; what that function is, MixIsParsed, PrintThenParse and FirstTokens say |
| QueryChains.MixIsParsed | src/recoverx/core/query/parser.py:26-55 | any number of conditions joined by AND and OR without parentheses parse to the left-nested OR of the left-nested ANDs, with each literal printed and read again |
| QueryChains.MixMeans | src/recoverx/core/query/parser.py:34-48 | that tree holds exactly when all conditions of some clause between the ORs do |
| QueryChains.AndOfMany | src/recoverx/core/query/parser.py:42-48 | operands read one after the other by NOT, with AND between them and none behind the last, are read as their left-nested AND, however many they are |
| QueryChains.OrOfMany | src/recoverx/core/query/parser.py:34-40 | the same for OR over what AND reads |
| QueryChains.TypedQuery | src/recoverx/core/query/parser.py:26-124 | a query of three conditions, one of them negated, token by token |
| QueryChains.FirstTokens | src/recoverx/core/query/parser.py:26-100 | what a keyword out of place, an open end, and a comparison without operator, with an unknown one or without value are refused with |
| QueryChains.TrailingToken | src/recoverx/core/query/parser.py:30-31 | tokens behind a whole query that do not go on with it are refused where they begin |
| QueryChains.OpenParenthesis | src/recoverx/core/query/parser.py:63-69 | a query in parentheses that are not closed is refused as such |
| QueryParser.QueryParser.ParseOr | src/recoverx/core/query/parser.py:34-40 | the same for OR, fixed by OrOfMany |
| QueryParser.QueryParser.ParseAnd | src/recoverx/core/query/parser.py:42-48 | the loop takes operands as long as AND follows, as the grammar function does, which AndOfMany fixes for any number of operands |
| QueryParser.QueryParser.ParseNot | src/recoverx/core/query/parser.py:50-55 | NOT binds one primary; a second NOT is an error |
| QueryParser.QueryParser.ParsePrimary | src/recoverx/core/query/parser.py:57-74 | a parenthesised query, a comparison, or the error the source raises |
| QueryParser.QueryParser.ParseComparison | src/recoverx/core/query/parser.py:76-100 | field in lower case, operator, value, or the error for the first part that is missing or wrong |
| QueryPrinter.PrintedIsRead | src/recoverx/core/query/ast.py:36-63 | a printed tree is read back in one piece at the level of NOT, whatever tokens follow it |
| QueryPrinter.PrintThenParse | src/recoverx/core/query/ast.py:36-63 | for every tree the parser can build, the printed tokens parse to the tree with each literal printed and read again |
| QueryPrinter.RoundTrip | src/recoverx/core/query/ast.py:36-63 | for every tree the parser can build, parsing the printed tokens gives the tree back exactly when no string literal holds a line break |
| QueryPrinter.ParsePrintParse | src/recoverx/core/query/parser.py:26-124 | the same for the tree of every token list the parser accepts |
| QueryLiterals.LiteralReadsBack | src/recoverx/core/query/parser.py:102-124 | a printed literal reads back as the same value of the same type exactly when it is no string with a line break |
| QueryLiterals.WordsAreRead | src/recoverx/core/query/parser.py:107-112 | true, false, null and none are read as such in any mixture of letter cases |
| QueryLiterals.QuotesMakeStrings | src/recoverx/core/query/parser.py:103-105 | quotes of either kind on either side make a string of what is between them |
| QueryLiterals.IntOfPrint | src/recoverx/core/query/parser.py:114-115 | every integer reads back from its decimal form |
| Carving.Carve | src/recoverx/core/carving/jpg.py:24-62 | the loop returns the files of the extents found position by position that reach the minimum size |
| Carving.EndOf | src/recoverx/core/carving/jpg.py:35-46 | where the file that starts at a position ends: behind the first footer after its header, if that begins within the search limit; nothing exactly when no such file ends in the buffer |
| Carving.SelectionIsUnique | src/recoverx/core/carving/jpg.py:34-62 | the extents are the only list of non-overlapping files, in ascending order, inside one of which every file of the buffer starts |
| ScanMerge.MergeDisjoint | src/recoverx/core/carving/streaming.py:81-93 | what the scanners keep is in ascending order and no file reaches into the next |
| ScanMerge.KeptIffBehind | src/recoverx/core/carving/streaming.py:81-93 | at its turn a file is kept exactly when it starts at or behind the end of every file kept before it; otherwise it is dropped for good |
| ScanMerge.AllKeptIff | src/recoverx/core/carving/streaming.py:81-93 | nothing is dropped exactly when the files were reported in ascending order without overlaps |
| ScanMerge.AscendingDropsOverlaps | src/recoverx/core/carving/streaming.py:81-93 | when reports ascend by start, a dropped file starts inside a kept one |
| ScanMerge.KeptOrPassed | src/recoverx/core/carving/streaming.py:81-93 | in any order, a dropped file starts before the end of some kept file, which may lie wholly behind it |
| ScanMerge.LostBehindLater | src/recoverx/core/carving/streaming.py:81-93 | of two files that do not overlap the earlier one is lost when it is reported second |
| CarverOrder.JpegHidesPng | src/recoverx/core/carving/streaming.py:76-93 | with the JPEG carver before the PNG carver the scan loses a PNG file that the PNG carver alone finds, though the two files do not overlap |
| StreamingScanner.Scan | src/recoverx/core/carving/streaming.py:53-103 | the window loop with its buffer and base returns the merge of what the carvers find in the windows, placed at the window's base |
| StreamingWindows.BufferBound | src/recoverx/core/carving/streaming.py:67-98 | with an overlap, no window holds more than the overlap and one chunk |
| StreamingWindows.AlignedIff | src/recoverx/core/carving/streaming.py:95-98 | offsets are right in every window exactly when the overlap is positive, or one chunk holds the image, or nothing is read |
| StreamingWindows.WindowHolds | src/recoverx/core/carving/streaming.py:67-98 | every stretch of at most one byte more than the overlap that ends behind the cursor lies wholly in some window still to come; from cursor zero, every stretch of the image |
| StreamingWindows.ScannedIsGenuine | src/recoverx/core/carving/streaming.py:76-93 | whatever honest carvers run, the files returned are in the image at their offsets, ascending and disjoint across windows and carvers |
| StreamingWindows.HeaderFooterIsHonest | src/recoverx/core/carving/jpg.py:34-62 | the header/footer carver reports what the buffer holds where it says |
| StreamingWhole.HeldIsFound | src/recoverx/core/carving/streaming.py:53-103 | with one header/footer carver, if no header overlaps a footer and every file long enough to be reported lies in some window, the scan gives exactly the files of one pass over the whole image, each once |
| StreamingWhole.StreamingIsWhole | src/recoverx/core/carving/streaming.py:53-103 | so it does for every chunk size if no file is longer than the overlap and one byte |
| StreamingLimits.StreamingIsWholeIff | src/recoverx/core/carving/streaming.py:53-103 | if no header overlaps a footer, for each chunk size and overlap: the scan gives the files of one pass exactly when every file long enough to be reported lies in some window |
| StreamingLimits.StreamingIsWholeForAllIff | src/recoverx/core/carving/streaming.py:53-103 | it does so for all chunk sizes exactly when no file of the image is longer than the overlap and one byte |
| StreamingLimits.JpegOverlapIff | src/recoverx/core/carving/jpg.py:11-46 | for the JPEG carver, on all images without a header that overlaps a footer and for all chunk sizes, exactly when the search limit and the footer together are no more than the overlap and one byte |
| StreamingLimits.DefaultsMissAFile | src/recoverx/core/carving/streaming.py:16-17 | with the default chunk size and overlap the scan finds nothing in an image whose one JPEG file, of the greatest length, begins one byte before the end of the first chunk |
| StreamingLimits.RunTogetherIsLost | src/recoverx/core/carving/streaming.py:81-98 | the premise about headers and footers is needed: in an image of 404 bytes where FF D8 FF runs into FF D9, the JPEG carver loses a file though every file fits a window |
| StreamingWhole.EnoughOverlap | src/recoverx/core/carving/jpg.py:39-46 | no file is longer than the search limit and the footer, so an overlap of that less one byte fits every file of every image |
| ThreadedScanner.Partition | src/recoverx/core/scanner/threaded_scanner.py:106-127 | ids run from zero, region `i` starts at `i` times the larger of the overlap and the size over the threads, each region reaches over the next start by the overlap or to the end, the first starts at zero and the last ends at the size; there are as many as threads (1 to 64 as requested) or as many as cover the size, and one region where there is one thread or less than twice the overlap |
| ThreadedScanner.RegionHolds | src/recoverx/core/scanner/threaded_scanner.py:106-127 | every stretch of at most one byte more than the overlap lies wholly in one region |
| ThreadedScanner.MergeRegions | src/recoverx/core/scanner/threaded_scanner.py:89-104 | the merge loop and the sort return the sorted merge of what the finished regions report |
| ThreadedScanner.ReportedIff | src/recoverx/core/scanner/threaded_scanner.py:92-101 | a file is merged exactly when some finished region reports it |
| ThreadedScanner.ReportedHolds | src/recoverx/core/scanner/threaded_scanner.py:92-101 | the files of each finished region stand together and in order behind those of the regions before it |
| ThreadedScanner.MergedIsDisjoint | src/recoverx/core/scanner/threaded_scanner.py:89-104 | the merged list is disjoint and already ascending, so the final sort changes nothing |
| ThreadedScanner.ReturnedOrPassed | src/recoverx/core/scanner/threaded_scanner.py:97-102 | a reported file is returned unless a returned one ends behind its start |
| ThreadedScanner.AscendingReportsLoseOverlaps | src/recoverx/core/scanner/threaded_scanner.py:97-102 | when the regions' reports ascend, only files that start inside a returned one are left out |
| Fat32.Next | src/recoverx/core/filesystems/fat32/fat_table.py:36-44 | the successor is the little-endian number in the four image bytes at `fat_start + 4 * cluster` without its top four bits, or the last end mark where these bytes are not all in the image |
| Fat32.ReadClusterChain | src/recoverx/core/filesystems/fat32/fat_table.py:47-84 | for every limit (ten million where none is given): the chain is a repeat-free walk of data clusters along the table, and the status names the value that stopped it |
| Fat32.StatusMeans | src/recoverx/core/filesystems/fat32/fat_table.py:47-84 | below the limit the status is decided by the number behind the chain: an end mark, the bad mark, zero, a cluster of the chain, or anything else |
| Fat32.ResultIsUnique | src/recoverx/core/filesystems/fat32/fat_table.py:47-84 | the chain is a repeat-free walk of data clusters along the table, the status names the value that stopped it, `truncated_free` is never returned, and no other chain and status fit: the walk cannot stop early, go on, or misname its end |
| Fat32.ChainIsBounded | src/recoverx/core/filesystems/fat32/fat_table.py:57-82 | a chain is never longer than the slots inside the image allow |
| Fat32.CompleteMeansEnd | src/recoverx/core/filesystems/fat32/fat_table.py:57-84 | with a limit above that bound, `ok` is returned exactly when the end of the chain was read |
| Fat32.ReadChainData | src/recoverx/core/filesystems/fat32/fat_table.py:94-98 | the loop joins the clusters of the chain |
| Fat32Recovery.RecoverDeletedFile | src/recoverx/core/filesystems/fat32/recovery.py:38-91 | chain, data, status and notes of every kind of entry: directories, bad starts, empty and truncated chains, zero sizes, recovered files |
| Fat32Recovery.LaidIsRead | src/recoverx/core/filesystems/fat32/recovery.py:70-73 | what was written over the clusters of a repeat-free chain is what the chain's data begins with |
| Fat32Recovery.EndedChainIsRead | src/recoverx/core/filesystems/fat32/fat_table.py:47-84 | a chain the table ends is read whole |
| Fat32Recovery.LaidFileIsRecovered | src/recoverx/core/filesystems/fat32/recovery.py:38-91 | a file laid over a chain that the table ends is recovered byte for byte, when the slots lie before the data region |
| Fat32Volume.TableBeforeData | src/recoverx/core/filesystems/fat32/structures.py:29-41 | with at least one table, the slots of the first table lie before the data region |
| Fat32Volume.SlotIsRead | src/recoverx/core/filesystems/fat32/fat_table.py:36-44 | a number in a slot, byte `k` being `v / 256^k % 256`, is read back without its top four bits |
| Fat32Volume.WrittenChainReads | src/recoverx/core/filesystems/fat32/fat_table.py:36-44 | a chain written into the table byte by byte reads back link by link |
| Fat32Volume.EndedChainOnVolume | src/recoverx/core/filesystems/fat32/recovery.py:38-91 | on a volume given by the fields of its boot sector a file laid over a chain that the table ends is recovered byte for byte |
| Fat32Volume.FileOnVolumeIsRecovered | src/recoverx/core/filesystems/fat32/recovery.py:38-91 | on such a volume, any chain written into the table byte by byte and any file laid over its clusters come back from recovery, chain and bytes |
| Fat32Volume.FileInImageIsRecovered | src/recoverx/core/filesystems/fat32/recovery.py:38-91 | in any image whose slot bytes hold a chain and whose bytes at `(reserved + fats * fat_size) * sector + (cluster - 2) * cluster_size + j` hold a file, recovery returns that chain and that file |
| Fat32Recovery.RecoveryCases | src/recoverx/core/filesystems/fat32/recovery.py:55-91 | for every image and entry: which status directories, bad starts and short files get, that a chain from a data cluster starts with it, and that the data is cut to a positive size only |

## Left out

- FilterBuilder (src/recoverx/core/query/filters.py:44-81) does not preserve the meaning of a query, so nothing is claimed of it.
- The offsets `_scan_region_data` computes (src/recoverx/core/scanner/threaded_scanner.py:129-174): its base is not moved when the buffer is trimmed.
- TaskQueue.TaskQueue.Cancel: a cancellation between a pop and the marking as RUNNING is overwritten; the step is modelled so, and no claim is made that a cancelled task does not run.
- The table of running threads is part of the scheduler's state, but nothing is claimed of its size: a requeued task may lose its new thread's entry to the old one's cleanup. `wait_for_all`, `stop` and the counters that read it are not modelled.
- TaskQueue.TaskQueue.Peek: does not claim that the task is the next to be popped, because it is the first pending one in list order.
- Results and error texts of tasks, the work of the four task types, and re-submission of an id that is already known.
- NtfsChunked.ReadChunked: a chunk size below zero is not modelled.
- NtfsCodec.CodecRoundTrip: covers fragments whose counts and deltas fit the fifteen bytes a header can announce; the program has no encoder, so the one here is written for the format its decoders read.
- `execute`, `execute_chunked` and `execute_sparse_aware` are the modelled readers after `resolve_runlist`; `runs_to_byte_offsets`, `validate_data_run_integrity`, `analyse_runs` and the metadata fields of a recovered file are not modelled.
- Timeline.Timeline.Events: the list handed out is the timeline's own in the program; that a reader could change it is not modelled. Mixing timestamps with and without a time zone, which raises an error, is not modelled either. Filters, metadata and exports are left out.
- LruCache.BoundedCache.constructor: a negative maximum size is not modelled. HitTrackingCache only counts.
- The regular expression that splits a query into tokens (src/recoverx/core/query/parser.py:9-16): it cuts words that begin with an operator word, so printing and parsing are related on tokens.
- QueryLiterals.IntOfPrint: letter case and digits are those of ASCII, surrounding blanks are not stripped, and Python's limit on the length of a decimal number is not modelled.
- The weights, metadata and event helpers of graph nodes and edges.
- Carving.Carve: the branch for a format without a footer is not modelled, because the JPEG and PNG formats have one; the carvers for GIF, BMP and PDF are not modelled.
- StreamingScanner.Scan: the progress callback and negative overlaps are not modelled. With an overlap of zero the buffer keeps everything while its base moves; AlignedIff says when that shows.
- StreamingWhole.StreamingIsWhole: is about one carver; with several, files of one can hide files of another (CarverOrder.JpegHidesPng).
- StreamingLimits.JpegOverlapIff: is about a positive overlap; with none, offsets are wrong behind the first chunk (StreamingWindows.AlignedIff).
- Threads of the threaded scanner, its timings and its progress counter.
- Fat32Recovery.RecoverDeletedFile: names, times, attributes and the hash of the recovered data are not modelled; the chain limit of ten million clusters is.
- NTFS boot sectors and attribute headers, directory parsing, file system detection, resident files, storage, cases, exports, reports, the command line, plugins, logging and acquisition: input and output, library calls or thin byte reads.
- Machine limits: memory, recursion depth and integer widths, which Python's integers do not have.
