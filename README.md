# VectorSimilarity common utilities, as pinned down by their unit tests

This project models five small parts of the VectorSimilarity library (FalkorDB/VectorSimilarity)
in Dafny. The model is written from their unit test, `tests/unit/test_common.cpp`, which serves
as its specification: each component does what the test's assertions require, and the Dafny
contracts and lemmas generalise those assertions to all inputs.

- **Query-parameter resolver** (`query_params.dfy`, module `QueryParams`; the digits live in
  `decimal.dfy`, module `Decimal`). `VecSimIndex_ResolveParams` is a pure function. In the source it
  takes an index, a list of raw (name, value) text pairs, the query kind and the caller's output
  record. The model drops the index argument: it is the resolver of the brute-force index that the
  test builds, whose only names are `batch_size` and `hybrid_policy`. It returns either
  a resolved configuration (search mode and batch size) or exactly one error code. Names and policy
  values are compared without regard to ASCII case. `batch_size` must be the canonical decimal text
  of a number from 1 to INT64_MAX.
- **Updatable max-heap** (`updatable_heap.dfy`, module `UpdatableHeap`). `updatable_max_heap` is a
  class whose ghost field `Contents` maps each id to its priority, so there is one entry per id.
  The concrete field keeps the entries in the order they leave the heap. `emplace` inserts or
  updates. `top` and `pop` give the entry of highest priority, and on a tie the larger id.
- **Results containers and the reply iterator** (`results.dfy`, module `ResultsContainers`).
  - The default container keeps every pair it is given, in order.
  - The unique container keeps one score per id: the last one given.
  - `get_results` hands the contents over once and leaves the container empty.
  - The reply iterator is a cursor over a reply's results. It supports has-next, next and reset,
    and freeing it does not touch the reply.
- **Snapshot header check** (`snapshot_header.dfy`, module `SnapshotHeader`). Loading an HNSW
  index reads the header fields in order: version, algorithm tag, dimension, data-type tag. It stops
  at the first field that is wrong, and the error message names what was read.
- **Log formatting** (`logging.dfy`, module `Logging`). An index formats its message, printf style,
  and hands it to the log callback. The callback of the basic log test is `test_log_impl`. It
  appends `level + ": " + prefix + message` to its context's buffer.

`wrappers.dfy` holds the `Option` type. `ranges.dfy` holds the id range 0 .. n-1 that the tests
fill in loops.

Every recorded test run appears as a method or lemma whose contract states the values the test
asserts (`RecordedOutcomes`, `DistinctPrioritiesRun`, `ContainersRun`, `IteratorRun`,
`RecordedDeprecated`, `LogBasicRun` and others). The general lemmas beside them state the
properties for all inputs.

Design decisions:

- **Resolver precedence.** The resolver's checks apply in a fixed precedence; the full list is under
  the module header of `query_params.dfy`. Because of that precedence, the outcome depends on which
  parameters are present, not on their positions (`ResolvePermutation`; `ResolveOrderIndependent`
  and `SwapAdjacent` state its rotation and neighbour-swap cases).
- **Unrecognised names.** For the brute-force index, a name other than `batch_size` and
  `hybrid_policy` is refused with `UnknownParam`. It is checked last, and the test never exercises
  it. Other index kinds accept more names; they are not part of this model.
- **Heap priorities.** Priorities are real numbers. The four constants are pi, e, sqrt(2) and
  -sqrt(2)·e, cut to eight decimals; only their order matters to the test. `Pop` also returns the
  entry it removed, so its contract can name it.
- **Snapshot header as data.** The header is a sequence of integer fields, not bytes in a file. A
  file that ends before a needed field fails as `Truncated`. That message ("unexpected end of file")
  is this model's own, because the test never reaches it.
- **Version thresholds.** Versions up to 2 are deprecated, 3 and 4 are current, and 5 and above
  are bad. These thresholds are the model's choice. The serializer test shows only three versions:
  0 (deprecated), 42 (bad) and `EncodingVersion_V3` (accepted).
- **Tag values.** The algorithm tags are FLAT = 0, HNSW = 1 and TIERED = 2. The data-type tags are
  FLOAT32 = 0 and FLOAT64 = 1. Any other tag is named "Unknown (corrupted file?)".
- **Formatting.** `Format` implements `%s` only. Every other character, `%` included, is copied.

## Model

| member | source | states |
|---|---|---|
| QueryParams.Resolve | tests/unit/test_common.cpp:51-55 | a missing output record gives NullParam for every query kind; a resolved configuration never has a batch size above INT64_MAX, never a batch size together with adhoc_bf, and is the zeroed record for a non-hybrid query |
| QueryParams.EmptyResolvesToZero | tests/unit/test_common.cpp:43-49 | an empty list resolves for every query kind, and the record becomes the zeroed record whatever it held before |
| QueryParams.DuplicateRejected | tests/unit/test_common.cpp:65-95 | a recognised name given twice (at any two positions, any values) gives AlreadySet for every query kind |
| QueryParams.ResolveOrderIndependent | tests/unit/test_common.cpp:102-119 | moving a leading part of the list to its end never changes the outcome, so batches/batch_size and adhoc_bf/batch_size resolve alike in either order |
| QueryParams.ResolvePermutation | tests/unit/test_common.cpp:102-119 | two lists holding the same parameters, each as often, in any order, resolve to the same outcome |
| QueryParams.SwapAdjacent | tests/unit/test_common.cpp:102-119 | two neighbouring parameters can trade places anywhere in the list without changing the outcome |
| QueryParams.ResolveIgnoresCase | tests/unit/test_common.cpp:72-100 | two lists that differ only in the ASCII case of names and values resolve to the same outcome |
| QueryParams.ParseBatchSize | tests/unit/test_common.cpp:130-159 | an accepted batch size lies in [1, INT64_MAX] |
| QueryParams.BatchSizeText | tests/unit/test_common.cpp:130-159 | a text is accepted as batch size n exactly when 1 <= n <= INT64_MAX and the text is n's canonical decimal |
| QueryParams.SingleBatchSize | tests/unit/test_common.cpp:57-63 | a lone batch_size resolves to exactly the number its text names, with the mode left empty; every other outcome is BadValue for a text that names no valid number |
| QueryParams.SinglePolicy | tests/unit/test_common.cpp:97-100 | a lone hybrid_policy sets the mode it names and batch size 0; an unknown value gives InvalidPolicyNExits |
| QueryParams.AdhocWithBatchSizeRejected | tests/unit/test_common.cpp:102-109 | adhoc_bf with any batch_size gives InvalidPolicyAdHocWithBatchSize, in either order and for every query kind |
| QueryParams.NonHybridRejected | tests/unit/test_common.cpp:121-128 | a list with a recognised parameter that a hybrid query resolves, or rejects only for a malformed batch_size or an unknown name, gives InvalidPolicyNHybrid for NONE, KNN and RANGE |
| QueryParams.NonHybridBeforeBadValue | tests/unit/test_common.cpp:121-128 | a lone batch_size given to a non-hybrid query gives InvalidPolicyNHybrid whatever its value, so the policy check comes before the value check |
| QueryParams.UnknownPolicyRejected | tests/unit/test_common.cpp:72-78 | a list that names each recognised parameter at most once and whose hybrid_policy value is not a known policy gives InvalidPolicyNExits, for every query kind and batch_size value |
| QueryParams.EncodeResolves | tests/unit/test_common.cpp:57-119 | every configuration a hybrid query can hold is the resolution of its own parameter encoding |
| QueryParams.ResolvedIsReproducible | tests/unit/test_common.cpp:57-119 | a resolved configuration, encoded back into parameters, resolves to itself |
| QueryParams.RecordedOutcomes | tests/unit/test_common.cpp:57-119 | the eight hybrid-query cases of the test with their results: OK with batch size 100, AlreadySet twice, InvalidPolicyNExits, OK with HYBRID_BATCHES/100 twice, OK with HYBRID_ADHOC_BF, InvalidPolicyAdHocWithBatchSize |
| QueryParams.BadBatchSizeRejected | tests/unit/test_common.cpp:130-159 | with the batches policy, a batch_size text that does not parse gives BadValue |
| QueryParams.TooLargeRejected | tests/unit/test_common.cpp:137-141 | no number above INT64_MAX is accepted as a batch size |
| QueryParams.AboveInt64MaxRejected | tests/unit/test_common.cpp:137-141 | "9223372036854775808" (INT64_MAX + 1) is not a batch size |
| QueryParams.RecordedBadValues | tests/unit/test_common.cpp:130-159 | "not_a_number", "9223372036854775808", "-5", "0" and "10f" are not batch sizes |
| QueryParams.RecordedRejections | tests/unit/test_common.cpp:121-159 | the non-hybrid cases give InvalidPolicyNHybrid, and the five malformed batch sizes give BadValue |
| Decimal.Parse | tests/unit/test_common.cpp:130-159 | only canonical decimal text (digits, no sign, no leading zero) parses |
| Decimal.IntToString | tests/unit/test_common.cpp:396-403 | the text of a version number is non-empty and starts with '-' exactly when the number is negative |
| Decimal.ParseToDecimal | tests/unit/test_common.cpp:58-63 | the canonical text of every number parses back to that number |
| Decimal.ToDecimalParse | tests/unit/test_common.cpp:130-159 | every text the strict parser accepts is the canonical text of its value |
| UpdatableHeap.UpdatableMaxHeap.constructor | tests/unit/test_common.cpp:174 | a new heap is valid and holds no entry |
| UpdatableHeap.UpdatableMaxHeap.Size | tests/unit/test_common.cpp:177-193 | size() is the number of distinct ids present |
| UpdatableHeap.UpdatableMaxHeap.IsEmpty | tests/unit/test_common.cpp:177-178 | empty() holds exactly when no id is present |
| UpdatableHeap.UpdatableMaxHeap.Top | tests/unit/test_common.cpp:179-195 | top() on an empty heap yields nothing and does not fail; otherwise it is the entry above all others |
| UpdatableHeap.UpdatableMaxHeap.Emplace | tests/unit/test_common.cpp:187-216 | emplace sets the id's priority and leaves all other ids alone; the size grows by one for a new id and stays for an existing one |
| UpdatableHeap.UpdatableMaxHeap.Pop | tests/unit/test_common.cpp:192-198 | pop removes exactly the top entry and nothing else, so the size drops by one |
| UpdatableHeap.TopUnique | tests/unit/test_common.cpp:194-195 | at most one entry can be the top |
| UpdatableHeap.TopExists | tests/unit/test_common.cpp:192-198 | every non-empty heap has a top |
| UpdatableHeap.PopsDescend | tests/unit/test_common.cpp:219-229 | two pops in a row come out with non-increasing priority, and on a tie the larger id first |
| UpdatableHeap.LowestIsLast | tests/unit/test_common.cpp:243-249 | an entry below all others is never the top while anything else is left |
| UpdatableHeap.PopOrderSize | tests/unit/test_common.cpp:222-229 | a pop order has exactly as many entries as the heap |
| UpdatableHeap.PopOrderUnique | tests/unit/test_common.cpp:181-198 | the contents fix the pop order, whatever order the entries were emplaced in |
| UpdatableHeap.DrainAll | tests/unit/test_common.cpp:192-198 | popping until empty yields every entry once, with its priority, in leaving order |
| UpdatableHeap.PopAll | tests/unit/test_common.cpp:192-198 | the size-top-pop loop sees sizes counting down by one, tops in the pop order and a non-empty heap before each pop, and ends with an empty heap |
| UpdatableHeap.PopDownToOne | tests/unit/test_common.cpp:247-250 | popping while more than one entry is left leaves exactly the entry below all the others |
| UpdatableHeap.InitialRun | tests/unit/test_common.cpp:176-179 | a new heap has size 0, is empty and has no top |
| UpdatableHeap.DistinctPrioritiesRun | tests/unit/test_common.cpp:181-201 | four entries, emplaced out of order, leave as (pi, 93), (e, 99), (sqrt2, 16), (-sqrt2*e, 46) with sizes 4, 3, 2, 1, empty() false before each pop, and then size 0 and empty() true |
| UpdatableHeap.TieBreakRun | tests/unit/test_common.cpp:203-231 | with three ids at one priority, the top is (pi, 1) and the heap is not empty; the update of id 1 keeps size 4 and a non-empty heap; pops yield ids 4, 3, 2 at e and then 1 at sqrt2, with sizes 4, 3, 2, 1, empty() false before each pop, and then size 0 and empty() true |
| UpdatableHeap.LowestLastRun | tests/unit/test_common.cpp:233-256 | 13 entries; the update of id 10 to -sqrt2 keeps the size; when one entry is left the size is 1, the heap is not empty and the top is (-sqrt2, 10); after popping it the size is 0 and the heap is empty |
| ResultsContainers.DefaultResultsContainer.Emplace | tests/unit/test_common.cpp:303-304 | the default container appends the pair; nothing is dropped or replaced |
| ResultsContainers.DefaultResultsContainer.GetResults | tests/unit/test_common.cpp:319 | get_results hands over everything emplaced, in order, and leaves the container empty |
| ResultsContainers.DefaultResultsContainer.Size | tests/unit/test_common.cpp:314 | size() is the number of pairs emplaced |
| ResultsContainers.UniqueResultsContainer.Emplace | tests/unit/test_common.cpp:305-311 | the unique container records the pair; the id's score becomes the new one |
| ResultsContainers.UniqueResultsContainer.Size | tests/unit/test_common.cpp:314-315 | size() is the number of distinct ids emplaced |
| ResultsContainers.UniqueResultsContainer.GetResults | tests/unit/test_common.cpp:320 | get_results yields one pair per id with its current score, and leaves the container empty |
| ResultsContainers.LastWinsLatest | tests/unit/test_common.cpp:303-313 | an id's score is the one of its last emplace |
| ResultsContainers.LastWinsKeys | tests/unit/test_common.cpp:314-315 | the ids held are exactly the ids emplaced |
| ResultsContainers.Listing | tests/unit/test_common.cpp:320 | the listing has one entry per key, each id once, with the key's score |
| ResultsContainers.ContainersRun | tests/unit/test_common.cpp:291-334 | both containers end with size 10; the default results are (i, i) at position i; the unique results hold ids 0..9 once each, each with score equal to its id, so sorting by score puts id i at position i |
| ResultsContainers.QueryReply.PushBack | tests/unit/test_common.cpp:342-344 | push_back appends the result at the end and keeps the earlier ones |
| ResultsContainers.QueryReply.Len | tests/unit/test_common.cpp:346 | the length is the number of results |
| ResultsContainers.QueryReply.GetIterator | tests/unit/test_common.cpp:349 | a new iterator over this reply starts at the first result |
| ResultsContainers.ReplyIterator.HasNext | tests/unit/test_common.cpp:352-357 | has-next holds exactly while results remain |
| ResultsContainers.ReplyIterator.Next | tests/unit/test_common.cpp:353-355 | next yields the result at the cursor and advances; at the end it yields nothing and stays |
| ResultsContainers.ReplyIterator.Reset | tests/unit/test_common.cpp:358 | reset returns the cursor to the first result |
| ResultsContainers.ReplyIterator.Free | tests/unit/test_common.cpp:361-363 | freeing the iterator marks it freed and changes only the iterator; the reply is outside its frame. has-next, next and reset require an iterator that is not freed |
| ResultsContainers.Traverse | tests/unit/test_common.cpp:351-357 | iterating from the cursor yields the remaining results in order, with has-next true before each |
| ResultsContainers.IteratorRun | tests/unit/test_common.cpp:338-365 | three passes over a three-result reply each yield (0, 0.0), (1, 1.0), (2, 2.0), then has-next is false; after the iterator is freed the length is still 3 |
| SnapshotHeader.Load | tests/unit/test_common.cpp:384-432 | a header that loads is valid: version 3 or 4, the HNSW algorithm tag, a known data type, and at least four fields read |
| SnapshotHeader.Message | tests/unit/test_common.cpp:389-429 | every error other than a missing file starts with "Cannot load index: " |
| SnapshotHeader.AlgoName | tests/unit/test_common.cpp:413-415 | the algorithm is named "Unknown (corrupted file?)" exactly when its tag is not FLAT, HNSW or TIERED |
| SnapshotHeader.TypeName | tests/unit/test_common.cpp:428-429 | the data type is named "Unknown (corrupted file?)" exactly when its tag is not FLOAT32 or FLOAT64 |
| SnapshotHeader.Encode | tests/unit/test_common.cpp:419-425 | writing a header produces its four fields, version, algorithm, dimension and data type |
| SnapshotHeader.LoadEncode | tests/unit/test_common.cpp:419-429 | a valid header, written and read back, loads as itself, whatever follows it |
| SnapshotHeader.EncodeLoad | tests/unit/test_common.cpp:419-429 | whatever loads is a valid header written at the start of the file |
| SnapshotHeader.FirstFailureStands | tests/unit/test_common.cpp:399-429 | fields after the failing one never change the error (except a premature end of file) |
| SnapshotHeader.FailureConditions | tests/unit/test_common.cpp:392-429 | each error is raised exactly when every earlier field is right and its own field is wrong: first the version (with the thresholds chosen under Design decisions), then the algorithm, then the data type |
| SnapshotHeader.VersionNamed | tests/unit/test_common.cpp:396-403 | a version error message determines the version read |
| SnapshotHeader.RecordedMissing | tests/unit/test_common.cpp:388-390 | a missing file fails with "Cannot open file" |
| SnapshotHeader.RecordedDeprecated | tests/unit/test_common.cpp:392-397 | the file [0] fails with "Cannot load index: deprecated encoding version: 0" |
| SnapshotHeader.RecordedBadVersion | tests/unit/test_common.cpp:399-403 | the file [42] fails with "Cannot load index: bad encoding version: 42" |
| SnapshotHeader.RecordedWrongAlgorithm | tests/unit/test_common.cpp:405-415 | the file [3, 42] fails with the wrong-algorithm message naming "Unknown (corrupted file?)" |
| SnapshotHeader.RecordedBadDataType | tests/unit/test_common.cpp:417-429 | the file [3, HNSW, 128, 42] fails with the bad-data-type message naming "Unknown (corrupted file?)" |
| Logging.Format | tests/unit/test_common.cpp:458-459 | the formatted text is as long as the format, minus two characters per %s, plus the lengths of the arguments |
| Logging.FormatPlain | tests/unit/test_common.cpp:458 | a format without %s formats to itself |
| Logging.FormatSplice | tests/unit/test_common.cpp:459 | the first %s takes the first argument: the text before it is copied, and the text after it is formatted with the remaining arguments |
| Logging.LogLine | tests/unit/test_common.cpp:440-444 | a log line is two characters longer than level, prefix and message together |
| Logging.LogLineParts | tests/unit/test_common.cpp:440-444 | for a level without a colon, the line's first colon ends the level, ": " follows it, and the rest is prefix + message |
| Logging.LogLineInjective | tests/unit/test_common.cpp:440-444 | with the prefix fixed, a line determines its level and its message |
| Logging.LogContext.TestLogImpl | tests/unit/test_common.cpp:440-444 | test_log_impl appends exactly one line, level + ": " + prefix + message, and keeps the prefix |
| Logging.IndexLog | tests/unit/test_common.cpp:458-459 | an index log call appends the line of the formatted message to the index's context |
| Logging.ArgsFormatted | tests/unit/test_common.cpp:459 | "test log message %s %s" with "with" and "args" formats to "test log message with args" |
| Logging.LogBasicRun | tests/unit/test_common.cpp:446-463 | after the two log calls the buffer holds exactly "notice: test log prefix: test log message no fmt" and "warning: test log prefix: test log message with args" |

## Left out

- `normalizeVector` and its norm check (tests/unit/test_common.cpp:259-289): floating-point numerics, outside this model.
- The tiered-index log test (tests/unit/test_common.cpp:468-502): it depends on the HNSW index, the mock thread pool and background jobs, which are not part of this model.
- The HNSW graph, the tiered coordinator, index factories and `dynamic_cast`: no source for them is part of this model; they appear only as the index that logs and the loader that checks the header.
- File I/O in the serializer test: opening, writing, `seekp` and flushing. A snapshot is an in-memory sequence of header fields or `Missing`. Field widths (int, enum, size_t) and byte encoding are not modelled.
- SnapshotHeader.Load: it stops after the data-type tag; the rest of the HNSW header (metric, capacity, graph data) is not part of this model.
- Allocators, leak checks (`dummy1`, `dummy2`), reply freeing and the gtest harness: memory management does not change observable results in the model.
- `sort_results_by_id` and `sort_results_by_score`: test helpers without source; ContainersRun states the contents that make the sorted order the one the test checks.
- The registration of the log callback (`VecSim_SetLogCallbackFunction`): the callback is fixed to `test_log_impl`.
- Logging.Format: printf conversions other than `%s` (including `%%`) and any output-buffer size limit are not modelled; it requires exactly one argument per `%s`, as a C variadic call does.
- ResultsContainers: scores are exact reals, not `double`; the containers and the reply only store and return them, so no arithmetic on them is lost.
- UpdatableHeap: priorities are exact reals, not `float`/`double`; the four constants keep the order of pi, e, sqrt(2) and -sqrt(2)·e, which is all the test observes.
- QueryParams.Resolve: the `index` argument is dropped. The model is the resolver of the brute-force index of tests/unit/test_common.cpp:35-36, whose only names are batch_size and hybrid_policy; other index kinds recognise more names.
- QueryParams.Resolve: the content of the output record after an error is not modelled; the resolver result carries only the error code.
- ResultsContainers.UniqueResultsContainer.Emplace: the score kept for a repeated id is the last one given. The test's ids all end with their lowest score given last, so it cannot distinguish this from keeping the lowest score.
- ResultsContainers.ReplyIterator.Free: the iterator's memory release is not modelled; only that the reply is untouched.
