# Windowed libc-call correlation of the ros2_profiling demo test

The `ros2_profiling_demo` test `test_lttng_ust_libc_events.py` checks that the
subscription callbacks of the `task_manager` node allocate no memory while
they run. For each recorded callback invocation it does the following:

1. It sorts the invocation's own trace events by timestamp. The invocation's
   window runs from the first sorted event to the last, both ends included.
2. It takes the six LTTng-UST libc streams in this order: `malloc`, `calloc`,
   `realloc`, `free`, `memalign`, `posix_memalign`. From each it keeps the
   events inside the window on the invocation's CPU (`filter_sequence`).
3. It asserts that each filtered stream is empty (`check_sequence`).
   `check_sequence` is meant to also append a violation record for every hit
   to the invocation's "extended sequence"; as written it appends none (see
   "## Findings"). A record has node `task_manager`, the event's name, topic
   `N/A` and the event's timestamp.
4. When the extended sequence grew, the test re-sorts it and adds it to the
   report.

This project models that correlation in Dafny and proves its properties.

The modules are:

- **`Sequences`**: generic sequence vocabulary.
  - Order-preserving subsequences.
  - Ordering by an integer key.
  - The per-key projection `WithKey`. "For every key, the elements carrying it
    keep their relative order" is how Python's stable `sorted` is specified
    here.
  - A stable insertion sort `SortBy`, proved to be *the* stable sort.
    `SortByCharacterised` and `StableOrderUnique` show that ordering plus the
    per-key projections fix the result.
- **`Optional`**: `Option`.
- **`Events`**:
  - trace events, the inclusive window and `filter_sequence`;
  - the two kinds of extended-sequence entry: an invocation's own event, and a
    violation record.
- **`Correlator`**: the per-invocation work of lines 50-78.
  - The window is the minimum and maximum timestamp. `WindowOfSorted` proves
    this equals the first and last event once sorted.
  - `check_sequence`.
  - The fold of the six checks (`Extend`), together with the violations it
    finds.
  - The extended sequence and the report entry.
  - The asserts, which stop at the first category with a hit
    (`FirstFailure`, `InvocationAsserts`).
- **`LibcEventsTest`**: the loops of lines 40-78 over all invocations of all
  subscriptions.
  - `RunAsserts`: the test as written, stopping at the first failing assert.
  - `Report`: the report collected when no assert stops the run and the
    filtered streams are materialised as lists.
  - `CollectReport` and `CollectInvocations`: the two nested loops, written as
    methods and proved to compute `Report`.
- **`Findings`**: `check_sequence` exactly as written, which drains the
  `filter` iterator before sorting it (see Findings below).
- **`Scenarios`**: concrete traces. Each proves a whole report entry or assert
  outcome.

Inputs the test gets from code that is not part of this model are
parameters:

- **The six monitored streams**: a `Streams` value. Line 10 reads them from a
  name `event_data` that the file never defines.
- **Each invocation's events and CPU**: an `Invocation`. These come from
  `EventSequence` and `build_graph`.
- **The invocations of each subscription**: a `seq<seq<Invocation>>`. These
  come from `node.subscriptions` and `callback.events()`.

What the code does, and how the model follows it:

- **Window bounds.** Both ends of the window are included (line 18), and so
  they are in the model (`InWindow`, scenario `MallocAtWindowStartFails`).
- **Stopping at the first hit.** Each check is followed by an `assert`,
  which stops the test at the first category with a hit. `RunAsserts` and
  `InvocationAsserts` follow that. `Report` and `ExtendedSequence` describe
  the program with the `assert` keywords deleted, the `check_sequence`
  calls kept and the filtered stream materialised as a list (see
  "## Findings"), so that all six checks run to completion and append their
  records. With the asserts in place, an invocation that would add an
  entry at lines 77-78 fails an assert first (`PassingRunReportsNothing`).
  With only the asserts deleted, line 21 still drains the iterator and
  nothing is appended (`Findings.AsWrittenNeverReports`). Running Python
  with assertions disabled skips the whole `assert` statement, the call
  included, so nothing is appended there either.
- **Duplicates.** Records are appended without removing duplicates, and the
  model proves a multiset equality (`ExtendedMultiset`, `ViolationsCounts`).
- **Fixed node and categories.** The code hard-codes the node name
  `task_manager` and the six categories, and so does the model.

## Model

| member | source | states |
|---|---|---|
| Events.FilterSequence | ros2_profiling_demo/test/test_lttng_ust_libc_events.py:17-18 | the filtered stream is an order-preserving subsequence of the stream, no longer than it; every kept event lies in the window on the CPU; it is empty exactly when no event of the stream lies in the window on the CPU |
| Events.FilterSequenceMembers | ros2_profiling_demo/test/test_lttng_ust_libc_events.py:18 | an event is kept if and only if it is in the stream, `start <= timestamp <= end` (both bounds included) and it ran on the given CPU |
| Events.FilterSequenceCounts | ros2_profiling_demo/test/test_lttng_ust_libc_events.py:18 | every occurrence of an in-window event is kept and no occurrence of any other event: the filter's multiplicities equal the stream's for in-window events and are 0 otherwise |
| Events.InWindow | ros2_profiling_demo/test/test_lttng_ust_libc_events.py:18 | defines the filter condition: `start <= timestamp <= end`, both ends included, on the given CPU; `FilterSequenceMembers` and `FilterSequenceCounts` characterise the filter by it |
| Events.FilterSequenceAppend | ros2_profiling_demo/test/test_lttng_ust_libc_events.py:18 | filtering two streams laid end to end gives the two filtered streams laid end to end |
| Events.Annotate | ros2_profiling_demo/test/test_lttng_ust_libc_events.py:27-32 | defines the violation record of a monitored event: node `task_manager`, the event's name, topic `N/A`, the event's timestamp; `CheckSequenceRecords` states that every appended entry has this form |
| Sequences.SubsequenceNotLonger | ros2_profiling_demo/test/test_lttng_ust_libc_events.py:18 | an order-preserving subsequence is never longer than the sequence it comes from |
| Sequences.SortBy | ros2_profiling_demo/test/test_lttng_ust_libc_events.py:50 | the sort by key keeps the length, is a permutation, is nondecreasing by key, and keeps every key's elements in their original relative order (Python's `sorted` is stable) |
| Sequences.StableOrderUnique | ros2_profiling_demo/test/test_lttng_ust_libc_events.py:78 | two sequences that are both ordered by key and have the same per-key projections are equal |
| Sequences.SortByCharacterised | ros2_profiling_demo/test/test_lttng_ust_libc_events.py:78 | a sequence is the stable sort of `s` if and only if it is ordered by key and keeps every key's elements of `s` in their order |
| Sequences.SortBySortedIdentity | ros2_profiling_demo/test/test_lttng_ust_libc_events.py:78 | sorting an already ordered sequence leaves it unchanged |
| Sequences.SortByEnds | ros2_profiling_demo/test/test_lttng_ust_libc_events.py:53-54 | the first and last element of a sorted non-empty sequence belong to it and carry its least and greatest key |
| Sequences.MapSortCommute | ros2_profiling_demo/test/test_lttng_ust_libc_events.py:24-32 | sorting events and then turning them into records gives the same sequence as turning them into records and sorting those, since a record keeps its event's timestamp |
| Correlator.Position | ros2_profiling_demo/test/test_lttng_ust_libc_events.py:59-75 | every category has a place in the order of the six checks, and the category at that place is itself |
| Correlator.MonitoredOrder | ros2_profiling_demo/test/test_lttng_ust_libc_events.py:10-15 | the i-th checked stream is the stream of the i-th category: malloc, calloc, realloc, free, memalign, posix_memalign |
| Correlator.CheckSequence | ros2_profiling_demo/test/test_lttng_ust_libc_events.py:20-34 | the check returns true exactly when the filtered stream is empty, and then leaves the extended sequence unchanged; it always keeps the existing entries as a prefix and adds exactly one entry per filtered event |
| Correlator.CheckSequenceRecords | ros2_profiling_demo/test/test_lttng_ust_libc_events.py:24-32 | the appended entries are in nondecreasing timestamp order; they are a permutation of the filtered events' records, with equal timestamps kept in stream order; each is attributed to node `task_manager` with topic `N/A` |
| Correlator.Hits | ros2_profiling_demo/test/test_lttng_ust_libc_events.py:59-75 | every monitored event found by the six checks lies inside the window on the CPU, and none is found exactly when no monitored stream is touched |
| Correlator.HitsFilterConcat | ros2_profiling_demo/test/test_lttng_ust_libc_events.py:59-75 | the events found by the six checks are exactly the filter applied to the six streams laid end to end, in the same order |
| Correlator.HitsMembers | ros2_profiling_demo/test/test_lttng_ust_libc_events.py:59-75 | an event is found if and only if it lies in the window on the CPU and belongs to one of the monitored streams |
| Correlator.HitsCounts | ros2_profiling_demo/test/test_lttng_ust_libc_events.py:59-75 | every occurrence of an in-window event in the monitored streams is found, and no occurrence of any other event |
| Correlator.Extend | ros2_profiling_demo/test/test_lttng_ust_libc_events.py:59-75 | threading the extended sequence through the six checks keeps it as a prefix and grows it by exactly the number of monitored events found |
| Correlator.ExtendAppendsRecords | ros2_profiling_demo/test/test_lttng_ust_libc_events.py:59-75 | what the six checks append is, as a multiset, one record per monitored event found |
| Correlator.ExtendKeepsTieOrder | ros2_profiling_demo/test/test_lttng_ust_libc_events.py:59-75 | appended records that share a timestamp are in the order the checks met their events: category by category, then stream order |
| Correlator.WindowOfBounds | ros2_profiling_demo/test/test_lttng_ust_libc_events.py:53-54 | every own event lies inside the invocation's window, and both ends of the window are timestamps of own events (so the start is the minimum, the end the maximum, and start <= end) |
| Correlator.WindowOfSorted | ros2_profiling_demo/test/test_lttng_ust_libc_events.py:50-54 | the window's start and end are the timestamps of the first and last event once the events are sorted by timestamp |
| Correlator.WindowOf | ros2_profiling_demo/test/test_lttng_ust_libc_events.py:53-54 | defines the window as the least and greatest own timestamp; `WindowOfBounds` and `WindowOfSorted` characterise it |
| Correlator.NoHitsIffUntouched | ros2_profiling_demo/test/test_lttng_ust_libc_events.py:59-75 | the six checks find nothing if and only if no category has an event inside the window on the CPU |
| Correlator.Violations | ros2_profiling_demo/test/test_lttng_ust_libc_events.py:59-75 | an invocation has no violations exactly when it is clean for all six categories, and every violation lies inside its window on its CPU |
| Correlator.ViolationsMembers | ros2_profiling_demo/test/test_lttng_ust_libc_events.py:56-75 | an event is a violation if and only if it belongs to one of the six monitored streams and lies inside the invocation's window on its CPU |
| Correlator.ViolationsCounts | ros2_profiling_demo/test/test_lttng_ust_libc_events.py:56-75 | an in-window event is a violation as many times as the six streams together record it; any other event is no violation |
| Correlator.OwnItemsSorted | ros2_profiling_demo/test/test_lttng_ust_libc_events.py:50-56 | the extended sequence before any check (`OwnItems`) is the stable timestamp sort of the invocation's events as recorded |
| Correlator.ExtendedSequence | ros2_profiling_demo/test/test_lttng_ust_libc_events.py:56-75 | the extended sequence has the invocation's length plus one entry per violation, so it keeps the initial length if and only if the invocation is clean |
| Correlator.ExtendedMultiset | ros2_profiling_demo/test/test_lttng_ust_libc_events.py:56-75 | the extended sequence holds, as a multiset, exactly the invocation's own events plus one record per violation |
| Correlator.ExtendedTieOrder | ros2_profiling_demo/test/test_lttng_ust_libc_events.py:56-75 | among entries sharing a timestamp, the extended sequence lists the own events first, in recorded order, then the records in the order the checks found them |
| Correlator.ReportEntry | ros2_profiling_demo/test/test_lttng_ust_libc_events.py:77-78 | an invocation contributes a report entry if and only if it is not clean; the entry is longer than the invocation by the number of violations and is sorted by timestamp |
| Correlator.ReportEntryContents | ros2_profiling_demo/test/test_lttng_ust_libc_events.py:77-78 | a report entry is a permutation of the own events plus the violation records, with equal timestamps ordered as in the extended sequence |
| Correlator.ReportEntryIsStableMerge | ros2_profiling_demo/test/test_lttng_ust_libc_events.py:50-78 | the report entry equals the stable timestamp sort of the invocation's events, as recorded, followed by the violation records |
| Correlator.FirstFailure | ros2_profiling_demo/test/test_lttng_ust_libc_events.py:59-75 | the asserts stop at a touched stream with no touched stream before it, and pass exactly when no stream is touched |
| Correlator.FailsFirstAtUnique | ros2_profiling_demo/test/test_lttng_ust_libc_events.py:59-75 | at most one category can be the first whose assert fails |
| Correlator.InvocationAsserts | ros2_profiling_demo/test/test_lttng_ust_libc_events.py:56-75 | an invocation's six asserts all pass if and only if it is clean; otherwise the category they stop at is touched and every earlier category is not |
| LibcEventsTest.AllCleanEach | ros2_profiling_demo/test/test_lttng_ust_libc_events.py:48-75 | a run is clean exactly when every visited invocation is clean |
| LibcEventsTest.RunAsserts | ros2_profiling_demo/test/test_lttng_ust_libc_events.py:42-75 | provided line 38 succeeds, the test passes if and only if every invocation is clean; when it fails, every invocation visited before the failing one is clean and the reported category is the first failing check of that invocation |
| LibcEventsTest.Report | ros2_profiling_demo/test/test_lttng_ust_libc_events.py:40-78 | the report has at most one entry per invocation, is empty if and only if every invocation is clean, and every entry is sorted by timestamp |
| LibcEventsTest.PassingRunReportsNothing | ros2_profiling_demo/test/test_lttng_ust_libc_events.py:59-78 | the test passes exactly when the report would be empty, so a completed run never reports anything |
| LibcEventsTest.ReportSnoc | ros2_profiling_demo/test/test_lttng_ust_libc_events.py:77-78 | visiting one more invocation appends its report entry, if any, to the report so far |
| LibcEventsTest.FlattenSnoc | ros2_profiling_demo/test/test_lttng_ust_libc_events.py:42-48 | visiting one more subscription appends its invocations after those visited before |
| LibcEventsTest.Flatten | ros2_profiling_demo/test/test_lttng_ust_libc_events.py:42-48 | the invocations in visiting order, subscription by subscription, equal the subscriptions' invocations laid end to end (`Concat`) |
| LibcEventsTest.FlattenMembers | ros2_profiling_demo/test/test_lttng_ust_libc_events.py:42-48 | an invocation is visited if and only if it belongs to some subscription's callback |
| LibcEventsTest.ReportAppend | ros2_profiling_demo/test/test_lttng_ust_libc_events.py:42-78 | the report of two runs of invocations visited one after the other is the first run's report followed by the second's |
| LibcEventsTest.CollectInvocations | ros2_profiling_demo/test/test_lttng_ust_libc_events.py:45-78 | the inner loop appends to whatever report was collected before it exactly the report of this subscription's invocations, in visiting order |
| LibcEventsTest.CollectReport | ros2_profiling_demo/test/test_lttng_ust_libc_events.py:40-78 | the nested loops collect exactly the report of all subscriptions' invocations in visiting order |
| Findings.CheckSequenceAsWritten | ros2_profiling_demo/test/test_lttng_ust_libc_events.py:20-34 | as written, the check returns the right outcome but never changes the extended sequence |
| Findings.ExtendAsWritten | ros2_profiling_demo/test/test_lttng_ust_libc_events.py:59-75 | as written, the six checks leave the extended sequence exactly as it started |
| Findings.AsWrittenDropsRecords | ros2_profiling_demo/test/test_lttng_ust_libc_events.py:21-24 | the check as written agrees with the intended one on the outcome, and its extended sequence is shorter by exactly the number of filtered events |
| Findings.AsWrittenNeverReports | ros2_profiling_demo/test/test_lttng_ust_libc_events.py:77 | for an invocation with violations, the extended sequence as written keeps the initial length, so line 77 never adds it; the intended sequence is longer |
| Findings.AsWrittenCounterexample | ros2_profiling_demo/test/test_lttng_ust_libc_events.py:21-24 | a `free` at 150 on CPU 0 inside the window [100, 200] on CPU 0 gets a record from the intended check and none from the check as written |
| Scenarios.CallbackWindow | ros2_profiling_demo/test/test_lttng_ust_libc_events.py:50-54 | events recorded at 200 and then 100 give the window [100, 200] |
| Scenarios.FreeInsideWindowViolates | ros2_profiling_demo/test/test_lttng_ust_libc_events.py:68-69 | a `free` at 150 on CPU 0 is the only violation of that window on CPU 0, and the `free` assert is the first to fail |
| Scenarios.FreeInsideWindowIsReported | ros2_profiling_demo/test/test_lttng_ust_libc_events.py:56-78 | the report entry for that trace is the events at 100, 150 (the `free` record) and 200, in that order |
| Scenarios.FreeOnOtherCpuIsIgnored | ros2_profiling_demo/test/test_lttng_ust_libc_events.py:18 | the same `free` on CPU 1 is no violation: nothing is reported and every assert passes |
| Scenarios.MallocAtWindowStartFails | ros2_profiling_demo/test/test_lttng_ust_libc_events.py:59-60 | a `malloc` at exactly the window's start fails the first assert of the first invocation |
| Scenarios.CallocAtPointWindowFails | ros2_profiling_demo/test/test_lttng_ust_libc_events.py:53-63 | a single event at 50 on CPU 2 gives the window [50, 50]; a `calloc` at exactly 50 on CPU 2 fails the `calloc` assert and the invocation is reported |

## Left out

- `ros2profile/ros2profile/verb/launch.py` is not part of this model. It is command-line parsing, YAML loading, file copying and LTTng session and launch setup, with no algorithm to state.
- `EventSequence`, `build_graph`, `node_by_name`, `subscriptions` and `callback.events()` are not part of this model, and their validation (mixed CPUs, empty sequences) is not modelled either. Invocations come in as a list per subscription, each with its events and its CPU (`seq.cpu_id`).
- An invocation with no events is excluded by a precondition (`|inv.events| > 0`, `AllRecorded`). Line 53 would fail on it with an index error, which is not modelled.
- The undefined `event_data` of lines 10-15: the six streams are a parameter.
- The pytest fixture `profile_events` and the `numpy` import.
- LibcEventsTest.RunAsserts: describes runs in which line 38 succeeds. Line 38 builds an `EventSequence` it never uses from `node.subscriptions[1].callback.events()[0]`, and raises before the loop when `task_manager` has fewer than two subscriptions or none recorded for the second; the test then errors whether or not any invocation is clean. That lookup belongs to code that is not part of this model.
- Trace events are dictionaries keyed by strings (`_name`, `_timestamp`, `cpu_id` for libc events; `timestamp` for an invocation's own events). They are typed fields of `Event`, and an invocation's own events keep only name, timestamp and CPU. Entries of the extended sequence are the tagged `Item`.
- A failing `assert` raises `AssertionError` and ends the test. `RunAsserts` returns where it stops instead.
- `filter_sequence` returns a lazy one-shot iterator. The main model materialises it as a sequence, which is what lines 24-32 evidently need. `Findings` models the iterator as written.
- Mutation: `check_sequence` appends to the caller's list, and line 78 appends to `extended_seq`. The model returns the new sequence instead.
- Timestamps and CPU ids are unbounded integers; Python's integers do not wrap.

## Findings

| source | as written | input that shows it | evidently intended | confidence | as-written member | corrected member |
|---|---|---|---|---|---|---|
| ros2_profiling_demo/test/test_lttng_ust_libc_events.py:21-24 | `len(list(event_sequence))` at line 21 drains the one-shot iterator that `filter_sequence` returns. `sorted(event_sequence)` at line 24 therefore reads an exhausted iterator and no violation record is ever appended. Line 77 then never adds an invocation to the report, even with the asserts removed. | invocation events at 100 and 200 on CPU 0; one `free` at 150 on CPU 0 | one record per filtered event is appended in timestamp order, and the invocation is reported with the entries at 100, 150 and 200 | not executed | Findings.CheckSequenceAsWritten | Correlator.CheckSequence |
