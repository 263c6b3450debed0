/**
 `check_sequence` as the test writes it. `filter_sequence` returns a one-shot
 iterator; `check_sequence` first drains it into a list to test whether it is
 empty and then hands the already drained iterator to `sorted`, which sees no
 events. The outcome of the check is right, but no violation record is ever
 appended, so no invocation ever reaches the report. The rest of the model
 uses the evidently intended `Correlator.CheckSequence`, which sorts the
 filtered events themselves.
 */
module Findings {
  import opened Sequences
  import opened Events
  import opened Correlator

  /** A one-shot iterator over events, as Python's `filter` returns. */
  datatype EventIterator = EventIterator(remaining: seq<Event>)

  /** Consumes an iterator (`list(it)`, or `sorted` reading it): the events
      not yet consumed, and the iterator left behind, now exhausted. */
  function Drain(it: EventIterator): (seq<Event>, EventIterator)
  {
    (it.remaining, EventIterator([]))
  }

  /** `check_sequence` as written: `list` at line 21 consumes the iterator,
      so `sorted` at line 24 reads an exhausted one. Whatever it is given,
      it reports the right outcome and leaves the extended sequence as it
      was. */
  function CheckSequenceAsWritten(filtered: EventIterator, ext: seq<Item>): (r: (bool, seq<Item>))
    ensures r.0 <==> filtered.remaining == []
    ensures r.1 == ext
  {
    var (listed, rest) := Drain(filtered);
    var hit := |listed| > 0;
    if hit then
      var (sortedInput, _) := Drain(rest);
      (false, ext + MapSeq(SortBy(sortedInput, EventTime), Annotate))
    else
      (true, ext)
  }

  /** The six checks of lines 59-75 as written, threading the extended
      sequence through: it never grows. */
  function ExtendAsWritten(monitored: seq<seq<Event>>, w: Window, cpu: int, ext: seq<Item>): (r: seq<Item>)
    ensures r == ext
    decreases |monitored|
  {
    if monitored == [] then ext
    else
      var next := CheckSequenceAsWritten(EventIterator(FilterSequence(monitored[0], w, cpu)), ext).1;
      ExtendAsWritten(monitored[1..], w, cpu, next)
  }

  /** As written, the check agrees with the intended one on the outcome but
      drops every record the intended one appends. */
  lemma AsWrittenDropsRecords(filtered: seq<Event>, ext: seq<Item>)
    ensures CheckSequenceAsWritten(EventIterator(filtered), ext).0 == CheckSequence(filtered, ext).0
    ensures |CheckSequence(filtered, ext).1| - |CheckSequenceAsWritten(EventIterator(filtered), ext).1| == |filtered|
  {
  }

  /** As written, an invocation with violations never enters the report:
      its extended sequence keeps its initial length, so the test of line 77
      fails, while the intended extended sequence is longer. */
  lemma AsWrittenNeverReports(inv: Invocation, streams: Streams)
    requires |inv.events| > 0 && !Clean(inv, streams)
    ensures |ExtendAsWritten(streams.Monitored(), WindowOf(inv.events), inv.cpu, OwnItems(inv.events))| == |inv.events|
    ensures |ExtendedSequence(inv, streams)| > |inv.events|
  {
  }

  /** A concrete case: an invocation spanning timestamps 100 to 200 on CPU 0
      and a `free` at 150 on CPU 0. The intended check appends a record; the
      check as written appends nothing. */
  lemma AsWrittenCounterexample()
    ensures var free := [Event("lttng_ust_libc:free", 150, 0)];
      var filtered := FilterSequence(free, Window(100, 200), 0);
      && filtered == free
      && CheckSequenceAsWritten(EventIterator(filtered), []).1 == []
      && CheckSequence(filtered, []).1 == [Annotation(AnnotatedNode, "lttng_ust_libc:free", NoTopic, 150)]
  {
    var free := [Event("lttng_ust_libc:free", 150, 0)];
    assert free[1..] == [];
    assert InWindow(free[0], Window(100, 200), 0);
    assert FilterSequence(free, Window(100, 200), 0) == [free[0]] + FilterSequence([], Window(100, 200), 0);
    assert SortBy(free, EventTime) == free;
    assert MapSeq(free, Annotate) == [Annotate(free[0])];
  }
}
