/**
 The per-invocation correlation of the libc events test: the window of a
 callback invocation, the six monitored allocation streams filtered to that
 window and CPU, the violation records appended for every hit, and the
 report entry collected when the extended sequence grew.
 */
module Correlator {
  import opened Sequences
  import opened Events
  import opened Optional

  /** The monitored libc entry points, traced as `lttng_ust_libc:malloc`,
      `lttng_ust_libc:calloc`, and so on. */
  datatype Category = Malloc | Calloc | Realloc | Free | Memalign | PosixMemalign

  /** The order in which the test checks the categories. */
  const Categories: seq<Category> := [Malloc, Calloc, Realloc, Free, Memalign, PosixMemalign]

  /** Where a category's check sits in that order. */
  function Position(c: Category): (p: nat)
    ensures p < |Categories| && Categories[p] == c
  {
    match c
    case Malloc => 0
    case Calloc => 1
    case Realloc => 2
    case Free => 3
    case Memalign => 4
    case PosixMemalign => 5
  }

  /** The recorded event stream of every monitored category. */
  datatype Streams = Streams(
    malloc: seq<Event>,
    calloc: seq<Event>,
    realloc: seq<Event>,
    free: seq<Event>,
    memalign: seq<Event>,
    posixMemalign: seq<Event>)
  {
    function Of(c: Category): seq<Event>
    {
      match c
      case Malloc => malloc
      case Calloc => calloc
      case Realloc => realloc
      case Free => free
      case Memalign => memalign
      case PosixMemalign => posixMemalign
    }

    /** The streams in the order the test checks them. */
    function Monitored(): (m: seq<seq<Event>>)
      ensures |m| == |Categories|
    {
      [malloc, calloc, realloc, free, memalign, posixMemalign]
    }
  }

  /** The `i`-th monitored stream is the stream of the `i`-th category. */
  lemma MonitoredOrder(streams: Streams)
    ensures forall i :: 0 <= i < |Categories| ==> streams.Monitored()[i] == streams.Of(Categories[i])
    ensures forall c :: streams.Monitored()[Position(c)] == streams.Of(c)
  {
  }

  /** `check_sequence`: reports whether nothing matched and, on a hit, appends
      one violation record per matching event after the entries already in
      `ext`, leaving those unchanged. */
  function CheckSequence(filtered: seq<Event>, ext: seq<Item>): (r: (bool, seq<Item>))
    ensures r.0 <==> filtered == []
    ensures r.0 ==> r.1 == ext
    ensures |r.1| == |ext| + |filtered| && r.1[..|ext|] == ext
  {
    if |filtered| > 0 then
      var records := MapSeq(SortBy(filtered, EventTime), Annotate);
      assert (ext + records)[..|ext|] == ext;
      (false, ext + records)
    else
      (true, ext)
  }

  /** The records `check_sequence` appends are in timestamp order, one per
      filtered event, ties kept in stream order, each attributed to the
      `task_manager` node with no topic. */
  lemma CheckSequenceRecords(filtered: seq<Event>, ext: seq<Item>)
    ensures var added := CheckSequence(filtered, ext).1[|ext|..];
      && SortedBy(added, ItemTime)
      && multiset(added) == multiset(MapSeq(filtered, Annotate))
      && SameKeyOrder(added, MapSeq(filtered, Annotate), ItemTime)
      && forall it :: it in added ==> it.Annotation? && it.node == AnnotatedNode && it.topic == NoTopic
  {
    var r := CheckSequence(filtered, ext).1;
    MapSortCommute(filtered, Annotate, EventTime, ItemTime);
    if |filtered| > 0 {
      assert r[|ext|..] == MapSeq(SortBy(filtered, EventTime), Annotate);
    } else {
      assert r[|ext|..] == [];
    }
  }

  /** Every event of the streams `monitored` inside the window on `cpu`,
      stream by stream. */
  function Hits(monitored: seq<seq<Event>>, w: Window, cpu: int): (r: seq<Event>)
    ensures forall e :: e in r ==> InWindow(e, w, cpu)
    ensures r == [] <==> forall i :: 0 <= i < |monitored| ==> !Touched(monitored[i], w, cpu)
    decreases |monitored|
  {
    if monitored == [] then []
    else
      var first := FilterSequence(monitored[0], w, cpu);
      var rest := Hits(monitored[1..], w, cpu);
      assert forall i :: 1 <= i < |monitored| ==> monitored[i] == monitored[1..][i - 1];
      first + rest
  }

  /** The hits of the six streams are the filter applied to the streams
      laid end to end: nothing inside the window on the CPU is missed and
      nothing outside it is found. */
  lemma {:induction false} HitsFilterConcat(monitored: seq<seq<Event>>, w: Window, cpu: int)
    ensures Hits(monitored, w, cpu) == FilterSequence(Concat(monitored), w, cpu)
    decreases |monitored|
  {
    if monitored != [] {
      HitsFilterConcat(monitored[1..], w, cpu);
      FilterSequenceAppend(monitored[0], Concat(monitored[1..]), w, cpu);
    }
  }

  /** An event is a hit exactly when it lies in the window on the CPU and
      belongs to one of the monitored streams. */
  lemma HitsMembers(monitored: seq<seq<Event>>, w: Window, cpu: int, e: Event)
    ensures e in Hits(monitored, w, cpu) <==> InWindow(e, w, cpu) && exists i :: 0 <= i < |monitored| && e in monitored[i]
  {
    HitsFilterConcat(monitored, w, cpu);
    FilterSequenceMembers(Concat(monitored), w, cpu, e);
    ConcatMembers(monitored, e);
  }

  /** Every occurrence of an in-window event in any monitored stream is a
      hit, and no occurrence of any other event. */
  lemma HitsCounts(monitored: seq<seq<Event>>, w: Window, cpu: int, e: Event)
    ensures multiset(Hits(monitored, w, cpu))[e] == if InWindow(e, w, cpu) then multiset(Concat(monitored))[e] else 0
  {
    HitsFilterConcat(monitored, w, cpu);
    FilterSequenceCounts(Concat(monitored), w, cpu, e);
  }

  /** Runs `check_sequence` on every stream of `monitored` in turn, threading
      the extended sequence through, without stopping at a hit. */
  function Extend(monitored: seq<seq<Event>>, w: Window, cpu: int, ext: seq<Item>): (r: seq<Item>)
    ensures |r| == |ext| + |Hits(monitored, w, cpu)|
    ensures r[..|ext|] == ext
    decreases |monitored|
  {
    if monitored == [] then ext
    else
      var next := CheckSequence(FilterSequence(monitored[0], w, cpu), ext).1;
      Extend(monitored[1..], w, cpu, next)
  }

  /** One step of the fold: what `Extend` appends after `ext` is what the
      first check appends followed by what the remaining checks append. */
  lemma ExtendStep(monitored: seq<seq<Event>>, w: Window, cpu: int, ext: seq<Item>)
    requires monitored != []
    ensures var next := CheckSequence(FilterSequence(monitored[0], w, cpu), ext).1;
      Extend(monitored, w, cpu, ext)[|ext|..]
        == next[|ext|..] + Extend(monitored[1..], w, cpu, next)[|next|..]
  {
    var next := CheckSequence(FilterSequence(monitored[0], w, cpu), ext).1;
    var r := Extend(monitored[1..], w, cpu, next);
    assert r[..|next|] == next;
    assert r[|ext|..] == r[|ext|..|next|] + r[|next|..];
  }

  /** What the fold appends after `ext` is exactly one violation record per
      hit. */
  lemma {:induction false} ExtendAppendsRecords(monitored: seq<seq<Event>>, w: Window, cpu: int, ext: seq<Item>)
    ensures multiset(Extend(monitored, w, cpu, ext)[|ext|..]) == multiset(MapSeq(Hits(monitored, w, cpu), Annotate))
    decreases |monitored|
  {
    if monitored == [] {
      assert Extend(monitored, w, cpu, ext)[|ext|..] == [];
    } else {
      var f := FilterSequence(monitored[0], w, cpu);
      var next := CheckSequence(f, ext).1;
      ExtendAppendsRecords(monitored[1..], w, cpu, next);
      CheckSequenceRecords(f, ext);
      ExtendStep(monitored, w, cpu, ext);
      MapSeqAppend(f, Hits(monitored[1..], w, cpu), Annotate);
    }
  }

  /** Records appended by the fold that share a timestamp stay in the order
      their events have among the hits: category by category, and within a
      category in stream order. */
  lemma {:induction false} ExtendKeepsTieOrder(monitored: seq<seq<Event>>, w: Window, cpu: int, ext: seq<Item>)
    ensures SameKeyOrder(Extend(monitored, w, cpu, ext)[|ext|..], MapSeq(Hits(monitored, w, cpu), Annotate), ItemTime)
    decreases |monitored|
  {
    var r := Extend(monitored, w, cpu, ext);
    if monitored == [] {
      assert r[|ext|..] == [];
    } else {
      var f := FilterSequence(monitored[0], w, cpu);
      var next := CheckSequence(f, ext).1;
      var rest := Hits(monitored[1..], w, cpu);
      var tail := Extend(monitored[1..], w, cpu, next)[|next|..];
      ExtendKeepsTieOrder(monitored[1..], w, cpu, next);
      CheckSequenceRecords(f, ext);
      ExtendStep(monitored, w, cpu, ext);
      MapSeqAppend(f, rest, Annotate);
      forall k
        ensures WithKey(r[|ext|..], ItemTime, k) == WithKey(MapSeq(Hits(monitored, w, cpu), Annotate), ItemTime, k)
      {
        WithKeyAppend(next[|ext|..], tail, ItemTime, k);
        WithKeyAppend(MapSeq(f, Annotate), MapSeq(rest, Annotate), ItemTime, k);
      }
    }
  }

  /** The earliest timestamp among `events`. */
  function MinTime(events: seq<Event>): int
    requires |events| > 0
    decreases |events|
  {
    if |events| == 1 then events[0].timestamp
    else
      var rest := MinTime(events[1..]);
      if events[0].timestamp <= rest then events[0].timestamp else rest
  }

  /** The latest timestamp among `events`. */
  function MaxTime(events: seq<Event>): int
    requires |events| > 0
    decreases |events|
  {
    if |events| == 1 then events[0].timestamp
    else
      var rest := MaxTime(events[1..]);
      if events[0].timestamp >= rest then events[0].timestamp else rest
  }

  /** The window of an invocation: from its earliest to its latest event,
      both ends included. */
  function WindowOf(events: seq<Event>): Window
    requires |events| > 0
  {
    Window(MinTime(events), MaxTime(events))
  }

  /** Every event of the invocation lies inside its window, and both ends of
      the window are timestamps of its events. */
  lemma {:induction false} WindowOfBounds(events: seq<Event>)
    requires |events| > 0
    ensures forall i :: 0 <= i < |events| ==> WindowOf(events).start <= events[i].timestamp <= WindowOf(events).end
    ensures exists i :: 0 <= i < |events| && events[i].timestamp == WindowOf(events).start
    ensures exists i :: 0 <= i < |events| && events[i].timestamp == WindowOf(events).end
    decreases |events|
  {
    if |events| > 1 {
      var rest := events[1..];
      WindowOfBounds(rest);
      assert forall i :: 1 <= i < |events| ==> events[i] == rest[i - 1];
      var lo :| 0 <= lo < |rest| && rest[lo].timestamp == WindowOf(rest).start;
      var hi :| 0 <= hi < |rest| && rest[hi].timestamp == WindowOf(rest).end;
      if events[0].timestamp > MinTime(rest) {
        assert events[lo + 1].timestamp == WindowOf(events).start;
      }
      if events[0].timestamp < MaxTime(rest) {
        assert events[hi + 1].timestamp == WindowOf(events).end;
      }
    }
  }

  /** Lines 50 and 53-54: the window runs from the first to the last event
      once the invocation's events are sorted by timestamp. */
  lemma WindowOfSorted(events: seq<Event>)
    requires |events| > 0
    ensures WindowOf(events).start == SortBy(events, EventTime)[0].timestamp
    ensures WindowOf(events).end == SortBy(events, EventTime)[|events| - 1].timestamp
  {
    var sorted := SortBy(events, EventTime);
    var w := WindowOf(events);
    WindowOfBounds(events);
    SortByEnds(events, EventTime);
    var lo :| 0 <= lo < |events| && events[lo].timestamp == w.start;
    var hi :| 0 <= hi < |events| && events[hi].timestamp == w.end;
    var f :| 0 <= f < |events| && events[f] == sorted[0];
    var g :| 0 <= g < |events| && events[g] == sorted[|events| - 1];
    assert EventTime(sorted[0]) <= EventTime(events[lo]);
    assert EventTime(events[hi]) <= EventTime(sorted[|events| - 1]);
  }

  /** One recorded callback invocation: its own events and the CPU it ran on. */
  datatype Invocation = Invocation(events: seq<Event>, cpu: int)

  /** No event of any monitored category lies inside the invocation's window
      on its CPU. */
  ghost predicate Clean(inv: Invocation, streams: Streams)
    requires |inv.events| > 0
  {
    forall c :: !Touched(streams.Of(c), WindowOf(inv.events), inv.cpu)
  }

  /** Checking all six categories finds nothing exactly when no monitored
      stream is touched. */
  lemma NoHitsIffUntouched(streams: Streams, w: Window, cpu: int)
    ensures Hits(streams.Monitored(), w, cpu) == [] <==> forall c :: !Touched(streams.Of(c), w, cpu)
  {
    if Hits(streams.Monitored(), w, cpu) == [] {
      MonitoredOrder(streams);
      forall c
        ensures !Touched(streams.Of(c), w, cpu)
      {
        assert streams.Monitored()[Position(c)] == streams.Of(c);
      }
    } else {
      MonitoredOrder(streams);
      var i :| 0 <= i < |Categories| && Touched(streams.Monitored()[i], w, cpu);
      assert Touched(streams.Of(Categories[i]), w, cpu);
    }
  }

  /** The monitored events that violate the invocation's window, in the order
      the checks meet them. */
  function Violations(inv: Invocation, streams: Streams): (r: seq<Event>)
    requires |inv.events| > 0
    ensures r == [] <==> Clean(inv, streams)
    ensures forall e :: e in r ==> InWindow(e, WindowOf(inv.events), inv.cpu)
  {
    var w := WindowOf(inv.events);
    NoHitsIffUntouched(streams, w, inv.cpu);
    Hits(streams.Monitored(), w, inv.cpu)
  }

  /** An event is a violation exactly when it belongs to one of the six
      monitored streams and lies inside the invocation's window on its CPU. */
  lemma ViolationsMembers(inv: Invocation, streams: Streams, e: Event)
    requires |inv.events| > 0
    ensures e in Violations(inv, streams)
      <==> InWindow(e, WindowOf(inv.events), inv.cpu) && exists c :: e in streams.Of(c)
  {
    var m := streams.Monitored();
    HitsMembers(m, WindowOf(inv.events), inv.cpu, e);
    MonitoredOrder(streams);
    if exists c :: e in streams.Of(c) {
      var c :| e in streams.Of(c);
      assert e in m[Position(c)];
    }
    if exists i :: 0 <= i < |m| && e in m[i] {
      var i :| 0 <= i < |m| && e in m[i];
      assert e in streams.Of(Categories[i]);
    }
  }

  /** Every occurrence of an in-window event in the six streams is a
      violation, counted as often as the streams together record it. */
  lemma ViolationsCounts(inv: Invocation, streams: Streams, e: Event)
    requires |inv.events| > 0
    ensures multiset(Violations(inv, streams))[e]
      == if InWindow(e, WindowOf(inv.events), inv.cpu)
         then multiset(streams.malloc)[e] + multiset(streams.calloc)[e] + multiset(streams.realloc)[e]
           + multiset(streams.free)[e] + multiset(streams.memalign)[e] + multiset(streams.posixMemalign)[e]
         else 0
  {
    HitsCounts(streams.Monitored(), WindowOf(inv.events), inv.cpu, e);
    ConcatSix(streams.malloc, streams.calloc, streams.realloc, streams.free, streams.memalign, streams.posixMemalign);
  }


  /** The invocation's own events sorted by timestamp: the extended sequence
      before any check ran. */
  function OwnItems(events: seq<Event>): seq<Item>
  {
    MapSeq(SortBy(events, EventTime), Recorded)
  }

  /** The extended sequence before any check is the stable timestamp sort
      of the invocation's events as recorded. */
  lemma OwnItemsSorted(events: seq<Event>)
    ensures OwnItems(events) == SortBy(MapSeq(events, Recorded), ItemTime)
  {
    MapSortCommute(events, Recorded, EventTime, ItemTime);
  }

  /** The extended sequence after all six checks (lines 56-75 with the
      `assert` keywords deleted, the `check_sequence` calls kept and the
      filtered stream materialised as a list; see `Findings`). */
  function ExtendedSequence(inv: Invocation, streams: Streams): (r: seq<Item>)
    requires |inv.events| > 0
    ensures |r| == |inv.events| + |Violations(inv, streams)|
    ensures |r| == |inv.events| <==> Clean(inv, streams)
  {
    Extend(streams.Monitored(), WindowOf(inv.events), inv.cpu, OwnItems(inv.events))
  }

  /** The extended sequence holds the invocation's own events and one
      violation record per violation, nothing else. */
  lemma ExtendedMultiset(inv: Invocation, streams: Streams)
    requires |inv.events| > 0
    ensures multiset(ExtendedSequence(inv, streams))
      == multiset(MapSeq(inv.events, Recorded)) + multiset(MapSeq(Violations(inv, streams), Annotate))
  {
    var own := OwnItems(inv.events);
    var w := WindowOf(inv.events);
    var r := Extend(streams.Monitored(), w, inv.cpu, own);
    assert ExtendedSequence(inv, streams) == r;
    assert Violations(inv, streams) == Hits(streams.Monitored(), w, inv.cpu);
    ExtendAppendsRecords(streams.Monitored(), w, inv.cpu, own);
    MapSortCommute(inv.events, Recorded, EventTime, ItemTime);
    PrefixSplit(r, own);
  }

  /** Among entries sharing a timestamp, the extended sequence lists the
      invocation's own events first, in their recorded order, then the
      violation records in the order the checks found them. */
  lemma ExtendedTieOrder(inv: Invocation, streams: Streams, k: int)
    requires |inv.events| > 0
    ensures WithKey(ExtendedSequence(inv, streams), ItemTime, k)
      == MapSeq(WithKey(inv.events, EventTime, k), Recorded) + MapSeq(WithKey(Violations(inv, streams), EventTime, k), Annotate)
  {
    var own := OwnItems(inv.events);
    var w := WindowOf(inv.events);
    var r := Extend(streams.Monitored(), w, inv.cpu, own);
    assert ExtendedSequence(inv, streams) == r;
    var hits := Violations(inv, streams);
    assert hits == Hits(streams.Monitored(), w, inv.cpu);
    ExtendKeepsTieOrder(streams.Monitored(), w, inv.cpu, own);
    PrefixSplit(r, own);
    WithKeyAppend(own, r[|own|..], ItemTime, k);
    WithKeyMap(SortBy(inv.events, EventTime), Recorded, EventTime, ItemTime, k);
    WithKeyMap(hits, Annotate, EventTime, ItemTime, k);
  }

  /** Lines 77-78: an invocation whose extended sequence grew contributes that
      sequence, re-sorted by timestamp; one that stayed clean contributes nothing. */
  function ReportEntry(inv: Invocation, streams: Streams): (r: Option<seq<Item>>)
    requires |inv.events| > 0
    ensures r.None? <==> Clean(inv, streams)
    ensures r.Some? ==> |r.value| == |inv.events| + |Violations(inv, streams)| > |inv.events|
    ensures r.Some? ==> SortedBy(r.value, ItemTime)
  {
    var ext := ExtendedSequence(inv, streams);
    if |inv.events| < |ext| then Some(SortBy(ext, ItemTime)) else None
  }

  /** A report entry is a permutation of the invocation's own events and one
      violation record per violation; among entries sharing a timestamp the
      own events come first, in recorded order, then the records in the order
      the checks found them. Being sorted as well, this fixes the entry. */
  lemma ReportEntryContents(inv: Invocation, streams: Streams)
    requires |inv.events| > 0 && !Clean(inv, streams)
    ensures ReportEntry(inv, streams).Some?
    ensures multiset(ReportEntry(inv, streams).value)
      == multiset(MapSeq(inv.events, Recorded)) + multiset(MapSeq(Violations(inv, streams), Annotate))
    ensures forall k ::
      WithKey(ReportEntry(inv, streams).value, ItemTime, k)
      == MapSeq(WithKey(inv.events, EventTime, k), Recorded) + MapSeq(WithKey(Violations(inv, streams), EventTime, k), Annotate)
  {
    var ext := ExtendedSequence(inv, streams);
    assert ReportEntry(inv, streams).value == SortBy(ext, ItemTime);
    ExtendedMultiset(inv, streams);
    forall k
      ensures WithKey(SortBy(ext, ItemTime), ItemTime, k)
           == MapSeq(WithKey(inv.events, EventTime, k), Recorded) + MapSeq(WithKey(Violations(inv, streams), EventTime, k), Annotate)
    {
      ExtendedTieOrder(inv, streams, k);
    }
  }

  /** A reference definition of the report entry: the stable sort by
      timestamp of the invocation's events, as recorded, followed by one
      violation record per violation. */
  lemma ReportEntryIsStableMerge(inv: Invocation, streams: Streams)
    requires |inv.events| > 0 && !Clean(inv, streams)
    ensures ReportEntry(inv, streams)
      == Some(SortBy(MapSeq(inv.events, Recorded) + MapSeq(Violations(inv, streams), Annotate), ItemTime))
  {
    var own := MapSeq(inv.events, Recorded);
    var records := MapSeq(Violations(inv, streams), Annotate);
    ReportEntryContents(inv, streams);
    var entry := ReportEntry(inv, streams).value;
    forall k
      ensures WithKey(entry, ItemTime, k) == WithKey(own + records, ItemTime, k)
    {
      WithKeyAppend(own, records, ItemTime, k);
      WithKeyMap(inv.events, Recorded, EventTime, ItemTime, k);
      WithKeyMap(Violations(inv, streams), Annotate, EventTime, ItemTime, k);
    }
    SortByCharacterised(own + records, entry, ItemTime);
  }

  /** Lines 59-75 as written, from the `k`-th check on: the asserts stop the
      run at the first stream whose check finds a hit. The result is that
      stream's position in `monitored`, or None when every check passes. */
  function FirstFailure(monitored: seq<seq<Event>>, k: nat, w: Window, cpu: int, ext: seq<Item>): (r: Option<nat>)
    requires k <= |monitored|
    ensures r.Some? ==> k <= r.value < |monitored| && Touched(monitored[r.value], w, cpu)
    ensures r.Some? ==> forall j :: k <= j < r.value ==> !Touched(monitored[j], w, cpu)
    ensures r.None? <==> forall j :: k <= j < |monitored| ==> !Touched(monitored[j], w, cpu)
    decreases |monitored| - k
  {
    if k == |monitored| then None
    else
      var checked := CheckSequence(FilterSequence(monitored[k], w, cpu), ext);
      if !checked.0 then Some(k)
      else FirstFailure(monitored, k + 1, w, cpu, checked.1)
  }

  /** The assert on category `c` is the first of the invocation's six to
      fail: `c` is touched and every category checked before it is not. */
  ghost predicate FailsFirstAt(inv: Invocation, streams: Streams, c: Category)
    requires |inv.events| > 0
  {
    var w := WindowOf(inv.events);
    && Touched(streams.Of(c), w, inv.cpu)
    && forall d :: Position(d) < Position(c) ==> !Touched(streams.Of(d), w, inv.cpu)
  }

  /** At most one category can be the first to fail. */
  lemma FailsFirstAtUnique(inv: Invocation, streams: Streams, c: Category, d: Category)
    requires |inv.events| > 0
    requires FailsFirstAt(inv, streams, c) && FailsFirstAt(inv, streams, d)
    ensures c == d
  {
  }

  /** Lines 56-75 for one invocation: the category whose assert stops the
      test, or None when all six pass. */
  function InvocationAsserts(inv: Invocation, streams: Streams): (r: Option<Category>)
    requires |inv.events| > 0
    ensures r.None? <==> Clean(inv, streams)
    ensures r.Some? ==> FailsFirstAt(inv, streams, r.value)
  {
    var w := WindowOf(inv.events);
    MonitoredOrder(streams);
    match FirstFailure(streams.Monitored(), 0, w, inv.cpu, OwnItems(inv.events))
    case Some(j) =>
      assert Position(Categories[j]) == j;
      Some(Categories[j])
    case None =>
      assert Clean(inv, streams) by {
        forall c
          ensures !Touched(streams.Of(c), w, inv.cpu)
        {
          assert streams.Monitored()[Position(c)] == streams.Of(c);
        }
      }
      None
  }
}
