/**
 The loop of the libc events test over every recorded invocation of the
 `task_manager` node's subscription callbacks: the asserts that stop the
 test at the first violation, and the report of every invocation whose
 extended sequence grew.
 */
module LibcEventsTest {
  import opened Sequences
  import opened Events
  import opened Optional
  import opened Correlator

  /** Every invocation has at least one event, so its window exists. */
  ghost predicate AllRecorded(invs: seq<Invocation>)
  {
    forall i :: 0 <= i < |invs| ==> |invs[i].events| > 0
  }

  /** No invocation of `invs` has an event of a monitored category inside its
      window on its CPU. */
  ghost predicate AllClean(invs: seq<Invocation>, streams: Streams)
    requires AllRecorded(invs)
    decreases |invs|
  {
    if invs == [] then true
    else
      var n := |invs| - 1;
      AllClean(invs[..n], streams) && Clean(invs[n], streams)
  }

  /** `AllClean` is the invocation-wise conjunction of `Clean`. */
  lemma {:induction false} AllCleanEach(invs: seq<Invocation>, streams: Streams)
    requires AllRecorded(invs)
    ensures AllClean(invs, streams) <==> forall i :: 0 <= i < |invs| ==> Clean(invs[i], streams)
    decreases |invs|
  {
    if invs != [] {
      var n := |invs| - 1;
      AllCleanEach(invs[..n], streams);
      assert forall i :: 0 <= i < n ==> invs[..n][i] == invs[i];
    }
  }

  /** Where the test stops: the position of the invocation, in the order the
      loops visit them, and the category whose assert fails. */
  datatype AssertionFailure = AssertionFailure(invocation: nat, category: Category)

  /** The test as written: each invocation's six asserts in turn, stopping at
      the first one that fails. */
  function RunAsserts(invs: seq<Invocation>, streams: Streams): (r: Option<AssertionFailure>)
    requires AllRecorded(invs)
    ensures r.None? <==> AllClean(invs, streams)
    ensures r.Some? ==>
      && r.value.invocation < |invs|
      && AllClean(invs[..r.value.invocation], streams)
      && FailsFirstAt(invs[r.value.invocation], streams, r.value.category)
    decreases |invs|
  {
    if invs == [] then None
    else
      var n := |invs| - 1;
      match RunAsserts(invs[..n], streams)
      case Some(f) =>
        TakeTake(invs, n, f.invocation);
        Some(f)
      case None =>
        match InvocationAsserts(invs[n], streams)
        case None => None
        case Some(c) => Some(AssertionFailure(n, c))
  }

  /** `extended_seq` after the loops of the program with the `assert`
      keywords deleted, the `check_sequence` calls kept and the filtered
      stream materialised as a list (see `Findings`): one re-sorted
      extended sequence per invocation that found a violation, in visiting
      order. */
  function Report(invs: seq<Invocation>, streams: Streams): (r: seq<seq<Item>>)
    requires AllRecorded(invs)
    ensures |r| <= |invs|
    ensures r == [] <==> AllClean(invs, streams)
    ensures forall x :: x in r ==> SortedBy(x, ItemTime)
    decreases |invs|
  {
    if invs == [] then []
    else
      var n := |invs| - 1;
      var prefix := Report(invs[..n], streams);
      match ReportEntry(invs[n], streams)
      case None => prefix
      case Some(x) => prefix + [x]
  }

  /** When the test passes, nothing reaches the report: every invocation that
      would contribute an entry makes an assert fail first. */
  lemma PassingRunReportsNothing(invs: seq<Invocation>, streams: Streams)
    requires AllRecorded(invs)
    ensures RunAsserts(invs, streams).None? <==> Report(invs, streams) == []
  {
  }

  /** The invocations of all subscriptions' callbacks, subscription by
      subscription. */
  function Flatten(subs: seq<seq<Invocation>>): (r: seq<Invocation>)
    ensures r == Concat(subs)
    decreases |subs|
  {
    if subs == [] then []
    else
      var n := |subs| - 1;
      SplitLast([], subs);
      ConcatSnoc(subs[..n], subs[n]);
      Flatten(subs[..n]) + subs[n]
  }

  /** Flattening one more subscription appends its invocations. */
  lemma FlattenSnoc(subs: seq<seq<Invocation>>, i: int)
    requires 0 <= i < |subs|
    ensures Flatten(subs[..i + 1]) == Flatten(subs[..i]) + subs[i]
  {
    assert subs[..i + 1][..i] == subs[..i];
  }

  /** An invocation is visited exactly when it belongs to some subscription. */
  lemma FlattenMembers(subs: seq<seq<Invocation>>, inv: Invocation)
    ensures inv in Flatten(subs) <==> exists i :: 0 <= i < |subs| && inv in subs[i]
  {
    ConcatMembers(subs, inv);
  }

  /** Visiting one more invocation appends its report entry, if any. */
  lemma ReportSnoc(invs: seq<Invocation>, inv: Invocation, streams: Streams)
    requires AllRecorded(invs) && |inv.events| > 0
    ensures AllRecorded(invs + [inv])
    ensures Report(invs + [inv], streams)
      == Report(invs, streams) + (match ReportEntry(inv, streams) case None => [] case Some(x) => [x])
  {
    assert (invs + [inv])[..|invs|] == invs;
  }

  /** The report of two runs of invocations, one after the other, is the
      first run's report followed by the second's. */
  lemma {:induction false} ReportAppend(a: seq<Invocation>, b: seq<Invocation>, streams: Streams)
    requires AllRecorded(a) && AllRecorded(b)
    ensures AllRecorded(a + b)
    ensures Report(a + b, streams) == Report(a, streams) + Report(b, streams)
    decreases |b|
  {
    if b == [] {
      assert a + b == a;
    } else {
      var n := |b| - 1;
      var front := b[..n];
      SplitLast(a, b);
      ReportAppend(a, front, streams);
      ReportSnoc(a + front, b[n], streams);
      ReportSnoc(front, b[n], streams);
      var last := match ReportEntry(b[n], streams) case None => [] case Some(x) => [x];
      calc {
        Report(a + b, streams);
        Report((a + front) + [b[n]], streams);
        Report(a + front, streams) + last;
        (Report(a, streams) + Report(front, streams)) + last;
        { AppendAssoc(Report(a, streams), Report(front, streams), last); }
        Report(a, streams) + (Report(front, streams) + last);
        Report(a, streams) + Report(front + [b[n]], streams);
        Report(a, streams) + Report(b, streams);
      }
    }
  }

  /** One step of the inner loop: the report collected so far grows by the
      next invocation's entry, if any. */
  lemma CollectStep(collected: seq<seq<Item>>, invs: seq<Invocation>, j: int, streams: Streams)
    requires AllRecorded(invs) && 0 <= j < |invs|
    ensures AllRecorded(invs[..j]) && AllRecorded(invs[..j + 1])
    ensures ReportEntry(invs[j], streams).None? ==>
      collected + Report(invs[..j + 1], streams) == collected + Report(invs[..j], streams)
    ensures ReportEntry(invs[j], streams).Some? ==>
      collected + Report(invs[..j + 1], streams)
      == (collected + Report(invs[..j], streams)) + [ReportEntry(invs[j], streams).value]
  {
    assert AllRecorded(invs[..j]);
    ReportSnoc(invs[..j], invs[j], streams);
    TakeSnoc(invs, j);
    var entry := ReportEntry(invs[j], streams);
    if entry.Some? {
      AppendAssoc(collected, Report(invs[..j], streams), [entry.value]);
    }
  }

  /** The inner loop of lines 48-78 with the `assert` keywords deleted, the
      `check_sequence` calls kept and the filtered stream materialised as a
      list (see `Findings`): visits one subscription's invocations
      in order, appending the report entry of each to the report collected
      so far. */
  method CollectInvocations(invocations: seq<Invocation>, streams: Streams, collected: seq<seq<Item>>)
    returns (report: seq<seq<Item>>)
    requires AllRecorded(invocations)
    ensures report == collected + Report(invocations, streams)
  {
    report := collected;
    var j := 0;
    while j < |invocations|
      invariant 0 <= j <= |invocations|
      invariant report == collected + Report(invocations[..j], streams)
    {
      CollectStep(collected, invocations, j, streams);
      var entry := ReportEntry(invocations[j], streams);
      if entry.Some? {
        report := report + [entry.value];
      }
      j := j + 1;
    }
    assert invocations[..j] == invocations;
  }

  /** The nested loops of lines 42-78 with the `assert` keywords deleted,
      the `check_sequence` calls kept and the filtered stream materialised as
      a list (see `Findings`): visits every subscription's
      invocations in order and collects the report. */
  method CollectReport(subs: seq<seq<Invocation>>, streams: Streams) returns (report: seq<seq<Item>>)
    requires forall i :: 0 <= i < |subs| ==> AllRecorded(subs[i])
    ensures AllRecorded(Flatten(subs))
    ensures report == Report(Flatten(subs), streams)
  {
    report := [];
    var i := 0;
    while i < |subs|
      invariant 0 <= i <= |subs|
      invariant AllRecorded(Flatten(subs[..i]))
      invariant report == Report(Flatten(subs[..i]), streams)
    {
      report := CollectInvocations(subs[i], streams, report);
      ReportAppend(Flatten(subs[..i]), subs[i], streams);
      FlattenSnoc(subs, i);
      i := i + 1;
    }
    assert subs[..i] == subs;
  }
}
