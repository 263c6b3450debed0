/**
 Concrete runs of the correlation on small traces: an invocation of the
 `task_manager` callback spanning timestamps 100 to 200 on CPU 0, against
 monitored streams that do or do not touch that window.
 */
module Scenarios {
  import opened Sequences
  import opened Events
  import opened Optional
  import opened Correlator
  import opened LibcEventsTest

  const Start: Event := Event("callback_start", 100, 0)
  const End: Event := Event("callback_end", 200, 0)

  /** The invocation under test: its events, recorded out of order. */
  const Callback: Invocation := Invocation([End, Start], 0)

  function OnlyFree(free: seq<Event>): Streams
  {
    Streams([], [], [], free, [], [])
  }

  function OnlyMalloc(malloc: seq<Event>): Streams
  {
    Streams(malloc, [], [], [], [], [])
  }

  lemma SortOne<T>(a: T, key: T -> int)
    ensures SortBy([a], key) == [a]
  {
    assert [a][1..] == [];
  }

  /** Sorting two elements whose keys are out of order swaps them. */
  lemma SortTwoSwapped<T>(a: T, b: T, key: T -> int)
    requires key(b) < key(a)
    ensures SortBy([a, b], key) == [b, a]
  {
    assert [a, b][1..] == [b];
    SortOne(b, key);
    assert Insert(a, [b], key) == [b] + Insert(a, [], key);
  }

  /** Sorting three elements whose middle one has the greatest key moves it
      last. */
  lemma SortThreeMiddleLast<T>(a: T, b: T, c: T, key: T -> int)
    requires key(a) <= key(c) < key(b)
    ensures SortBy([a, b, c], key) == [a, c, b]
  {
    assert [a, b, c][1..] == [b, c];
    SortTwoSwapped(b, c, key);
  }

  lemma MapTwo<A, B>(a: A, b: A, f: A -> B)
    ensures MapSeq([a, b], f) == [f(a), f(b)]
  {
    assert MapSeq([a, b], f)[0] == f(a);
    assert MapSeq([a, b], f)[1] == f(b);
  }

  lemma MapOne<A, B>(a: A, f: A -> B)
    ensures MapSeq([a], f) == [f(a)]
  {
    assert MapSeq([a], f)[0] == f(a);
  }

  /** The window runs from the earliest to the latest own event. */
  lemma CallbackWindow()
    ensures WindowOf(Callback.events) == Window(100, 200)
  {
    assert Callback.events[1..] == [Start];
    assert MinTime(Callback.events[1..]) == 100 && MaxTime(Callback.events[1..]) == 100;
  }

  /** The six checks find exactly the monitored events inside the window on
      the invocation's CPU. */
  lemma HitsOfOneStream(streams: Streams, w: Window, cpu: int)
    requires streams.malloc == [] && streams.calloc == [] && streams.realloc == []
    requires streams.memalign == [] && streams.posixMemalign == []
    ensures Hits(streams.Monitored(), w, cpu) == FilterSequence(streams.free, w, cpu)
  {
    var m := streams.Monitored();
    var free := FilterSequence(streams.free, w, cpu);
    assert FilterSequence([], w, cpu) == [];
    var after := m[4..];
    assert after == [[], []];
    assert Hits(after, w, cpu) == [] by {
      assert !Touched(after[0], w, cpu) && !Touched(after[1], w, cpu);
    }
    assert m[3..][1..] == after;
    assert Hits(m[3..], w, cpu) == free;
    assert m[2..][1..] == m[3..];
    assert Hits(m[2..], w, cpu) == free;
    assert m[1..][1..] == m[2..];
    assert Hits(m[1..], w, cpu) == free;
  }

  /** With only the `free` stream recorded, the six checks extend the
      sequence by what the `free` check appends. */
  lemma ExtendOfOneStream(streams: Streams, w: Window, cpu: int, ext: seq<Item>)
    requires streams.malloc == [] && streams.calloc == [] && streams.realloc == []
    requires streams.memalign == [] && streams.posixMemalign == []
    ensures Extend(streams.Monitored(), w, cpu, ext) == CheckSequence(FilterSequence(streams.free, w, cpu), ext).1
  {
    var m := streams.Monitored();
    var grown := CheckSequence(FilterSequence(streams.free, w, cpu), ext).1;
    assert FilterSequence([], w, cpu) == [];
    assert forall x :: CheckSequence([], x).1 == x;
    assert m[5..][1..] == [];
    assert Extend(m[5..], w, cpu, grown) == grown;
    assert m[4..][1..] == m[5..];
    assert Extend(m[4..], w, cpu, grown) == grown;
    assert m[3..][1..] == m[4..];
    assert Extend(m[3..], w, cpu, ext) == grown;
    assert m[2..][1..] == m[3..];
    assert Extend(m[2..], w, cpu, ext) == grown;
    assert m[1..][1..] == m[2..];
    assert Extend(m[1..], w, cpu, ext) == grown;
  }

  /** The invocation's own events once sorted. */
  lemma CallbackOwnItems()
    ensures OwnItems(Callback.events) == [Own(Start), Own(End)]
  {
    SortTwoSwapped(End, Start, EventTime);
    MapTwo(Start, End, Recorded);
  }

  /** The `free` at 150 is the only violation, and the `free` assert is the
      first to fail. */
  lemma FreeInsideWindowViolates()
    ensures var free := Event("lttng_ust_libc:free", 150, 0);
      && Violations(Callback, OnlyFree([free])) == [free]
      && InvocationAsserts(Callback, OnlyFree([free])) == Some(Free)
  {
    var free := Event("lttng_ust_libc:free", 150, 0);
    var streams := OnlyFree([free]);
    var w := Window(100, 200);
    CallbackWindow();
    HitsOfOneStream(streams, w, 0);
    assert [free][1..] == [];
    assert FilterSequence([free], w, 0) == [free];
    var c := InvocationAsserts(Callback, streams).value;
    assert Touched(streams.Of(Free), w, 0) by {
      assert free in streams.free;
    }
    assert FailsFirstAt(Callback, streams, Free);
    FailsFirstAtUnique(Callback, streams, c, Free);
  }

  /** The record of a `free` at 150 on CPU 0. */
  const FreeRecord: Item := Annotation(AnnotatedNode, "lttng_ust_libc:free", NoTopic, 150)

  /** The `free` check keeps the `free` at 150 and appends its record. */
  lemma FreeCheckAppends(ext: seq<Item>)
    ensures var free := Event("lttng_ust_libc:free", 150, 0);
      && FilterSequence([free], Window(100, 200), 0) == [free]
      && CheckSequence([free], ext).1 == ext + [FreeRecord]
  {
    var free := Event("lttng_ust_libc:free", 150, 0);
    assert [free][1..] == [];
    assert FilterSequence([free], Window(100, 200), 0) == [free] + FilterSequence([], Window(100, 200), 0);
    SortOne(free, EventTime);
    MapOne(free, Annotate);
  }

  /** After the six checks, the record follows the invocation's own events. */
  lemma FreeInsideWindowExtends()
    ensures Extend(OnlyFree([Event("lttng_ust_libc:free", 150, 0)]).Monitored(), Window(100, 200), 0, [Own(Start), Own(End)])
      == [Own(Start), Own(End), FreeRecord]
  {
    var streams := OnlyFree([Event("lttng_ust_libc:free", 150, 0)]);
    var own := [Own(Start), Own(End)];
    ExtendOfOneStream(streams, Window(100, 200), 0, own);
    FreeCheckAppends(own);
  }

  /** Re-sorting moves the record between the invocation's two events. */
  lemma FreeRecordSortsIntoPlace()
    ensures SortBy([Own(Start), Own(End), FreeRecord], ItemTime) == [Own(Start), FreeRecord, Own(End)]
  {
    SortThreeMiddleLast(Own(Start), Own(End), FreeRecord, ItemTime);
  }

  /** A `free` at 150 on the invocation's CPU is reported: the entry holds
      the invocation's events and the violation record in timestamp order. */
  lemma FreeInsideWindowIsReported()
    ensures ReportEntry(Callback, OnlyFree([Event("lttng_ust_libc:free", 150, 0)]))
      == Some([Own(Start), FreeRecord, Own(End)])
  {
    CallbackWindow();
    CallbackOwnItems();
    FreeInsideWindowExtends();
    FreeRecordSortsIntoPlace();
  }

  /** The same `free` on another CPU is not a violation: nothing is reported
      and all six asserts pass. */
  lemma FreeOnOtherCpuIsIgnored()
    ensures var streams := OnlyFree([Event("lttng_ust_libc:free", 150, 1)]);
      && ReportEntry(Callback, streams) == None
      && InvocationAsserts(Callback, streams) == None
  {
    var free := Event("lttng_ust_libc:free", 150, 1);
    var streams := OnlyFree([free]);
    CallbackWindow();
    HitsOfOneStream(streams, Window(100, 200), 0);
    assert [free][1..] == [];
    assert Violations(Callback, streams) == [];
  }

  /** Both ends of the window are included: a `malloc` at exactly the
      invocation's first timestamp fails the first assert. */
  lemma MallocAtWindowStartFails()
    ensures var streams := OnlyMalloc([Event("lttng_ust_libc:malloc", 100, 0)]);
      && InvocationAsserts(Callback, streams) == Some(Malloc)
      && RunAsserts([Callback], streams) == Some(AssertionFailure(0, Malloc))
  {
    var malloc := Event("lttng_ust_libc:malloc", 100, 0);
    var streams := OnlyMalloc([malloc]);
    CallbackWindow();
    assert Touched(streams.Of(Malloc), WindowOf(Callback.events), Callback.cpu) by {
      assert malloc in streams.malloc;
    }
    assert [Callback][..0] == [];
  }

  /** An invocation with a single event at 50 on CPU 2 has the one-point
      window [50, 50]; a `calloc` at exactly 50 on CPU 2 still violates it,
      fails the second assert and is reported. */
  lemma CallocAtPointWindowFails()
    ensures var inv := Invocation([Event("callback_start", 50, 2)], 2);
      var streams := Streams([], [Event("lttng_ust_libc:calloc", 50, 2)], [], [], [], []);
      && WindowOf(inv.events) == Window(50, 50)
      && InvocationAsserts(inv, streams) == Some(Calloc)
      && ReportEntry(inv, streams).Some?
  {
    var inv := Invocation([Event("callback_start", 50, 2)], 2);
    var calloc := Event("lttng_ust_libc:calloc", 50, 2);
    var streams := Streams([], [calloc], [], [], [], []);
    assert WindowOf(inv.events) == Window(50, 50);
    assert Touched(streams.Of(Calloc), Window(50, 50), 2) by {
      assert calloc in streams.calloc;
    }
    assert !Touched(streams.Of(Malloc), Window(50, 50), 2);
    assert FailsFirstAt(inv, streams, Calloc);
    FailsFirstAtUnique(inv, streams, InvocationAsserts(inv, streams).value, Calloc);
  }
}
