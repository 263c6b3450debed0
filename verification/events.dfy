/**
 Trace events, the inclusive time-and-CPU window of a callback invocation,
 and the entries of an invocation's extended sequence.
 */
module Events {
  import opened Sequences

  /** One trace event. Monitored libc events carry it under the keys
      `_name`, `_timestamp` and `cpu_id`, an invocation's own events under
      `timestamp`; both become these typed fields. */
  datatype Event = Event(name: string, timestamp: int, cpu: int)

  /** The sort key of both kinds of event. */
  function EventTime(e: Event): int
  {
    e.timestamp
  }

  /** The time span `[start, end]` of a callback invocation, both ends included. */
  datatype Window = Window(start: int, end: int)

  predicate InWindow(e: Event, w: Window, cpu: int)
  {
    w.start <= e.timestamp <= w.end && e.cpu == cpu
  }

  /** Some event of `stream` lies inside the window on the given CPU. */
  ghost predicate Touched(stream: seq<Event>, w: Window, cpu: int)
  {
    exists e :: e in stream && InWindow(e, w, cpu)
  }

  /** The events of one monitored stream that fall inside the window on the
      given CPU (`filter_sequence`). The source returns a lazy iterator; this
      model returns the materialised sequence. */
  function FilterSequence(stream: seq<Event>, w: Window, cpu: int): (r: seq<Event>)
    ensures IsSubsequence(r, stream)
    ensures |r| <= |stream|
    ensures forall i :: 0 <= i < |r| ==> InWindow(r[i], w, cpu)
    ensures r == [] <==> !Touched(stream, w, cpu)
    decreases |stream|
  {
    if stream == [] then []
    else
      var rest := FilterSequence(stream[1..], w, cpu);
      assert stream == [stream[0]] + stream[1..];
      if InWindow(stream[0], w, cpu) then
        assert ([stream[0]] + rest)[1..] == rest;
        [stream[0]] + rest
      else
        rest
  }

  /** The filter keeps an event exactly when it is in the stream, its
      timestamp lies between the window's ends, both included, and it ran on
      the given CPU. */
  lemma {:induction false} FilterSequenceMembers(stream: seq<Event>, w: Window, cpu: int, e: Event)
    ensures e in FilterSequence(stream, w, cpu) <==> e in stream && w.start <= e.timestamp <= w.end && e.cpu == cpu
    decreases |stream|
  {
    if stream != [] {
      FilterSequenceMembers(stream[1..], w, cpu, e);
      assert stream == [stream[0]] + stream[1..];
    }
  }

  /** The filter keeps every occurrence of an event inside the window and no
      occurrence of any other event. */
  lemma {:induction false} FilterSequenceCounts(stream: seq<Event>, w: Window, cpu: int, e: Event)
    ensures multiset(FilterSequence(stream, w, cpu))[e] == if InWindow(e, w, cpu) then multiset(stream)[e] else 0
    decreases |stream|
  {
    if stream != [] {
      var rest := FilterSequence(stream[1..], w, cpu);
      FilterSequenceCounts(stream[1..], w, cpu, e);
      assert multiset(stream) == multiset{stream[0]} + multiset(stream[1..]) by {
        assert stream == [stream[0]] + stream[1..];
      }
      if InWindow(stream[0], w, cpu) {
        assert FilterSequence(stream, w, cpu) == [stream[0]] + rest;
        assert multiset([stream[0]] + rest) == multiset{stream[0]} + multiset(rest);
      } else {
        assert FilterSequence(stream, w, cpu) == rest;
      }
    }
  }

  /** Filtering distributes over concatenation. */
  lemma {:induction false} FilterSequenceAppend(a: seq<Event>, b: seq<Event>, w: Window, cpu: int)
    ensures FilterSequence(a + b, w, cpu) == FilterSequence(a, w, cpu) + FilterSequence(b, w, cpu)
    decreases |a|
  {
    if a == [] {
      assert a + b == b;
    } else {
      FilterSequenceAppend(a[1..], b, w, cpu);
      DropAppend(a, b);
      var fa := FilterSequence(a[1..], w, cpu);
      var fb := FilterSequence(b, w, cpu);
      if InWindow(a[0], w, cpu) {
        AppendAssoc([a[0]], fa, fb);
      }
    }
  }

  /** The node every violation record is attributed to. */
  const AnnotatedNode: string := "task_manager"

  /** The topic of a violation record, which no topic is attributed to. */
  const NoTopic: string := "N/A"

  /** An entry of an invocation's extended sequence: one of the invocation's
      own events, or a violation record added for a monitored event. */
  datatype Item =
    | Own(event: Event)
    | Annotation(node: string, name: string, topic: string, timestamp: int)

  /** The `timestamp` key both kinds of entry are sorted by. */
  function ItemTime(it: Item): int
  {
    match it
    case Own(e) => e.timestamp
    case Annotation(_, _, _, t) => t
  }

  function Recorded(e: Event): Item
  {
    Own(e)
  }

  /** The violation record for a monitored event. */
  function Annotate(e: Event): Item
  {
    Annotation(AnnotatedNode, e.name, NoTopic, e.timestamp)
  }
}
