/** Events on a DRM file descriptor: framed by a header with type and total length, queued, and
    handed out by reads that only ever return whole events. */
module EventStream {
  import opened Bytes
  import opened Options

  const HEADER: nat := 8

  /** `payload` is everything behind the header. */
  datatype Event = Event(kind: nat, payload: seq<Byte>) {
    ghost predicate Valid() {
      kind < Pow256(4) && HEADER + |payload| < Pow256(4)
    }

    function Length(): nat {
      HEADER + |payload|
    }
  }

  function Encode(e: Event): (b: seq<Byte>)
    ensures |b| == e.Length()
  {
    LittleEndian(e.kind, 4) + LittleEndian(e.Length(), 4) + e.payload
  }

  function EncodeAll(es: seq<Event>): seq<Byte> {
    if es == [] then [] else Encode(es[0]) + EncodeAll(es[1..])
  }

  /** A client's loop over a buffer: take the length from the header and go on behind the event. */
  function Parse(b: seq<Byte>): Option<seq<Event>> {
    if b == [] then Some([])
    else if |b| < HEADER then None
    else
      var length := FromLittleEndian(b[4..8]);
      if length < HEADER || length > |b| then None
      else
        match Parse(b[length..])
        case None => None
        case Some(rest) => Some([Event(FromLittleEndian(b[..4]), b[HEADER..length])] + rest)
  }

  ghost predicate AllValid(es: seq<Event>) {
    forall i :: 0 <= i < |es| ==> es[i].Valid()
  }

  lemma {:induction false} ParseEncoded(es: seq<Event>)
    requires AllValid(es)
    ensures Parse(EncodeAll(es)) == Some(es)
  {
    if es != [] {
      var e, rest := es[0], es[1..];
      var b := EncodeAll(es);
      ParseEncoded(rest);
      ReadsBack(e.kind, 4);
      ReadsBack(e.Length(), 4);
      assert b[..4] == LittleEndian(e.kind, 4);
      assert b[4..8] == LittleEndian(e.Length(), 4);
      assert b[HEADER..e.Length()] == e.payload;
      assert b[e.Length()..] == EncodeAll(rest);
      assert Event(e.kind, e.payload) == e && [e] + rest == es;
      assert Parse(b) == Some([e] + rest);
    }
  }

  /** Nothing else parses: bytes that parse are those of the events. */
  lemma {:induction false} ParseIsExact(b: seq<Byte>)
    ensures Parse(b).Some? ==> EncodeAll(Parse(b).value) == b
    decreases |b|
  {
    if b != [] && Parse(b).Some? {
      var length := FromLittleEndian(b[4..8]);
      ParseIsExact(b[length..]);
      FirstEvent(b, length);
      assert Parse(b).value[1..] == Parse(b[length..]).value;
    }
  }

  lemma FirstEvent(b: seq<Byte>, length: nat)
    requires HEADER <= length <= |b| && length == FromLittleEndian(b[4..8])
    ensures Encode(Event(FromLittleEndian(b[..4]), b[HEADER..length])) + b[length..] == b
  {
    WritesBack(b[..4]);
    WritesBack(b[4..8]);
  }

  lemma {:induction false} EncodeAllAppend(a: seq<Event>, b: seq<Event>)
    ensures EncodeAll(a + b) == EncodeAll(a) + EncodeAll(b)
  {
    if a == [] {
      assert a + b == b;
    } else {
      assert (a + b)[1..] == a[1..] + b && (a + b)[0] == a[0];
      EncodeAllAppend(a[1..], b);
    }
  }

  /** How many whole events from the front of the queue fit into a buffer. */
  function Fitting(pending: seq<Event>, size: nat): (n: nat)
    ensures n <= |pending|
    decreases pending
  {
    if pending == [] || pending[0].Length() > size then 0
    else 1 + Fitting(pending[1..], size - pending[0].Length())
  }

  /** That many fit, and one more would not. */
  lemma {:induction false} FittingIsMost(pending: seq<Event>, size: nat)
    ensures var n := Fitting(pending, size);
            && |EncodeAll(pending[..n])| <= size
            && (n < |pending| ==> |EncodeAll(pending[..n + 1])| > size)
  {
    var n := Fitting(pending, size);
    if pending != [] && pending[0].Length() <= size {
      FittingIsMost(pending[1..], size - pending[0].Length());
      assert pending[..n][1..] == pending[1..][..n - 1];
      if n < |pending| { assert pending[..n + 1][1..] == pending[1..][..n]; }
    } else if pending != [] {
      assert pending[..1][0] == pending[0];
    }
  }

  // ----- the queue, drained in place

  class EventQueue {
    var pending: seq<Event>

    constructor ()
      ensures pending == []
    {
      pending := [];
    }

    method Queue(e: Event)
      modifies this
      ensures pending == old(pending) + [e]
    {
      pending := pending + [e];
    }

    /** One read into a buffer of `size` bytes. */
    method Read(size: nat) returns (bytes: seq<Byte>)
      modifies this
      ensures var n := Fitting(old(pending), size);
              bytes == EncodeAll(old(pending)[..n]) && pending == old(pending)[n..]
    {
      bytes := [];
      ghost var taken := 0;
      ghost var start := pending;
      while pending != [] && pending[0].Length() <= size - |bytes|
        invariant taken <= |start| && pending == start[taken..]
        invariant bytes == EncodeAll(start[..taken]) && |bytes| <= size
        invariant Fitting(start, size) == taken + Fitting(pending, size - |bytes|)
        decreases |pending|
      {
        EncodeAllAppend(start[..taken], [pending[0]]);
        assert start[..taken + 1] == start[..taken] + [pending[0]];
        assert EncodeAll([pending[0]]) == Encode(pending[0]);
        bytes := bytes + Encode(pending[0]);
        pending := pending[1..];
        taken := taken + 1;
      }
    }
  }

  // ----- any sequence of arrivals and reads

  datatype Step = Arrive(event: Event) | Read(size: nat)

  /** Everything ever queued, how much of it has been read, and the bytes handed out so far. */
  datatype Stream = Stream(queued: seq<Event>, taken: nat, delivered: seq<Byte>)

  function After(s: Stream, step: Step): (r: Stream)
    requires s.taken <= |s.queued|
    ensures r.taken <= |r.queued|
  {
    match step
    case Arrive(e) => s.(queued := s.queued + [e])
    case Read(size) =>
      var n := Fitting(s.queued[s.taken..], size);
      Stream(s.queued, s.taken + n, s.delivered + EncodeAll(s.queued[s.taken..s.taken + n]))
  }

  function Run(steps: seq<Step>): (r: Stream)
    ensures r.taken <= |r.queued|
  {
    if steps == [] then Stream([], 0, []) else After(Run(steps[..|steps| - 1]), steps[|steps| - 1])
  }

  lemma {:induction false} DeliveredIsPrefix(steps: seq<Step>)
    ensures Run(steps).delivered == EncodeAll(Run(steps).queued[..Run(steps).taken])
  {
    if steps != [] {
      var s, step := Run(steps[..|steps| - 1]), steps[|steps| - 1];
      DeliveredIsPrefix(steps[..|steps| - 1]);
      match step
      case Arrive(e) =>
        assert After(s, step).queued[..s.taken] == s.queued[..s.taken];
      case Read(size) =>
        PrefixGrows(s, Fitting(s.queued[s.taken..], size));
    }
  }

  lemma PrefixGrows(s: Stream, n: nat)
    requires s.taken + n <= |s.queued| && s.delivered == EncodeAll(s.queued[..s.taken])
    ensures s.delivered + EncodeAll(s.queued[s.taken..s.taken + n]) == EncodeAll(s.queued[..s.taken + n])
  {
    EncodeAllAppend(s.queued[..s.taken], s.queued[s.taken..s.taken + n]);
    assert s.queued[..s.taken + n] == s.queued[..s.taken] + s.queued[s.taken..s.taken + n];
  }

  ghost predicate ValidSteps(steps: seq<Step>) {
    forall i :: 0 <= i < |steps| && steps[i].Arrive? ==> steps[i].event.Valid()
  }

  lemma {:induction false} QueuedValid(steps: seq<Step>)
    requires ValidSteps(steps)
    ensures AllValid(Run(steps).queued)
  {
    if steps != [] { QueuedValid(steps[..|steps| - 1]); }
  }

  /** The events that arrive, in order. */
  function Arrivals(steps: seq<Step>): seq<Event> {
    if steps == [] then []
    else
      var last := steps[|steps| - 1];
      Arrivals(steps[..|steps| - 1]) + if last.Arrive? then [last.event] else []
  }

  lemma {:induction false} QueuedIsArrivals(steps: seq<Step>)
    ensures Run(steps).queued == Arrivals(steps)
  {
    if steps != [] { QueuedIsArrivals(steps[..|steps| - 1]); }
  }

  /** Over any arrivals and reads with any buffer sizes, the bytes handed out parse by their length
      fields into a prefix of the queued events: in order, none split, lost or repeated. */
  lemma WholeEventsInOrder(steps: seq<Step>)
    requires ValidSteps(steps)
    ensures Parse(Run(steps).delivered) == Some(Run(steps).queued[..Run(steps).taken])
    ensures Run(steps).queued == Arrivals(steps)
  {
    QueuedIsArrivals(steps);
    DeliveredIsPrefix(steps);
    QueuedValid(steps);
    ParseEncoded(Run(steps).queued[..Run(steps).taken]);
  }

  /** A read makes progress exactly when the head event fits, and never overfills the buffer. */
  lemma ReadProgress(s: Stream, size: nat)
    requires s.taken < |s.queued|
    ensures After(s, Read(size)).taken > s.taken <==> s.queued[s.taken].Length() <= size
    ensures |After(s, Read(size)).delivered| <= |s.delivered| + size
  {
    var pending := s.queued[s.taken..];
    FittingIsMost(pending, size);
    var n := Fitting(pending, size);
    assert pending[..n] == s.queued[s.taken..s.taken + n];
  }

  /** The example of the header: of two events of 64 bytes, a read of 100 bytes returns one. */
  lemma HeaderExample(a: Event, b: Event)
    requires a.Length() == 64 && b.Length() == 64
    ensures Fitting([a, b], 100) == 1
  {
    assert [a, b][1..] == [b];
  }
}
