/**
  The three cumulative failure counters and the event handler that updates
  them. Each counter counts how many times a Jibri session of its kind failed
  to start since the service was created.
 */
module FailureCounters {
  import opened Wrappers
  import opened JibriTypes
  import opened SeqCount

  datatype Counters = Counters(sipCallFailures: nat, recordingFailures: nat, liveStreamingFailures: nat)

  /** The counters of a newly created service. */
  const Initial: Counters := Counters(0, 0, 0)

  /** The counter kept for kind `k`. */
  function Failures(c: Counters, k: Kind): nat
  {
    match k
    case SipCall => c.sipCallFailures
    case Recording => c.recordingFailures
    case LiveStreaming => c.liveStreamingFailures
  }

  /** How many times a Jibri SIP call has failed to start: the counter a SIP call failure event raises. */
  function TotalSipCallFailures(c: Counters): (r: nat)
    ensures r == Failures(c, SipCall)
    ensures forall e :: Failures(HandleEvent(c, e), SipCall) == r + (if ReportedFailure(e) == Some(SipCall) then 1 else 0)
  {
    c.sipCallFailures
  }

  /** How many times a Jibri recording has failed to start: the counter a recording failure event raises. */
  function TotalRecordingFailures(c: Counters): (r: nat)
    ensures r == Failures(c, Recording)
    ensures forall e :: Failures(HandleEvent(c, e), Recording) == r + (if ReportedFailure(e) == Some(Recording) then 1 else 0)
  {
    c.recordingFailures
  }

  /** How many times a Jibri live streaming has failed to start: the counter a live streaming failure event raises. */
  function TotalLiveStreamingFailures(c: Counters): (r: nat)
    ensures r == Failures(c, LiveStreaming)
    ensures forall e :: Failures(HandleEvent(c, e), LiveStreaming) == r + (if ReportedFailure(e) == Some(LiveStreaming) then 1 else 0)
  {
    c.liveStreamingFailures
  }

  /** The kind of failure an event reports, if it reports one the service handles. */
  function ReportedFailure(e: Event): Option<Kind>
  {
    if e.JibriSessionEvent? && e.eventType.Some? && e.eventType.value.Known? then
      Some(e.eventType.value.kind)
    else
      None
  }

  /** Whether event `e` reports a failure of kind `k`. */
  function ReportsFailureOf(k: Kind): Event -> bool
  {
    e => ReportedFailure(e) == Some(k)
  }

  /**
    The counters after handling one event: a Jibri session event of a known
    kind adds one to that kind's counter; any other event, a Jibri session event
    without a type and one of an unhandled type change nothing.
   */
  function HandleEvent(c: Counters, e: Event): (r: Counters)
    ensures forall k :: Failures(r, k) == Failures(c, k) + (if ReportedFailure(e) == Some(k) then 1 else 0)
    ensures ReportedFailure(e).None? <==> r == c
  {
    match e
    case OtherEvent => c
    case JibriSessionEvent(eventType) =>
      match eventType
      case None => c
      case Some(t) =>
        match t
        case Known(SipCall) => c.(sipCallFailures := c.sipCallFailures + 1)
        case Known(Recording) => c.(recordingFailures := c.recordingFailures + 1)
        case Known(LiveStreaming) => c.(liveStreamingFailures := c.liveStreamingFailures + 1)
        case Unknown => c
  }

  /** The counters after handling `events` in order, starting from `c`. */
  function Run(c: Counters, events: seq<Event>): Counters
  {
    if |events| == 0 then c
    else HandleEvent(Run(c, events[..|events| - 1]), events[|events| - 1])
  }

  /** Handling `a` and then `b` is handling `a + b`. */
  lemma {:induction false} RunAppend(c: Counters, a: seq<Event>, b: seq<Event>)
    ensures Run(Run(c, a), b) == Run(c, a + b)
  {
    if |b| > 0 {
      var ab := a + b;
      assert ab[..|ab| - 1] == a + b[..|b| - 1];
      assert ab[|ab| - 1] == b[|b| - 1];
      RunAppend(c, a, b[..|b| - 1]);
    } else {
      assert a + b == a;
    }
  }

  /** Each counter grows by the number of events reporting a failure of its kind. */
  lemma {:induction false} RunCountsFailures(c: Counters, events: seq<Event>)
    ensures forall k :: Failures(Run(c, events), k) == Failures(c, k) + |Positions(events, ReportsFailureOf(k))|
  {
    if |events| > 0 {
      var init, last := events[..|events| - 1], events[|events| - 1];
      assert events == init + [last];
      RunCountsFailures(c, init);
      forall k {
        PositionsSnoc(init, last, ReportsFailureOf(k));
      }
    }
  }

  /** No event sequence makes any counter smaller. */
  lemma {:induction false} RunNeverDecreases(c: Counters, events: seq<Event>)
    ensures forall k :: Failures(c, k) <= Failures(Run(c, events), k)
  {
    if |events| > 0 {
      RunNeverDecreases(c, events[..|events| - 1]);
    }
  }

  /**
    After any event sequence each getter returns the number of events in it
    that report a failure of its kind.
   */
  lemma GettersCountFailureEvents(events: seq<Event>)
    ensures TotalSipCallFailures(Run(Initial, events)) == |Positions(events, ReportsFailureOf(SipCall))|
    ensures TotalRecordingFailures(Run(Initial, events)) == |Positions(events, ReportsFailureOf(Recording))|
    ensures TotalLiveStreamingFailures(Run(Initial, events)) == |Positions(events, ReportsFailureOf(LiveStreaming))|
  {
    RunCountsFailures(Initial, events);
    assert Failures(Run(Initial, events), SipCall) == TotalSipCallFailures(Run(Initial, events));
  }

  /** Handling more events never lowers a counter reached by handling fewer. */
  lemma CountersMonotoneInEvents(events: seq<Event>, more: seq<Event>)
    ensures forall k :: Failures(Run(Initial, events), k) <= Failures(Run(Initial, events + more), k)
  {
    RunAppend(Initial, events, more);
    RunNeverDecreases(Run(Initial, events), more);
  }
}
