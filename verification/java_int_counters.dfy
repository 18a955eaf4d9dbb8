/**
  The failure counters as the service declares them: Java `int` fields updated
  with `++`, which wraps from the largest `int` to the smallest. Below that
  bound they agree with the unbounded counters of `FailureCounters`; one event
  past it turns a counter negative.
 */
module JavaIntCounters {
  import opened Wrappers
  import opened JibriTypes
  import opened SeqCount
  import opened FailureCounters

  const IntMax: int := 0x7fff_ffff

  /** A Java `int`. */
  newtype Int32 = x: int | -0x8000_0000 <= x <= 0x7fff_ffff

  /** Java's `++` on an `int`: two's-complement wrap-around at the top of the range. */
  function JavaIncrement(x: Int32): (r: Int32)
    ensures (r as int - x as int - 1) % 0x1_0000_0000 == 0
    ensures x as int < IntMax ==> r as int == x as int + 1
    ensures x as int == IntMax ==> r < x
  {
    if x == 0x7fff_ffff then -0x8000_0000 else x + 1
  }

  datatype JavaCounters = JavaCounters(sipCallFailures: Int32, recordingFailures: Int32, liveStreamingFailures: Int32)

  const JavaInitial: JavaCounters := JavaCounters(0, 0, 0)

  /** The `int` field kept for kind `k`. */
  function JavaFailures(c: JavaCounters, k: Kind): Int32
  {
    match k
    case SipCall => c.sipCallFailures
    case Recording => c.recordingFailures
    case LiveStreaming => c.liveStreamingFailures
  }

  /** The event handler with the counters' declared width: the same branches, each `++` wrapping. */
  function HandleEventAsWritten(c: JavaCounters, e: Event): (r: JavaCounters)
    ensures forall k :: JavaFailures(r, k)
                     == if ReportedFailure(e) == Some(k) then JavaIncrement(JavaFailures(c, k)) else JavaFailures(c, k)
  {
    match e
    case OtherEvent => c
    case JibriSessionEvent(eventType) =>
      match eventType
      case None => c
      case Some(t) =>
        match t
        case Known(SipCall) => c.(sipCallFailures := JavaIncrement(c.sipCallFailures))
        case Known(Recording) => c.(recordingFailures := JavaIncrement(c.recordingFailures))
        case Known(LiveStreaming) => c.(liveStreamingFailures := JavaIncrement(c.liveStreamingFailures))
        case Unknown => c
  }

  /** The `int` counters after handling `events` in order, starting from `c`. */
  function RunAsWritten(c: JavaCounters, events: seq<Event>): JavaCounters
  {
    if |events| == 0 then c
    else HandleEventAsWritten(RunAsWritten(c, events[..|events| - 1]), events[|events| - 1])
  }

  /**
    As long as no kind has failed more than the largest `int` times, the `int`
    counters hold the same values as the unbounded ones.
   */
  lemma {:induction false} AsWrittenAgreesBelowIntMax(events: seq<Event>)
    requires forall k :: |Positions(events, ReportsFailureOf(k))| <= IntMax
    ensures forall k :: JavaFailures(RunAsWritten(JavaInitial, events), k) as int == Failures(Run(Initial, events), k)
  {
    if |events| > 0 {
      var init, last := events[..|events| - 1], events[|events| - 1];
      assert events == init + [last];
      forall k {
        PositionsSnoc(init, last, ReportsFailureOf(k));
      }
      AsWrittenAgreesBelowIntMax(init);
      RunCountsFailures(Initial, init);
    }
  }

  /**
    One more SIP call failure on a counter that stands at the largest `int`
    leaves it negative, lower than before.
   */
  lemma AsWrittenWrapsAtIntMax()
    ensures var before := JavaCounters(0x7fff_ffff, 0, 0);
            var after := HandleEventAsWritten(before, JibriSessionEvent(Some(Known(SipCall))));
            after.sipCallFailures < 0 && after.sipCallFailures < before.sipCallFailures
  {
  }
}
