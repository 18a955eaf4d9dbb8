/**
  Counting the Jibri sessions of a conference that have a given type and pass a
  selector, and its two uses: counting active and counting pending sessions.
 */
module SessionCount {
  import opened JibriTypes
  import opened SeqCount

  /** Whether `session` is one the count includes: of type `t` and accepted by `selector`. */
  predicate Counted(session: Session, t: JibriType, selector: Session -> bool)
  {
    session.jibriType == t && selector(session)
  }

  /** `Counted` as a test on a single session, for use with `Positions`. */
  function Matcher(t: JibriType, selector: Session -> bool): Session -> bool
  {
    s => Counted(s, t, selector)
  }

  /**
    The number of sessions of type `t` that `selector` accepts, taken one
    session at a time in list order.
   */
  function CountJibris(sessions: seq<Session>, t: JibriType, selector: Session -> bool): (r: nat)
    ensures r <= |sessions|
    ensures r == 0 <==> forall i :: 0 <= i < |sessions| ==> !Counted(sessions[i], t, selector)
    ensures r == |sessions| <==> forall i :: 0 <= i < |sessions| ==> Counted(sessions[i], t, selector)
  {
    if |sessions| == 0 then 0
    else
      var last := sessions[|sessions| - 1];
      CountJibris(sessions[..|sessions| - 1], t, selector) + (if Counted(last, t, selector) then 1 else 0)
  }

  /** The count is exactly the number of positions holding a counted session. */
  lemma {:induction false} CountJibrisIsPositionCount(sessions: seq<Session>, t: JibriType, selector: Session -> bool)
    ensures CountJibris(sessions, t, selector) == |Positions(sessions, Matcher(t, selector))|
  {
    if |sessions| > 0 {
      var init, last := sessions[..|sessions| - 1], sessions[|sessions| - 1];
      assert sessions == init + [last];
      CountJibrisIsPositionCount(init, t, selector);
      PositionsSnoc(init, last, Matcher(t, selector));
    }
  }

  /** The selector for active sessions. */
  predicate IsActive(session: Session)
  {
    session.active
  }

  /** The selector for pending sessions. */
  predicate IsPending(session: Session)
  {
    session.pending
  }

  /** How many sessions of type `t` are active. */
  function CountActive(sessions: seq<Session>, t: JibriType): (r: nat)
    ensures r == |set i: nat | i < |sessions| && sessions[i].jibriType == t && sessions[i].active|
  {
    CountJibrisIsPositionCount(sessions, t, IsActive);
    assert Positions(sessions, Matcher(t, IsActive))
        == set i: nat | i < |sessions| && sessions[i].jibriType == t && sessions[i].active;
    CountJibris(sessions, t, IsActive)
  }

  /** How many sessions of type `t` are pending. */
  function CountPending(sessions: seq<Session>, t: JibriType): (r: nat)
    ensures r == |set i: nat | i < |sessions| && sessions[i].jibriType == t && sessions[i].pending|
  {
    CountJibrisIsPositionCount(sessions, t, IsPending);
    assert Positions(sessions, Matcher(t, IsPending))
        == set i: nat | i < |sessions| && sessions[i].jibriType == t && sessions[i].pending;
    CountJibris(sessions, t, IsPending)
  }
}
