/**
  The values the statistics service reads: the kinds of Jibri session, the
  sessions and conferences it walks, and the events it is notified of.
 */
module JibriTypes {
  import opened Wrappers

  /** The three kinds of Jibri session the statistics service knows about. */
  datatype Kind = SipCall | Recording | LiveStreaming

  /**
    A constant of the Jibri session type enumeration: one of the three known
    kinds, or a constant the statistics service does not handle (the `default`
    branch of its event switch).
   */
  datatype JibriType = Known(kind: Kind) | Unknown

  /** A Jibri session as the statistics service sees it: its type and its two phase flags. */
  datatype Session = Session(jibriType: JibriType, active: bool, pending: bool)

  /** A conference: whether it takes part in statistics, and its Jibri sessions in order. */
  datatype Conference = Conference(includeInStatistics: bool, jibriSessions: seq<Session>)

  /**
    An event delivered to the statistics service: either some event that is not
    a Jibri session event, or a Jibri session event whose type may be missing.
   */
  datatype Event = OtherEvent | JibriSessionEvent(eventType: Option<JibriType>)
}
