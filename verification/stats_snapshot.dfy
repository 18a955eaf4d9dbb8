/**
  The statistics snapshot: a map from key to integer holding the three
  cumulative failure counters and, when the conference registry can be reached,
  six live session counts.
 */
module StatsSnapshot {
  import opened Wrappers
  import opened JibriTypes
  import opened SessionCount
  import opened FailureCounters

  /** The name of a kind as it appears in the exported keys. */
  function KindName(k: Kind): string
  {
    match k
    case SipCall => "sip_call"
    case Recording => "recording"
    case LiveStreaming => "live_streaming"
  }

  /** The nine entries of the snapshot. */
  datatype StatKey = Active(kind: Kind) | Pending(kind: Kind) | TotalFailures(kind: Kind)

  type Stats = map<StatKey, int>

  /** The exported name of a kind's active-session count. */
  function ActiveName(k: Kind): (r: string)
    ensures r == KindName(k) + "_active"
  {
    match k
    case LiveStreaming => assert "live_streaming_active" == "live_streaming" + "_active"; "live_streaming_active"
    case Recording => assert "recording_active" == "recording" + "_active"; "recording_active"
    case SipCall => assert "sip_call_active" == "sip_call" + "_active"; "sip_call_active"
  }

  /** The exported name of a kind's pending-session count. */
  function PendingName(k: Kind): (r: string)
    ensures r == KindName(k) + "_pending"
  {
    match k
    case LiveStreaming => assert "live_streaming_pending" == "live_streaming" + "_pending"; "live_streaming_pending"
    case Recording => assert "recording_pending" == "recording" + "_pending"; "recording_pending"
    case SipCall => assert "sip_call_pending" == "sip_call" + "_pending"; "sip_call_pending"
  }

  /** The exported name of a kind's failure counter. */
  function TotalFailuresName(k: Kind): (r: string)
    ensures r == "total_" + KindName(k) + "_failures"
  {
    match k
    case LiveStreaming =>
      assert "total_live_streaming_failures" == "total_" + "live_streaming" + "_failures"; "total_live_streaming_failures"
    case Recording =>
      assert "total_recording_failures" == "total_" + "recording" + "_failures"; "total_recording_failures"
    case SipCall =>
      assert "total_sip_call_failures" == "total_" + "sip_call" + "_failures"; "total_sip_call_failures"
  }

  /**
    The name under which each entry is exported: the kind's name, then
    `_active` or `_pending` for a live count, or between `total_` and
    `_failures` for a failure counter.
   */
  function KeyName(key: StatKey): (r: string)
    ensures key.Active? ==> r == KindName(key.kind) + "_active"
    ensures key.Pending? ==> r == KindName(key.kind) + "_pending"
    ensures key.TotalFailures? ==> r == "total_" + KindName(key.kind) + "_failures"
  {
    match key
    case Active(k) => ActiveName(k)
    case Pending(k) => PendingName(k)
    case TotalFailures(k) => TotalFailuresName(k)
  }

  /** No two entries share an exported name. */
  lemma KeyNameInjective(a: StatKey, b: StatKey)
    ensures KeyName(a) == KeyName(b) ==> a == b
  {
  }

  const TotalKeys: set<StatKey> :=
    {TotalFailures(LiveStreaming), TotalFailures(Recording), TotalFailures(SipCall)}

  const LiveKeys: set<StatKey> :=
    {Active(LiveStreaming), Active(Recording), Active(SipCall),
     Pending(LiveStreaming), Pending(Recording), Pending(SipCall)}

  /** Every kind has its active and pending entry among the live keys, and its total among the others. */
  lemma KeySetsCoverKinds()
    ensures forall k :: Active(k) in LiveKeys && Pending(k) in LiveKeys
    ensures forall k :: TotalFailures(k) in TotalKeys
    ensures LiveKeys !! TotalKeys
  {
    forall k
      ensures Active(k) in LiveKeys && Pending(k) in LiveKeys && TotalFailures(k) in TotalKeys
    {
      match k
      case SipCall =>
      case Recording =>
      case LiveStreaming =>
    }
  }

  /** Whether some conference of the list takes part in statistics. */
  predicate AnyIncluded(conferences: seq<Conference>)
  {
    exists i :: 0 <= i < |conferences| && conferences[i].includeInStatistics
  }

  /** Some conference is included when the first one is or one of the rest is. */
  lemma AnyIncludedUnfold(conferences: seq<Conference>)
    requires |conferences| > 0
    ensures AnyIncluded(conferences) <==> conferences[0].includeInStatistics || AnyIncluded(conferences[1..])
  {
    var rest := conferences[1..];
    if AnyIncluded(rest) {
      var i :| 0 <= i < |rest| && rest[i].includeInStatistics;
      assert conferences[i + 1] == rest[i];
    }
    if AnyIncluded(conferences) && !conferences[0].includeInStatistics {
      var i :| 0 <= i < |conferences| && conferences[i].includeInStatistics;
      assert rest[i - 1] == conferences[i];
    }
  }

  /**
    The position of the last conference in the list that takes part in
    statistics, if there is one.
   */
  function LastIncluded(conferences: seq<Conference>): (r: Option<nat>)
    ensures r.None? <==> !AnyIncluded(conferences)
    ensures r.Some? ==> r.value < |conferences| && conferences[r.value].includeInStatistics
    ensures r.Some? ==> forall i :: r.value < i < |conferences| ==> !conferences[i].includeInStatistics
  {
    if |conferences| == 0 then None
    else
      match LastIncluded(conferences[1..])
      case Some(j) => Some(j + 1)
      case None => if conferences[0].includeInStatistics then Some(0) else None
  }

  /** The live count one conference's sessions give for a live entry. */
  function LiveValue(sessions: seq<Session>, key: StatKey): nat
    requires key in LiveKeys
  {
    match key
    case Active(k) => CountActive(sessions, Known(k))
    case Pending(k) => CountPending(sessions, Known(k))
  }

  /**
    Stores the six live counts of one conference's sessions, each replacing any
    earlier value, as the six puts of one loop iteration do.
   */
  function PutLiveCounts(stats: Stats, sessions: seq<Session>): (r: Stats)
    ensures r.Keys == stats.Keys + LiveKeys
    ensures forall key :: key in stats && key !in LiveKeys ==> r[key] == stats[key]
    ensures forall key :: key in LiveKeys ==> r[key] == LiveValue(sessions, key)
    ensures forall k :: Active(k) in r && r[Active(k)] == CountActive(sessions, Known(k))
    ensures forall k :: Pending(k) in r && r[Pending(k)] == CountPending(sessions, Known(k))
  {
    KeySetsCoverKinds();
    stats + map key | key in LiveKeys :: LiveValue(sessions, key)
  }

  /** Putting one conference's counts over another's leaves only the second's. */
  lemma PutLiveCountsOverwrites(stats: Stats, first: seq<Session>, second: seq<Session>)
    ensures PutLiveCounts(PutLiveCounts(stats, first), second) == PutLiveCounts(stats, second)
  {
  }

  /**
    Walks the conferences in order, skipping those not included in statistics;
    each included one stores its live counts over the previous ones.
   */
  function CollectLiveCounts(stats: Stats, conferences: seq<Conference>): (r: Stats)
    ensures !AnyIncluded(conferences) ==> r == stats
    ensures AnyIncluded(conferences) ==> r.Keys == stats.Keys + LiveKeys
    ensures forall key :: key in stats && key !in LiveKeys ==> key in r && r[key] == stats[key]
    decreases |conferences|
  {
    if |conferences| == 0 then stats
    else
      var conference := conferences[0];
      var next := if conference.includeInStatistics then PutLiveCounts(stats, conference.jibriSessions) else stats;
      AnyIncludedUnfold(conferences);
      CollectLiveCounts(next, conferences[1..])
  }

  /**
    The walk leaves exactly the counts of the last included conference: the
    live entries are replaced, not summed, and are left untouched when no
    conference is included.
   */
  lemma {:induction false} CollectLiveCountsIsLastIncluded(stats: Stats, conferences: seq<Conference>)
    ensures CollectLiveCounts(stats, conferences)
         == match LastIncluded(conferences)
            case None => stats
            case Some(j) => PutLiveCounts(stats, conferences[j].jibriSessions)
    decreases |conferences|
  {
    if |conferences| > 0 {
      var conference, rest := conferences[0], conferences[1..];
      var next := if conference.includeInStatistics then PutLiveCounts(stats, conference.jibriSessions) else stats;
      CollectLiveCountsIsLastIncluded(next, rest);
      match LastIncluded(rest)
      case None =>
      case Some(j) =>
        assert conferences[j + 1] == rest[j];
        if conference.includeInStatistics {
          PutLiveCountsOverwrites(stats, conference.jibriSessions, rest[j].jibriSessions);
        }
    }
  }

  /**
    Each live entry the walk leaves is the count the last included conference
    gives for it.
   */
  lemma {:induction false} LiveEntryFromLastIncluded(stats: Stats, conferences: seq<Conference>, j: nat, key: StatKey)
    requires LastIncluded(conferences) == Some(j)
    requires key in LiveKeys
    ensures key in CollectLiveCounts(stats, conferences)
    ensures CollectLiveCounts(stats, conferences)[key] == LiveValue(conferences[j].jibriSessions, key)
    decreases |conferences|
  {
    var conference, rest := conferences[0], conferences[1..];
    var next := if conference.includeInStatistics then PutLiveCounts(stats, conference.jibriSessions) else stats;
    match LastIncluded(rest)
    case Some(j') =>
      assert j == j' + 1 && conferences[j] == rest[j'];
      LiveEntryFromLastIncluded(next, rest, j', key);
    case None =>
      assert j == 0 && conference.includeInStatistics;
  }

  /**
    Adds the live counts to `stats` when the conference list could be obtained;
    `None` stands for a service that was never started or a missing focus manager.
   */
  function GenerateJibriSessionStats(stats: Stats, conferences: Option<seq<Conference>>): (r: Stats)
    ensures conferences.None? ==> r == stats
    ensures conferences.Some? ==> r.Keys == stats.Keys + (if AnyIncluded(conferences.value) then LiveKeys else {})
    ensures forall key :: key in stats && key !in LiveKeys ==> key in r && r[key] == stats[key]
  {
    match conferences
    case None => stats
    case Some(cs) => CollectLiveCounts(stats, cs)
  }

  /** The three cumulative counters under their keys. */
  function TotalsOnly(c: Counters): (r: Stats)
    ensures r.Keys == TotalKeys
    ensures forall k :: TotalFailures(k) in r && r[TotalFailures(k)] == Failures(c, k)
  {
    KeySetsCoverKinds();
    map[TotalFailures(LiveStreaming) := TotalLiveStreamingFailures(c)]
       [TotalFailures(Recording) := TotalRecordingFailures(c)]
       [TotalFailures(SipCall) := TotalSipCallFailures(c)]
  }

  /**
    The snapshot: the three cumulative counters are always present and equal
    the getters; the six live keys are present exactly when the conference list
    was obtained and holds an included conference.
   */
  function GetStats(c: Counters, conferences: Option<seq<Conference>>): (r: Stats)
    ensures forall k :: TotalFailures(k) in r && r[TotalFailures(k)] == Failures(c, k)
    ensures r[TotalFailures(SipCall)] == TotalSipCallFailures(c)
    ensures r[TotalFailures(Recording)] == TotalRecordingFailures(c)
    ensures r[TotalFailures(LiveStreaming)] == TotalLiveStreamingFailures(c)
    ensures conferences.None? ==> r.Keys == TotalKeys
    ensures conferences.Some? ==> r.Keys == TotalKeys + (if AnyIncluded(conferences.value) then LiveKeys else {})
  {
    GenerateJibriSessionStats(TotalsOnly(c), conferences)
  }

  /**
    With a conference list that holds an included conference, every live entry
    is the active or pending count of the last included conference alone.
   */
  lemma LiveCountsComeFromLastIncluded(c: Counters, conferences: seq<Conference>, j: nat, key: StatKey)
    requires LastIncluded(conferences) == Some(j)
    requires key in LiveKeys
    ensures key in GetStats(c, Some(conferences))
    ensures GetStats(c, Some(conferences))[key] == LiveValue(conferences[j].jibriSessions, key)
  {
    LiveEntryFromLastIncluded(TotalsOnly(c), conferences, j, key);
  }

  /** Whether a conference takes part in statistics, as a test for `Positions`. */
  predicate IsIncluded(conference: Conference)
  {
    conference.includeInStatistics
  }

  /**
    The conferences of the list that take part in statistics, in list order:
    what remains of the walk once it has skipped the others.
   */
  function Included(conferences: seq<Conference>): (r: seq<Conference>)
    ensures |r| <= |conferences|
    ensures forall i :: 0 <= i < |r| ==> r[i].includeInStatistics
    ensures forall c :: c in r <==> c in conferences && c.includeInStatistics
    ensures AnyIncluded(r) <==> AnyIncluded(conferences)
  {
    if |conferences| == 0 then []
    else
      var rest := Included(conferences[1..]);
      AnyIncludedUnfold(conferences);
      assert conferences == [conferences[0]] + conferences[1..];
      if conferences[0].includeInStatistics then
        var r := [conferences[0]] + rest;
        AnyIncludedUnfold(r);
        assert r[1..] == rest;
        r
      else rest
  }

  /** The last conference the filter keeps is the last included one of the list. */
  lemma {:induction false} IncludedEndsWithLastIncluded(conferences: seq<Conference>)
    ensures LastIncluded(conferences).None? <==> |Included(conferences)| == 0
    ensures LastIncluded(conferences).Some? ==>
              |Included(conferences)| > 0
              && Included(conferences)[|Included(conferences)| - 1] == conferences[LastIncluded(conferences).value]
  {
    if |conferences| > 0 {
      var first, rest := conferences[0], conferences[1..];
      IncludedEndsWithLastIncluded(rest);
      var kept := Included(rest);
      if first.includeInStatistics {
        assert Included(conferences) == [first] + kept;
      } else {
        assert Included(conferences) == kept;
      }
      match LastIncluded(rest)
      case Some(j) =>
        assert LastIncluded(conferences) == Some(j + 1);
        assert conferences[j + 1] == rest[j];
        assert Included(conferences)[|Included(conferences)| - 1] == kept[|kept| - 1];
      case None =>
        assert |kept| == 0;
        if first.includeInStatistics {
          assert LastIncluded(conferences) == Some(0);
          assert Included(conferences) == [first];
        } else {
          assert LastIncluded(conferences) == None;
        }
    }
  }

  /** Filtering a list with one more conference at the end keeps the old result and adds that conference if it is included. */
  lemma {:induction false} IncludedSnoc(conferences: seq<Conference>, last: Conference)
    ensures Included(conferences + [last]) == Included(conferences) + (if last.includeInStatistics then [last] else [])
  {
    var all := conferences + [last];
    var tail := if last.includeInStatistics then [last] else [];
    if |conferences| == 0 {
      assert all == [last] && all[1..] == [];
      assert Included(all) == (if last.includeInStatistics then [last] + Included([]) else Included([]));
    } else {
      var first, rest := conferences[0], conferences[1..];
      assert all[0] == first;
      assert all[1..] == rest + [last];
      IncludedSnoc(rest, last);
      var filtered := Included(rest + [last]);
      assert filtered == Included(rest) + tail;
      if first.includeInStatistics {
        assert Included(all) == [first] + filtered;
        assert Included(conferences) == [first] + Included(rest);
        assert [first] + (Included(rest) + tail) == ([first] + Included(rest)) + tail;
      } else {
        assert Included(all) == filtered;
        assert Included(conferences) == Included(rest);
      }
    }
  }

  /** The filter keeps exactly as many conferences as there are included positions in the list. */
  lemma {:induction false} IncludedCountsIncluded(conferences: seq<Conference>)
    ensures |Included(conferences)| == |SeqCount.Positions(conferences, IsIncluded)|
  {
    if |conferences| > 0 {
      var init, last := conferences[..|conferences| - 1], conferences[|conferences| - 1];
      assert conferences == init + [last];
      IncludedCountsIncluded(init);
      IncludedSnoc(init, last);
      SeqCount.PositionsSnoc(init, last, IsIncluded);
    }
  }

  /** Conferences not included in statistics make no difference to the snapshot. */
  lemma {:induction false} ExcludedConferencesContributeNothing(stats: Stats, conferences: seq<Conference>)
    ensures CollectLiveCounts(stats, conferences) == CollectLiveCounts(stats, Included(conferences))
    decreases |conferences|
  {
    if |conferences| > 0 {
      var conference, rest := conferences[0], conferences[1..];
      var next := if conference.includeInStatistics then PutLiveCounts(stats, conference.jibriSessions) else stats;
      ExcludedConferencesContributeNothing(next, rest);
      if conference.includeInStatistics {
        var inc := Included(conferences);
        assert inc == [conference] + Included(rest);
        assert inc[0] == conference && inc[1..] == Included(rest);
      }
    }
  }

  /** The same, for the whole snapshot. */
  lemma ExcludedConferencesLeaveSnapshotUnchanged(c: Counters, conferences: seq<Conference>)
    ensures GetStats(c, Some(conferences)) == GetStats(c, Some(Included(conferences)))
  {
    ExcludedConferencesContributeNothing(TotalsOnly(c), conferences);
  }

  /**
    Two included conferences each running one active recording report one
    active recording, not two: the second conference's counts replace the first's.
   */
  lemma LiveCountsAreNotSummed(c: Counters)
    ensures var recorder := Session(Known(Recording), true, false);
            var conferences := [Conference(true, [recorder]), Conference(true, [recorder])];
            GetStats(c, Some(conferences))[Active(Recording)] == 1
  {
    var recorder := Session(Known(Recording), true, false);
    var conferences := [Conference(true, [recorder]), Conference(true, [recorder])];
    LiveCountsComeFromLastIncluded(c, conferences, 1, Active(Recording));
    assert (set i: nat | i < 1 && [recorder][i].jibriType == Known(Recording) && [recorder][i].active) == {0};
  }

  /**
    An included conference with one active and one pending recording, followed
    by an excluded conference with another active recording, reports one
    active and one pending recording.
   */
  lemma ExcludedConferenceIsNotCounted(c: Counters)
    ensures var included := Conference(true, [Session(Known(Recording), true, false), Session(Known(Recording), false, true)]);
            var excluded := Conference(false, [Session(Known(Recording), true, false)]);
            var r := GetStats(c, Some([included, excluded]));
            r[Active(Recording)] == 1 && r[Pending(Recording)] == 1
  {
    var included := Conference(true, [Session(Known(Recording), true, false), Session(Known(Recording), false, true)]);
    var excluded := Conference(false, [Session(Known(Recording), true, false)]);
    var sessions := included.jibriSessions;
    assert LastIncluded([excluded]) == None;
    assert LastIncluded([included, excluded]) == Some(0) by {
      assert [included, excluded][1..] == [excluded];
    }
    LiveCountsComeFromLastIncluded(c, [included, excluded], 0, Active(Recording));
    LiveCountsComeFromLastIncluded(c, [included, excluded], 0, Pending(Recording));
    var active := set i: nat | i < |sessions| && sessions[i].jibriType == Known(Recording) && sessions[i].active;
    var pending := set i: nat | i < |sessions| && sessions[i].jibriType == Known(Recording) && sessions[i].pending;
    assert active == {0} by {
      forall i: nat | i in active ensures i == 0 { assert i < 2; }
      assert 0 in active;
    }
    assert pending == {1} by {
      forall i: nat | i in pending ensures i == 1 { assert i < 2; }
      assert 1 in pending;
    }
  }

  /**
    The snapshot as a key-to-integer object: each entry under its exported
    name, and nothing else.
   */
  function ToJsonObject(stats: Stats): (r: map<string, int>)
    ensures forall key :: key in stats ==> KeyName(key) in r && r[KeyName(key)] == stats[key]
    ensures forall name :: name in r ==> exists key :: key in stats && KeyName(key) == name
  {
    forall a, b ensures KeyName(a) == KeyName(b) ==> a == b {
      KeyNameInjective(a, b);
    }
    map key | key in stats :: KeyName(key) := stats[key]
  }
}
