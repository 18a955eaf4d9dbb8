# Jibri session statistics (Jicofo `JibriStats`), modelled in Dafny

Jicofo's `JibriStats` service does two things for Jibri sessions (SIP calls,
recordings and live streams):

- It listens for "failed to start" Jibri session events and keeps three
  cumulative failure counters, one per kind.
- On request, it builds a statistics object. The object always holds the three
  `total_*_failures` counters. It may also hold six live counts (active and
  pending sessions per kind), taken from the conferences of the focus manager.

The model is functional:

- `JibriTypes`: the session kinds, the Jibri type enumeration, sessions,
  conferences and events.
- `SessionCount`: `countJibris`, `countActive` and `countPending`.
- `FailureCounters`: the counters and `handleEvent`, folded over event
  sequences as `Run`, plus the three getters.
- `StatsSnapshot`: `generateJibriSessionStats` and `getStats`. They build a map
  from `StatKey` to integer, and `KeyName` gives each key its exported name,
  such as `"recording_active"`.
- `JavaIntCounters`: the counters at their declared width (Java `int`).
- `SeqCount` and `Wrappers`: small helpers. `SeqCount` supplies the
  set-of-positions reference used to state every count.

The conference lookup is modelled as `Option<seq<Conference>>`. `None` stands
for both a missing bundle context and a missing focus manager.

Two behaviours of the code are worth stating, and the model proves both:

- **Live counts are replaced, not summed.** The code `put`s the six live counts
  again for every included conference. The snapshot therefore holds the counts
  of the last included conference in list order
  (`StatsSnapshot.CollectLiveCountsIsLastIncluded`,
  `StatsSnapshot.LiveCountsAreNotSummed`).
- **No included conference means no live keys.** When the conference list is
  empty or holds no included conference, the six live keys are absent, not 0
  (`StatsSnapshot.GetStats`).

## Model

| member | source | states |
|---|---|---|
| SessionCount.CountJibris | src/main/java/org/jitsi/jicofo/recording/jibri/JibriStats.java:89-106 | the count is at most the number of sessions; it is 0 exactly when no session has the type and passes the selector, and it equals the length exactly when every session does |
| SessionCount.CountJibrisIsPositionCount | src/main/java/org/jitsi/jicofo/recording/jibri/JibriStats.java:89-106 | the count equals the number of positions in the list holding a session of the given type that the selector accepts |
| SessionCount.CountActive | src/main/java/org/jitsi/jicofo/recording/jibri/JibriStats.java:74-78 | the result is the number of positions holding a session of the given type that is active |
| SessionCount.CountPending | src/main/java/org/jitsi/jicofo/recording/jibri/JibriStats.java:115-119 | the result is the number of positions holding a session of the given type that is pending |
| FailureCounters.TotalSipCallFailures | src/main/java/org/jitsi/jicofo/recording/jibri/JibriStats.java:242-245 | the getter returns the SIP call counter, which the next event raises by one exactly when it reports a SIP call failure |
| FailureCounters.TotalRecordingFailures | src/main/java/org/jitsi/jicofo/recording/jibri/JibriStats.java:258-261 | the getter returns the recording counter, which the next event raises by one exactly when it reports a recording failure |
| FailureCounters.TotalLiveStreamingFailures | src/main/java/org/jitsi/jicofo/recording/jibri/JibriStats.java:250-253 | the getter returns the live streaming counter, which the next event raises by one exactly when it reports a live streaming failure |
| FailureCounters.HandleEvent | src/main/java/org/jitsi/jicofo/recording/jibri/JibriStats.java:205-237 | a Jibri session event of a known type adds exactly one to that type's counter and leaves the other two alone; a non-Jibri event, a missing type or an unhandled type leaves the counters equal to before, and only those do |
| FailureCounters.RunCountsFailures | src/main/java/org/jitsi/jicofo/recording/jibri/JibriStats.java:222-236 | after handling any event sequence, each counter has grown by exactly the number of events in it that report a failure of its kind |
| FailureCounters.GettersCountFailureEvents | src/main/java/org/jitsi/jicofo/recording/jibri/JibriStats.java:239-261 | starting from the zero counters of a new service, each getter returns the number of events reporting a failure of its kind |
| FailureCounters.RunNeverDecreases | src/main/java/org/jitsi/jicofo/recording/jibri/JibriStats.java:222-236 | no event sequence lowers any counter |
| FailureCounters.RunAppend | src/main/java/org/jitsi/jicofo/recording/jibri/JibriStats.java:205-237 | handling one sequence and then another gives the same counters as handling their concatenation |
| FailureCounters.CountersMonotoneInEvents | src/main/java/org/jitsi/jicofo/recording/jibri/JibriStats.java:48-58 | the counters of a new service after a sequence of events are never above those after the same sequence followed by more events |
| JavaIntCounters.JavaIncrement | src/main/java/org/jitsi/jicofo/recording/jibri/JibriStats.java:224-231 | Java `++` on an `int`: the result is one more than the argument modulo 2^32; it is exactly one more below 2^31-1, and at 2^31-1 it is lower than the argument |
| JavaIntCounters.HandleEventAsWritten | src/main/java/org/jitsi/jicofo/recording/jibri/JibriStats.java:221-236 | with `int` counters, the reported kind's counter takes its Java `++` value and the other counters are unchanged |
| JavaIntCounters.AsWrittenAgreesBelowIntMax | src/main/java/org/jitsi/jicofo/recording/jibri/JibriStats.java:48-58 | while no kind has more than 2^31-1 failures, the `int` counters equal the unbounded counters |
| JavaIntCounters.AsWrittenWrapsAtIntMax | src/main/java/org/jitsi/jicofo/recording/jibri/JibriStats.java:224-226 | one SIP call failure on a counter at 2^31-1 makes it negative, lower than before |
| StatsSnapshot.LastIncluded | src/main/java/org/jitsi/jicofo/recording/jibri/JibriStats.java:156-161 | the result is absent exactly when no conference is included; otherwise it is the position of an included conference with no included conference after it |
| StatsSnapshot.PutLiveCounts | src/main/java/org/jitsi/jicofo/recording/jibri/JibriStats.java:163-195 | the six live keys are added, each holding the active or pending count of its kind for the given sessions; every other entry keeps its value |
| StatsSnapshot.PutLiveCountsOverwrites | src/main/java/org/jitsi/jicofo/recording/jibri/JibriStats.java:165-195 | storing a second conference's live counts over a first's gives the same map as storing the second's alone |
| StatsSnapshot.CollectLiveCounts | src/main/java/org/jitsi/jicofo/recording/jibri/JibriStats.java:154-196 | with no included conference the map is unchanged; otherwise exactly the six live keys are added; entries outside the live keys keep their values |
| StatsSnapshot.CollectLiveCountsIsLastIncluded | src/main/java/org/jitsi/jicofo/recording/jibri/JibriStats.java:154-196 | walking the conferences gives exactly the map with the last included conference's live counts stored, or the map unchanged when none is included |
| StatsSnapshot.LiveEntryFromLastIncluded | src/main/java/org/jitsi/jicofo/recording/jibri/JibriStats.java:156-195 | when some conference is included, every live key is present after the walk and holds the count that the last included conference's sessions give for it |
| StatsSnapshot.GenerateJibriSessionStats | src/main/java/org/jitsi/jicofo/recording/jibri/JibriStats.java:139-197 | without a conference list the map is unchanged; with one, the live keys are added exactly when some conference is included; other entries keep their values |
| StatsSnapshot.TotalsOnly | src/main/java/org/jitsi/jicofo/recording/jibri/JibriStats.java:265-268 | the map holds exactly the three total keys, each equal to its kind's counter |
| StatsSnapshot.GetStats | src/main/java/org/jitsi/jicofo/recording/jibri/JibriStats.java:263-273 | the three totals are always present and equal the getters; without a conference list they are the only keys; with one, the live keys are present exactly when some conference is included |
| StatsSnapshot.LiveCountsComeFromLastIncluded | src/main/java/org/jitsi/jicofo/recording/jibri/JibriStats.java:154-196 | when some conference is included, every live key is in the snapshot and holds the active or pending count of the last included conference alone |
| StatsSnapshot.Included | src/main/java/org/jitsi/jicofo/recording/jibri/JibriStats.java:156-161 | the kept conferences are all included; a conference is kept exactly when it is in the list and included; there are no more of them than before; some conference is kept exactly when some was included |
| StatsSnapshot.IncludedCountsIncluded | src/main/java/org/jitsi/jicofo/recording/jibri/JibriStats.java:156-161 | the filter keeps exactly as many conferences as the list has included positions |
| StatsSnapshot.IncludedSnoc | src/main/java/org/jitsi/jicofo/recording/jibri/JibriStats.java:156-161 | filtering a list with one more conference at the end keeps the earlier result, in order, and appends that conference exactly when it is included |
| StatsSnapshot.IncludedEndsWithLastIncluded | src/main/java/org/jitsi/jicofo/recording/jibri/JibriStats.java:156-161 | the filter keeps nothing exactly when no conference is included; otherwise its last kept conference is the last included conference of the list |
| StatsSnapshot.ExcludedConferencesContributeNothing | src/main/java/org/jitsi/jicofo/recording/jibri/JibriStats.java:156-161 | walking the full conference list gives the same map as walking only its included conferences |
| StatsSnapshot.ExcludedConferencesLeaveSnapshotUnchanged | src/main/java/org/jitsi/jicofo/recording/jibri/JibriStats.java:154-161 | the snapshot for a conference list equals the snapshot for its included conferences only |
| StatsSnapshot.LiveCountsAreNotSummed | src/main/java/org/jitsi/jicofo/recording/jibri/JibriStats.java:165-174 | two included conferences with one active recording each report one active recording, not two |
| StatsSnapshot.ExcludedConferenceIsNotCounted | src/main/java/org/jitsi/jicofo/recording/jibri/JibriStats.java:156-190 | an included conference with one active and one pending recording, followed by an excluded conference with one more active recording, reports one active and one pending recording |
| StatsSnapshot.KeyName | src/main/java/org/jitsi/jicofo/recording/jibri/JibriStats.java:165-268 | each live entry is exported as its kind's name (`sip_call`, `recording`, `live_streaming`) followed by `_active` or `_pending`; each failure counter as `total_`, the kind's name, then `_failures` |
| StatsSnapshot.KeyNameInjective | src/main/java/org/jitsi/jicofo/recording/jibri/JibriStats.java:165-268 | no two snapshot entries share an exported name |
| StatsSnapshot.ToJsonObject | src/main/java/org/jitsi/jicofo/recording/jibri/JibriStats.java:263-273 | the exported object holds each entry under its name with its value, and no other name |

## Findings

| source | as written | input that shows it | evidently intended | confidence | as-written member | corrected member |
|---|---|---|---|---|---|---|
| src/main/java/org/jitsi/jicofo/recording/jibri/JibriStats.java:48-58 | the failure counters are Java `int`s incremented with `++`, which wraps from 2^31-1 to -2^31 | 2^31 SIP call failures in one process; the last one takes `totalSipCallFailures` from 2147483647 to -2147483648 | counters that never decrease and equal the number of failures seen | high that the code wraps, low practical impact (needs 2^31 failures); not executed | JavaIntCounters.HandleEventAsWritten | FailureCounters.HandleEvent |

`JavaIntCounters.HandleEventAsWritten` is the handler with `int` counters.
`JavaIntCounters.AsWrittenWrapsAtIntMax` exhibits the wrap: a counter at
2^31-1 drops to -2^31. `JavaIntCounters.AsWrittenAgreesBelowIntMax` shows that
the two models agree until some kind passes 2^31-1 failures.

The rest of the model, including the snapshot, uses the unbounded counters of
`FailureCounters.HandleEvent`. For them, `FailureCounters.RunNeverDecreases` and
`FailureCounters.GettersCountFailureEvents` prove the intended promise.

## Left out

- OSGi lifecycle (the constructor's event subscription and `start` with its service registration): framework plumbing whose code is not part of this model.
- The `ServiceUtils2.getService` lookup of the focus manager: only its outcome is modelled, as an optional conference list (`None` for a missing bundle context or focus manager).
- Concurrency: the `volatile` fields and the non-atomic `++` are modelled as sequential updates, and readers racing with an update are not modelled.
- Logging of a missing or unhandled event type: it has no effect on the counters.
- The `JSONObject` encoding beyond key names and integer values (`StatsSnapshot.ToJsonObject`).
- How `JibriSession.isActive`/`isPending`, `getJibriType` and `JitsiMeetConference.includeInStatistics` are derived: their code is not part of this model, so sessions and conferences carry them as plain fields. A session whose type is null, which would throw in `countJibris`, is not modelled.
- The order of the six `put`s inside one loop iteration: `StatsSnapshot.PutLiveCounts` stores them as one map union. The six keys are fixed and distinct, so the resulting map is the same.
- The `int` width of the live session counts: a conference would need more than 2^31-1 Jibri sessions for it to matter.
