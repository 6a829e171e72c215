/** The service that turns one stored geofence event into a change of the
    time-entry table (`processGeofenceEvent`). Per (worker, jobsite) pair it is a
    two-state machine: CLOSED (no entry of the pair has a null end) and OPEN.
    ENTER opens an entry unless one is open; EXIT closes the open entry with the
    latest start; a duplicate ENTER and an orphan EXIT change nothing. */
module GeofenceProcessor {
  import opened Types
  import opened Store
  import opened Text

  predicate IsOpenFor(e: TimeEntry, w: nat, j: nat) {
    e.workerId == w && e.jobsiteId == j && IsOpen(e)
  }

  /** Some entry of the pair is open: the ENTER branch's `findFirst` on `endAt: null`. */
  predicate HasOpen(entries: seq<TimeEntry>, w: nat, j: nat) {
    exists i :: 0 <= i < |entries| && IsOpenFor(entries[i], w, j)
  }

  /** The open entry of the pair with the latest start: the EXIT branch's
      `findFirst` ordered by `startAt` descending. Among equal starts the model
      takes the one stored first. */
  function LatestOpen(entries: seq<TimeEntry>, w: nat, j: nat): (r: Option<nat>)
    ensures r.None? <==> !HasOpen(entries, w, j)
    ensures r.Some? ==> r.value < |entries| && IsOpenFor(entries[r.value], w, j)
    ensures r.Some? ==> forall i :: 0 <= i < |entries| && IsOpenFor(entries[i], w, j) ==>
                          entries[i].startAt <= entries[r.value].startAt
  {
    if |entries| == 0 then None
    else
      var last := |entries| - 1;
      var front := entries[..last];
      var p := LatestOpen(front, w, j);
      assert forall i :: 0 <= i < last ==> front[i] == entries[i];
      if IsOpenFor(entries[last], w, j) && (p.None? || entries[p.value].startAt < entries[last].startAt)
      then Some(last)
      else p
  }

  /** The number of open entries of the pair. */
  function OpenCount(entries: seq<TimeEntry>, w: nat, j: nat): nat
  {
    if |entries| == 0 then 0
    else OpenCount(entries[..|entries| - 1], w, j) + (if IsOpenFor(entries[|entries| - 1], w, j) then 1 else 0)
  }

  /** The intended invariant of the time-entry table: at most one open entry per pair. */
  ghost predicate AtMostOneOpen(entries: seq<TimeEntry>) {
    forall w: nat, j: nat :: OpenCount(entries, w, j) <= 1
  }

  /** Every closed entry carries the duration its start and end give. */
  ghost predicate DurationsConsistent(entries: seq<TimeEntry>) {
    forall i :: 0 <= i < |entries| ==> DurationMatches(entries[i])
  }

  /** The entry an ENTER creates. */
  function NewEntry(ev: GeofenceEvent, eventId: nat): TimeEntry {
    TimeEntry(ev.workerId, ev.jobsiteId, ev.timestamp, None, None, Pending, Ids([eventId]), None)
  }

  /** The entry an EXIT at `ts` makes of the open entry `e`. */
  function Close(e: TimeEntry, ts: int, eventId: nat): TimeEntry
    requires e.createdFromEvents.Ids?
  {
    e.(endAt := Some(ts),
       durationMinutes := Some(ElapsedMinutes(e.startAt, ts)),
       createdFromEvents := Ids(e.createdFromEvents.ids + [eventId]))
  }

  /** The message thrown for an unknown event id. */
  function EventNotFound(eventId: nat): string {
    "Geofence event " + NatToString(eventId) + " not found"
  }

  /** The new time-entry table after processing event `eventId`, or the error the
      service throws (an unknown event id; an EXIT whose open entry holds an
      event list JSON.parse rejects). A failure writes nothing: each path of the
      service performs at most one write, and it is the last step. */
  function Process(entries: seq<TimeEntry>, events: seq<GeofenceEvent>, eventId: nat): Result<seq<TimeEntry>, Error>
  {
    if eventId >= |events| then Failure(Thrown(EventNotFound(eventId)))
    else
      var ev := events[eventId];
      match ev.kind
      case Enter =>
        if HasOpen(entries, ev.workerId, ev.jobsiteId) then Success(entries)
        else Success(entries + [NewEntry(ev, eventId)])
      case Exit =>
        match LatestOpen(entries, ev.workerId, ev.jobsiteId)
        case None => Success(entries)
        case Some(i) =>
          if entries[i].createdFromEvents.Malformed? then Failure(Thrown("Unexpected token in JSON"))
          else Success(entries[i := Close(entries[i], ev.timestamp, eventId)])
  }

  /** The table after processing with any failure swallowed, as the ingestion route does. */
  function Settle(entries: seq<TimeEntry>, events: seq<GeofenceEvent>, eventId: nat): seq<TimeEntry>
  {
    match Process(entries, events, eventId)
    case Success(s) => s
    case Failure(_) => entries
  }

  /** Processing the events `ids` one after another. */
  function Replay(entries: seq<TimeEntry>, events: seq<GeofenceEvent>, ids: seq<nat>): seq<TimeEntry>
    decreases |ids|
  {
    if |ids| == 0 then entries else Replay(Settle(entries, events, ids[0]), events, ids[1..])
  }

  // ---------------------------------------------------------------------------
  // The queries and the service, as the code runs them

  /** ENTER's existence query. */
  method AnyOpen(entries: seq<TimeEntry>, w: nat, j: nat) returns (found: bool)
    ensures found <==> HasOpen(entries, w, j)
  {
    found := false;
    var i := 0;
    while i < |entries|
      invariant 0 <= i <= |entries|
      invariant found <==> exists k :: 0 <= k < i && IsOpenFor(entries[k], w, j)
    {
      if IsOpenFor(entries[i], w, j) {
        found := true;
      }
      i := i + 1;
    }
  }

  /** EXIT's query: one pass keeping the open entry with the latest start so far. */
  method FindLatestOpen(entries: seq<TimeEntry>, w: nat, j: nat) returns (r: Option<nat>)
    ensures r == LatestOpen(entries, w, j)
  {
    r := None;
    var i := 0;
    while i < |entries|
      invariant 0 <= i <= |entries|
      invariant r == LatestOpen(entries[..i], w, j)
    {
      var next := entries[..i + 1];
      assert next[..i] == entries[..i];
      assert next[i] == entries[i];
      assert r.Some? ==> next[r.value] == entries[r.value];
      if IsOpenFor(entries[i], w, j) && (r.None? || entries[r.value].startAt < entries[i].startAt) {
        r := Some(i);
      }
      i := i + 1;
    }
    assert entries[..|entries|] == entries;
  }

  /** `processGeofenceEvent(eventId)`. */
  method ProcessGeofenceEvent(db: Database, eventId: nat) returns (r: Outcome<Error>)
    modifies db`entries
    ensures Process(old(db.entries), db.events, eventId).Success? ==>
              r == Pass && db.entries == Process(old(db.entries), db.events, eventId).value
    ensures Process(old(db.entries), db.events, eventId).Failure? ==>
              r == Fail(Process(old(db.entries), db.events, eventId).error) && db.entries == old(db.entries)
  {
    if eventId >= |db.events| {
      return Fail(Thrown(EventNotFound(eventId)));
    }
    var ev := db.events[eventId];
    match ev.kind {
      case Enter =>
        var open := AnyOpen(db.entries, ev.workerId, ev.jobsiteId);
        if open {
          return Pass;
        }
        db.entries := db.entries + [NewEntry(ev, eventId)];
      case Exit =>
        var latest := FindLatestOpen(db.entries, ev.workerId, ev.jobsiteId);
        if latest.Some? {
          var e := db.entries[latest.value];
          if e.createdFromEvents.Malformed? {
            return Fail(Thrown("Unexpected token in JSON"));
          }
          db.entries := db.entries[latest.value := Close(e, ev.timestamp, eventId)];
        }
    }
    r := Pass;
  }

  // ---------------------------------------------------------------------------
  // Properties of one event

  /** ENTER while the pair has an open entry leaves the table as it was. */
  lemma EnterWhileOpenIsNoop(entries: seq<TimeEntry>, events: seq<GeofenceEvent>, id: nat)
    requires id < |events| && events[id].kind == Enter
    requires HasOpen(entries, events[id].workerId, events[id].jobsiteId)
    ensures Process(entries, events, id) == Success(entries)
  {
  }

  /** ENTER while the pair is closed appends exactly one open PENDING entry that
      starts at the event and lists only this event. */
  lemma EnterWhileClosedOpens(entries: seq<TimeEntry>, events: seq<GeofenceEvent>, id: nat)
    requires id < |events| && events[id].kind == Enter
    requires !HasOpen(entries, events[id].workerId, events[id].jobsiteId)
    ensures Process(entries, events, id).Success?
    ensures var s := Process(entries, events, id).value;
            var e := s[|entries|];
            && |s| == |entries| + 1 && s[..|entries|] == entries
            && e.workerId == events[id].workerId && e.jobsiteId == events[id].jobsiteId
            && e.startAt == events[id].timestamp && e.endAt == None && e.durationMinutes == None
            && e.status == Pending && e.createdFromEvents == Ids([id])
  {
    assert (entries + [NewEntry(events[id], id)])[..|entries|] == entries;
  }

  /** EXIT closes the pair's open entry with the latest start: its end is the
      event time, its duration the whole minutes elapsed, its status untouched,
      and the event id is appended after the ids it already listed. Nothing else
      changes. */
  lemma ExitClosesLatestOpen(entries: seq<TimeEntry>, events: seq<GeofenceEvent>, id: nat)
    requires id < |events| && events[id].kind == Exit
    requires HasOpen(entries, events[id].workerId, events[id].jobsiteId)
    ensures var i := LatestOpen(entries, events[id].workerId, events[id].jobsiteId).value;
            var old_e := entries[i];
            && (forall k :: 0 <= k < |entries| && IsOpenFor(entries[k], old_e.workerId, old_e.jobsiteId) ==>
                  entries[k].startAt <= old_e.startAt)
            && (old_e.createdFromEvents.Malformed? ==> Process(entries, events, id).Failure?)
            && (old_e.createdFromEvents.Ids? ==>
                  && Process(entries, events, id).Success?
                  && var s := Process(entries, events, id).value;
                  && |s| == |entries|
                  && (forall k :: 0 <= k < |entries| && k != i ==> s[k] == entries[k])
                  && s[i].endAt == Some(events[id].timestamp)
                  && s[i].durationMinutes == Some(ElapsedMinutes(old_e.startAt, events[id].timestamp))
                  && s[i].status == old_e.status
                  && s[i].startAt == old_e.startAt
                  && s[i].workerId == old_e.workerId && s[i].jobsiteId == old_e.jobsiteId
                  && s[i].createdFromEvents == Ids(old_e.createdFromEvents.ids + [id]))
  {
  }

  /** An EXIT for a pair with nothing open (an orphan exit) changes nothing. */
  lemma OrphanExitIsNoop(entries: seq<TimeEntry>, events: seq<GeofenceEvent>, id: nat)
    requires id < |events| && events[id].kind == Exit
    requires !HasOpen(entries, events[id].workerId, events[id].jobsiteId)
    ensures Process(entries, events, id) == Success(entries)
  {
  }

  /** Entries of other (worker, jobsite) pairs are never touched, and an added
      entry belongs to the event's pair. */
  lemma ProcessLeavesOtherPairs(entries: seq<TimeEntry>, events: seq<GeofenceEvent>, id: nat)
    requires Process(entries, events, id).Success?
    ensures var s := Process(entries, events, id).value;
            var ev := events[id];
            && |entries| <= |s| <= |entries| + 1
            && (forall k :: 0 <= k < |entries| && (entries[k].workerId != ev.workerId || entries[k].jobsiteId != ev.jobsiteId) ==>
                  s[k] == entries[k])
            && (forall k :: |entries| <= k < |s| ==> s[k].workerId == ev.workerId && s[k].jobsiteId == ev.jobsiteId)
  {
  }

  // ---------------------------------------------------------------------------
  // Counting open entries

  lemma {:induction false} OpenCountZeroIff(entries: seq<TimeEntry>, w: nat, j: nat)
    ensures OpenCount(entries, w, j) == 0 <==> !HasOpen(entries, w, j)
  {
    if |entries| > 0 {
      var front := entries[..|entries| - 1];
      OpenCountZeroIff(front, w, j);
      assert forall i :: 0 <= i < |front| ==> front[i] == entries[i];
      if HasOpen(front, w, j) {
        var i :| 0 <= i < |front| && IsOpenFor(front[i], w, j);
        assert IsOpenFor(entries[i], w, j);
      }
    }
  }

  lemma OpenCountAppend(entries: seq<TimeEntry>, x: TimeEntry, w: nat, j: nat)
    ensures OpenCount(entries + [x], w, j) == OpenCount(entries, w, j) + (if IsOpenFor(x, w, j) then 1 else 0)
  {
    assert (entries + [x])[..|entries|] == entries;
  }

  lemma {:induction false} OpenCountUpdate(entries: seq<TimeEntry>, i: nat, x: TimeEntry, w: nat, j: nat)
    requires i < |entries|
    ensures OpenCount(entries[i := x], w, j)
         == OpenCount(entries, w, j) - (if IsOpenFor(entries[i], w, j) then 1 else 0) + (if IsOpenFor(x, w, j) then 1 else 0)
  {
    var last := |entries| - 1;
    var s := entries[i := x];
    if i == last {
      assert s[..last] == entries[..last];
    } else {
      assert s[..last] == entries[..last][i := x];
      OpenCountUpdate(entries[..last], i, x, w, j);
    }
  }

  lemma OpenCountPositive(entries: seq<TimeEntry>, i: nat, w: nat, j: nat)
    requires i < |entries| && IsOpenFor(entries[i], w, j)
    ensures OpenCount(entries, w, j) >= 1
  {
    OpenCountZeroIff(entries, w, j);
  }

  // ---------------------------------------------------------------------------
  // The invariant under sequential processing

  /** Processing one event keeps at most one open entry per pair. */
  lemma ProcessPreservesAtMostOneOpen(entries: seq<TimeEntry>, events: seq<GeofenceEvent>, id: nat)
    requires AtMostOneOpen(entries)
    ensures AtMostOneOpen(Settle(entries, events, id))
  {
    if id < |events| && Process(entries, events, id).Success? {
      var ev := events[id];
      var s := Process(entries, events, id).value;
      match ev.kind {
        case Enter =>
          if !HasOpen(entries, ev.workerId, ev.jobsiteId) {
            forall w: nat, j: nat ensures OpenCount(s, w, j) <= 1 {
              OpenCountAppend(entries, NewEntry(ev, id), w, j);
              if w == ev.workerId && j == ev.jobsiteId {
                OpenCountZeroIff(entries, w, j);
              }
            }
          }
        case Exit =>
          var latest := LatestOpen(entries, ev.workerId, ev.jobsiteId);
          if latest.Some? {
            var i := latest.value;
            forall w: nat, j: nat ensures OpenCount(s, w, j) <= 1 {
              OpenCountUpdate(entries, i, Close(entries[i], ev.timestamp, id), w, j);
            }
          }
      }
    }
  }

  /** Any sequence of events processed one at a time keeps at most one open entry per pair. */
  lemma {:induction false} ReplayPreservesAtMostOneOpen(entries: seq<TimeEntry>, events: seq<GeofenceEvent>, ids: seq<nat>)
    requires AtMostOneOpen(entries)
    ensures AtMostOneOpen(Replay(entries, events, ids))
    decreases |ids|
  {
    if |ids| > 0 {
      ProcessPreservesAtMostOneOpen(entries, events, ids[0]);
      ReplayPreservesAtMostOneOpen(Settle(entries, events, ids[0]), events, ids[1..]);
    }
  }

  /** The transition table: with at most one open entry per pair, after an event the
      pair is OPEN exactly when the event was an ENTER (whatever the state before),
      unless the EXIT hit an unreadable event list. */
  lemma {:induction false} NextPairState(entries: seq<TimeEntry>, events: seq<GeofenceEvent>, id: nat)
    requires AtMostOneOpen(entries)
    requires Process(entries, events, id).Success?
    ensures HasOpen(Process(entries, events, id).value, events[id].workerId, events[id].jobsiteId)
            <==> events[id].kind == Enter
  {
    var ev := events[id];
    var s := Process(entries, events, id).value;
    var w, j := ev.workerId, ev.jobsiteId;
    match ev.kind {
      case Enter =>
        if !HasOpen(entries, w, j) {
          assert IsOpenFor(s[|entries|], w, j);
        }
      case Exit =>
        var latest := LatestOpen(entries, w, j);
        if latest.Some? {
          var i := latest.value;
          OpenCountPositive(entries, i, w, j);
          OpenCountUpdate(entries, i, Close(entries[i], ev.timestamp, id), w, j);
          OpenCountZeroIff(s, w, j);
        }
    }
  }

  /** An EXIT repeated after the pair has been closed is dropped: the table is
      unchanged (its timestamp is lost). This needs the invariant: with two open
      entries the second EXIT would close the other one. */
  lemma RepeatedExitIsNoop(entries: seq<TimeEntry>, events: seq<GeofenceEvent>, first: nat, second: nat)
    requires AtMostOneOpen(entries)
    requires first < |events| && second < |events|
    requires events[first].kind == Exit && events[second].kind == Exit
    requires events[first].workerId == events[second].workerId && events[first].jobsiteId == events[second].jobsiteId
    ensures Settle(Settle(entries, events, first), events, second) == Settle(entries, events, first)
  {
    var s := Settle(entries, events, first);
    if Process(entries, events, first).Success? {
      NextPairState(entries, events, first);
    } else {
      assert s == entries;
      var i := LatestOpen(entries, events[first].workerId, events[first].jobsiteId).value;
      assert LatestOpen(s, events[second].workerId, events[second].jobsiteId) == Some(i);
    }
  }

  /** An ENTER repeated while the pair is open creates no second entry. */
  lemma RepeatedEnterIsNoop(entries: seq<TimeEntry>, events: seq<GeofenceEvent>, first: nat, second: nat)
    requires first < |events| && second < |events|
    requires events[first].kind == Enter && events[second].kind == Enter
    requires events[first].workerId == events[second].workerId && events[first].jobsiteId == events[second].jobsiteId
    ensures Settle(Settle(entries, events, first), events, second) == Settle(entries, events, first)
  {
    var s := Settle(entries, events, first);
    if !HasOpen(entries, events[first].workerId, events[first].jobsiteId) {
      assert IsOpenFor(s[|entries|], events[second].workerId, events[second].jobsiteId);
    }
  }

  /** The processor keeps every closed entry's duration equal to floor of its elapsed minutes. */
  lemma ProcessKeepsDurationsConsistent(entries: seq<TimeEntry>, events: seq<GeofenceEvent>, id: nat)
    requires DurationsConsistent(entries)
    ensures DurationsConsistent(Settle(entries, events, id))
  {
  }

  /** A day at one site: ENTER at 09:00 opens a PENDING entry, EXIT at 17:00 closes it
      with 480 minutes and the status unchanged. */
  lemma NineToFive(w: nat, j: nat)
    ensures var events := [GeofenceEvent(w, j, Enter, 32_400_000, None, "device"),
                           GeofenceEvent(w, j, Exit, 61_200_000, None, "device")];
            var afterEnter := Settle([], events, 0);
            var afterExit := Settle(afterEnter, events, 1);
            && afterEnter == [TimeEntry(w, j, 32_400_000, None, None, Pending, Ids([0]), None)]
            && afterExit == [TimeEntry(w, j, 32_400_000, Some(61_200_000), Some(480), Pending, Ids([0, 1]), None)]
  {
    var events := [GeofenceEvent(w, j, Enter, 32_400_000, None, "device"),
                   GeofenceEvent(w, j, Exit, 61_200_000, None, "device")];
    var afterEnter := Settle([], events, 0);
    assert !HasOpen([], w, j);
    assert afterEnter == [] + [NewEntry(events[0], 0)];
    assert IsOpenFor(afterEnter[0], w, j);
    assert LatestOpen(afterEnter, w, j) == Some(0);
    assert ElapsedMinutes(32_400_000, 61_200_000) == 480;
    assert Settle(afterEnter, events, 1) == afterEnter[0 := Close(afterEnter[0], 61_200_000, 1)];
    assert [0] + [1] == [0, 1];
  }
}
