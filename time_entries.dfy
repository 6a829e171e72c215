/** The time-entry endpoints: the duration rule (`calculateDuration`), its use on
    manual create and on update, and the `_meta` flags the list endpoint adds to
    each entry from the geofence events it was built from. */
module TimeEntries {
  import opened Types
  import opened Store
  import opened GeofenceProcessor

  /** `calculateDuration(startAt, endAt)`: no end means no duration; otherwise
      the whole minutes elapsed, rounded down and negative when the end precedes
      the start. */
  function CalculateDuration(startAt: int, endAt: Option<int>): (r: Option<int>)
    ensures r.None? <==> endAt.None?
    ensures r.Some? ==> r.value * MsPerMinute <= endAt.value - startAt < r.value * MsPerMinute + MsPerMinute
  {
    match endAt
    case None => None
    case Some(end) => Some(ElapsedMinutes(startAt, end))
  }

  /** The duration is negative exactly when the end precedes the start by at least
      one millisecond: such input is stored, not rejected. */
  lemma DurationSign(startAt: int, endAt: int)
    ensures CalculateDuration(startAt, Some(endAt)).value < 0 <==> endAt < startAt
  {
  }

  /** The duration grows with the end and shrinks with the start. */
  lemma DurationMonotone(startAt: int, end1: int, end2: int)
    requires end1 <= end2
    ensures CalculateDuration(startAt, Some(end1)).value <= CalculateDuration(startAt, Some(end2)).value
  {
  }

  // ---------------------------------------------------------------------------
  // POST

  /** A validated create request. `durationMinutes` is a non-negative client
      value; `createdFromEvents` is the stored list text (an array given by the
      client is serialised; a string is stored as it is). */
  datatype CreateRequest = CreateRequest(
    workerId: nat,
    jobsiteId: nat,
    startAt: int,
    endAt: Option<int>,
    durationMinutes: Option<nat>,
    status: Status,
    createdFromEvents: EventList)

  /** The duration a manual create stores: computed when an end is given,
      otherwise the client value, otherwise none. */
  function CreateDuration(req: CreateRequest): (r: Option<int>)
    ensures req.endAt.Some? ==> r == CalculateDuration(req.startAt, req.endAt)
    ensures req.endAt.None? && req.durationMinutes.Some? ==> r == Some(req.durationMinutes.value as int)
    ensures req.endAt.None? && req.durationMinutes.None? ==> r.None?
  {
    if req.endAt.Some? then CalculateDuration(req.startAt, req.endAt)
    else match req.durationMinutes
      case Some(d) => Some(d)
      case None => None
  }

  function ManualEntry(req: CreateRequest): TimeEntry {
    TimeEntry(req.workerId, req.jobsiteId, req.startAt, req.endAt, CreateDuration(req),
              req.status, req.createdFromEvents, None)
  }

  /** `POST /api/time-entries`: appends the entry and answers its id. */
  method CreateTimeEntry(db: Database, req: CreateRequest) returns (id: nat)
    modifies db`entries
    ensures id == |old(db.entries)|
    ensures db.entries == old(db.entries) + [ManualEntry(req)]
  {
    id := |db.entries|;
    db.entries := db.entries + [ManualEntry(req)];
  }

  /** A manually created entry carries the right duration whenever it is closed. */
  lemma ManualEntryDurationMatches(req: CreateRequest)
    ensures DurationMatches(ManualEntry(req))
  {
  }

  /** Manual create does not check for an open entry of the pair: it can leave two
      open entries for one worker and jobsite. */
  lemma ManualCreateCanBreakAtMostOneOpen(w: nat, j: nat)
    ensures var open := TimeEntry(w, j, 0, None, None, Pending, Ids([]), None);
            var req := CreateRequest(w, j, 1, None, None, Pending, Ids([]));
            && AtMostOneOpen([open])
            && !AtMostOneOpen([open, ManualEntry(req)])
  {
    var open := TimeEntry(w, j, 0, None, None, Pending, Ids([]), None);
    var req := CreateRequest(w, j, 1, None, None, Pending, Ids([]));
    forall w': nat, j': nat ensures OpenCount([open], w', j') <= 1 {
      assert [open][..0] == [];
    }
    var s := [open, ManualEntry(req)];
    assert s[..1] == [open];
    assert [open][..0] == [];
    assert OpenCount(s, w, j) == 2;
  }

  // ---------------------------------------------------------------------------
  // PUT

  /** A body field that may be absent, explicitly null, or given. */
  datatype Field<+T> = Absent | Null | Given(value: T)

  /** A validated update request; `startAt` may be absent but not null. */
  datatype UpdateRequest = UpdateRequest(
    startAt: Option<int>,
    endAt: Field<int>,
    durationMinutes: Field<nat>,
    status: Option<Status>,
    modifiedBy: Option<nat>)

  /** The duration is recomputed when a start or an end (null included) is sent. */
  predicate Recomputes(u: UpdateRequest) {
    u.startAt.Some? || !u.endAt.Absent?
  }

  /** The stored entry after the update: sent fields replace stored ones; the
      duration follows `Recomputes`. */
  function ApplyUpdate(e: TimeEntry, u: UpdateRequest): (r: TimeEntry)
    ensures r.workerId == e.workerId && r.jobsiteId == e.jobsiteId
    ensures r.createdFromEvents == e.createdFromEvents
    ensures r.startAt == if u.startAt.Some? then u.startAt.value else e.startAt
    ensures u.endAt.Absent? ==> r.endAt == e.endAt
    ensures u.endAt.Null? ==> r.endAt.None?
    ensures u.endAt.Given? ==> r.endAt == Some(u.endAt.value)
    ensures Recomputes(u) ==> r.durationMinutes == CalculateDuration(r.startAt, r.endAt)
    ensures !Recomputes(u) && u.durationMinutes.Absent? ==> r.durationMinutes == e.durationMinutes
    ensures !Recomputes(u) && u.durationMinutes.Null? ==> r.durationMinutes.None?
    ensures !Recomputes(u) && u.durationMinutes.Given? ==> r.durationMinutes == Some(u.durationMinutes.value as int)
    ensures r.status == if u.status.Some? then u.status.value else e.status
    ensures r.modifiedBy == if u.modifiedBy.Some? then u.modifiedBy else e.modifiedBy
  {
    var start := u.startAt.GetOr(e.startAt);
    var end := match u.endAt
      case Absent => e.endAt
      case Null => None
      case Given(t) => Some(t);
    var duration :=
      if Recomputes(u) then CalculateDuration(start, end)
      else match u.durationMinutes
        case Absent => e.durationMinutes
        case Null => None
        case Given(d) => Some(d as int);
    e.(startAt := start, endAt := end, durationMinutes := duration,
       status := u.status.GetOr(e.status),
       modifiedBy := if u.modifiedBy.Some? then u.modifiedBy else e.modifiedBy)
  }

  /** `PUT /api/time-entries/:id`: an unknown id is NotFound and changes nothing. */
  method UpdateTimeEntry(db: Database, id: nat, u: UpdateRequest) returns (r: Outcome<Error>)
    modifies db`entries
    ensures id >= |old(db.entries)| ==> r == Fail(NotFound("Time entry not found")) && db.entries == old(db.entries)
    ensures id < |old(db.entries)| ==> r == Pass && db.entries == old(db.entries)[id := ApplyUpdate(old(db.entries)[id], u)]
  {
    if id >= |db.entries| {
      return Fail(NotFound("Time entry not found"));
    }
    db.entries := db.entries[id := ApplyUpdate(db.entries[id], u)];
    r := Pass;
  }

  /** Sending `endAt: null` reopens the entry and clears its duration. */
  lemma NullEndReopens(e: TimeEntry, u: UpdateRequest)
    requires u.endAt.Null?
    ensures IsOpen(ApplyUpdate(e, u)) && ApplyUpdate(e, u).durationMinutes.None?
  {
  }

  /** An update keeps the stored duration right unless it sends a duration without
      a start or an end. */
  lemma UpdateKeepsDurationMatch(e: TimeEntry, u: UpdateRequest)
    requires DurationMatches(e)
    requires Recomputes(u) || u.durationMinutes.Absent?
    ensures DurationMatches(ApplyUpdate(e, u))
  {
  }

  /** A duration sent alone is stored as it is, even when it contradicts the
      entry's start and end. */
  lemma DurationOnlyUpdateCanMismatch()
    ensures var e := TimeEntry(0, 0, 0, Some(60 * MsPerMinute), Some(60), Approved, Ids([]), None);
            var u := UpdateRequest(None, Absent, Given(5), None, Some(1));
            DurationMatches(e) && !DurationMatches(ApplyUpdate(e, u))
  {
  }

  /** Reopening a closed entry while the pair has another open entry leaves two
      open entries for the pair: PUT does not check. */
  lemma ReopenCanBreakAtMostOneOpen(w: nat, j: nat)
    ensures var open := TimeEntry(w, j, 0, None, None, Pending, Ids([]), None);
            var closed := TimeEntry(w, j, 0, Some(MsPerMinute), Some(1), Pending, Ids([]), None);
            var u := UpdateRequest(None, Null, Absent, None, None);
            && AtMostOneOpen([open, closed])
            && !AtMostOneOpen([open, closed][1 := ApplyUpdate(closed, u)])
  {
    var open := TimeEntry(w, j, 0, None, None, Pending, Ids([]), None);
    var closed := TimeEntry(w, j, 0, Some(MsPerMinute), Some(1), Pending, Ids([]), None);
    var u := UpdateRequest(None, Null, Absent, None, None);
    var s := [open, closed];
    assert s[..1] == [open];
    assert [open][..0] == [];
    forall w': nat, j': nat ensures OpenCount(s, w', j') <= 1 {
      assert OpenCount([open], w', j') <= 1;
      assert OpenCount(s, w', j') == OpenCount([open], w', j');
    }
    var t := s[1 := ApplyUpdate(closed, u)];
    assert t[..1] == [open];
    assert OpenCount([open], w, j) == 1;
    assert OpenCount(t, w, j) == 2;
  }

  // ---------------------------------------------------------------------------
  // GET `_meta`

  /** The ids the list endpoint reads from an entry: an unparsable list reads as empty. */
  function EventIds(e: TimeEntry): seq<nat> {
    match e.createdFromEvents
    case Ids(ids) => ids
    case Malformed => []
  }

  /** The types of the ids that name a known event, in order; unknown ids drop out. */
  function ResolvedKinds(ids: seq<nat>, events: seq<GeofenceEvent>): (kinds: seq<EventType>)
    ensures |kinds| <= |ids|
    ensures forall k :: k in kinds <==> exists i :: 0 <= i < |ids| && ids[i] < |events| && events[ids[i]].kind == k
  {
    if |ids| == 0 then []
    else
      var front := ResolvedKinds(ids[..|ids| - 1], events);
      var id := ids[|ids| - 1];
      assert forall i :: 0 <= i < |ids| - 1 ==> ids[..|ids| - 1][i] == ids[i];
      if id < |events| then front + [events[id].kind] else front
  }

  datatype Meta = Meta(geofenceVerified: bool, hasGeofenceEvents: bool, isManualEdit: bool, eventCount: nat)

  /** The `_meta` block of one entry. */
  function EntryMeta(e: TimeEntry, events: seq<GeofenceEvent>): Meta {
    var ids := EventIds(e);
    var kinds := ResolvedKinds(ids, events);
    Meta(|kinds| >= 2 && Enter in kinds && Exit in kinds, |kinds| > 0, e.modifiedBy.Some?, |ids|)
  }

  /** Verified exactly when one listed id names a known ENTER and another a known EXIT. */
  lemma VerifiedIff(e: TimeEntry, events: seq<GeofenceEvent>)
    ensures EntryMeta(e, events).geofenceVerified <==>
            (exists a :: 0 <= a < |EventIds(e)| && EventIds(e)[a] < |events| && events[EventIds(e)[a]].kind == Enter) &&
            (exists b :: 0 <= b < |EventIds(e)| && EventIds(e)[b] < |events| && events[EventIds(e)[b]].kind == Exit)
  {
    var kinds := ResolvedKinds(EventIds(e), events);
    if Enter in kinds && Exit in kinds {
      var a :| 0 <= a < |kinds| && kinds[a] == Enter;
      var b :| 0 <= b < |kinds| && kinds[b] == Exit;
      assert a != b;
    }
  }

  /** Has events exactly when some listed id names a known event; the count
      includes unknown ids; an unparsable list counts none; a set editor marks a
      manual edit. */
  lemma MetaFlags(e: TimeEntry, events: seq<GeofenceEvent>)
    ensures EntryMeta(e, events).hasGeofenceEvents <==> exists i :: 0 <= i < |EventIds(e)| && EventIds(e)[i] < |events|
    ensures e.createdFromEvents.Ids? ==> EntryMeta(e, events).eventCount == |e.createdFromEvents.ids|
    ensures e.createdFromEvents.Malformed? ==> EntryMeta(e, events) == Meta(false, false, e.modifiedBy.Some?, 0)
    ensures EntryMeta(e, events).isManualEdit <==> e.modifiedBy.Some?
  {
    var ids := EventIds(e);
    var kinds := ResolvedKinds(ids, events);
    if |kinds| > 0 {
      assert kinds[0] in kinds;
    }
    if exists i :: 0 <= i < |ids| && ids[i] < |events| {
      var i :| 0 <= i < |ids| && ids[i] < |events|;
      assert events[ids[i]].kind in kinds;
    }
  }

  /** An entry the processor opened on an ENTER and closed on an EXIT is verified. */
  lemma ProcessedEntryIsVerified(enter: GeofenceEvent, a: nat, b: nat, exitAt: int, events: seq<GeofenceEvent>)
    requires a < |events| && b < |events|
    requires events[a].kind == Enter && events[b].kind == Exit
    ensures EntryMeta(Close(NewEntry(enter, a), exitAt, b), events).geofenceVerified
  {
    var e := Close(NewEntry(enter, a), exitAt, b);
    assert EventIds(e) == [a, b];
    VerifiedIff(e, events);
    assert EventIds(e)[0] == a && EventIds(e)[1] == b;
  }

  /** The ids of one entry resolved one by one. */
  method ResolveKinds(ids: seq<nat>, events: seq<GeofenceEvent>) returns (kinds: seq<EventType>)
    ensures kinds == ResolvedKinds(ids, events)
  {
    kinds := [];
    var i := 0;
    while i < |ids|
      invariant 0 <= i <= |ids|
      invariant kinds == ResolvedKinds(ids[..i], events)
    {
      assert ids[..i + 1][..i] == ids[..i];
      if ids[i] < |events| {
        kinds := kinds + [events[ids[i]].kind];
      }
      i := i + 1;
    }
    assert ids[..|ids|] == ids;
  }

  /** The enrichment pass of `GET /api/time-entries`: one `_meta` per entry, in order. */
  method EnrichEntries(entries: seq<TimeEntry>, events: seq<GeofenceEvent>) returns (metas: seq<Meta>)
    ensures |metas| == |entries|
    ensures forall k :: 0 <= k < |entries| ==> metas[k] == EntryMeta(entries[k], events)
  {
    metas := [];
    var i := 0;
    while i < |entries|
      invariant 0 <= i <= |entries|
      invariant |metas| == i
      invariant forall k :: 0 <= k < i ==> metas[k] == EntryMeta(entries[k], events)
    {
      var ids := EventIds(entries[i]);
      var kinds := ResolveKinds(ids, events);
      metas := metas + [Meta(|kinds| >= 2 && Enter in kinds && Exit in kinds, |kinds| > 0,
                             entries[i].modifiedBy.Some?, |ids|)];
      i := i + 1;
    }
  }
}
