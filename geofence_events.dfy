/** The geofence-event endpoints: POST validates an event, checks that the worker
    is assigned to the jobsite and that the jobsite exists, appends the event to
    the log and then runs the processor, whose failures are swallowed; GET lists
    events by filter, newest first, one page at a time. */
module GeofenceEvents {
  import opened Types
  import opened Store
  import opened Paging
  import opened GeofenceProcessor
  import opened Assignments

  /** The request body before validation: `type` is free text and `source` may be absent. */
  datatype EventRequest = EventRequest(
    workerId: nat,
    jobsiteId: nat,
    kind: string,
    timestamp: int,
    accuracy: Option<real>,
    source: Option<string>)

  function KindName(k: EventType): string {
    match k
    case Enter => "ENTER"
    case Exit => "EXIT"
  }

  function ParseKind(s: string): (r: Option<EventType>)
    ensures r.Some? <==> s == "ENTER" || s == "EXIT"
    ensures r.Some? ==> KindName(r.value) == s
  {
    if s == "ENTER" then Some(Enter) else if s == "EXIT" then Some(Exit) else None
  }

  /** The body schema: the type must be ENTER or EXIT; the source defaults to "device". */
  function ValidateEvent(req: EventRequest): (r: Result<GeofenceEvent, Error>)
    ensures r.Success? <==> req.kind == "ENTER" || req.kind == "EXIT"
    ensures r.Success? ==> (&& KindName(r.value.kind) == req.kind
                            && r.value.workerId == req.workerId && r.value.jobsiteId == req.jobsiteId
                            && r.value.timestamp == req.timestamp && r.value.accuracy == req.accuracy)
    ensures r.Success? && req.source.None? ==> r.value.source == "device"
    ensures r.Success? && req.source.Some? ==> r.value.source == req.source.value
  {
    match ParseKind(req.kind)
    case None => Failure(BadRequest("Validation failed"))
    case Some(k) => Success(GeofenceEvent(req.workerId, req.jobsiteId, k, req.timestamp, req.accuracy,
                                          req.source.GetOr("device")))
  }

  /** The request a device sends for a stored event. */
  function RequestFor(ev: GeofenceEvent): EventRequest {
    EventRequest(ev.workerId, ev.jobsiteId, KindName(ev.kind), ev.timestamp, ev.accuracy, Some(ev.source))
  }

  /** Every event the log can hold is accepted back unchanged by the schema. */
  lemma ValidateRequestFor(ev: GeofenceEvent)
    ensures ValidateEvent(RequestFor(ev)) == Success(ev)
  {
    match ev.kind {
      case Enter =>
      case Exit =>
    }
  }

  /** The guards of POST, in the order the handler runs them. */
  function CheckIngest(assignments: map<nat, Assignment>, jobsites: set<nat>, w: nat, j: nat): (r: Outcome<Error>)
    ensures r == Pass <==> Assigned(assignments, w, j) && j in jobsites
    ensures !Assigned(assignments, w, j) ==> r == Fail(NotFound("Worker is not assigned to this jobsite"))
    ensures Assigned(assignments, w, j) && j !in jobsites ==> r == Fail(NotFound("Jobsite not found"))
  {
    if !Assigned(assignments, w, j) then Fail(NotFound("Worker is not assigned to this jobsite"))
    else if j !in jobsites then Fail(NotFound("Jobsite not found"))
    else Pass
  }

  /** `POST /api/geofence-events`. A failed guard changes nothing; otherwise the
      event is appended (its id is its position) and then processed, and whatever
      the processor does, the answer is the created event's id. */
  method CreateGeofenceEvent(db: Database, ev: GeofenceEvent) returns (r: Result<nat, Error>)
    modifies db`events, db`entries
    ensures CheckIngest(db.assignments, db.jobsites, ev.workerId, ev.jobsiteId).Fail? ==>
              && r == Failure(CheckIngest(db.assignments, db.jobsites, ev.workerId, ev.jobsiteId).error)
              && db.events == old(db.events) && db.entries == old(db.entries)
    ensures CheckIngest(db.assignments, db.jobsites, ev.workerId, ev.jobsiteId) == Pass ==>
              && r == Success(|old(db.events)|)
              && db.events == old(db.events) + [ev]
              && db.entries == Settle(old(db.entries), db.events, |old(db.events)|)
  {
    var guard := CheckIngest(db.assignments, db.jobsites, ev.workerId, ev.jobsiteId);
    if guard.Fail? {
      return Failure(guard.error);
    }
    var id := |db.events|;
    db.events := db.events + [ev];
    var processed := ProcessGeofenceEvent(db, id);
    // a processing error is logged and dropped; the event stays recorded
    r := Success(id);
  }

  /** Once an assignment has been created for a pair, its events pass the guards
      (the jobsite was checked at create time and stays). */
  lemma AssignmentAdmitsEvents(users: map<nat, User>, jobsites: set<nat>, assignments: map<nat, Assignment>,
                               w: nat, j: nat, scheduleDays: Option<seq<string>>, newId: nat)
    requires UniquePairs(assignments) && newId !in assignments
    requires CreateAssignment(users, jobsites, assignments, w, j, scheduleDays, newId).Success?
    ensures CheckIngest(CreateAssignment(users, jobsites, assignments, w, j, scheduleDays, newId).value, jobsites, w, j) == Pass
  {
    AssignedAfter(users, jobsites, assignments, w, j, scheduleDays, newId, newId);
  }

  /** The processor never fails on the event just appended for want of the event. */
  lemma AppendedEventIsFound(entries: seq<TimeEntry>, events: seq<GeofenceEvent>, ev: GeofenceEvent)
    ensures Process(entries, events + [ev], |events|) != Failure(Thrown(EventNotFound(|events|)))
  {
  }

  // ---------------------------------------------------------------------------
  // GET

  /** The validated query: optional worker, jobsite and inclusive date bounds. */
  datatype Query = Query(
    workerId: Option<nat>,
    jobsiteId: Option<nat>,
    startDate: Option<int>,
    endDate: Option<int>,
    limit: nat,
    offset: nat)

  /** The query schema: `limit` is an integer in 1..100 (default 50), `offset` a
      non-negative integer (default 0). */
  function ValidateQuery(workerId: Option<nat>, jobsiteId: Option<nat>, startDate: Option<int>, endDate: Option<int>,
                         limit: Option<int>, offset: Option<int>): (r: Result<Query, Error>)
    ensures r.Success? <==> (limit.None? || 1 <= limit.value <= 100) && (offset.None? || 0 <= offset.value)
    ensures r.Success? ==> 1 <= r.value.limit <= 100
    ensures r.Success? && limit.None? ==> r.value.limit == 50
    ensures r.Success? && offset.None? ==> r.value.offset == 0
    ensures r.Success? && limit.Some? ==> r.value.limit == limit.value
    ensures r.Success? && offset.Some? ==> r.value.offset == offset.value
  {
    var l := limit.GetOr(50);
    var o := offset.GetOr(0);
    if 1 <= l <= 100 && 0 <= o then Success(Query(workerId, jobsiteId, startDate, endDate, l, o))
    else Failure(BadRequest("Validation failed"))
  }

  /** The `where` clause: each given filter must hold; the dates bound the timestamp inclusively. */
  predicate Matches(q: Query, ev: GeofenceEvent) {
    && (q.workerId.None? || ev.workerId == q.workerId.value)
    && (q.jobsiteId.None? || ev.jobsiteId == q.jobsiteId.value)
    && (q.startDate.None? || q.startDate.value <= ev.timestamp)
    && (q.endDate.None? || ev.timestamp <= q.endDate.value)
  }

  /** The events the `where` clause selects, in log order: every matching event as
      often as the log holds it, and nothing else. */
  function Select(q: Query, events: seq<GeofenceEvent>): (r: seq<GeofenceEvent>)
    ensures forall k :: 0 <= k < |r| ==> Matches(q, r[k])
    ensures forall k :: 0 <= k < |events| && Matches(q, events[k]) ==> events[k] in r
    ensures forall e :: multiset(r)[e] == if Matches(q, e) then multiset(events)[e] else 0
    ensures |r| <= |events|
  {
    if |events| == 0 then []
    else
      var rest := Select(q, events[..|events| - 1]);
      var last := events[|events| - 1];
      var r := if Matches(q, last) then rest + [last] else rest;
      SelectSnoc(q, events, rest, r);
      r
  }

  /** Selecting from one more event adds it exactly when it matches. */
  lemma SelectSnoc(q: Query, events: seq<GeofenceEvent>, rest: seq<GeofenceEvent>, r: seq<GeofenceEvent>)
    requires |events| > 0
    requires forall e :: multiset(rest)[e] == if Matches(q, e) then multiset(events[..|events| - 1])[e] else 0
    requires r == if Matches(q, events[|events| - 1]) then rest + [events[|events| - 1]] else rest
    ensures forall e :: multiset(r)[e] == if Matches(q, e) then multiset(events)[e] else 0
    ensures forall k :: 0 <= k < |r| ==> Matches(q, r[k])
    ensures forall k :: 0 <= k < |events| && Matches(q, events[k]) ==> events[k] in r
  {
    var front, last := events[..|events| - 1], events[|events| - 1];
    assert events == front + [last];
    assert multiset(events) == multiset(front) + multiset{last};
    forall e
      ensures multiset(r)[e] == if Matches(q, e) then multiset(events)[e] else 0
    {
      if Matches(q, last) {
        assert multiset(r) == multiset(rest) + multiset{last};
      }
    }
    forall k | 0 <= k < |r|
      ensures Matches(q, r[k])
    {
      assert multiset(r)[r[k]] > 0;
    }
    forall k | 0 <= k < |events| && Matches(q, events[k])
      ensures events[k] in r
    {
      assert multiset(events)[events[k]] > 0;
    }
  }

  lemma {:induction false} SelectCount(q: Query, events: seq<GeofenceEvent>)
    ensures multiset(Select(q, events)) <= multiset(events)
  {
    if |events| > 0 {
      var front := events[..|events| - 1];
      SelectCount(q, front);
      assert events == front + [events[|events| - 1]];
    }
  }

  datatype Listing = Listing(rows: seq<GeofenceEvent>, total: nat, hasMore: bool)

  /** The sort key of the listing: `orderBy: { timestamp: 'desc' }`. */
  function EventTime(e: GeofenceEvent): int {
    e.timestamp
  }

  /** `GET /api/geofence-events`: the matching events newest first, the page
      `offset`/`limit` of them, their total and whether more lie beyond the page. */
  function ListEvents(events: seq<GeofenceEvent>, q: Query): (r: Listing)
    ensures r.total == |Select(q, events)|
    ensures r.rows == Page(SortDesc(Select(q, events), EventTime), q.offset, q.limit)
    ensures |r.rows| == if q.offset >= r.total then 0
                        else if q.limit < r.total - q.offset then q.limit
                        else r.total - q.offset
    ensures forall k :: 0 <= k < |r.rows| ==> Matches(q, r.rows[k]) && r.rows[k] in events
    ensures forall a, b :: 0 <= a < b < |r.rows| ==> r.rows[b].timestamp <= r.rows[a].timestamp
    ensures r.hasMore <==> q.offset + |r.rows| < r.total
  {
    var selected := Select(q, events);
    var ordered := SortDesc(selected, EventTime);
    var rows := Page(ordered, q.offset, q.limit);
    ListedRows(q, events, ordered, rows);
    Listing(rows, |selected|, HasMore(q.offset, q.limit, |selected|))
  }

  /** A page of the sorted selection holds matching events of the log, newest first. */
  lemma ListedRows(q: Query, events: seq<GeofenceEvent>, ordered: seq<GeofenceEvent>, rows: seq<GeofenceEvent>)
    requires multiset(ordered) == multiset(Select(q, events))
    requires SortedDesc(ordered, EventTime)
    requires rows == Page(ordered, q.offset, q.limit)
    ensures |ordered| == |Select(q, events)|
    ensures forall k :: 0 <= k < |rows| ==> Matches(q, rows[k]) && rows[k] in events
    ensures forall a, b :: 0 <= a < b < |rows| ==> rows[b].timestamp <= rows[a].timestamp
  {
    assert |ordered| == |multiset(ordered)| == |Select(q, events)|;
    forall k | 0 <= k < |rows|
      ensures Matches(q, rows[k]) && rows[k] in events
    {
      assert rows[k] == ordered[q.offset + k];
      InSelection(q, events, rows[k]);
    }
    PageNewestFirst(ordered, rows, q.offset, q.limit);
  }

  /** A page of events sorted newest first is itself newest first. */
  lemma PageNewestFirst(ordered: seq<GeofenceEvent>, rows: seq<GeofenceEvent>, offset: nat, limit: nat)
    requires SortedDesc(ordered, EventTime)
    requires rows == Page(ordered, offset, limit)
    ensures forall a, b :: 0 <= a < b < |rows| ==> rows[b].timestamp <= rows[a].timestamp
  {
    forall a, b | 0 <= a < b < |rows|
      ensures rows[b].timestamp <= rows[a].timestamp
    {
      assert rows[a] == ordered[offset + a] && rows[b] == ordered[offset + b];
      assert EventTime(ordered[offset + b]) <= EventTime(ordered[offset + a]);
    }
  }

  /** Only matching events of the log are selected. */
  lemma InSelection(q: Query, events: seq<GeofenceEvent>, e: GeofenceEvent)
    requires e in multiset(Select(q, events))
    ensures Matches(q, e) && e in events
  {
    assert multiset(events)[e] > 0;
  }
}
