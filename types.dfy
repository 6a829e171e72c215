/** The shared data model of the time-tracking backend: the rows of its tables,
    the enumerations stored in them, and the error kinds its handlers answer with.

    Identifiers are natural numbers. Timestamps are milliseconds since the epoch,
    as `Date.getTime()` gives them; the ISO-8601 strings the database stores are
    compared and subtracted in the source only through that value. */
module Types {

  datatype Option<+T> = None | Some(value: T) {
    function GetOr(default: T): T {
      match this
      case Some(v) => v
      case None => default
    }
  }

  datatype Result<+R, +E> = Success(value: R) | Failure(error: E)

  datatype Outcome<+E> = Pass | Fail(error: E)

  /** What a handler answers instead of its normal result. `Thrown` stands for an
      exception raised inside a service function (it is not an HTTP status). */
  datatype Error =
    | NotFound(message: string)     // 404
    | BadRequest(message: string)   // 400
    | Conflict(message: string)     // 409
    | Thrown(message: string)

  /** Status of a time entry. */
  datatype Status = Pending | Approved | Disputed

  /** Approval state of a weekly summary. */
  datatype ApprovalState = SummaryPending | SummaryApproved | SummaryRejected

  datatype EventType = Enter | Exit

  datatype Role = Admin | Supervisor | Worker

  const MsPerMinute: int := 60_000
  const MsPerDay: int := 86_400_000

  /** An immutable row of the geofence event log. */
  datatype GeofenceEvent = GeofenceEvent(
    workerId: nat,
    jobsiteId: nat,
    kind: EventType,
    timestamp: int,
    accuracy: Option<real>,
    source: string)

  /** The stored `createdFromEvents` text of a time entry: either a JSON array of
      event ids (an empty text reads as the empty array) or text that JSON.parse
      rejects. */
  datatype EventList = Ids(ids: seq<nat>) | Malformed

  /** A row of the time-entry table. An entry is open while `endAt` is None. */
  datatype TimeEntry = TimeEntry(
    workerId: nat,
    jobsiteId: nat,
    startAt: int,
    endAt: Option<int>,
    durationMinutes: Option<int>,
    status: Status,
    createdFromEvents: EventList,
    modifiedBy: Option<nat>)

  datatype User = User(role: Role, orgId: nat)

  datatype Assignment = Assignment(workerId: nat, jobsiteId: nat, scheduleDays: seq<string>)

  /** A dispute is open while `resolution` is None. */
  datatype Dispute = Dispute(
    timeEntryId: nat,
    raisedBy: nat,
    reason: string,
    resolution: Option<string>,
    resolvedBy: Option<nat>,
    resolvedAt: Option<int>)

  /** A weekly timesheet summary, keyed by (workerId, weekStart). */
  datatype Summary = Summary(
    workerId: nat,
    weekStart: int,
    totalRegular: int,
    totalOvertime: int,
    approvalState: ApprovalState,
    orgId: nat)

  predicate IsOpen(e: TimeEntry) {
    e.endAt.None?
  }

  /** Whole minutes elapsed from `start` to `end`, rounded down (JavaScript
      `Math.floor((end - start) / 60000)`); negative when `end` precedes `start`. */
  function ElapsedMinutes(start: int, end: int): (m: int)
    ensures m * MsPerMinute <= end - start < m * MsPerMinute + MsPerMinute
  {
    (end - start) / MsPerMinute
  }

  /** A closed entry carries the duration its start and end give. */
  ghost predicate DurationMatches(e: TimeEntry) {
    e.endAt.Some? ==> e.durationMinutes == Some(ElapsedMinutes(e.startAt, e.endAt.value))
  }

  function StatusName(s: Status): string {
    match s
    case Pending => "PENDING"
    case Approved => "APPROVED"
    case Disputed => "DISPUTED"
  }
}
