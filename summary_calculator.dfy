/** `calculateWeeklySummary(workerId, weekStart)`: normalise the given time to the
    Monday that starts its week, sum the minutes of the worker's APPROVED entries
    that start inside that week, split the sum at 40 hours into regular time and
    overtime, and write the totals to the (worker, week) summary, resetting its
    approval state to PENDING. Days are UTC days counted from 1970-01-01. */
module SummaryCalculator {
  import opened Types
  import opened Store

  const RegularHoursPerWeek: int := 40
  /** Minutes of regular time per week; everything beyond is overtime. */
  const OvertimeThreshold: int := RegularHoursPerWeek * 60

  /** Day of the week with Sunday = 0, as `Date.getDay()` numbers it; day 0
      (1970-01-01) was a Thursday. */
  function Weekday(day: int): (wd: int)
    ensures 0 <= wd < 7
  {
    (day + 4) % 7
  }

  /** `setDate(getDate() - getDay() + 1)`: the Monday of the day's week, where a
      Sunday counts as the last day of the week before and so moves forward to
      the next Monday. */
  function WeekStartDay(day: int): (monday: int)
    ensures Weekday(monday) == 1
    ensures Weekday(day) != 0 ==> monday <= day <= monday + 5
    ensures Weekday(day) == 0 ==> monday == day + 1
  {
    day - Weekday(day) + 1
  }

  /** The week start as a time: that Monday at 00:00:00.000. */
  function WeekStart(ts: int): (start: int)
    ensures start % MsPerDay == 0
    ensures Weekday(start / MsPerDay) == 1
  {
    WeekStartDay(ts / MsPerDay) * MsPerDay
  }

  /** The last millisecond of the week: six days later at 23:59:59.999. */
  function WeekEnd(start: int): int {
    start + 7 * MsPerDay - 1
  }

  /** A week start is its own week start. */
  lemma WeekStartIdempotent(ts: int)
    ensures WeekStart(WeekStart(ts)) == WeekStart(ts)
  {
    var m := WeekStartDay(ts / MsPerDay);
    assert m * MsPerDay / MsPerDay == m;
  }

  /** Any time from Monday to Saturday lies inside the week it normalises to; a
      Sunday time lies before it (the week that follows). */
  lemma WeekContains(ts: int)
    ensures Weekday(ts / MsPerDay) != 0 ==> WeekStart(ts) <= ts <= WeekEnd(WeekStart(ts))
    ensures Weekday(ts / MsPerDay) == 0 ==> ts < WeekStart(ts)
  {
    var d := ts / MsPerDay;
    assert d * MsPerDay <= ts < d * MsPerDay + MsPerDay;
    var m := WeekStartDay(d);
    if Weekday(d) != 0 {
      assert m * MsPerDay <= d * MsPerDay;
      assert d * MsPerDay <= (m + 5) * MsPerDay;
    } else {
      assert m * MsPerDay == d * MsPerDay + MsPerDay;
    }
  }

  /** An entry counts toward the worker's week: the worker's, APPROVED, with a
      duration, and started within the week's inclusive bounds. */
  predicate Contributes(e: TimeEntry, w: nat, start: int) {
    && e.workerId == w
    && e.status == Approved
    && start <= e.startAt <= WeekEnd(start)
    && e.durationMinutes.Some?
  }

  /** The `reduce` over the selected entries. */
  function ApprovedMinutes(entries: seq<TimeEntry>, w: nat, start: int): int
  {
    if |entries| == 0 then 0
    else
      var last := entries[|entries| - 1];
      ApprovedMinutes(entries[..|entries| - 1], w, start)
        + (if Contributes(last, w, start) then last.durationMinutes.value else 0)
  }

  /** Changing an entry that counts neither before nor after leaves the sum as it was:
      PENDING, DISPUTED, duration-less, other workers' and other weeks' entries
      never count. */
  lemma {:induction false} ApprovedMinutesIgnores(entries: seq<TimeEntry>, i: nat, x: TimeEntry, w: nat, start: int)
    requires i < |entries|
    requires !Contributes(entries[i], w, start) && !Contributes(x, w, start)
    ensures ApprovedMinutes(entries[i := x], w, start) == ApprovedMinutes(entries, w, start)
  {
    var last := |entries| - 1;
    var s := entries[i := x];
    if i == last {
      assert s[..last] == entries[..last];
    } else {
      assert s[..last] == entries[..last][i := x];
      ApprovedMinutesIgnores(entries[..last], i, x, w, start);
    }
  }

  /** Approving a closed entry of the week adds exactly its minutes. */
  lemma {:induction false} ApprovedMinutesApprove(entries: seq<TimeEntry>, i: nat, w: nat, start: int)
    requires i < |entries|
    requires !Contributes(entries[i], w, start)
    requires Contributes(entries[i].(status := Approved), w, start)
    ensures ApprovedMinutes(entries[i := entries[i].(status := Approved)], w, start)
         == ApprovedMinutes(entries, w, start) + entries[i].durationMinutes.value
  {
    var last := |entries| - 1;
    var s := entries[i := entries[i].(status := Approved)];
    if i == last {
      assert s[..last] == entries[..last];
    } else {
      assert s[..last] == entries[..last][i := entries[i].(status := Approved)];
      ApprovedMinutesApprove(entries[..last], i, w, start);
    }
  }

  /** `min(total, 2400)` and `max(0, total - 2400)`: the two parts add up to the
      total, overtime is never negative, and there is overtime only once the
      regular part is full. */
  function SplitOvertime(total: int): (r: (int, int))
    ensures r.0 + r.1 == total
    ensures r.0 <= OvertimeThreshold && r.1 >= 0
    ensures r.1 > 0 ==> r.0 == OvertimeThreshold
  {
    (if total < OvertimeThreshold then total else OvertimeThreshold,
     if total - OvertimeThreshold > 0 then total - OvertimeThreshold else 0)
  }

  lemma SplitExamples()
    ensures SplitOvertime(2400) == (2400, 0)
    ensures SplitOvertime(2500) == (2400, 100)
    ensures SplitOvertime(0) == (0, 0)
  {
  }

  /** The position of the (worker, week) summary, if any. */
  function SummaryIndex(summaries: seq<Summary>, w: nat, start: int): (r: Option<nat>)
    ensures r.None? <==> forall k :: 0 <= k < |summaries| ==> !(summaries[k].workerId == w && summaries[k].weekStart == start)
    ensures r.Some? ==> r.value < |summaries| && summaries[r.value].workerId == w && summaries[r.value].weekStart == start
  {
    if |summaries| == 0 then None
    else if summaries[0].workerId == w && summaries[0].weekStart == start then Some(0)
    else match SummaryIndex(summaries[1..], w, start)
      case None => None
      case Some(k) => Some(k + 1)
  }

  /** The unique key of the summary table. */
  ghost predicate UniqueKeys(summaries: seq<Summary>) {
    forall a, b :: 0 <= a < b < |summaries| ==>
      !(summaries[a].workerId == summaries[b].workerId && summaries[a].weekStart == summaries[b].weekStart)
  }

  /** The summary table after recalculating the worker's week, or the error thrown
      when a new summary is needed and the worker does not exist. */
  function Recompute(summaries: seq<Summary>, users: map<nat, User>, entries: seq<TimeEntry>, w: nat, ts: int)
    : Result<seq<Summary>, Error>
  {
    var start := WeekStart(ts);
    var split := SplitOvertime(ApprovedMinutes(entries, w, start));
    match SummaryIndex(summaries, w, start)
    case Some(i) =>
      Success(summaries[i := summaries[i].(totalRegular := split.0, totalOvertime := split.1,
                                            approvalState := SummaryPending)])
    case None =>
      if w !in users then Failure(Thrown("Worker not found"))
      else Success(summaries + [Summary(w, start, split.0, split.1, SummaryPending, users[w].orgId)])
  }

  /** After a recalculation exactly one summary holds the week: it carries the split
      of the approved minutes and is PENDING whatever it was before; a new one takes
      the worker's organisation, an existing one keeps its own; no other summary
      changes. Without a summary and without the worker, nothing is written. */
  lemma RecomputeResult(summaries: seq<Summary>, users: map<nat, User>, entries: seq<TimeEntry>, w: nat, ts: int)
    requires UniqueKeys(summaries)
    ensures var start := WeekStart(ts);
            var old_i := SummaryIndex(summaries, w, start);
            var r := Recompute(summaries, users, entries, w, ts);
            && (r.Failure? <==> old_i.None? && w !in users)
            && (r.Success? ==>
                  && UniqueKeys(r.value)
                  && SummaryIndex(r.value, w, start).Some?
                  && var s := r.value[SummaryIndex(r.value, w, start).value];
                  && (s.totalRegular, s.totalOvertime) == SplitOvertime(ApprovedMinutes(entries, w, start))
                  && s.approvalState == SummaryPending
                  && (old_i.Some? ==> |r.value| == |summaries| && s.orgId == summaries[old_i.value].orgId)
                  && (old_i.None? ==> |r.value| == |summaries| + 1 && s.orgId == users[w].orgId)
                  && forall k :: 0 <= k < |summaries| && !(summaries[k].workerId == w && summaries[k].weekStart == start) ==>
                       r.value[k] == summaries[k])
  {
    var start := WeekStart(ts);
    var r := Recompute(summaries, users, entries, w, ts);
    if r.Success? {
      var s := r.value;
      match SummaryIndex(summaries, w, start) {
        case Some(i) =>
          assert SummaryIndex(s, w, start) == Some(i) by {
            SummaryIndexFirst(s, w, start, i);
          }
        case None =>
          SummaryIndexFirst(s, w, start, |summaries|);
      }
    }
  }

  /** In a table with unique keys the summary at a matching position is the one found. */
  lemma SummaryIndexFirst(summaries: seq<Summary>, w: nat, start: int, i: nat)
    requires i < |summaries| && summaries[i].workerId == w && summaries[i].weekStart == start
    requires forall k :: 0 <= k < |summaries| && k != i ==> !(summaries[k].workerId == w && summaries[k].weekStart == start)
    ensures SummaryIndex(summaries, w, start) == Some(i)
  {
  }

  /** Recalculating twice without entry changes gives the same table as once. */
  lemma RecomputeIdempotent(summaries: seq<Summary>, users: map<nat, User>, entries: seq<TimeEntry>, w: nat, ts: int)
    requires UniqueKeys(summaries)
    requires Recompute(summaries, users, entries, w, ts).Success?
    ensures var once := Recompute(summaries, users, entries, w, ts).value;
            Recompute(once, users, entries, w, ts) == Success(once)
  {
    var start := WeekStart(ts);
    var once := Recompute(summaries, users, entries, w, ts).value;
    RecomputeResult(summaries, users, entries, w, ts);
    var i := SummaryIndex(once, w, start).value;
    assert once[i := once[i].(totalRegular := once[i].totalRegular, totalOvertime := once[i].totalOvertime,
                              approvalState := SummaryPending)] == once;
  }

  /** The first (worker, week) summary, found by one pass over the table. */
  method FindSummary(summaries: seq<Summary>, w: nat, start: int) returns (r: Option<nat>)
    ensures r == SummaryIndex(summaries, w, start)
  {
    var i := 0;
    while i < |summaries|
      invariant 0 <= i <= |summaries|
      invariant forall k :: 0 <= k < i ==> !(summaries[k].workerId == w && summaries[k].weekStart == start)
    {
      if summaries[i].workerId == w && summaries[i].weekStart == start {
        SummaryIndexFirstMatch(summaries, w, start, i);
        return Some(i);
      }
      i := i + 1;
    }
    r := None;
  }

  lemma SummaryIndexFirstMatch(summaries: seq<Summary>, w: nat, start: int, i: nat)
    requires i < |summaries| && summaries[i].workerId == w && summaries[i].weekStart == start
    requires forall k :: 0 <= k < i ==> !(summaries[k].workerId == w && summaries[k].weekStart == start)
    ensures SummaryIndex(summaries, w, start) == Some(i)
    decreases i
  {
    if i > 0 {
      SummaryIndexFirstMatch(summaries[1..], w, start, i - 1);
    }
  }

  /** `calculateWeeklySummary`: writes the table `Recompute` gives and answers the
      week's summary, or throws and writes nothing. */
  method CalculateWeeklySummary(db: Database, w: nat, ts: int) returns (r: Result<Summary, Error>)
    modifies db`summaries
    ensures Recompute(old(db.summaries), db.users, db.entries, w, ts).Failure? ==>
              r.Failure? && r.error == Thrown("Worker not found") && db.summaries == old(db.summaries)
    ensures Recompute(old(db.summaries), db.users, db.entries, w, ts).Success? ==>
              && db.summaries == Recompute(old(db.summaries), db.users, db.entries, w, ts).value
              && r.Success? && r.value.workerId == w && r.value.weekStart == WeekStart(ts)
              && r.value in db.summaries
  {
    var start := WeekStart(ts);
    var total := ApprovedMinutes(db.entries, w, start);
    var split := SplitOvertime(total);
    var existing := FindSummary(db.summaries, w, start);
    if existing.Some? {
      var i := existing.value;
      var updated := db.summaries[i].(totalRegular := split.0, totalOvertime := split.1, approvalState := SummaryPending);
      db.summaries := db.summaries[i := updated];
      assert db.summaries[i] == updated;
      return Success(updated);
    }
    if w !in db.users {
      return Failure(Thrown("Worker not found"));
    }
    var created := Summary(w, start, split.0, split.1, SummaryPending, db.users[w].orgId);
    db.summaries := db.summaries + [created];
    r := Success(created);
  }
}
