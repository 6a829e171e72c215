/** `GET /api/stats/overview`: how many workers are clocked in and how many sites
    are active today, how many minutes still await approval, the pending entries
    with the dashboard's label, and the latest activity. It only reads the store.
    "Today" is the UTC day of the clock reading `now`. */
module Stats {
  import opened Types
  import opened Paging
  import opened DurationFormat

  /** Today at 00:00:00.000. */
  function DayStart(now: int): (r: int)
    ensures r <= now < r + MsPerDay
  {
    (now / MsPerDay) * MsPerDay
  }

  /** Counted as clocked in: PENDING, still open, started today. */
  predicate ActiveToday(e: TimeEntry, today: int) {
    e.status == Pending && IsOpen(e) && today <= e.startAt < today + MsPerDay
  }

  function ActiveCount(entries: seq<TimeEntry>, today: int): nat
  {
    if |entries| == 0 then 0
    else ActiveCount(entries[..|entries| - 1], today) + (if ActiveToday(entries[|entries| - 1], today) then 1 else 0)
  }

  /** `new Set(activeEntries.map(key))`: the distinct keys of today's active entries;
      there are never more of them than active entries. */
  function ActiveKeys(entries: seq<TimeEntry>, today: int, key: TimeEntry -> nat): (r: set<nat>)
    ensures forall x :: x in r <==> exists i :: 0 <= i < |entries| && ActiveToday(entries[i], today) && key(entries[i]) == x
    ensures |r| <= ActiveCount(entries, today)
  {
    if |entries| == 0 then {}
    else
      var front := entries[..|entries| - 1];
      var last := entries[|entries| - 1];
      var before := ActiveKeys(front, today, key);
      var r := if ActiveToday(last, today) then before + {key(last)} else before;
      ActiveKeysSnoc(entries, today, key, before, r);
      r
  }

  /** One more entry adds its key exactly when it is active today. */
  lemma ActiveKeysSnoc(entries: seq<TimeEntry>, today: int, key: TimeEntry -> nat, before: set<nat>, r: set<nat>)
    requires |entries| > 0
    requires forall x :: x in before <==>
               exists i :: 0 <= i < |entries| - 1 && ActiveToday(entries[i], today) && key(entries[i]) == x
    requires |before| <= ActiveCount(entries[..|entries| - 1], today)
    requires r == if ActiveToday(entries[|entries| - 1], today) then before + {key(entries[|entries| - 1])} else before
    ensures forall x :: x in r <==> exists i :: 0 <= i < |entries| && ActiveToday(entries[i], today) && key(entries[i]) == x
    ensures |r| <= ActiveCount(entries, today)
  {
    var last := |entries| - 1;
    forall x
      ensures x in r <==> exists i :: 0 <= i < |entries| && ActiveToday(entries[i], today) && key(entries[i]) == x
    {
      if x in r && x !in before {
        assert ActiveToday(entries[last], today) && key(entries[last]) == x;
      }
      if exists i :: 0 <= i < |entries| && ActiveToday(entries[i], today) && key(entries[i]) == x {
        var i :| 0 <= i < |entries| && ActiveToday(entries[i], today) && key(entries[i]) == x;
        if i < last {
          assert x in before;
        }
      }
    }
  }

  /** The key `uniqueWorkers` collects. */
  function WorkerKey(e: TimeEntry): nat {
    e.workerId
  }

  /** The key `uniqueSites` collects. */
  function SiteKey(e: TimeEntry): nat {
    e.jobsiteId
  }

  /** `workersClockedIn`. */
  function WorkersClockedIn(entries: seq<TimeEntry>, now: int): nat {
    |ActiveKeys(entries, DayStart(now), WorkerKey)|
  }

  /** `sitesActive`. */
  function SitesActive(entries: seq<TimeEntry>, now: int): nat {
    |ActiveKeys(entries, DayStart(now), SiteKey)|
  }

  /** Nobody is clocked in exactly when no entry is active today, and a worker with
      several open entries (at several sites) counts once. */
  lemma ClockedInCounts(entries: seq<TimeEntry>, now: int)
    ensures WorkersClockedIn(entries, now) == 0 <==>
            forall i :: 0 <= i < |entries| ==> !ActiveToday(entries[i], DayStart(now))
    ensures SitesActive(entries, now) == 0 <==> WorkersClockedIn(entries, now) == 0
    ensures WorkersClockedIn(entries, now) <= ActiveCount(entries, DayStart(now))
  {
    var today := DayStart(now);
    var workers := ActiveKeys(entries, today, WorkerKey);
    var sites := ActiveKeys(entries, today, SiteKey);
    if exists i :: 0 <= i < |entries| && ActiveToday(entries[i], today) {
      var i :| 0 <= i < |entries| && ActiveToday(entries[i], today);
      assert entries[i].workerId in workers;
      assert entries[i].jobsiteId in sites;
    }
    if |workers| > 0 {
      var x :| x in workers;
    }
    if |sites| > 0 {
      var x :| x in sites;
    }
  }

  /** A worker is clocked in exactly when one of the worker's entries is active today. */
  lemma ClockedInWorker(entries: seq<TimeEntry>, now: int, w: nat)
    ensures w in ActiveKeys(entries, DayStart(now), WorkerKey) <==>
            exists i :: 0 <= i < |entries| && ActiveToday(entries[i], DayStart(now)) && entries[i].workerId == w
  {
  }

  /** The minutes of the entries with status `s`, a missing duration counting 0
      (`entry.durationMinutes || 0`). */
  function MinutesWithStatus(entries: seq<TimeEntry>, s: Status): int
  {
    if |entries| == 0 then 0
    else
      var last := entries[|entries| - 1];
      MinutesWithStatus(entries[..|entries| - 1], s) + (if last.status == s then last.durationMinutes.GetOr(0) else 0)
  }

  /** The minutes of all entries, a missing duration counting 0. */
  function TotalMinutes(entries: seq<TimeEntry>): int
  {
    if |entries| == 0 then 0
    else TotalMinutes(entries[..|entries| - 1]) + entries[|entries| - 1].durationMinutes.GetOr(0)
  }

  /** The unapproved minutes of the dashboard: those of the PENDING entries. */
  function UnapprovedMinutes(entries: seq<TimeEntry>): int {
    MinutesWithStatus(entries, Pending)
  }

  /** The three statuses share out all the minutes. */
  lemma {:induction false} MinutesByStatusAddUp(entries: seq<TimeEntry>)
    ensures MinutesWithStatus(entries, Pending) + MinutesWithStatus(entries, Approved)
            + MinutesWithStatus(entries, Disputed) == TotalMinutes(entries)
  {
    if |entries| > 0 {
      MinutesByStatusAddUp(entries[..|entries| - 1]);
    }
  }

  /** Approving or disputing a PENDING entry takes its minutes off the unapproved total. */
  lemma {:induction false} LeavingPendingReduces(entries: seq<TimeEntry>, i: nat, s: Status)
    requires i < |entries| && entries[i].status == Pending && s != Pending
    ensures UnapprovedMinutes(entries[i := entries[i].(status := s)])
         == UnapprovedMinutes(entries) - entries[i].durationMinutes.GetOr(0)
  {
    var last := |entries| - 1;
    var t := entries[i := entries[i].(status := s)];
    if i == last {
      assert t[..last] == entries[..last];
    } else {
      assert t[..last] == entries[..last][i := entries[i].(status := s)];
      LeavingPendingReduces(entries[..last], i, s);
    }
  }

  /** The label of a pending entry in the exceptions list. */
  function PendingLabel(e: TimeEntry, disputeCount: nat): (r: string)
    ensures r == "Missing exit event" <==> IsOpen(e)
    ensures r == "Flagged by worker" <==> !IsOpen(e) && disputeCount > 0
    ensures r == "Awaiting approval" <==> !IsOpen(e) && disputeCount == 0
  {
    if IsOpen(e) then "Missing exit event"
    else if disputeCount > 0 then "Flagged by worker"
    else "Awaiting approval"
  }

  /** The `type` of a recent-activity row. */
  function ActivityType(s: Status): (r: string)
    ensures r == "approved" <==> s == Approved
    ensures r == "disputed" <==> s == Disputed
    ensures r == "created" <==> s == Pending
  {
    match s
    case Approved => "approved"
    case Disputed => "disputed"
    case Pending => "created"
  }

  /** How many disputes, resolved or not, name the entry (`_count.disputes`). */
  function DisputeCount(disputes: map<nat, Dispute>, entryId: nat): nat {
    |set id | id in disputes && disputes[id].timeEntryId == entryId|
  }

  /** The ids of the PENDING entries, in table order, each once. */
  function PendingIds(entries: seq<TimeEntry>): (r: seq<nat>)
    ensures forall k :: 0 <= k < |r| ==> r[k] < |entries| && entries[r[k]].status == Pending
    ensures forall i :: 0 <= i < |entries| && entries[i].status == Pending ==> i in r
    ensures forall a, b :: 0 <= a < b < |r| ==> r[a] < r[b]
  {
    if |entries| == 0 then []
    else
      var front := PendingIds(entries[..|entries| - 1]);
      if entries[|entries| - 1].status == Pending then front + [|entries| - 1] else front
  }

  datatype PendingRow = PendingRow(entryId: nat, status: string, duration: string)

  function PendingRowOf(entries: seq<TimeEntry>, disputes: map<nat, Dispute>, id: nat): PendingRow
    requires id < |entries|
  {
    PendingRow(id, PendingLabel(entries[id], DisputeCount(disputes, id)), ClockText(entries[id].durationMinutes))
  }

  /** The start of an entry, as the sort key of entry ids. */
  function StartOf(entries: seq<TimeEntry>): nat -> int {
    (i: nat) => if i < |entries| then entries[i].startAt else 0
  }

  /** Sorting the PENDING ids keeps exactly those ids. */
  lemma SortedPendingIds(entries: seq<TimeEntry>, sorted: seq<nat>)
    requires multiset(sorted) == multiset(PendingIds(entries))
    ensures |sorted| == |PendingIds(entries)|
    ensures forall k :: 0 <= k < |sorted| ==> sorted[k] < |entries| && entries[sorted[k]].status == Pending
    ensures forall i :: 0 <= i < |entries| && entries[i].status == Pending ==> i in sorted
  {
    var ids := PendingIds(entries);
    assert |multiset(sorted)| == |multiset(ids)|;
    forall k | 0 <= k < |sorted|
      ensures sorted[k] < |entries| && entries[sorted[k]].status == Pending
    {
      assert sorted[k] in multiset(ids);
    }
    forall i | 0 <= i < |entries| && entries[i].status == Pending
      ensures i in sorted
    {
      assert i in multiset(ids);
    }
  }

  /** The ids of the ten PENDING entries that started last, latest first, each once:
      a PENDING entry left out started no later than any listed one. */
  function TopPending(entries: seq<TimeEntry>): (r: seq<nat>)
    ensures |r| == if |PendingIds(entries)| < 10 then |PendingIds(entries)| else 10
    ensures forall k :: 0 <= k < |r| ==> r[k] < |entries| && entries[r[k]].status == Pending
    ensures forall a, b :: 0 <= a < b < |r| ==> r[a] != r[b]
    ensures forall a, b :: 0 <= a < b < |r| ==> entries[r[b]].startAt <= entries[r[a]].startAt
    ensures forall i, k :: 0 <= i < |entries| && entries[i].status == Pending && i !in r && 0 <= k < |r| ==>
              entries[i].startAt <= entries[r[k]].startAt
  {
    var sorted := SortDesc<nat>(PendingIds(entries), StartOf(entries));
    TopOfSortedPending(entries, sorted, Page(sorted, 0, 10));
    Page(sorted, 0, 10)
  }

  /** The first ten of the PENDING ids sorted by start, latest first, are the ten
      that started last. */
  lemma TopOfSortedPending(entries: seq<TimeEntry>, sorted: seq<nat>, top: seq<nat>)
    requires multiset(sorted) == multiset(PendingIds(entries))
    requires SortedDesc(sorted, StartOf(entries))
    requires top == Page(sorted, 0, 10)
    ensures |top| == if |PendingIds(entries)| < 10 then |PendingIds(entries)| else 10
    ensures forall k :: 0 <= k < |top| ==> top[k] < |entries| && entries[top[k]].status == Pending
    ensures forall a, b :: 0 <= a < b < |top| ==> top[a] != top[b]
    ensures forall a, b :: 0 <= a < b < |top| ==> entries[top[b]].startAt <= entries[top[a]].startAt
    ensures forall i, k :: 0 <= i < |entries| && entries[i].status == Pending && i !in top && 0 <= k < |top| ==>
              entries[i].startAt <= entries[top[k]].startAt
  {
    var key := StartOf(entries);
    SortedPendingIds(entries, sorted);
    forall k | 0 <= k < |top|
      ensures top[k] < |entries| && entries[top[k]].status == Pending
    {
      assert top[k] == sorted[k];
    }
    NoRepeats(PendingIds(entries), sorted);
    forall a, b | 0 <= a < b < |top|
      ensures top[a] != top[b] && entries[top[b]].startAt <= entries[top[a]].startAt
    {
      assert top[a] == sorted[a] && top[b] == sorted[b];
      assert key(sorted[b]) <= key(sorted[a]);
    }
    forall i, k | 0 <= i < |entries| && entries[i].status == Pending && i !in top && 0 <= k < |top|
      ensures entries[i].startAt <= entries[top[k]].startAt
    {
      PageOfSortedIsTop<nat>(sorted, key, 10, i);
      assert key(i) <= key(top[k]);
    }
  }

  /** The rows of `ids`, one each, in order. */
  function PendingRows(entries: seq<TimeEntry>, disputes: map<nat, Dispute>, ids: seq<nat>): (r: seq<PendingRow>)
    requires forall k :: 0 <= k < |ids| ==> ids[k] < |entries|
    ensures |r| == |ids|
    ensures forall k :: 0 <= k < |r| ==> r[k].entryId == ids[k]
    ensures forall k :: 0 <= k < |r| ==>
              r[k].status == PendingLabel(entries[ids[k]], DisputeCount(disputes, ids[k]))
              && r[k].duration == ClockText(entries[ids[k]].durationMinutes)
  {
    seq(|ids|, k requires 0 <= k < |ids| => PendingRowOf(entries, disputes, ids[k]))
  }

  /** `pendingEntries`: the ten PENDING entries that started last, latest first,
      each with its label and its "H:MM" duration. */
  function PendingEntries(entries: seq<TimeEntry>, disputes: map<nat, Dispute>): (r: seq<PendingRow>)
    ensures |r| == |TopPending(entries)| <= 10
    ensures forall k :: 0 <= k < |r| ==>
              r[k].entryId == TopPending(entries)[k]
              && r[k].entryId < |entries| && entries[r[k].entryId].status == Pending
              && r[k].status == PendingLabel(entries[r[k].entryId], DisputeCount(disputes, r[k].entryId))
              && r[k].duration == ClockText(entries[r[k].entryId].durationMinutes)
    ensures forall a, b :: 0 <= a < b < |r| ==> entries[r[b].entryId].startAt <= entries[r[a].entryId].startAt
  {
    PendingRows(entries, disputes, TopPending(entries))
  }

  datatype ActivityRow = ActivityRow(entryId: nat, kind: string, duration: string)

  /** The ids of the ten entries created last, newest first (an entry's id is its
      creation position). */
  function Newest(n: nat): (r: seq<nat>)
    ensures |r| == if n < 10 then n else 10
    ensures forall k :: 0 <= k < |r| ==> r[k] == n - 1 - k
  {
    var count := if n < 10 then n else 10;
    seq(count, k requires 0 <= k < count => n - 1 - k)
  }

  /** The rows of `ids`, one each, in order. */
  function ActivityRows(entries: seq<TimeEntry>, ids: seq<nat>): (r: seq<ActivityRow>)
    requires forall k :: 0 <= k < |ids| ==> ids[k] < |entries|
    ensures |r| == |ids|
    ensures forall k :: 0 <= k < |r| ==>
              r[k].entryId == ids[k]
              && r[k].kind == ActivityType(entries[ids[k]].status)
              && r[k].duration == HoursMinutesText(entries[ids[k]].durationMinutes)
  {
    seq(|ids|, k requires 0 <= k < |ids| =>
      ActivityRow(ids[k], ActivityType(entries[ids[k]].status), HoursMinutesText(entries[ids[k]].durationMinutes)))
  }

  /** `recentActivity`: the ten newest entries, newest first. */
  function RecentActivity(entries: seq<TimeEntry>): (r: seq<ActivityRow>)
    ensures |r| == if |entries| < 10 then |entries| else 10
    ensures forall k :: 0 <= k < |r| ==> r[k].entryId == |entries| - 1 - k
  {
    ActivityRows(entries, Newest(|entries|))
  }

  datatype Overview = Overview(
    workersClockedIn: nat,
    sitesActive: nat,
    unapprovedMinutes: int,
    pendingEntries: seq<PendingRow>,
    recentActivity: seq<ActivityRow>)

  /** The whole response body (the hours are reported as minutes; see the README). */
  function GetOverview(entries: seq<TimeEntry>, disputes: map<nat, Dispute>, now: int): (r: Overview)
    ensures r.workersClockedIn == |ActiveKeys(entries, DayStart(now), WorkerKey)|
    ensures r.sitesActive == |ActiveKeys(entries, DayStart(now), SiteKey)|
    ensures r.workersClockedIn <= ActiveCount(entries, DayStart(now))
    ensures r.sitesActive <= ActiveCount(entries, DayStart(now))
    ensures r.unapprovedMinutes == MinutesWithStatus(entries, Pending)
    ensures r.unapprovedMinutes == TotalMinutes(entries) - MinutesWithStatus(entries, Approved)
                                   - MinutesWithStatus(entries, Disputed)
    ensures r.pendingEntries == PendingEntries(entries, disputes)
    ensures r.recentActivity == RecentActivity(entries)
  {
    MinutesByStatusAddUp(entries);
    Overview(WorkersClockedIn(entries, now), SitesActive(entries, now), UnapprovedMinutes(entries),
             PendingEntries(entries, disputes), RecentActivity(entries))
  }
}
