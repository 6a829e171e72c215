/** The dispute endpoints, a small status machine over two tables: raising a
    dispute marks its time entry DISPUTED; resolving an unresolved dispute records
    the resolution and sends the entry back to PENDING; deleting a dispute leaves
    the entry alone. */
module Disputes {
  import opened Types
  import opened Store

  /** The guard `if (dispute.resolution)`: a stored resolution that is not the empty text. */
  predicate IsResolved(d: Dispute) {
    d.resolution.Some? && d.resolution.value != ""
  }

  /** Both tables, as the handlers change them together. */
  datatype Tables = Tables(disputes: map<nat, Dispute>, entries: seq<TimeEntry>)

  /** The entry with its status overwritten, the rest of the table as it was. */
  function SetStatus(entries: seq<TimeEntry>, i: nat, s: Status): (r: seq<TimeEntry>)
    requires i < |entries|
    ensures |r| == |entries| && r[i] == entries[i].(status := s)
    ensures forall k :: 0 <= k < |entries| && k != i ==> r[k] == entries[k]
  {
    entries[i := entries[i].(status := s)]
  }

  /** `POST /api/disputes` by `caller`, the new row taking the fresh id `newId`. */
  function RaiseDispute(t: Tables, entryId: nat, reason: string, caller: nat, newId: nat): (r: Result<Tables, Error>)
    requires newId !in t.disputes
    ensures r.Failure? <==> entryId >= |t.entries|
    ensures r.Failure? ==> r.error == NotFound("Time entry not found")
    ensures r.Success? ==> r.value.disputes.Keys == t.disputes.Keys + {newId}
    ensures r.Success? ==> forall id :: id in t.disputes ==> r.value.disputes[id] == t.disputes[id]
    ensures r.Success? ==> var d := r.value.disputes[newId];
                           d.timeEntryId == entryId && d.raisedBy == caller && d.reason == reason && !IsResolved(d)
                           && d.resolution.None? && d.resolvedBy.None? && d.resolvedAt.None?
    ensures r.Success? ==> r.value.entries == SetStatus(t.entries, entryId, Disputed)
  {
    if entryId >= |t.entries| then Failure(NotFound("Time entry not found"))
    else
      Success(Tables(t.disputes[newId := Dispute(entryId, caller, reason, None, None, None)],
                     SetStatus(t.entries, entryId, Disputed)))
  }

  /** `PUT /api/disputes/:id` by `caller` at time `now`. The entry update comes after
      the dispute update, so an entry that no longer exists fails the request with
      the dispute already resolved. */
  function ResolveDispute(t: Tables, id: nat, resolution: Option<string>, caller: nat, now: int): (r: Result<Tables, Error>)
    ensures id !in t.disputes ==> r == Failure(NotFound("Dispute not found"))
    ensures id in t.disputes && IsResolved(t.disputes[id]) ==> r == Failure(BadRequest("Dispute is already resolved"))
    ensures id in t.disputes && !IsResolved(t.disputes[id]) && t.disputes[id].timeEntryId < |t.entries| ==>
              && r.Success?
              && r.value.disputes.Keys == t.disputes.Keys
              && (forall other :: other in t.disputes && other != id ==> r.value.disputes[other] == t.disputes[other])
              && var d := r.value.disputes[id];
              && IsResolved(d)
              && d.resolution == Some(if resolution.Some? && resolution.value != "" then resolution.value else "Resolved")
              && d.resolvedBy == Some(caller) && d.resolvedAt == Some(now)
              && d.timeEntryId == t.disputes[id].timeEntryId && d.raisedBy == t.disputes[id].raisedBy
              && d.reason == t.disputes[id].reason
              && r.value.entries == SetStatus(t.entries, d.timeEntryId, Pending)
  {
    if id !in t.disputes then Failure(NotFound("Dispute not found"))
    else
      var d := t.disputes[id];
      if IsResolved(d) then Failure(BadRequest("Dispute is already resolved"))
      else if d.timeEntryId >= |t.entries| then Failure(Thrown("Record to update not found"))
      else
        var text := if resolution.Some? && resolution.value != "" then resolution.value else "Resolved";
        Success(Tables(t.disputes[id := d.(resolution := Some(text), resolvedBy := Some(caller), resolvedAt := Some(now))],
                       SetStatus(t.entries, d.timeEntryId, Pending)))
  }

  /** `DELETE /api/disputes/:id`: removes that dispute only; the entry keeps its status. */
  function DeleteDispute(t: Tables, id: nat): (r: Result<Tables, Error>)
    ensures id !in t.disputes <==> r.Failure?
    ensures r.Failure? ==> r.error == NotFound("Dispute not found")
    ensures r.Success? ==> r.value.entries == t.entries && r.value.disputes.Keys == t.disputes.Keys - {id}
    ensures r.Success? ==> forall other :: other in r.value.disputes ==> r.value.disputes[other] == t.disputes[other]
  {
    if id !in t.disputes then Failure(NotFound("Dispute not found"))
    else Success(Tables(t.disputes - {id}, t.entries))
  }

  /** Every dispute names an existing time entry (the table's foreign key). */
  ghost predicate EntriesExist(t: Tables) {
    forall id :: id in t.disputes ==> t.disputes[id].timeEntryId < |t.entries|
  }

  /** Each handler keeps the foreign key, and with it resolving an unresolved
      dispute always succeeds. */
  lemma HandlersKeepEntriesExist(t: Tables, entryId: nat, reason: string, caller: nat, newId: nat,
                                 id: nat, resolution: Option<string>, now: int)
    requires EntriesExist(t) && newId !in t.disputes
    ensures RaiseDispute(t, entryId, reason, caller, newId).Success? ==>
              EntriesExist(RaiseDispute(t, entryId, reason, caller, newId).value)
    ensures ResolveDispute(t, id, resolution, caller, now).Success? ==>
              EntriesExist(ResolveDispute(t, id, resolution, caller, now).value)
    ensures DeleteDispute(t, id).Success? ==> EntriesExist(DeleteDispute(t, id).value)
    ensures id in t.disputes && !IsResolved(t.disputes[id]) ==> ResolveDispute(t, id, resolution, caller, now).Success?
  {
  }

  /** A dispute can be resolved once: resolving it again is a Bad Request and changes nothing. */
  lemma ResolveOnce(t: Tables, id: nat, res1: Option<string>, res2: Option<string>, c1: nat, c2: nat, now1: int, now2: int)
    requires ResolveDispute(t, id, res1, c1, now1).Success?
    ensures ResolveDispute(ResolveDispute(t, id, res1, c1, now1).value, id, res2, c2, now2)
            == Failure(BadRequest("Dispute is already resolved"))
  {
  }

  /** Resolving never approves: whatever the resolution text, the entry goes back to
      PENDING, even while another dispute on the same entry is still open. */
  lemma ResolveIgnoresOtherOpenDisputes(entry: TimeEntry, a: nat, b: nat, worker: nat, supervisor: nat, now: int)
    requires a != b
    ensures var t0 := Tables(map[], [entry]);
            var t1 := RaiseDispute(t0, 0, "wrong start", worker, a).value;
            var t2 := RaiseDispute(t1, 0, "wrong end", worker, b).value;
            var t3 := ResolveDispute(t2, a, Some("approved as is"), supervisor, now).value;
            && t2.entries[0].status == Disputed
            && !IsResolved(t3.disputes[b])
            && t3.entries[0].status == Pending
  {
  }

  /** The list filter `status`: "open" selects a null resolution, "resolved" any
      other (the list compares with null, not with the truthiness the resolve
      guard uses). */
  datatype StatusFilter = OpenOnly | ResolvedOnly | AnyStatus

  predicate Selected(f: StatusFilter, entryFilter: Option<nat>, d: Dispute) {
    && (entryFilter.None? || d.timeEntryId == entryFilter.value)
    && match f
       case OpenOnly => d.resolution.None?
       case ResolvedOnly => d.resolution.Some?
       case AnyStatus => true
  }

  /** The ids the `where` clause of `GET /api/disputes` selects. */
  function ListDisputes(disputes: map<nat, Dispute>, f: StatusFilter, entryFilter: Option<nat>): (r: set<nat>)
    ensures r <= disputes.Keys
    ensures forall id :: id in r <==> id in disputes && Selected(f, entryFilter, disputes[id])
  {
    set id | id in disputes && Selected(f, entryFilter, disputes[id])
  }

  /** "open" and "resolved" split the unfiltered list in two disjoint parts, so their
      totals add up to the unfiltered total. */
  lemma OpenResolvedPartition(disputes: map<nat, Dispute>, entryFilter: Option<nat>)
    ensures ListDisputes(disputes, OpenOnly, entryFilter) !! ListDisputes(disputes, ResolvedOnly, entryFilter)
    ensures ListDisputes(disputes, OpenOnly, entryFilter) + ListDisputes(disputes, ResolvedOnly, entryFilter)
            == ListDisputes(disputes, AnyStatus, entryFilter)
    ensures |ListDisputes(disputes, OpenOnly, entryFilter)| + |ListDisputes(disputes, ResolvedOnly, entryFilter)|
            == |ListDisputes(disputes, AnyStatus, entryFilter)|
  {
    var o := ListDisputes(disputes, OpenOnly, entryFilter);
    var s := ListDisputes(disputes, ResolvedOnly, entryFilter);
    assert o + s == ListDisputes(disputes, AnyStatus, entryFilter);
    assert |o + s| == |o| + |s| by {
      assert o !! s;
    }
  }

  // ---------------------------------------------------------------------------
  // The handlers against the store

  method CreateDisputeHandler(db: Database, entryId: nat, reason: string, caller: nat, newId: nat)
    returns (r: Outcome<Error>)
    requires newId !in db.disputes
    modifies db`disputes, db`entries
    ensures var t := RaiseDispute(Tables(old(db.disputes), old(db.entries)), entryId, reason, caller, newId);
            && (t.Success? ==> r == Pass && Tables(db.disputes, db.entries) == t.value)
            && (t.Failure? ==> r == Fail(t.error) && db.disputes == old(db.disputes) && db.entries == old(db.entries))
  {
    if entryId >= |db.entries| {
      return Fail(NotFound("Time entry not found"));
    }
    db.disputes := db.disputes[newId := Dispute(entryId, caller, reason, None, None, None)];
    db.entries := db.entries[entryId := db.entries[entryId].(status := Disputed)];
    r := Pass;
  }

  method ResolveDisputeHandler(db: Database, id: nat, resolution: Option<string>, caller: nat, now: int)
    returns (r: Outcome<Error>)
    modifies db`disputes, db`entries
    ensures var t := ResolveDispute(Tables(old(db.disputes), old(db.entries)), id, resolution, caller, now);
            && (t.Success? ==> r == Pass && Tables(db.disputes, db.entries) == t.value)
            && (t.Failure? ==> r == Fail(t.error))
            && (t.Failure? && t.error != Thrown("Record to update not found") ==>
                  db.disputes == old(db.disputes) && db.entries == old(db.entries))
  {
    if id !in db.disputes {
      return Fail(NotFound("Dispute not found"));
    }
    var d := db.disputes[id];
    if d.resolution.Some? && d.resolution.value != "" {
      return Fail(BadRequest("Dispute is already resolved"));
    }
    var text := if resolution.Some? && resolution.value != "" then resolution.value else "Resolved";
    db.disputes := db.disputes[id := d.(resolution := Some(text), resolvedBy := Some(caller), resolvedAt := Some(now))];
    if d.timeEntryId >= |db.entries| {
      return Fail(Thrown("Record to update not found"));
    }
    db.entries := db.entries[d.timeEntryId := db.entries[d.timeEntryId].(status := Pending)];
    r := Pass;
  }

  method DeleteDisputeHandler(db: Database, id: nat) returns (r: Outcome<Error>)
    modifies db`disputes
    ensures var t := DeleteDispute(Tables(old(db.disputes), db.entries), id);
            && (t.Success? ==> r == Pass && db.disputes == t.value.disputes)
            && (t.Failure? ==> r == Fail(t.error) && db.disputes == old(db.disputes))
  {
    if id !in db.disputes {
      return Fail(NotFound("Dispute not found"));
    }
    db.disputes := db.disputes - {id};
    r := Pass;
  }
}
