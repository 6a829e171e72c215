/** The assignment table, which links a worker to a jobsite (and so admits the
    worker's geofence events there). Create checks, in order, that the worker
    exists, that the worker has role WORKER, that the jobsite exists and that the
    pair is not assigned yet; update touches only the schedule days; delete
    removes one row. */
module Assignments {
  import opened Types
  import opened Store

  /** Some assignment links the worker to the jobsite. */
  predicate Assigned(assignments: map<nat, Assignment>, w: nat, j: nat) {
    exists id :: id in assignments && assignments[id].workerId == w && assignments[id].jobsiteId == j
  }

  /** The table's unique key: no two rows for one (worker, jobsite) pair. */
  ghost predicate UniquePairs(assignments: map<nat, Assignment>) {
    forall a, b :: a in assignments && b in assignments && a != b ==>
      !(assignments[a].workerId == assignments[b].workerId && assignments[a].jobsiteId == assignments[b].jobsiteId)
  }

  /** The guards of create, in the handler's order: the first that fails decides the answer. */
  function CheckCreate(users: map<nat, User>, jobsites: set<nat>, assignments: map<nat, Assignment>, w: nat, j: nat)
    : (r: Outcome<Error>)
    ensures r == Pass <==> w in users && users[w].role == Worker && j in jobsites && !Assigned(assignments, w, j)
    ensures w !in users ==> r == Fail(NotFound("Worker not found"))
    ensures w in users && users[w].role != Worker ==> r == Fail(BadRequest("Only workers can be assigned to jobsites"))
    ensures w in users && users[w].role == Worker && j !in jobsites ==> r == Fail(NotFound("Jobsite not found"))
    ensures w in users && users[w].role == Worker && j in jobsites && Assigned(assignments, w, j) ==>
              r == Fail(Conflict("Assignment already exists"))
  {
    if w !in users then Fail(NotFound("Worker not found"))
    else if users[w].role != Worker then Fail(BadRequest("Only workers can be assigned to jobsites"))
    else if j !in jobsites then Fail(NotFound("Jobsite not found"))
    else if Assigned(assignments, w, j) then Fail(Conflict("Assignment already exists"))
    else Pass
  }

  /** `POST /api/assignments`; the new row takes the fresh id `newId` and the
      schedule days default to none. */
  function CreateAssignment(users: map<nat, User>, jobsites: set<nat>, assignments: map<nat, Assignment>,
                            w: nat, j: nat, scheduleDays: Option<seq<string>>, newId: nat)
    : (r: Result<map<nat, Assignment>, Error>)
    requires newId !in assignments
    ensures r.Failure? <==> CheckCreate(users, jobsites, assignments, w, j).Fail?
    ensures r.Failure? ==> r.error == CheckCreate(users, jobsites, assignments, w, j).error
    ensures r.Success? ==> r.value.Keys == assignments.Keys + {newId}
                           && (forall id :: id in assignments ==> r.value[id] == assignments[id])
                           && r.value[newId].workerId == w && r.value[newId].jobsiteId == j
                           && r.value[newId].scheduleDays == (if scheduleDays.Some? then scheduleDays.value else [])
  {
    match CheckCreate(users, jobsites, assignments, w, j)
    case Fail(e) => Failure(e)
    case Pass => Success(assignments[newId := Assignment(w, j, scheduleDays.GetOr([]))])
  }

  /** `PUT /api/assignments/:id`: only the schedule days, and only when sent. */
  function UpdateAssignment(assignments: map<nat, Assignment>, id: nat, scheduleDays: Option<seq<string>>)
    : (r: Result<map<nat, Assignment>, Error>)
    ensures r.Failure? <==> id !in assignments
    ensures r.Failure? ==> r.error == NotFound("Assignment not found")
    ensures r.Success? ==> r.value.Keys == assignments.Keys
                           && (forall other :: other in assignments && other != id ==> r.value[other] == assignments[other])
                           && r.value[id].workerId == assignments[id].workerId
                           && r.value[id].jobsiteId == assignments[id].jobsiteId
                           && (scheduleDays.None? ==> r.value[id] == assignments[id])
                           && (scheduleDays.Some? ==> r.value[id].scheduleDays == scheduleDays.value)
  {
    if id !in assignments then Failure(NotFound("Assignment not found"))
    else match scheduleDays
      case None => Success(assignments)
      case Some(days) => Success(assignments[id := assignments[id].(scheduleDays := days)])
  }

  /** `DELETE /api/assignments/:id`. */
  function DeleteAssignment(assignments: map<nat, Assignment>, id: nat): (r: Result<map<nat, Assignment>, Error>)
    ensures r.Failure? <==> id !in assignments
    ensures r.Failure? ==> r.error == NotFound("Assignment not found")
    ensures r.Success? ==> r.value.Keys == assignments.Keys - {id}
                           && forall other :: other in r.value ==> r.value[other] == assignments[other]
  {
    if id !in assignments then Failure(NotFound("Assignment not found"))
    else Success(assignments - {id})
  }

  /** Every handler keeps at most one assignment per pair. */
  lemma HandlersKeepUniquePairs(users: map<nat, User>, jobsites: set<nat>, assignments: map<nat, Assignment>,
                                w: nat, j: nat, scheduleDays: Option<seq<string>>, newId: nat, id: nat)
    requires UniquePairs(assignments) && newId !in assignments
    ensures CreateAssignment(users, jobsites, assignments, w, j, scheduleDays, newId).Success? ==>
              UniquePairs(CreateAssignment(users, jobsites, assignments, w, j, scheduleDays, newId).value)
    ensures UpdateAssignment(assignments, id, scheduleDays).Success? ==>
              UniquePairs(UpdateAssignment(assignments, id, scheduleDays).value)
    ensures DeleteAssignment(assignments, id).Success? ==> UniquePairs(DeleteAssignment(assignments, id).value)
  {
    var c := CreateAssignment(users, jobsites, assignments, w, j, scheduleDays, newId);
    if c.Success? {
      var m := c.value;
      forall a, b | a in m && b in m && a != b
        ensures !(m[a].workerId == m[b].workerId && m[a].jobsiteId == m[b].jobsiteId)
      {
        if a == newId || b == newId {
          var other := if a == newId then b else a;
          assert other in assignments;
          assert !(assignments[other].workerId == w && assignments[other].jobsiteId == j);
        }
      }
    }
  }

  /** After a successful create the pair is assigned; after deleting the only row of a
      pair under unique keys it is not. */
  lemma AssignedAfter(users: map<nat, User>, jobsites: set<nat>, assignments: map<nat, Assignment>,
                      w: nat, j: nat, scheduleDays: Option<seq<string>>, newId: nat, id: nat)
    requires UniquePairs(assignments) && newId !in assignments
    ensures CreateAssignment(users, jobsites, assignments, w, j, scheduleDays, newId).Success? ==>
              Assigned(CreateAssignment(users, jobsites, assignments, w, j, scheduleDays, newId).value, w, j)
    ensures id in assignments ==>
              !Assigned(DeleteAssignment(assignments, id).value, assignments[id].workerId, assignments[id].jobsiteId)
  {
    var c := CreateAssignment(users, jobsites, assignments, w, j, scheduleDays, newId);
    if c.Success? {
      assert c.value[newId].workerId == w && c.value[newId].jobsiteId == j;
    }
  }

  // ---------------------------------------------------------------------------
  // The handlers against the store

  method CreateAssignmentHandler(db: Database, w: nat, j: nat, scheduleDays: Option<seq<string>>, newId: nat)
    returns (r: Outcome<Error>)
    requires newId !in db.assignments
    modifies db`assignments
    ensures var c := CreateAssignment(db.users, db.jobsites, old(db.assignments), w, j, scheduleDays, newId);
            && (c.Success? ==> r == Pass && db.assignments == c.value)
            && (c.Failure? ==> r == Fail(c.error) && db.assignments == old(db.assignments))
  {
    if w !in db.users {
      return Fail(NotFound("Worker not found"));
    }
    if db.users[w].role != Worker {
      return Fail(BadRequest("Only workers can be assigned to jobsites"));
    }
    if j !in db.jobsites {
      return Fail(NotFound("Jobsite not found"));
    }
    if exists id :: id in db.assignments && db.assignments[id].workerId == w && db.assignments[id].jobsiteId == j {
      return Fail(Conflict("Assignment already exists"));
    }
    var days := if scheduleDays.Some? then scheduleDays.value else [];
    db.assignments := db.assignments[newId := Assignment(w, j, days)];
    r := Pass;
  }

  method UpdateAssignmentHandler(db: Database, id: nat, scheduleDays: Option<seq<string>>) returns (r: Outcome<Error>)
    modifies db`assignments
    ensures var u := UpdateAssignment(old(db.assignments), id, scheduleDays);
            && (u.Success? ==> r == Pass && db.assignments == u.value)
            && (u.Failure? ==> r == Fail(u.error) && db.assignments == old(db.assignments))
  {
    if id !in db.assignments {
      return Fail(NotFound("Assignment not found"));
    }
    if scheduleDays.Some? {
      db.assignments := db.assignments[id := db.assignments[id].(scheduleDays := scheduleDays.value)];
    }
    r := Pass;
  }

  method DeleteAssignmentHandler(db: Database, id: nat) returns (r: Outcome<Error>)
    modifies db`assignments
    ensures var d := DeleteAssignment(old(db.assignments), id);
            && (d.Success? ==> r == Pass && db.assignments == d.value)
            && (d.Failure? ==> r == Fail(d.error) && db.assignments == old(db.assignments))
  {
    if id !in db.assignments {
      return Fail(NotFound("Assignment not found"));
    }
    db.assignments := db.assignments - {id};
    r := Pass;
  }
}
