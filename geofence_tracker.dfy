/** The device-side detector `GeofenceTracker`. On each location fix it walks
    the worker's jobsites and compares "inside now" with the set of jobsites it
    was inside; a jobsite it has just entered gets an ENTER and joins the set, a
    jobsite it has just left gets an EXIT and leaves it. So per jobsite the events
    it emits alternate, starting with ENTER.

    Whether a fix lies within a jobsite's radius (a haversine distance in the
    source) is given as the predicate `inside`; the clock reading for the events'
    timestamps is the parameter `now`. */
module GeofenceTracker {
  import opened Types

  /** A location fix: coordinates and the reported accuracy, if any. */
  datatype Fix = Fix(latitude: real, longitude: real, accuracy: Option<real>)

  /** The event body the tracker hands to its sender. */
  datatype DeviceEvent = DeviceEvent(
    workerId: nat,
    jobsiteId: nat,
    kind: EventType,
    timestamp: int,
    accuracy: Option<real>,
    source: string)

  /** `accuracy || undefined`: a missing or zero accuracy is left out. */
  function AccuracyField(a: Option<real>): (r: Option<real>)
    ensures r.Some? <==> a.Some? && a.value != 0.0
    ensures r.Some? ==> r == a
  {
    if a.Some? && a.value != 0.0 then a else None
  }

  function MakeEvent(w: nat, j: nat, kind: EventType, fix: Fix, now: int): DeviceEvent {
    DeviceEvent(w, j, kind, now, AccuracyField(fix.accuracy), "device")
  }

  /** One jobsite of the loop: the new inside-set and the events emitted. */
  function Step(s: set<nat>, j: nat, isInside: bool, w: nat, fix: Fix, now: int): (r: (set<nat>, seq<DeviceEvent>))
    ensures (j in r.0) == isInside
    ensures forall k :: k != j ==> (k in r.0 <==> k in s)
    ensures isInside && j !in s ==> r.1 == [MakeEvent(w, j, Enter, fix, now)]
    ensures !isInside && j in s ==> r.1 == [MakeEvent(w, j, Exit, fix, now)]
    ensures isInside == (j in s) ==> r.1 == [] && r.0 == s
  {
    if isInside && j !in s then (s + {j}, [MakeEvent(w, j, Enter, fix, now)])
    else if !isInside && j in s then (s - {j}, [MakeEvent(w, j, Exit, fix, now)])
    else (s, [])
  }

  /** The whole loop over `sites`, in order. */
  function Scan(s: set<nat>, sites: seq<nat>, inside: nat -> bool, w: nat, fix: Fix, now: int): (r: (set<nat>, seq<DeviceEvent>))
  {
    if |sites| == 0 then (s, [])
    else
      var before := Scan(s, sites[..|sites| - 1], inside, w, fix, now);
      var j := sites[|sites| - 1];
      var step := Step(before.0, j, inside(j), w, fix, now);
      (step.0, before.1 + step.1)
  }

  /** One more jobsite of the loop is one more step. */
  lemma ScanSnoc(s: set<nat>, sites: seq<nat>, i: nat, inside: nat -> bool, w: nat, fix: Fix, now: int)
    requires i < |sites|
    ensures var before := Scan(s, sites[..i], inside, w, fix, now);
            var step := Step(before.0, sites[i], inside(sites[i]), w, fix, now);
            Scan(s, sites[..i + 1], inside, w, fix, now) == (step.0, before.1 + step.1)
  {
    assert sites[..i + 1][..i] == sites[..i];
  }

  /** After a fix the set holds exactly the listed jobsites the fix is inside; an
      unlisted jobsite keeps its membership. */
  lemma {:induction false} ScanMembership(s: set<nat>, sites: seq<nat>, inside: nat -> bool, w: nat, fix: Fix, now: int, k: nat)
    ensures k in sites ==> (k in Scan(s, sites, inside, w, fix, now).0 <==> inside(k))
    ensures k !in sites ==> (k in Scan(s, sites, inside, w, fix, now).0 <==> k in s)
  {
    if |sites| > 0 {
      var front := sites[..|sites| - 1];
      ScanMembership(s, front, inside, w, fix, now, k);
      assert sites == front + [sites[|sites| - 1]];
    }
  }

  /** A fix that agrees with the set everywhere emits nothing and changes nothing. */
  lemma {:induction false} ScanNoChange(s: set<nat>, sites: seq<nat>, inside: nat -> bool, w: nat, fix: Fix, now: int)
    requires forall k :: k in sites ==> (inside(k) <==> k in s)
    ensures Scan(s, sites, inside, w, fix, now) == (s, [])
  {
    if |sites| > 0 {
      var front := sites[..|sites| - 1];
      assert forall k :: k in front ==> k in sites;
      ScanNoChange(s, front, inside, w, fix, now);
      var j := sites[|sites| - 1];
      assert j in sites;
      assert Step(s, j, inside(j), w, fix, now) == (s, []);
      var none: seq<DeviceEvent> := [];
      assert none + none == none;
    }
  }

  /** The kinds of the events for jobsite `j`, in order. */
  function KindsFor(events: seq<DeviceEvent>, j: nat): seq<EventType>
  {
    if |events| == 0 then []
    else KindsFor(events[..|events| - 1], j)
         + (if events[|events| - 1].jobsiteId == j then [events[|events| - 1].kind] else [])
  }

  lemma {:induction false} KindsForAppend(a: seq<DeviceEvent>, b: seq<DeviceEvent>, j: nat)
    ensures KindsFor(a + b, j) == KindsFor(a, j) + KindsFor(b, j)
    decreases |b|
  {
    if |b| == 0 {
      assert a + b == a;
    } else {
      var b' := b[..|b| - 1];
      assert (a + b)[..|a + b| - 1] == a + b';
      KindsForAppend(a, b', j);
    }
  }

  /** Per jobsite the kinds alternate ENTER, EXIT, ENTER, ... and the jobsite is in
      the set exactly when the last one was an ENTER. */
  ghost predicate Alternating(events: seq<DeviceEvent>, s: set<nat>) {
    forall j: nat :: AlternatesAt(events, s, j)
  }

  ghost predicate AlternatesAt(events: seq<DeviceEvent>, s: set<nat>, j: nat) {
    && (forall k :: 0 <= k < |KindsFor(events, j)| ==> KindsFor(events, j)[k] == if k % 2 == 0 then Enter else Exit)
    && (j in s <==> |KindsFor(events, j)| % 2 == 1)
  }

  lemma StepKeepsAlternating(events: seq<DeviceEvent>, s: set<nat>, j: nat, isInside: bool, w: nat, fix: Fix, now: int)
    requires Alternating(events, s)
    ensures var r := Step(s, j, isInside, w, fix, now);
            Alternating(events + r.1, r.0)
  {
    var r := Step(s, j, isInside, w, fix, now);
    forall k: nat
      ensures AlternatesAt(events + r.1, r.0, k)
    {
      assert AlternatesAt(events, s, k);
      KindsForAppend(events, r.1, k);
      if r.1 != [] {
        assert r.1 == [r.1[0]];
        assert KindsFor(r.1, k) == KindsFor([], k) + (if r.1[0].jobsiteId == k then [r.1[0].kind] else []) by {
          assert r.1[..0] == [];
        }
      }
    }
  }

  lemma {:induction false} ScanKeepsAlternating(events: seq<DeviceEvent>, s: set<nat>, sites: seq<nat>,
                                                inside: nat -> bool, w: nat, fix: Fix, now: int)
    requires Alternating(events, s)
    ensures var r := Scan(s, sites, inside, w, fix, now);
            Alternating(events + r.1, r.0)
  {
    if |sites| > 0 {
      var front := sites[..|sites| - 1];
      var before := Scan(s, front, inside, w, fix, now);
      ScanKeepsAlternating(events, s, front, inside, w, fix, now);
      var j := sites[|sites| - 1];
      StepKeepsAlternating(events + before.1, before.0, j, inside(j), w, fix, now);
      var step := Step(before.0, j, inside(j), w, fix, now);
      assert events + before.1 + step.1 == events + (before.1 + step.1);
    } else {
      assert events + [] == events;
    }
  }

  /** Every emitted event carries the tracker's worker, the time of the fix and
      the source "device". */
  ghost predicate FromDevice(events: seq<DeviceEvent>, w: nat) {
    forall k :: 0 <= k < |events| ==> events[k].workerId == w && events[k].source == "device"
  }

  lemma {:induction false} ScanFromDevice(s: set<nat>, sites: seq<nat>, inside: nat -> bool, w: nat, fix: Fix, now: int)
    ensures FromDevice(Scan(s, sites, inside, w, fix, now).1, w)
    ensures |Scan(s, sites, inside, w, fix, now).1| <= |sites|
  {
    if |sites| > 0 {
      ScanFromDevice(s, sites[..|sites| - 1], inside, w, fix, now);
    }
  }

  /** A scan keeps both invariants of the tracker. */
  lemma ScanKeepsValid(sent: seq<DeviceEvent>, s: set<nat>, sites: seq<nat>, inside: nat -> bool, w: nat, fix: Fix, now: int)
    requires Alternating(sent, s) && FromDevice(sent, w)
    ensures var r := Scan(s, sites, inside, w, fix, now);
            Alternating(sent + r.1, r.0) && FromDevice(sent + r.1, w)
  {
    var r := Scan(s, sites, inside, w, fix, now);
    ScanKeepsAlternating(sent, s, sites, inside, w, fix, now);
    ScanFromDevice(s, sites, inside, w, fix, now);
    forall k | 0 <= k < |sent + r.1|
      ensures (sent + r.1)[k].workerId == w && (sent + r.1)[k].source == "device"
    {
      if k >= |sent| {
        assert (sent + r.1)[k] == r.1[k - |sent|];
      }
    }
  }

  class Tracker {
    const workerId: nat
    var jobsites: seq<nat>
    var isTracking: bool
    /** Whether a position watch is subscribed. */
    var watching: bool
    var currentLocation: Option<Fix>
    var insideGeofences: set<nat>
    /** The events handed to the sender so far (delivery is not modelled). */
    var sent: seq<DeviceEvent>

    ghost predicate Valid()
      reads this
    {
      Alternating(sent, insideGeofences) && FromDevice(sent, workerId)
    }

    constructor (workerId: nat)
      ensures this.workerId == workerId && jobsites == [] && !isTracking && !watching
      ensures currentLocation == None && insideGeofences == {} && sent == []
      ensures Valid()
    {
      this.workerId := workerId;
      jobsites := [];
      isTracking := false;
      watching := false;
      currentLocation := None;
      insideGeofences := {};
      sent := [];
    }

    method SetJobsites(sites: seq<nat>)
      modifies this`jobsites
      ensures jobsites == sites
    {
      jobsites := sites;
    }

    /** `startTracking`: nothing while already tracking; without the foreground
        permission it throws and changes nothing; otherwise tracking starts and a
        watch is subscribed. */
    method StartTracking(permissionGranted: bool) returns (r: Outcome<Error>)
      modifies this`isTracking, this`watching
      ensures old(isTracking) ==> r == Pass && isTracking && watching == old(watching)
      ensures !old(isTracking) && !permissionGranted ==>
                r == Fail(Thrown("Location permission not granted")) && !isTracking && watching == old(watching)
      ensures !old(isTracking) && permissionGranted ==> r == Pass && isTracking && watching
    {
      if isTracking {
        return Pass;
      }
      if !permissionGranted {
        return Fail(Thrown("Location permission not granted"));
      }
      isTracking := true;
      watching := true;
      r := Pass;
    }

    /** `stopTracking`: drops the watch and clears the flag. */
    method StopTracking()
      modifies this`isTracking, this`watching
      ensures !isTracking && !watching
    {
      watching := false;
      isTracking := false;
    }

    /** `handleLocationUpdate`: records the fix, then walks the jobsites in order. */
    method HandleLocationUpdate(fix: Fix, inside: nat -> bool, now: int)
      requires Valid()
      modifies this`currentLocation, this`insideGeofences, this`sent
      ensures Valid()
      ensures currentLocation == Some(fix)
      ensures insideGeofences == Scan(old(insideGeofences), jobsites, inside, workerId, fix, now).0
      ensures sent == old(sent) + Scan(old(insideGeofences), jobsites, inside, workerId, fix, now).1
    {
      currentLocation := Some(fix);
      ghost var inside0 := insideGeofences;
      ghost var sent0 := sent;
      var sites := jobsites;
      var i := 0;
      while i < |sites|
        invariant 0 <= i <= |sites|
        invariant currentLocation == Some(fix)
        invariant insideGeofences == Scan(inside0, sites[..i], inside, workerId, fix, now).0
        invariant sent == sent0 + Scan(inside0, sites[..i], inside, workerId, fix, now).1
      {
        var j := sites[i];
        var isInside := inside(j);
        var wasInside := j in insideGeofences;
        ghost var before := Scan(inside0, sites[..i], inside, workerId, fix, now);
        ghost var step := Step(insideGeofences, j, isInside, workerId, fix, now);
        ScanSnoc(inside0, sites, i, inside, workerId, fix, now);
        if isInside && !wasInside {
          insideGeofences := insideGeofences + {j};
          sent := sent + [MakeEvent(workerId, j, Enter, fix, now)];
        } else if !isInside && wasInside {
          insideGeofences := insideGeofences - {j};
          sent := sent + [MakeEvent(workerId, j, Exit, fix, now)];
        }
        assert insideGeofences == step.0 && sent == sent0 + before.1 + step.1;
        assert sent0 + before.1 + step.1 == sent0 + (before.1 + step.1);
        i := i + 1;
      }
      assert sites[..|sites|] == sites;
      ghost var r := Scan(inside0, sites, inside, workerId, fix, now);
      assert insideGeofences == r.0 && sent == sent0 + r.1;
      ScanKeepsValid(sent0, inside0, sites, inside, workerId, fix, now);
      assert Alternating(sent, insideGeofences) && FromDevice(sent, workerId);
    }

    method IsInsideGeofence(j: nat) returns (b: bool)
      ensures b <==> j in insideGeofences
    {
      b := j in insideGeofences;
    }

    method GetCurrentLocation() returns (fix: Option<Fix>)
      ensures fix == currentLocation
    {
      fix := currentLocation;
    }
  }
}
