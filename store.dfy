/** The repository the route handlers and services read and write: one object
    holding every table of the core. Time entries and geofence events are
    positional (a row's id is its index, and rows are only appended or updated);
    assignments and disputes can be deleted and so are maps from id to row. */
module Store {
  import opened Types

  class Database {
    var users: map<nat, User>
    var jobsites: set<nat>
    var assignments: map<nat, Assignment>
    var events: seq<GeofenceEvent>
    var entries: seq<TimeEntry>
    var disputes: map<nat, Dispute>
    var summaries: seq<Summary>

    constructor (users: map<nat, User>, jobsites: set<nat>)
      ensures this.users == users && this.jobsites == jobsites
      ensures assignments == map[] && events == [] && entries == []
      ensures disputes == map[] && summaries == []
    {
      this.users := users;
      this.jobsites := jobsites;
      assignments := map[];
      events := [];
      entries := [];
      disputes := map[];
      summaries := [];
    }
  }
}
