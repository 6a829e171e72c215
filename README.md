# Timesheet core in Dafny

A model of the core of a geofenced time-tracking system. Workers carry a phone
app that watches where they are. When a worker walks into or out of a
jobsite's circle, the app sends an ENTER or EXIT event to the backend. The
backend stores the event and turns it into time entries: an ENTER opens an entry
and an EXIT closes it with a duration in whole minutes. Supervisors edit,
approve and dispute entries. Weekly summaries split a worker's approved minutes
into regular time (at most 2400 minutes) and overtime. A dashboard counts who is
clocked in, and an export writes the entries as CSV or as a PDF report.

The model has one Dafny module per part of the system:

| module | file | models |
|---|---|---|
| `Types` | types.dfy | the table rows (geofence event, time entry, dispute, assignment, user, weekly summary), the error answers, whole-minute durations |
| `Text` | text.dfy | decimal printing and parsing, `padStart(2, '0')`, JavaScript `%`, `split`/`join` |
| `Paging` | paging.dfy | `skip`/`take` pages, the `hasMore` flag, `orderBy … desc` |
| `Store` | store.dfy | the database: a class whose fields are the tables |
| `GeofenceProcessor` | geofence_processor.dfy | the service that turns one stored event into a time-entry change |
| `GeofenceEvents` | geofence_events.dfy | the event ingestion and listing endpoints |
| `TimeEntries` | time_entries.dfy | the time-entry create, update and list endpoints |
| `SummaryCalculator` | summary_calculator.dfy | the weekly summary service |
| `Disputes` | disputes.dfy | raising, resolving, listing and deleting disputes |
| `Assignments` | assignments.dfy | the worker–jobsite assignment endpoints |
| `GeofenceTracker` | geofence_tracker.dfy | the phone-side detector, a class with its tracking state |
| `DurationFormat` | duration_format.dfy | the "H:MM" and "Hh Mm" duration texts |
| `Stats` | stats.dfy | the dashboard overview |
| `Exports` | exports.dfy | the CSV and PDF exports |

How the model represents the system:

- Time entries and geofence events are append-only sequences. An entry's or an
  event's id is its position in its sequence.
- Disputes and assignments can be deleted, so they are maps. The fresh id the
  database would generate is a parameter `newId`, and the caller must supply an
  unused one.
- Timestamps are integer milliseconds since 1970-01-01 UTC. A calendar day is
  `ts / 86400000`. Day 0 was a Thursday.
- A stored `createdFromEvents` text is either a list of event ids or text that
  JSON parsing rejects (`Malformed`).
- Each route handler that writes is a method on the `Store.Database` object. It
  is proved to write exactly what a pure function of the old tables gives. The
  properties themselves are lemmas about those functions.

Main results:

- Processing any sequence of events keeps at most one open entry per (worker,
  jobsite) pair (`GeofenceProcessor.ReplayPreservesAtMostOneOpen`).
- Repeated ENTERs and repeated EXITs are dropped.
- The two endpoints that can open an entry outside the processor are shown to
  break that invariant: manual create, and an update that sends `endAt: null`.
- Each closed entry's duration equals the whole minutes between its start and
  its end. The processor keeps this. An update keeps it unless it sends a
  duration without a start or end.
- On the phone, the ENTER and EXIT events of each jobsite alternate, starting
  with ENTER.
- The weekly summary is unique per (worker, week), its split adds up to the
  approved minutes, and recomputing it twice gives the same table as once.
- A dispute can be resolved once only. A resolution puts the entry back to
  PENDING, even while another dispute on it is still open.
- The CSV export reads back to its rows when no cell holds a double quote or a
  line break. A cell that holds `","` makes two different rows print the same
  line.
- "H:MM" and "Hh Mm" read back to the minutes for every positive duration.

## Model

| member | source | states |
|---|---|---|
| Types.ElapsedMinutes | backend/src/routes/timeEntries.ts:15-20 | the result is the whole number of minutes in `end - start`, rounded down (negative spans round toward minus infinity) |
| Store.Database.constructor | backend/src/lib/prisma.ts:7-9 | the one shared database: it starts with the given users and jobsites and every other table empty |
| Paging.Page | backend/dist/routes/geofenceEvents.js:104-105 | `skip`/`take`: at most `limit` rows, the rows from `offset` on in order, none past the end |
| Paging.HasMoreIffRowsBeyondPage | backend/dist/routes/geofenceEvents.js:132 | `hasMore` (`offset + limit < total`) holds exactly when some matching row lies past the returned page |
| Paging.SortDesc | backend/dist/routes/geofenceEvents.js:107 | `orderBy … desc`: the result is sorted by descending key and is a permutation of the input |
| Paging.PageOfSortedIsTop | backend/src/routes/stats.ts:57-64 | `take: n` after a descending sort: any row left out has a key no larger than every row kept |
| GeofenceProcessor.LatestOpen | backend/src/services/geofenceProcessor.ts:52-59 | none exactly when the pair has no open entry; otherwise an open entry of the pair whose start is the latest, and the lowest such index on ties |
| GeofenceProcessor.AnyOpen | backend/src/services/geofenceProcessor.ts:19-32 | the ENTER branch's query answers true exactly when the pair has an open entry |
| GeofenceProcessor.FindLatestOpen | backend/src/services/geofenceProcessor.ts:52-59 | a one-pass search that returns the open entry `LatestOpen` specifies |
| GeofenceProcessor.ProcessGeofenceEvent | backend/src/services/geofenceProcessor.ts:6-91 | on success the table becomes the processed table; on any error (unknown id, unparsable event list) it answers that error and writes nothing |
| GeofenceProcessor.EnterWhileOpenIsNoop | backend/src/services/geofenceProcessor.ts:19-32 | an ENTER while the pair has an open entry leaves the table unchanged |
| GeofenceProcessor.EnterWhileClosedOpens | backend/src/services/geofenceProcessor.ts:34-49 | an ENTER while the pair is closed appends one entry: open, PENDING, no duration, starting at the event time, listing only this event |
| GeofenceProcessor.ExitClosesLatestOpen | backend/src/services/geofenceProcessor.ts:52-87 | an EXIT closes the pair's latest-started open entry: end = event time, duration = whole elapsed minutes, event id appended, status and start kept, all other entries untouched; an unparsable event list makes it fail |
| GeofenceProcessor.OrphanExitIsNoop | backend/src/services/geofenceProcessor.ts:61-89 | an EXIT with no open entry for the pair changes nothing |
| GeofenceProcessor.ProcessLeavesOtherPairs | backend/src/services/geofenceProcessor.ts:12-91 | processing grows the table by at most one entry and touches only entries of the event's own pair |
| GeofenceProcessor.OpenCountZeroIff | backend/src/services/geofenceProcessor.ts:19-32 | the pair's count of open entries is zero exactly when the pair has no open entry |
| GeofenceProcessor.ProcessPreservesAtMostOneOpen | backend/src/services/geofenceProcessor.ts:12-91 | one processed event, with failures swallowed, keeps at most one open entry per pair |
| GeofenceProcessor.ReplayPreservesAtMostOneOpen | backend/dist/routes/geofenceEvents.js:51-77 | any sequence of ingested events keeps at most one open entry per pair |
| GeofenceProcessor.NextPairState | backend/src/services/geofenceProcessor.ts:12-91 | with at most one open entry per pair, the pair is open after an ENTER and closed after an EXIT |
| GeofenceProcessor.RepeatedExitIsNoop | backend/src/services/geofenceProcessor.ts:50-89 | a second EXIT for the same pair, after the first, changes nothing |
| GeofenceProcessor.RepeatedEnterIsNoop | backend/src/services/geofenceProcessor.ts:19-32 | a second ENTER for the same pair, after the first, changes nothing |
| GeofenceProcessor.ProcessKeepsDurationsConsistent | backend/src/services/geofenceProcessor.ts:74-87 | processing keeps every closed entry's duration equal to its whole elapsed minutes |
| GeofenceProcessor.NineToFive | backend/src/services/geofenceProcessor.ts:40-87 | ENTER at 09:00 and EXIT at 17:00 give one PENDING entry of 480 minutes listing both events |
| GeofenceEvents.ParseKind | backend/dist/routes/geofenceEvents.js:11 | the type is accepted exactly when it is "ENTER" or "EXIT", and it prints back as the same text |
| GeofenceEvents.ValidateEvent | backend/dist/routes/geofenceEvents.js:8-15 | the body is accepted exactly when its type is ENTER or EXIT; the fields are kept; a missing source becomes "device" |
| GeofenceEvents.ValidateRequestFor | backend/dist/routes/geofenceEvents.js:8-15 | every storable event is accepted back unchanged by the body schema |
| GeofenceEvents.CheckIngest | backend/dist/routes/geofenceEvents.js:28-49 | the guards pass exactly when the worker is assigned to the jobsite and the jobsite exists; otherwise the first failing guard's 404 |
| GeofenceEvents.CreateGeofenceEvent | backend/dist/routes/geofenceEvents.js:25-79 | a failed guard writes nothing; otherwise the event is appended, its id answered, and the entries become the processed table with any processor error swallowed |
| GeofenceEvents.AssignmentAdmitsEvents | backend/src/routes/assignments.ts:203-208 | after an assignment is created, events for that pair pass the ingestion guards |
| GeofenceEvents.AppendedEventIsFound | backend/dist/routes/geofenceEvents.js:70-72 | the processor never reports the just-stored event as missing |
| GeofenceEvents.ValidateQuery | backend/dist/routes/geofenceEvents.js:16-23 | the query is accepted exactly when the limit is in 1..100 and the offset is non-negative; they default to 50 and 0 |
| GeofenceEvents.Select | backend/dist/routes/geofenceEvents.js:89-100 | each selected event matches every given filter, with inclusive date bounds; each event occurs in the selection exactly as often as in the log when it matches, and not at all otherwise |
| GeofenceEvents.SelectCount | backend/dist/routes/geofenceEvents.js:89-100 | the selection is a sub-multiset of the log |
| GeofenceEvents.ListEvents | backend/dist/routes/geofenceEvents.js:80-135 | the total is the number of matches; the rows are the `offset`/`limit` slice of the matches sorted newest first, so there are min(limit, total − offset) of them (none past the end), each a matching event of the log; `hasMore` holds exactly when rows lie past the page |
| TimeEntries.CalculateDuration | backend/src/routes/timeEntries.ts:15-20 | no end gives no duration; otherwise the whole minutes between start and end, rounded down |
| TimeEntries.DurationSign | backend/src/routes/timeEntries.ts:15-20 | the duration is negative exactly when the end is before the start |
| TimeEntries.DurationMonotone | backend/src/routes/timeEntries.ts:15-20 | a later end never gives a shorter duration |
| TimeEntries.CreateDuration | backend/src/routes/timeEntries.ts:213-216 | a given end decides the duration; without an end, a sent duration is stored as sent; with neither there is none |
| TimeEntries.CreateTimeEntry | backend/src/routes/timeEntries.ts:197-246 | the manual entry is appended and its id answered |
| TimeEntries.ManualEntryDurationMatches | backend/src/routes/timeEntries.ts:213-216 | a manually created closed entry carries its whole elapsed minutes |
| TimeEntries.ManualCreateCanBreakAtMostOneOpen | backend/src/routes/timeEntries.ts:197-246 | manual create does not check for an open entry, so it can leave two open entries for one pair |
| TimeEntries.ApplyUpdate | backend/src/routes/timeEntries.ts:271-286 | sent fields replace stored ones (`endAt: null` reopens); the duration is recomputed when a start or end is sent, else a sent duration is taken as is; worker, jobsite and event list are kept |
| TimeEntries.UpdateTimeEntry | backend/src/routes/timeEntries.ts:249-311 | an unknown id is a 404 that writes nothing; otherwise only that entry changes, to the updated one |
| TimeEntries.NullEndReopens | backend/src/routes/timeEntries.ts:271-286 | sending `endAt: null` leaves the entry open with no duration |
| TimeEntries.UpdateKeepsDurationMatch | backend/src/routes/timeEntries.ts:271-286 | an update that sends a start or end, or no duration, keeps the duration equal to the whole elapsed minutes |
| TimeEntries.DurationOnlyUpdateCanMismatch | backend/src/routes/timeEntries.ts:271-286 | a duration sent alone is stored even when it contradicts the start and end |
| TimeEntries.ReopenCanBreakAtMostOneOpen | backend/src/routes/timeEntries.ts:271-286 | reopening a closed entry can leave two open entries for one pair |
| TimeEntries.ResolvedKinds | backend/src/routes/timeEntries.ts:122-129 | a kind is resolved exactly when some listed id names a known event of that kind; unknown ids drop out |
| TimeEntries.ResolveKinds | backend/src/routes/timeEntries.ts:122-129 | the loop over an entry's ids returns the resolved kinds |
| TimeEntries.VerifiedIff | backend/src/routes/timeEntries.ts:127-129 | `geofenceVerified` holds exactly when one listed id names a known ENTER and one a known EXIT |
| TimeEntries.MetaFlags | backend/src/routes/timeEntries.ts:122-141 | `hasGeofenceEvents` holds exactly when some listed id names a known event; `eventCount` is the list length; `isManualEdit` holds exactly when someone modified the entry; an unparsable list reads as empty |
| TimeEntries.ProcessedEntryIsVerified | backend/src/routes/timeEntries.ts:127-129 | an entry the processor opened on an ENTER and closed on an EXIT is verified |
| TimeEntries.EnrichEntries | backend/src/routes/timeEntries.ts:122-141 | the enrichment loop gives one `_meta` per entry, in order |
| SummaryCalculator.Weekday | backend/src/services/summaryCalculator.ts:14-17 | `getDay()` lies in 0..6 |
| SummaryCalculator.WeekStartDay | backend/src/services/summaryCalculator.ts:14-17 | the result is a Monday; Monday to Saturday map to the Monday on or before them; a Sunday maps to the day after it |
| SummaryCalculator.WeekStart | backend/src/services/summaryCalculator.ts:14-17 | the result is a Monday at midnight |
| SummaryCalculator.WeekStartIdempotent | backend/src/services/summaryCalculator.ts:14-17 | normalising a week start again changes nothing |
| SummaryCalculator.WeekContains | backend/src/services/summaryCalculator.ts:14-22 | Monday to Saturday lie inside the week they normalise to; a Sunday lies before it |
| SummaryCalculator.ApprovedMinutesIgnores | backend/src/services/summaryCalculator.ts:28-45 | changing an entry that counts neither before nor after leaves the approved sum unchanged |
| SummaryCalculator.ApprovedMinutesApprove | backend/src/services/summaryCalculator.ts:28-45 | approving a closed entry of the week adds exactly its minutes to the sum |
| SummaryCalculator.SplitOvertime | backend/src/services/summaryCalculator.ts:48-49 | regular plus overtime equals the total; regular is at most 2400; overtime is non-negative and positive only once regular is full |
| SummaryCalculator.SplitExamples | backend/src/services/summaryCalculator.ts:3-4 | 2400 minutes have no overtime and 2500 minutes have 100 |
| SummaryCalculator.SummaryIndex | backend/src/services/summaryCalculator.ts:52-59 | none exactly when no summary has the (worker, week) key; otherwise a position holding that key |
| SummaryCalculator.FindSummary | backend/src/services/summaryCalculator.ts:52-59 | a one-pass search returning the first summary with that key |
| SummaryCalculator.RecomputeResult | backend/src/services/summaryCalculator.ts:52-111 | it fails exactly when the week has no summary and the worker is unknown; otherwise keys stay unique and one summary holds the week, with the split of the approved minutes, PENDING, the old or the worker's organisation, and every other summary unchanged |
| SummaryCalculator.RecomputeIdempotent | backend/src/services/summaryCalculator.ts:52-111 | recomputing twice without entry changes gives the same table as once |
| SummaryCalculator.CalculateWeeklySummary | backend/src/services/summaryCalculator.ts:6-113 | the table becomes the recomputed one and the answer is the week's summary; an unknown worker throws and writes nothing |
| Disputes.SetStatus | backend/src/routes/disputes.ts:210-214 | only the named entry changes, and only its status |
| Disputes.RaiseDispute | backend/src/routes/disputes.ts:154-218 | an unknown entry is a 404; otherwise one open dispute is added, the other disputes are kept and the entry becomes DISPUTED |
| Disputes.ResolveDispute | backend/src/routes/disputes.ts:221-299 | an unknown dispute is a 404 and a resolved one a 400; otherwise the dispute gets the resolution (default "Resolved"), resolver and time, the others are kept, and the entry goes back to PENDING |
| Disputes.DeleteDispute | backend/src/routes/disputes.ts:302-330 | an unknown dispute is a 404; otherwise only that dispute goes, and the entries are untouched |
| Disputes.HandlersKeepEntriesExist | backend/src/routes/disputes.ts:154-330 | every handler keeps each dispute pointing at an existing entry; with that, resolving an unresolved dispute always succeeds |
| Disputes.ResolveOnce | backend/src/routes/disputes.ts:246-251 | resolving a dispute again is a 400 |
| Disputes.ResolveIgnoresOtherOpenDisputes | backend/src/routes/disputes.ts:290-295 | with two disputes on one entry, resolving one sets the entry to PENDING while the other is still open |
| Disputes.ListDisputes | backend/src/routes/disputes.ts:46-52 | an id is listed exactly when it is a dispute matching the status filter and the entry filter |
| Disputes.OpenResolvedPartition | backend/src/routes/disputes.ts:46-52 | "open" and "resolved" split the listed disputes into two disjoint parts whose sizes add up |
| Disputes.CreateDisputeHandler | backend/src/routes/disputes.ts:154-218 | the tables become what `RaiseDispute` gives; an error writes nothing |
| Disputes.ResolveDisputeHandler | backend/src/routes/disputes.ts:221-299 | the tables become what `ResolveDispute` gives; a 404 or a 400 writes nothing |
| Disputes.DeleteDisputeHandler | backend/src/routes/disputes.ts:302-330 | the dispute table becomes what `DeleteDispute` gives; an error writes nothing |
| Assignments.CheckCreate | backend/src/routes/assignments.ts:155-200 | it passes exactly when the worker exists, has role WORKER, the jobsite exists and the pair is unassigned; otherwise it gives the first failing guard's error |
| Assignments.CreateAssignment | backend/src/routes/assignments.ts:146-238 | it fails exactly when a guard fails; otherwise one row is added for the pair, with schedule days defaulting to none, and the other rows are kept |
| Assignments.UpdateAssignment | backend/src/routes/assignments.ts:251-275 | an unknown id is a 404; only the schedule days of that row change, and only when sent |
| Assignments.DeleteAssignment | backend/src/routes/assignments.ts:310-323 | an unknown id is a 404; otherwise only that row goes |
| Assignments.HandlersKeepUniquePairs | backend/src/routes/assignments.ts:186-200 | create, update and delete keep at most one row per (worker, jobsite) pair |
| Assignments.AssignedAfter | backend/src/routes/assignments.ts:203-208 | after a create the pair is assigned; after deleting its only row it is not |
| Assignments.CreateAssignmentHandler | backend/src/routes/assignments.ts:146-238 | the table becomes what `CreateAssignment` gives; an error writes nothing |
| Assignments.UpdateAssignmentHandler | backend/src/routes/assignments.ts:241-299 | the table becomes what `UpdateAssignment` gives; an error writes nothing |
| Assignments.DeleteAssignmentHandler | backend/src/routes/assignments.ts:302-330 | the table becomes what `DeleteAssignment` gives; an error writes nothing |
| GeofenceTracker.AccuracyField | mobile/src/services/geofenceService.ts:117 | the accuracy is sent exactly when it is present and non-zero |
| GeofenceTracker.Step | mobile/src/services/geofenceService.ts:106-131 | one jobsite of the loop: membership becomes "inside now"; an ENTER when newly inside, an EXIT when newly outside, nothing otherwise |
| GeofenceTracker.ScanMembership | mobile/src/services/geofenceService.ts:106-131 | after a fix, a listed jobsite is in the set exactly when the fix is inside it; an unlisted one keeps its membership |
| GeofenceTracker.ScanNoChange | mobile/src/services/geofenceService.ts:106-131 | a fix that agrees with the set emits nothing and changes nothing |
| GeofenceTracker.ScanKeepsAlternating | mobile/src/services/geofenceService.ts:106-131 | per jobsite the sent events alternate ENTER, EXIT, … and the jobsite is in the set exactly when the last one was an ENTER |
| GeofenceTracker.ScanFromDevice | mobile/src/services/geofenceService.ts:106-131 | every emitted event carries the tracker's worker and the source "device"; at most one event per jobsite per fix |
| GeofenceTracker.Tracker.constructor | mobile/src/services/geofenceService.ts:34-45 | a new tracker is not tracking, has no location, is inside no jobsite and has sent nothing |
| GeofenceTracker.Tracker.SetJobsites | mobile/src/services/geofenceService.ts:47-49 | the jobsite list is replaced |
| GeofenceTracker.Tracker.StartTracking | mobile/src/services/geofenceService.ts:55-83 | it does nothing while tracking; without permission it throws and stays stopped; otherwise it starts tracking and subscribes a watch |
| GeofenceTracker.Tracker.StopTracking | mobile/src/services/geofenceService.ts:85-91 | the watch is dropped and tracking stops |
| GeofenceTracker.Tracker.HandleLocationUpdate | mobile/src/services/geofenceService.ts:93-133 | the fix is recorded; the set and the sent events become what the scan of the jobsites gives; alternation per jobsite is kept |
| GeofenceTracker.Tracker.IsInsideGeofence | mobile/src/services/geofenceService.ts:154-156 | true exactly when the jobsite is in the inside set |
| GeofenceTracker.Tracker.GetCurrentLocation | mobile/src/services/geofenceService.ts:150-152 | the last recorded fix |
| DurationFormat.MinutePart | backend/src/routes/stats.ts:92 | JavaScript `m % 60`: strictly between -60 and 60, and equal to the mathematical remainder for non-negative m |
| DurationFormat.NotAvailableIff | backend/src/routes/stats.ts:91-93 | "N/A" is printed exactly when the duration is missing or zero (both formats) |
| DurationFormat.ClockTextRoundTrip | backend/src/routes/stats.ts:91-93 | "H:MM" reads back to the minutes for every positive duration |
| DurationFormat.HoursMinutesTextRoundTrip | backend/src/routes/stats.ts:141 | "Hh Mm" reads back to the minutes for every positive duration |
| DurationFormat.NegativeClockText | backend/src/routes/stats.ts:91-93 | a negative duration prints with a negative minute part: -5 minutes is "-1:-5" |
| Stats.DayStart | backend/src/routes/stats.ts:13-19 | today's midnight is at or before now and less than a day before it |
| Stats.ActiveKeys | backend/src/routes/stats.ts:37-38 | a key is in the set exactly when some entry active today has it; there are no more keys than active entries |
| Stats.ClockedInCounts | backend/src/routes/stats.ts:22-38 | no worker is clocked in exactly when no entry is active today; no site is active exactly when no worker is clocked in |
| Stats.ClockedInWorker | backend/src/routes/stats.ts:22-37 | a worker counts exactly when one of the worker's entries is PENDING, open and started today |
| Stats.MinutesByStatusAddUp | backend/src/routes/stats.ts:41-53 | the minutes per status add up to the total |
| Stats.LeavingPendingReduces | backend/src/routes/stats.ts:41-53 | approving or disputing a PENDING entry takes exactly its minutes off the unapproved total |
| Stats.PendingLabel | backend/src/routes/stats.ts:95-100 | "Missing exit event" exactly for an open entry; "Flagged by worker" exactly for a closed one with disputes; "Awaiting approval" otherwise |
| Stats.ActivityType | backend/src/routes/stats.ts:137 | "approved", "disputed" and "created" exactly for APPROVED, DISPUTED and PENDING |
| Stats.PendingIds | backend/src/routes/stats.ts:57-60 | exactly the PENDING entries are listed, each once, in table order |
| Stats.TopPending | backend/src/routes/stats.ts:57-64 | min(10, #PENDING) distinct PENDING entries, latest start first; every PENDING entry left out started no later than every listed one |
| Stats.PendingEntries | backend/src/routes/stats.ts:57-112 | one row per entry of TopPending, in that order: the ten latest-started PENDING entries, each with its label and its "H:MM" duration |
| Stats.RecentActivity | backend/src/routes/stats.ts:115-142 | the min(10, #entries) most recently created entries, newest first |
| Stats.GetOverview | backend/src/routes/stats.ts:144-152 | the worker and site counts are the numbers of distinct workers and distinct sites among today's active entries (bounded by their number); the unapproved minutes are the minutes of the PENDING entries, a missing duration counting 0; the two lists are PendingEntries and RecentActivity |
| Exports.SelectedIds | backend/src/routes/exports.ts:35-44 | exactly the entries matching every given filter, with inclusive date bounds, in table order |
| Exports.ExportOrder | backend/src/routes/exports.ts:46-63 | each matching entry exactly once and nothing else, latest start first |
| Exports.Cells | backend/src/routes/exports.ts:68-76 | seven cells; missing names and e-mail are empty; a missing end is empty; the duration cell is empty exactly when there is no duration and otherwise reads back to it; the status name |
| Exports.ExportLines | backend/src/routes/exports.ts:68-76 | one cell row per selected entry, in export order |
| Exports.LineRoundTrip | backend/src/routes/exports.ts:80 | a row with no double quote in any cell reads back from its quoted line |
| Exports.UnescapedQuoteIsAmbiguous | backend/src/routes/exports.ts:80 | quotes inside cells are not escaped, so two different rows can print the same line |
| Exports.CsvLines | backend/src/routes/exports.ts:78-81 | with no line break in any cell, the document splits into the header line and one line per row |
| Exports.CsvRoundTrip | backend/src/routes/exports.ts:78-81 | rows with no double quote and no line break read back from the document |
| Exports.CsvExportRoundTrip | backend/src/routes/exports.ts:65-85 | the export has one line per selected entry after the header and reads back to the selected entries' cells |
| Exports.OrUnknown | backend/src/routes/exports.ts:148-149 | "Unknown" exactly for a missing, empty or literal "Unknown" name; otherwise the name |
| Exports.PdfRowOf | backend/src/routes/exports.ts:138-153 | names or "Unknown", start time, end time or "N/A", the "Hh Mm" duration, the status |
| Exports.CountsAddUp | backend/src/routes/exports.ts:176-179 | the per-status counts add up to the number of entries |
| Exports.CountPositive | backend/src/routes/exports.ts:176-179 | a status has a positive count exactly when some entry has it |
| Exports.ByStatus | backend/src/routes/exports.ts:176-179 | a status is a key exactly when some entry has it, and its value is that status's positive count |
| Exports.Summary | backend/src/routes/exports.ts:171-182 | the entry count, the total minutes (a missing duration counts 0), and a tally holding each status present with its number of entries and no other key, adding up to the entry count |
| Exports.PdfExport | backend/src/routes/exports.ts:131-182 | one PDF row per selected entry in export order, and a summary of exactly those entries: their count, their minutes and their tally by status |

## Left out

- Geofence distance: the haversine test is the predicate `inside` given to `GeofenceTracker.Tracker.HandleLocationUpdate`.
- Floating-point coordinates: they are not computed with.
- Delivery of device events: network sending, retries, the callback and logging are out. The model keeps the list of events handed over.
- The position watch subscription and the background-permission warning: the watch is a flag only.
- The clock: current times are parameters (`now`, event timestamps).
- Time zones: local time, daylight saving and time zones are out. Days are UTC days, so the weekly summary's Monday and the dashboard's "today" are taken in UTC, while the code uses the server's local time.
- Text forms of timestamps: `toISOString` and `toLocaleString` texts are the parameters `iso` and `local` of the exports.
- Validation libraries and JSON: the database queries, zod schemas and JSON encoding are modelled by their effect. A malformed body is a Bad Request before any model function runs, except where a guard is modelled explicitly.
- Authentication and roles (`requireAuth`, `requireRole`) and organisation scoping: out. The caller's id is a parameter.
- Concurrency: each handler runs as one atomic step. There are no interleaved requests and no transactions.
- Stats.GetOverview: reports unapproved time in minutes; the code's `toFixed(1)` hours text is out because it needs floating-point formatting.
- Exports.Summary: reports total minutes; the code's `toFixed(2)` hours text is out for the same reason.
- PDF layout: positions, fonts, page breaks and separator lines are out. The rows and the summary are kept. The "By Status" tally is a map, so the order of its printed lines (first occurrence, as `Object.entries` gives them) is not modelled.
- Pending and activity rows (`PendingRow`, `ActivityRow`): keep the entry id, the label or type and the duration text. The worker and jobsite names (with their "Unknown" default), the `toLocaleTimeString` start text, `startAt`/`endAt` and `timestamp` are left out, because they are copied from the joined rows or need locale formatting.
- The time-entry DELETE route: out. Time entries are modelled as an append-only sequence whose ids are positions.
- The time-entry GET list: its filters, sorting and pagination are out. Its per-entry `_meta` enrichment is modelled.
- The single-entry GET routes of time entries, disputes and assignments: out.
- Paging and ordering of the dispute and assignment lists: they follow `Paging.Page` and `Paging.HasMore` as the event list does. `Disputes.ListDisputes` returns the selected set without order or paging.
- Tie-breaking among rows with equal sort keys: out. The database's order on ties is unspecified, and the model fixes one.
- The export query's validation errors (`format` and date parsing): out. The query reaches the model already parsed.
- Exports.Cells: a negative duration's cell is only stated to be non-empty; its "-N" text is not read back.
- SummaryCalculator.WeekStartDay: the code maps a Sunday to the following Monday (`getDate() - getDay() + 1`). A week described as Monday to Sunday would map a Sunday to the previous Monday. The model follows the code, and `SummaryCalculator.WeekContains` states the consequence.
