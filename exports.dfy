/** `GET /api/exports/time-entries`: the time entries a query selects, latest start
    first, as CSV (a header line, then one line per entry with every cell between
    double quotes) or as the rows and the summary of a PDF report.

    The timestamp texts (`toISOString` for CSV, `toLocaleString` for PDF) are given
    as the functions `iso` and `local`; the worker's and jobsite's names and the
    worker's e-mail come with each entry, as the query's `include` joins them. */
module Exports {
  import opened Types
  import opened Text
  import opened Paging
  import opened DurationFormat
  import Stats

  /** An entry with the columns the query joins in. */
  datatype Joined = Joined(entry: TimeEntry, workerName: Option<string>, workerEmail: Option<string>,
                           jobsiteName: Option<string>)

  /** The optional filters of the query string. */
  datatype ExportQuery = ExportQuery(
    workerId: Option<nat>,
    jobsiteId: Option<nat>,
    status: Option<Status>,
    startDate: Option<int>,
    endDate: Option<int>)

  /** The `where` clause: every given filter holds; the dates bound the start, both inclusively. */
  predicate Selected(q: ExportQuery, e: TimeEntry) {
    && (q.workerId.None? || e.workerId == q.workerId.value)
    && (q.jobsiteId.None? || e.jobsiteId == q.jobsiteId.value)
    && (q.status.None? || e.status == q.status.value)
    && (q.startDate.None? || q.startDate.value <= e.startAt)
    && (q.endDate.None? || e.startAt <= q.endDate.value)
  }

  /** The positions of the selected rows, in table order. */
  function SelectedIds(rows: seq<Joined>, q: ExportQuery): (r: seq<nat>)
    ensures forall k :: 0 <= k < |r| ==> r[k] < |rows| && Selected(q, rows[r[k]].entry)
    ensures forall i :: 0 <= i < |rows| && Selected(q, rows[i].entry) ==> i in r
    ensures forall a, b :: 0 <= a < b < |r| ==> r[a] < r[b]
  {
    if |rows| == 0 then []
    else
      var front := SelectedIds(rows[..|rows| - 1], q);
      if Selected(q, rows[|rows| - 1].entry) then front + [|rows| - 1] else front
  }

  function StartOf(rows: seq<Joined>): nat -> int {
    (i: nat) => if i < |rows| then rows[i].entry.startAt else 0
  }

  /** `orderBy: { startAt: 'desc' }` over the selected rows: each selected row once,
      latest start first. */
  function ExportOrder(rows: seq<Joined>, q: ExportQuery): (r: seq<nat>)
    ensures forall k :: 0 <= k < |r| ==> r[k] < |rows| && Selected(q, rows[r[k]].entry)
    ensures forall i :: 0 <= i < |rows| ==> (i in r <==> Selected(q, rows[i].entry))
    ensures forall a, b :: 0 <= a < b < |r| ==> r[a] != r[b]
    ensures forall a, b :: 0 <= a < b < |r| ==> rows[r[b]].entry.startAt <= rows[r[a]].entry.startAt
  {
    var ids := SelectedIds(rows, q);
    var sorted := SortDesc<nat>(ids, StartOf(rows));
    SortedIds(rows, q, ids, sorted);
    sorted
  }

  lemma SortedIds(rows: seq<Joined>, q: ExportQuery, ids: seq<nat>, sorted: seq<nat>)
    requires ids == SelectedIds(rows, q)
    requires multiset(sorted) == multiset(ids)
    requires SortedDesc(sorted, StartOf(rows))
    ensures forall k :: 0 <= k < |sorted| ==> sorted[k] < |rows| && Selected(q, rows[sorted[k]].entry)
    ensures forall i :: 0 <= i < |rows| ==> (i in sorted <==> Selected(q, rows[i].entry))
    ensures forall a, b :: 0 <= a < b < |sorted| ==> sorted[a] != sorted[b]
    ensures forall a, b :: 0 <= a < b < |sorted| ==> rows[sorted[b]].entry.startAt <= rows[sorted[a]].entry.startAt
  {
    forall k | 0 <= k < |sorted|
      ensures sorted[k] < |rows| && Selected(q, rows[sorted[k]].entry)
    {
      assert sorted[k] in multiset(ids);
    }
    forall a, b | 0 <= a < b < |sorted|
      ensures rows[sorted[b]].entry.startAt <= rows[sorted[a]].entry.startAt
    {
      assert StartOf(rows)(sorted[b]) <= StartOf(rows)(sorted[a]);
    }
    forall i | 0 <= i < |rows|
      ensures i in sorted <==> Selected(q, rows[i].entry)
    {
      assert i in sorted <==> i in multiset(ids);
    }
    NoRepeats(ids, sorted);
  }

  // ---------------------------------------------------------------------------
  // CSV

  /** The header line. */
  const Headers: seq<string> :=
    ["Worker Name", "Worker Email", "Jobsite", "Start Time", "End Time", "Duration (minutes)", "Status"]

  /** The seven cells of one entry. An empty or missing name, e-mail or jobsite prints
      empty; a missing end prints empty; the duration prints its decimal digits, so 0
      prints "0" and only a missing one prints empty. */
  function Cells(j: Joined, iso: int -> string): (r: seq<string>)
    ensures |r| == |Headers| == 7
    ensures r[0] == j.workerName.GetOr("") && r[1] == j.workerEmail.GetOr("") && r[2] == j.jobsiteName.GetOr("")
    ensures r[3] == iso(j.entry.startAt)
    ensures r[4] == (if j.entry.endAt.Some? then iso(j.entry.endAt.value) else "")
    ensures r[5] == "" <==> j.entry.durationMinutes.None?
    ensures j.entry.durationMinutes.Some? && j.entry.durationMinutes.value >= 0 ==>
              AllDigits(r[5]) && ParseNat(r[5]) == j.entry.durationMinutes.value
    ensures r[6] == StatusName(j.entry.status)
  {
    var d := j.entry.durationMinutes;
    assert d.Some? && d.value >= 0 ==> ParseNat(IntToString(d.value)) == d.value by {
      if d.Some? && d.value >= 0 {
        ParseNatToString(d.value);
      }
    }
    [ j.workerName.GetOr(""), j.workerEmail.GetOr(""), j.jobsiteName.GetOr(""),
      iso(j.entry.startAt),
      if j.entry.endAt.Some? then iso(j.entry.endAt.value) else "",
      if d.Some? then IntToString(d.value) else "",
      StatusName(j.entry.status) ]
  }

  /** A cell between double quotes; a quote inside the cell is not escaped. */
  function Quote(cell: string): string {
    "\"" + cell + "\""
  }

  /** The line of one row: its quoted cells joined by commas. */
  function QuotedLine(cells: seq<string>): string
  {
    if |cells| == 0 then ""
    else if |cells| == 1 then Quote(cells[0])
    else QuotedLine(cells[..|cells| - 1]) + "," + Quote(cells[|cells| - 1])
  }

  /** The whole document: the header line, then one line per row. */
  function Csv(lines: seq<seq<string>>): string {
    Join([Join(Headers, ",")] + QuotedLines(lines), "\n")
  }

  function QuotedLines(lines: seq<seq<string>>): (r: seq<string>)
    ensures |r| == |lines| && forall k :: 0 <= k < |r| ==> r[k] == QuotedLine(lines[k])
  {
    seq(|lines|, k requires 0 <= k < |lines| => QuotedLine(lines[k]))
  }

  /** The CSV body the endpoint sends for a query. */
  function CsvExport(rows: seq<Joined>, q: ExportQuery, iso: int -> string): string
  {
    Csv(ExportLines(rows, q, iso))
  }

  /** The cells of the selected entries, in export order. */
  function ExportLines(rows: seq<Joined>, q: ExportQuery, iso: int -> string): (r: seq<seq<string>>)
    ensures |r| == |ExportOrder(rows, q)|
    ensures forall k :: 0 <= k < |r| ==> r[k] == Cells(rows[ExportOrder(rows, q)[k]], iso)
  {
    var order := ExportOrder(rows, q);
    seq(|order|, k requires 0 <= k < |order| => Cells(rows[order[k]], iso))
  }

  /** Neither a line break nor a double quote in any cell. */
  predicate Plain(cells: seq<string>) {
    forall k :: 0 <= k < |cells| ==> '\n' !in cells[k] && '"' !in cells[k]
  }

  /** The pieces of a quoted line between its double quotes: an empty piece, the
      cells with a comma between each two, an empty piece. */
  function Pieces(cells: seq<string>): (r: seq<string>)
    requires |cells| >= 1
    ensures |r| == 2 * |cells| + 1
    ensures r[0] == "" && r[|r| - 1] == ""
  {
    if |cells| == 1 then ["", cells[0], ""]
    else
      var p := Pieces(cells[..|cells| - 1]);
      p[..|p| - 1] + [",", cells[|cells| - 1], ""]
  }

  /** The odd pieces are the cells, the inner even ones commas. */
  lemma {:induction false} PiecesShape(cells: seq<string>)
    requires |cells| >= 1
    ensures forall k :: 0 <= k < |Pieces(cells)| && k % 2 == 1 ==> Pieces(cells)[k] == cells[k / 2]
    ensures forall k :: 0 < k < |Pieces(cells)| - 1 && k % 2 == 0 ==> Pieces(cells)[k] == ","
  {
    if |cells| > 1 {
      PiecesShape(cells[..|cells| - 1]);
    }
  }

  lemma {:induction false} JoinSnoc(parts: seq<string>, a: string, sep: string)
    requires |parts| >= 1
    ensures Join(parts + [a], sep) == Join(parts, sep) + sep + a
  {
    assert (parts + [a])[..|parts|] == parts;
  }

  lemma {:induction false} PiecesJoinOne(c: string)
    ensures Join(["", c, ""], "\"") == Quote(c)
  {
    var q := "\"";
    JoinSnoc([""], c, q);
    JoinSnoc(["", c], "", q);
    assert [""] + [c] == ["", c];
    assert ["", c] + [""] == ["", c, ""];
    assert Join([""], q) == "";
  }

  /** Appending a comma, a cell and an empty piece after the pieces `head`. */
  lemma {:induction false} JoinNextCell(head: seq<string>, cell: string)
    requires |head| >= 1
    ensures Join(head + [",", cell, ""], "\"") == Join(head + [""], "\"") + "," + Quote(cell)
  {
    var q := "\"";
    var j := Join(head, q);
    JoinSnoc(head, "", q);
    JoinSnoc(head, ",", q);
    var h1 := head + [","];
    var h2 := h1 + [cell];
    JoinSnoc(h1, cell, q);
    JoinSnoc(h2, "", q);
    assert h2 + [""] == head + [",", cell, ""];
    assert Join(head + [""], q) == j + q;
    assert Join(h2 + [""], q) == j + q + "," + q + cell + q;
  }

  /** Joining the pieces at double quotes gives the quoted line back. */
  lemma {:induction false} PiecesJoin(cells: seq<string>)
    requires |cells| >= 1
    ensures Join(Pieces(cells), "\"") == QuotedLine(cells)
  {
    if |cells| == 1 {
      PiecesJoinOne(cells[0]);
    } else {
      var front := cells[..|cells| - 1];
      var p := Pieces(front);
      PiecesJoin(front);
      assert p == p[..|p| - 1] + [""];
      JoinNextCell(p[..|p| - 1], cells[|cells| - 1]);
    }
  }

  /** Reading a line back: split at the double quotes and keep the odd pieces,
      provided the even ones are the empty ends and the commas between. */
  function ParseLine(line: string): Option<seq<string>>
  {
    var p := Split(line, '"');
    if |p| >= 3 && |p| % 2 == 1 && p[0] == "" && p[|p| - 1] == ""
       && forall k :: 0 < k < |p| - 1 && k % 2 == 0 ==> p[k] == ","
    then Some(seq(|p| / 2, i requires 0 <= i < |p| / 2 => p[2 * i + 1]))
    else None
  }

  lemma PiecesHaveNoQuote(cells: seq<string>)
    requires |cells| >= 1 && forall k :: 0 <= k < |cells| ==> '"' !in cells[k]
    ensures forall k :: 0 <= k < |Pieces(cells)| ==> '"' !in Pieces(cells)[k]
  {
    var p := Pieces(cells);
    PiecesShape(cells);
    forall k | 0 <= k < |p|
      ensures '"' !in p[k]
    {
      if k % 2 == 1 {
        assert p[k] == cells[k / 2];
      }
    }
  }

  /** The pieces of a line parse back to its cells. */
  lemma ParsePieces(line: string, cells: seq<string>)
    requires |cells| >= 1 && Split(line, '"') == Pieces(cells)
    ensures ParseLine(line) == Some(cells)
  {
    var n := |cells|;
    var p := Pieces(cells);
    PiecesShape(cells);
    OddPosition(n);
    assert |p| / 2 == n && |p| % 2 == 1;
    var r := seq(n, i requires 0 <= i < n => p[2 * i + 1]);
    forall i | 0 <= i < n
      ensures r[i] == cells[i]
    {
      OddPosition(i);
    }
    assert r == cells;
  }

  /** Position 2i + 1 is odd and holds cell i. */
  lemma OddPosition(i: nat)
    ensures (2 * i + 1) % 2 == 1 && (2 * i + 1) / 2 == i
  {
  }

  /** A row none of whose cells holds a double quote is read back from its line. */
  lemma LineRoundTrip(cells: seq<string>)
    requires |cells| >= 1 && forall k :: 0 <= k < |cells| ==> '"' !in cells[k]
    ensures ParseLine(QuotedLine(cells)) == Some(cells)
  {
    PiecesHaveNoQuote(cells);
    PiecesJoin(cells);
    SplitJoin(Pieces(cells), '"');
    ParsePieces(QuotedLine(cells), cells);
  }

  /** Rows are not always read back: a cell holding `","` makes two different rows
      print the same line. */
  lemma UnescapedQuoteIsAmbiguous()
    ensures QuotedLine(["a\",\"b", "c"]) == QuotedLine(["a", "b\",\"c"])
    ensures ["a\",\"b", "c"] != ["a", "b\",\"c"]
  {
    assert ["a\",\"b", "c"][..1] == ["a\",\"b"];
    assert ["a", "b\",\"c"][..1] == ["a"];
  }

  /** A separator-free text joins into a separator-free text. */
  lemma {:induction false} NotInJoin(parts: seq<string>, sep: string, c: char)
    requires c !in sep && forall k :: 0 <= k < |parts| ==> c !in parts[k]
    ensures c !in Join(parts, sep)
  {
    if |parts| > 1 {
      NotInJoin(parts[..|parts| - 1], sep, c);
    }
  }

  lemma {:induction false} LineHasNoNewline(cells: seq<string>)
    requires forall k :: 0 <= k < |cells| ==> '\n' !in cells[k]
    ensures '\n' !in QuotedLine(cells)
  {
    if |cells| > 1 {
      LineHasNoNewline(cells[..|cells| - 1]);
    }
  }

  /** With no line break in any cell the document has one line per row after the
      header, each the row's quoted line. */
  lemma CsvLines(lines: seq<seq<string>>)
    requires forall i :: 0 <= i < |lines| ==> Plain(lines[i])
    ensures Split(Csv(lines), '\n') == [Join(Headers, ",")] + QuotedLines(lines)
    ensures |Split(Csv(lines), '\n')| == |lines| + 1
  {
    var all := [Join(Headers, ",")] + QuotedLines(lines);
    NotInJoin(Headers, ",", '\n');
    forall k | 0 <= k < |all|
      ensures '\n' !in all[k]
    {
      if k > 0 {
        LineHasNoNewline(lines[k - 1]);
      }
    }
    SplitJoin(all, '\n');
  }

  /** Reading the whole document back: the header line, then one row per line. */
  function ParseCsv(s: string): Option<seq<seq<string>>>
  {
    var p := Split(s, '\n');
    if p[0] != Join(Headers, ",") then None else ParseLines(p[1..])
  }

  function ParseLines(lines: seq<string>): Option<seq<seq<string>>>
  {
    if |lines| == 0 then Some([])
    else match (ParseLines(lines[..|lines| - 1]), ParseLine(lines[|lines| - 1]))
      case (Some(rows), Some(cells)) => Some(rows + [cells])
      case _ => None
  }

  /** Rows of at least one cell, with no double quote and no line break in any
      cell, are read back from the document. */
  lemma {:induction false} CsvRoundTrip(lines: seq<seq<string>>)
    requires forall i :: 0 <= i < |lines| ==> |lines[i]| >= 1 && Plain(lines[i])
    ensures ParseCsv(Csv(lines)) == Some(lines)
  {
    CsvLines(lines);
    assert ([Join(Headers, ",")] + QuotedLines(lines))[1..] == QuotedLines(lines);
    ParseQuotedLines(lines);
  }

  lemma {:induction false} ParseQuotedLines(lines: seq<seq<string>>)
    requires forall i :: 0 <= i < |lines| ==> |lines[i]| >= 1 && Plain(lines[i])
    ensures ParseLines(QuotedLines(lines)) == Some(lines)
  {
    if |lines| > 0 {
      var front := lines[..|lines| - 1];
      var last := lines[|lines| - 1];
      var quoted := QuotedLines(lines);
      assert quoted[..|quoted| - 1] == QuotedLines(front);
      assert quoted[|quoted| - 1] == QuotedLine(last);
      ParseQuotedLines(front);
      LineRoundTrip(last);
      assert ParseLines(quoted) == Some(front + [last]);
      assert front + [last] == lines;
    }
  }

  /** The export's document has a line per selected entry after the header, and
      those entries' cells, in export order, are read back from it when no cell holds
      a double quote or a line break. */
  lemma CsvExportRoundTrip(rows: seq<Joined>, q: ExportQuery, iso: int -> string)
    requires forall i :: 0 <= i < |rows| ==> Plain(Cells(rows[i], iso))
    ensures |Split(CsvExport(rows, q, iso), '\n')| == |ExportOrder(rows, q)| + 1
    ensures ParseCsv(CsvExport(rows, q, iso)) == Some(ExportLines(rows, q, iso))
  {
    var lines := ExportLines(rows, q, iso);
    assert forall i :: 0 <= i < |lines| ==> Plain(lines[i]);
    CsvLines(lines);
    CsvRoundTrip(lines);
  }

  // ---------------------------------------------------------------------------
  // PDF

  /** One row of the PDF table: names default to "Unknown", a missing end and a
      missing or zero duration print "N/A", the duration as "Hh Mm". */
  datatype PdfRow = PdfRow(worker: string, jobsite: string, start: string, end: string, duration: string, status: string)

  function OrUnknown(name: Option<string>): (r: string)
    ensures r == "Unknown" <==> name.None? || name.value == "" || name.value == "Unknown"
    ensures r != "Unknown" ==> name == Some(r)
  {
    if name.Some? && name.value != "" then name.value else "Unknown"
  }

  function PdfRowOf(j: Joined, local: int -> string): (r: PdfRow)
    ensures r.worker == OrUnknown(j.workerName) && r.jobsite == OrUnknown(j.jobsiteName)
    ensures r.start == local(j.entry.startAt)
    ensures r.end == if j.entry.endAt.Some? then local(j.entry.endAt.value) else "N/A"
    ensures r.duration == HoursMinutesText(j.entry.durationMinutes)
    ensures r.status == StatusName(j.entry.status)
  {
    PdfRow(OrUnknown(j.workerName), OrUnknown(j.jobsiteName), local(j.entry.startAt),
           if j.entry.endAt.Some? then local(j.entry.endAt.value) else "N/A",
           HoursMinutesText(j.entry.durationMinutes), StatusName(j.entry.status))
  }

  /** How many entries have status `s`. */
  function CountWithStatus(entries: seq<TimeEntry>, s: Status): (r: nat)
    ensures r <= |entries|
  {
    if |entries| == 0 then 0
    else CountWithStatus(entries[..|entries| - 1], s) + (if entries[|entries| - 1].status == s then 1 else 0)
  }

  /** The three statuses share out the entries. */
  lemma {:induction false} CountsAddUp(entries: seq<TimeEntry>)
    ensures CountWithStatus(entries, Pending) + CountWithStatus(entries, Approved)
            + CountWithStatus(entries, Disputed) == |entries|
  {
    if |entries| > 0 {
      CountsAddUp(entries[..|entries| - 1]);
    }
  }

  lemma {:induction false} CountPositive(entries: seq<TimeEntry>, s: Status)
    ensures CountWithStatus(entries, s) > 0 <==> exists i :: 0 <= i < |entries| && entries[i].status == s
  {
    if |entries| > 0 {
      var front := entries[..|entries| - 1];
      CountPositive(front, s);
      if exists i :: 0 <= i < |front| && front[i].status == s {
        var i :| 0 <= i < |front| && front[i].status == s;
        assert entries[i].status == s;
      }
      if exists i :: 0 <= i < |entries| && entries[i].status == s {
        var i :| 0 <= i < |entries| && entries[i].status == s;
        if i < |front| {
          assert front[i].status == s;
        }
      }
    }
  }

  /** The `byStatus` tally: a status appears exactly when some entry has it, with
      the number of entries that have it. */
  function ByStatus(entries: seq<TimeEntry>): (r: map<Status, nat>)
    ensures forall s :: s in r <==> exists i :: 0 <= i < |entries| && entries[i].status == s
    ensures forall s :: s in r ==> r[s] == CountWithStatus(entries, s) > 0
  {
    CountPositive(entries, Pending);
    CountPositive(entries, Approved);
    CountPositive(entries, Disputed);
    map s | s in {Pending, Approved, Disputed} && CountWithStatus(entries, s) > 0 :: CountWithStatus(entries, s)
  }

  /** The summary page: the number of entries, their minutes (a missing duration
      counting 0) and the tally by status. */
  datatype PdfSummary = PdfSummary(totalEntries: nat, totalMinutes: int, byStatus: map<Status, nat>)

  function Summary(entries: seq<TimeEntry>): (r: PdfSummary)
    ensures r.totalEntries == |entries|
    ensures r.totalMinutes == Stats.MinutesWithStatus(entries, Pending) + Stats.MinutesWithStatus(entries, Approved)
                              + Stats.MinutesWithStatus(entries, Disputed)
    ensures forall s :: s in r.byStatus <==> CountWithStatus(entries, s) > 0
    ensures forall s :: s in r.byStatus ==> r.byStatus[s] == CountWithStatus(entries, s)
    ensures (if Pending in r.byStatus then r.byStatus[Pending] else 0)
            + (if Approved in r.byStatus then r.byStatus[Approved] else 0)
            + (if Disputed in r.byStatus then r.byStatus[Disputed] else 0) == r.totalEntries
  {
    Stats.MinutesByStatusAddUp(entries);
    CountsAddUp(entries);
    PdfSummary(|entries|, Stats.TotalMinutes(entries), ByStatus(entries))
  }

  /** The entries of the selected rows, in export order. */
  function ExportedEntries(rows: seq<Joined>, q: ExportQuery): (r: seq<TimeEntry>)
    ensures |r| == |ExportOrder(rows, q)|
    ensures forall k :: 0 <= k < |r| ==> r[k] == rows[ExportOrder(rows, q)[k]].entry
  {
    var order := ExportOrder(rows, q);
    seq(|order|, k requires 0 <= k < |order| => rows[order[k]].entry)
  }

  /** The PDF report for a query: a row per selected entry in export order, then the
      summary of those entries: their count, their minutes and their tally by status. */
  function PdfExport(rows: seq<Joined>, q: ExportQuery, local: int -> string): (r: (seq<PdfRow>, PdfSummary))
    ensures |r.0| == |ExportOrder(rows, q)| == r.1.totalEntries
    ensures forall k :: 0 <= k < |r.0| ==> r.0[k] == PdfRowOf(rows[ExportOrder(rows, q)[k]], local)
    ensures r.1.totalMinutes == Stats.TotalMinutes(ExportedEntries(rows, q))
    ensures forall s :: s in r.1.byStatus ==> r.1.byStatus[s] == CountWithStatus(ExportedEntries(rows, q), s)
    ensures forall s :: s in r.1.byStatus <==> CountWithStatus(ExportedEntries(rows, q), s) > 0
  {
    var order := ExportOrder(rows, q);
    (seq(|order|, k requires 0 <= k < |order| => PdfRowOf(rows[order[k]], local)),
     Summary(ExportedEntries(rows, q)))
  }
}
