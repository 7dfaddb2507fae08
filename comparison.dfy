/** The measurement harness and the comparator behind the "Run Comparison"
    button: each candidate is timed RUNS times on the same data, the samples
    are reduced to their median, a winner is chosen, and one row is appended
    to the experiment log; plus the row layout of the CSV export.
    The host clock is replaced by the elapsed times it would have measured,
    given as parameters, one per timed run. */
module Comparison {
  import opened Outcomes
  import opened MaxAlgorithms
  import opened Statistics
  import opened NumberText

  /** How many times each candidate is timed. */
  const RUNS: nat := 5

  /** The recursion limit the program configures. */
  const RECURSION_LIMIT: nat := 3000

  datatype Winner = Iterative | Recursive | Failed

  /** One row of the experiment log: input size, the two median times in
      nanoseconds (0 for a recursive run that failed), and the winner. */
  datatype Record = Record(size: nat, iterNs: int, recurNs: int, winner: Winner)

  /** What one comparison run shows: both maxima (the recursive one may have
      run past the depth ceiling) and the row it logs. */
  datatype Report = Report(iterValue: int, recurValue: Outcome<int>, record: Record)

  /** The winner of two successful measurements: Iterative only when it is
      strictly faster, so equal times go to Recursive. */
  function Decide(timeI: int, timeR: int): (w: Winner)
    ensures w == Iterative <==> timeI < timeR
    ensures w == Recursive <==> timeR <= timeI
  {
    if timeI < timeR then Iterative else Recursive
  }

  /** Time the iterative candidate RUNS times; `durations[i]` is what the
      clock measured for run i. Gives the maximum and the median time. */
  method MeasureIterative(data: seq<int>, durations: seq<int>) returns (value: int, time: int)
    requires |data| > 0 && |durations| == RUNS
    ensures IsMax(data, value)
    ensures time == Median(durations)
  {
    var times: seq<int> := [];
    value := data[0];
    for run := 0 to RUNS
      invariant times == durations[..run]
      invariant run > 0 ==> IsMax(data, value)
    {
      value := FindMaxIterative(data);
      times := times + [durations[run]];
    }
    assert times == durations;
    time := Median(times);
  }

  /** Time the recursive candidate RUNS times under the depth ceiling. The
      first run that exceeds the ceiling abandons the remaining runs and the
      time is reported as 0; otherwise the time is the median of the samples. */
  method MeasureRecursive(data: seq<int>, durations: seq<int>, ceiling: nat) returns (value: Outcome<int>, time: int)
    requires |data| > 0 && |durations| == RUNS
    ensures value == if |data| > ceiling then DepthExceeded else Success(SeqMax(data))
    ensures time == if value.DepthExceeded? then 0 else Median(durations)
  {
    RecursiveAgreesWithIterative(data, ceiling);
    var times: seq<int> := [];
    value := DepthExceeded;
    for run := 0 to RUNS
      invariant times == durations[..run]
      invariant run > 0 ==> value == FindMaxRecursive(data, ceiling) && value.Success?
    {
      value := FindMaxRecursive(data, ceiling);
      if value.DepthExceeded? {
        time := 0;
        return;
      }
      times := times + [durations[run]];
    }
    assert times == durations;
    time := Median(times);
  }

  /** What one comparison run of `data` must report: the true maximum from
      the iterative candidate, the input size, the iterative median; then
      either the recursive failure (time 0, winner Failed) when the data is
      longer than the ceiling, or the same maximum from the recursive
      candidate, its median, and the winner by strict comparison. */
  predicate ReportOf(data: seq<int>, iterDurations: seq<int>, recurDurations: seq<int>, ceiling: nat, report: Report)
    requires |iterDurations| == RUNS && |recurDurations| == RUNS
  {
    var rec := report.record;
    && IsMax(data, report.iterValue)
    && rec.size == |data|
    && rec.iterNs == Median(iterDurations)
    && if |data| > ceiling then
         report.recurValue == DepthExceeded && rec.recurNs == 0 && rec.winner == Failed
       else
         && report.recurValue == Success(report.iterValue)
         && rec.recurNs == Median(recurDurations)
         && rec.winner == Decide(rec.iterNs, rec.recurNs)
  }

  /** The comparator: measure both candidates on the same data and assemble
      the report and its log row. */
  method Compare(data: seq<int>, iterDurations: seq<int>, recurDurations: seq<int>, ceiling: nat)
    returns (report: Report)
    requires |data| > 0 && |iterDurations| == RUNS && |recurDurations| == RUNS
    ensures ReportOf(data, iterDurations, recurDurations, ceiling, report)
  {
    var resI, timeI := MeasureIterative(data, iterDurations);
    var resR, timeR := MeasureRecursive(data, recurDurations, ceiling);
    var winner := if resR.DepthExceeded? then Failed else Decide(timeI, timeR);
    MaxUnique(data, resI, SeqMax(data));
    report := Report(resI, resR, Record(|data|, timeI, timeR, winner));
  }

  /** The winner is Failed exactly when the data is longer than the ceiling,
      and a report never names the slower candidate: Iterative wins only when
      strictly faster, Recursive when at least as fast. */
  lemma WinnerMeaning(data: seq<int>, iterDurations: seq<int>, recurDurations: seq<int>, ceiling: nat, report: Report)
    requires |iterDurations| == RUNS && |recurDurations| == RUNS
    requires ReportOf(data, iterDurations, recurDurations, ceiling, report)
    ensures report.record.winner == Failed <==> |data| > ceiling
    ensures report.record.winner == Iterative <==>
              |data| <= ceiling && Median(iterDurations) < Median(recurDurations)
    ensures report.record.winner == Recursive <==>
              |data| <= ceiling && Median(recurDurations) <= Median(iterDurations)
  {
  }

  /** The numbers of the start-up entry text "10, 5, 100, 2, 8" (see
      NumberText.DefaultEntryAccepted): both candidates find 100, and the
      recursive one does not fail, whatever ceiling the configured limit
      leaves to the algorithm, as long as it has room for five frames.
      RECURSION_LIMIT bounds that ceiling from above, since the frames
      already running count against it too. */
  lemma DefaultEntryScenario(iterDurations: seq<int>, recurDurations: seq<int>, ceiling: nat, report: Report)
    requires |iterDurations| == RUNS && |recurDurations| == RUNS
    requires 5 <= ceiling <= RECURSION_LIMIT
    requires ReportOf([10, 5, 100, 2, 8], iterDurations, recurDurations, ceiling, report)
    ensures report.iterValue == 100 && report.recurValue == Success(100)
    ensures report.record.size == 5 && report.record.winner != Failed
  {
    var data := [10, 5, 100, 2, 8];
    assert IsMax(data, 100) by {
      assert data[2] == 100;
    }
    MaxUnique(data, 100, report.iterValue);
  }

  // ---------------------------------------------------------------- the log and its export

  /** The experiment history table: rows in the order the runs happened. */
  class ExperimentLog {
    var rows: seq<Record>

    constructor ()
      ensures rows == []
    {
      rows := [];
    }

    /** Add one row at the end; the earlier rows stay as they were. */
    method Append(r: Record)
      modifies this
      ensures rows == old(rows) + [r]
    {
      rows := rows + [r];
    }

    /** The table the export writes: the header, then one row per log row,
        in log order. */
    method Export() returns (table: seq<seq<string>>)
      ensures IsExportOf(table, rows)
    {
      table := [Header()];
      for i := 0 to |rows|
        invariant IsExportOf(table, rows[..i])
      {
        ExportExtends(table, rows[..i], rows[i]);
        assert rows[..i + 1] == rows[..i] + [rows[i]];
        table := table + [FormatRecord(rows[i])];
      }
      assert rows[..|rows|] == rows;
    }
  }

  /** One comparison run: read the numbers from the entry text, compare the
      candidates, and log the row. Refused text logs nothing. */
  method RunComparison(log: ExperimentLog, text: string, iterDurations: seq<int>, recurDurations: seq<int>, ceiling: nat)
    returns (outcome: Result<Report, ParseError>)
    requires |iterDurations| == RUNS && |recurDurations| == RUNS
    modifies log
    ensures outcome.Err? <==> ParseNumbers(text).Err?
    ensures outcome.Err? ==> outcome.error == ParseNumbers(text).error && log.rows == old(log.rows)
    ensures outcome.Ok? ==>
              && ReportOf(ParseNumbers(text).value, iterDurations, recurDurations, ceiling, outcome.value)
              && log.rows == old(log.rows) + [outcome.value.record]
  {
    match ParseNumbers(text)
    case Err(e) =>
      outcome := Err(e);
    case Ok(data) =>
      var report := Compare(data, iterDurations, recurDurations, ceiling);
      log.Append(report.record);
      outcome := Ok(report);
  }

  function WinnerName(w: Winner): (name: string)
    ensures ParseWinner(name) == Some(w)
  {
    match w
    case Iterative => "Iterative"
    case Recursive => "Recursive"
    case Failed => "Failed"
  }

  function ParseWinner(name: string): Option<Winner> {
    if name == "Iterative" then Some(Iterative)
    else if name == "Recursive" then Some(Recursive)
    else if name == "Failed" then Some(Failed)
    else None
  }

  /** The header row of the export. */
  function Header(): (h: seq<string>)
    ensures |h| == 4
  {
    [ "Input Size",
      "Iterative Median Time (ns) over " + IntToString(RUNS),
      "Recursive Median Time (ns) over " + IntToString(RUNS),
      "Winner" ]
  }

  /** The fields of one exported row: size, iterative ns, recursive ns,
      winner. Reading them back gives the same record. */
  function FormatRecord(r: Record): (fields: seq<string>)
    ensures |fields| == 4 && ParseRecord(fields) == Some(r)
  {
    ParseIntToString(r.size);
    ParseIntToString(r.iterNs);
    ParseIntToString(r.recurNs);
    [IntToString(r.size), IntToString(r.iterNs), IntToString(r.recurNs), WinnerName(r.winner)]
  }

  /** The header reads "... over 5" in its two time columns, and it cannot
      be read back as a row, so a reader tells it from the data. */
  lemma HeaderText()
    ensures Header() == [ "Input Size",
                          "Iterative Median Time (ns) over 5",
                          "Recursive Median Time (ns) over 5",
                          "Winner" ]
    ensures ParseRecord(Header()) == None
  {
    assert IntToString(RUNS) == "5";
    assert "Iterative Median Time (ns) over " + "5" == "Iterative Median Time (ns) over 5";
    assert "Recursive Median Time (ns) over " + "5" == "Recursive Median Time (ns) over 5";
    assert ParseInt("Input Size") == None by {
      assert !IsDigit("Input Size"[0]);
    }
  }

  /** `table` is the export of `rows`: the header, then each row formatted, in order. */
  predicate IsExportOf(table: seq<seq<string>>, rows: seq<Record>) {
    && |table| == |rows| + 1
    && table[0] == Header()
    && forall k :: 0 <= k < |rows| ==> table[k + 1] == FormatRecord(rows[k])
  }

  /** Writing one more row extends the export by that row's fields. */
  lemma ExportExtends(table: seq<seq<string>>, rows: seq<Record>, r: Record)
    requires IsExportOf(table, rows)
    ensures IsExportOf(table + [FormatRecord(r)], rows + [r])
  {
    var t, rs := table + [FormatRecord(r)], rows + [r];
    forall k | 0 <= k < |rs| ensures t[k + 1] == FormatRecord(rs[k]) {
      if k < |rows| {
        assert t[k + 1] == table[k + 1] && rs[k] == rows[k];
      }
    }
  }

  /** Read one exported row back. */
  function ParseRecord(fields: seq<string>): Option<Record> {
    if |fields| != 4 then None
    else
      match (ParseInt(fields[0]), ParseInt(fields[1]), ParseInt(fields[2]), ParseWinner(fields[3]))
      case (Some(n), Some(a), Some(b), Some(w)) => if n >= 0 then Some(Record(n, a, b, w)) else None
      case _ => None
  }

  function ParseRows(lines: seq<seq<string>>): Option<seq<Record>> {
    if lines == [] then Some([])
    else
      match (ParseRecord(lines[0]), ParseRows(lines[1..]))
      case (Some(r), Some(rs)) => Some([r] + rs)
      case _ => None
  }

  /** Read an exported table back: the header, then the rows. */
  function ParseTable(table: seq<seq<string>>): Option<seq<Record>> {
    if table == [] || table[0] != Header() then None else ParseRows(table[1..])
  }

  lemma {:induction false} ParseRowsFormat(lines: seq<seq<string>>, rows: seq<Record>)
    requires |lines| == |rows|
    requires forall k :: 0 <= k < |rows| ==> lines[k] == FormatRecord(rows[k])
    ensures ParseRows(lines) == Some(rows)
  {
    if rows != [] {
      ParseRowsFormat(lines[1..], rows[1..]);
      assert ParseRecord(lines[0]) == Some(rows[0]);
      assert [rows[0]] + rows[1..] == rows;
    }
  }

  /** Export round trip: reading the exported table back gives the logged
      rows, in the same order. */
  lemma ExportRoundTrip(table: seq<seq<string>>, rows: seq<Record>)
    requires IsExportOf(table, rows)
    ensures ParseTable(table) == Some(rows)
  {
    ParseRowsFormat(table[1..], rows);
  }
}
