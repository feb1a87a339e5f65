/**
 * The delimited-text reader (`getCSV`; `parseCSVRows` is the same code).
 * The text is trimmed and cut at "\n"; line k (0-based) is row k + 1, blank
 * lines included. A line that trims to nothing, or whose trimmed fields are
 * all empty, is skipped silently. Every other line is checked by
 * `checkRowErrors`; its errors are reported and it becomes a record only when
 * there are none. There is no quoting.
 */
module DelimitedParser {
  import opened Common
  import opened JsText
  import opened Types
  import opened Dates
  import opened RowValidator

  /** The records and errors collected from a text. */
  datatype Parsed = Parsed(records: seq<RecordRow>, errors: seq<CsvError>)

  /** The lines of the text: trimmed as a whole, then cut at each "\n". */
  function Lines(text: string): seq<string> {
    Split(Trim(text), "\n")
  }

  /** The fields of a line: cut at the delimiter, each trimmed. */
  function Columns(line: string, delimiter: string): seq<string> {
    TrimAll(Split(line, delimiter))
  }

  /** Each piece trimmed (`map((c) => c.trim())`). */
  function TrimAll(parts: seq<string>): seq<string> {
    if parts == [] then [] else [Trim(parts[0])] + TrimAll(parts[1..])
  }

  /** `every((c) => c === "")` */
  predicate AllEmpty(cols: seq<string>) {
    cols == [] || (cols[0] == "" && AllEmpty(cols[1..]))
  }

  /** A line that yields neither a record nor an error. */
  predicate Skipped(line: string, delimiter: string) {
    Trim(line) == [] || AllEmpty(Columns(line, delimiter))
  }

  /** What one line with row number `rowNum` contributes. */
  function LineOutcome(line: string, rowNum: int, delimiter: string, p: DateParser): Parsed {
    if Skipped(line, delimiter) then Parsed([], [])
    else
      var cols := Columns(line, delimiter);
      var from := ParseDate(p, Column(cols, 2));
      var to := ParseDate(p, Column(cols, 3));
      var errs := RowErrors(cols, rowNum, from, to);
      if |errs| > 0 || from.None? || to.None? then Parsed([], errs)
      else Parsed([RecordRow(cols[0], cols[1], from.value, to.value)], errs)
  }

  /** The outcome of every line, the first one numbered `first` and each next one a row further. */
  function OutcomesFrom(lines: seq<string>, first: int, delimiter: string, p: DateParser): (outs: seq<Parsed>)
    ensures |outs| == |lines|
  {
    if lines == [] then []
    else [LineOutcome(lines[0], first, delimiter, p)] + OutcomesFrom(lines[1..], first + 1, delimiter, p)
  }

  /** The outcome of every line, line k (0-based) numbered k + 1. */
  function Outcomes(lines: seq<string>, delimiter: string, p: DateParser): (outs: seq<Parsed>)
    ensures |outs| == |lines|
  {
    OutcomesFrom(lines, 1, delimiter, p)
  }

  lemma {:induction false} OutcomeAt(lines: seq<string>, first: int, k: nat, delimiter: string, p: DateParser)
    requires k < |lines|
    ensures OutcomesFrom(lines, first, delimiter, p)[k] == LineOutcome(lines[k], first + k, delimiter, p)
    decreases k
  {
    if k > 0 {
      OutcomeAt(lines[1..], first + 1, k - 1, delimiter, p);
    }
  }

  /** The outcomes `i..` put together in order. */
  function Concat(outs: seq<Parsed>, i: nat): Parsed
    requires i <= |outs|
    decreases |outs| - i
  {
    if i == |outs| then Parsed([], [])
    else
      var rest := Concat(outs, i + 1);
      Parsed(outs[i].records + rest.records, outs[i].errors + rest.errors)
  }

  /** The outcome of a whole text. */
  function ParseText(text: string, delimiter: string, p: DateParser): Parsed {
    Concat(Outcomes(Lines(text), delimiter, p), 0)
  }

  /**
   * The per-line callback, given the lines and the position of one of them:
   * what it pushes onto `records` and `errors` for that line.
   */
  method VisitLine(lines: seq<string>, index: nat, delimiter: string, p: DateParser)
    returns (records: seq<RecordRow>, errors: seq<CsvError>)
    requires index < |lines|
    ensures Parsed(records, errors) == Outcomes(lines, delimiter, p)[index]
  {
    OutcomeAt(lines, 1, index, delimiter, p);
    var line := lines[index];
    var rowNum := index + 1;
    records, errors := [], [];
    if Trim(line) == [] {
      return;
    }
    var cols := Columns(line, delimiter);
    if AllEmpty(cols) {
      return;
    }
    var fromRaw, toRaw := Column(cols, 2), Column(cols, 3);
    var from := ParseDate(p, fromRaw);
    var to := ParseDate(p, toRaw);
    var rowErrors := CheckRowErrors(cols, rowNum, from, to);
    errors := errors + rowErrors;
    if |rowErrors| > 0 || from.None? || to.None? {
      return;
    }
    records := records + [RecordRow(cols[0], cols[1], from.value, to.value)];
  }

  /** `getCSV`: one pass over the lines, appending each line's records and errors. */
  method GetCsv(text: string, delimiter: string, p: DateParser)
    returns (records: seq<RecordRow>, errors: seq<CsvError>)
    ensures Parsed(records, errors) == ParseText(text, delimiter, p)
  {
    var lines := Lines(text);
    ghost var outs := Outcomes(lines, delimiter, p);
    records, errors := [], [];
    var index := 0;
    while index < |lines|
      invariant 0 <= index <= |lines|
      invariant records + Concat(outs, index).records == Concat(outs, 0).records
      invariant errors + Concat(outs, index).errors == Concat(outs, 0).errors
    {
      var lineRecords, lineErrors := VisitLine(lines, index, delimiter, p);
      errors := errors + lineErrors;
      records := records + lineRecords;
      index := index + 1;
    }
  }

  /**
   * A non-skipped line yields a record exactly when it has no errors; the
   * record holds columns 0 and 1 and the two parsed dates, and its errors are
   * those of the row checks. A skipped line yields nothing.
   */
  lemma LineRecordIffNoErrors(line: string, rowNum: int, delimiter: string, p: DateParser)
    ensures var out := LineOutcome(line, rowNum, delimiter, p);
      && (Skipped(line, delimiter) ==> out == Parsed([], []))
      && (!Skipped(line, delimiter) ==>
            var cols := Columns(line, delimiter);
            var from := ParseDate(p, Column(cols, 2));
            var to := ParseDate(p, Column(cols, 3));
            && out.errors == RowErrors(cols, rowNum, from, to)
            && (out.records != [] <==> out.errors == [])
            && (out.records != [] ==>
                  out.records == [RecordRow(cols[0], cols[1], from.value, to.value)]))
  {
    if !Skipped(line, delimiter) {
      var cols := Columns(line, delimiter);
      NoErrorsIff(cols, rowNum, ParseDate(p, Column(cols, 2)), ParseDate(p, Column(cols, 3)));
    }
  }

  predicate RecordsValid(recs: seq<RecordRow>) {
    forall k :: 0 <= k < |recs| ==> recs[k].empId != "" && recs[k].projectId != "" && recs[k].from <= recs[k].to
  }

  /** At most one record, and every error tagged with the line's row number. */
  predicate Tagged(out: Parsed, rowNum: int) {
    |out.records| <= 1 && forall m :: 0 <= m < |out.errors| ==> out.errors[m].row == rowNum
  }

  /** One line: its outcome is tagged with its row, its record is valid, and a skipped line yields nothing. */
  lemma LineFacts(line: string, rowNum: int, delimiter: string, p: DateParser)
    ensures var out := LineOutcome(line, rowNum, delimiter, p);
      && Tagged(out, rowNum)
      && RecordsValid(out.records)
      && (Skipped(line, delimiter) ==> out == Parsed([], []))
  {
    if !Skipped(line, delimiter) {
      var cols := Columns(line, delimiter);
      var from, to := ParseDate(p, Column(cols, 2)), ParseDate(p, Column(cols, 3));
      NoErrorsIff(cols, rowNum, from, to);
      if |cols| >= 4 {
        RowErrorsShape(cols, rowNum, from, to);
      }
    }
  }

  lemma {:induction false} ConcatRecordsValid(outs: seq<Parsed>, i: nat)
    requires i <= |outs|
    requires forall k :: 0 <= k < |outs| ==> RecordsValid(outs[k].records)
    ensures RecordsValid(Concat(outs, i).records)
    decreases |outs| - i
  {
    if i < |outs| {
      ConcatRecordsValid(outs, i + 1);
    }
  }

  /** Every error names a row from `lo` to `|outs|` whose outcome is not empty. */
  predicate ErrorRowsWithin(errs: seq<CsvError>, lo: int, outs: seq<Parsed>) {
    forall m :: 0 <= m < |errs| ==> 1 <= lo <= errs[m].row <= |outs| && outs[errs[m].row - 1] != Parsed([], [])
  }

  predicate RowsSorted(errs: seq<CsvError>) {
    forall m, n :: 0 <= m < n < |errs| ==> errs[m].row <= errs[n].row
  }

  lemma {:induction false} ConcatErrorRows(outs: seq<Parsed>, i: nat)
    requires i <= |outs|
    requires forall k :: 0 <= k < |outs| ==> Tagged(outs[k], k + 1)
    ensures ErrorRowsWithin(Concat(outs, i).errors, i + 1, outs)
    ensures RowsSorted(Concat(outs, i).errors)
    decreases |outs| - i
  {
    if i < |outs| {
      ConcatErrorRows(outs, i + 1);
      assert Tagged(outs[i], i + 1);
      var here, rest := outs[i].errors, Concat(outs, i + 1).errors;
      var errs := here + rest;
      assert errs == Concat(outs, i).errors;
      forall m | 0 <= m < |errs|
        ensures i + 1 <= errs[m].row <= |outs| && outs[errs[m].row - 1] != Parsed([], [])
      {
        if m < |here| {
          assert errs[m] == here[m] && here[m].row == i + 1;
        } else {
          assert errs[m] == rest[m - |here|];
        }
      }
      forall m, n | 0 <= m < n < |errs|
        ensures errs[m].row <= errs[n].row
      {
        if m < |here| {
          assert errs[m] == here[m] && here[m].row == i + 1;
        } else {
          assert errs[m] == rest[m - |here|];
        }
        if n < |here| {
          assert errs[n] == here[n] && here[n].row == i + 1;
        } else {
          assert errs[n] == rest[n - |here|];
        }
      }
    }
  }

  /** The positions, from `i` on, of the outcomes that hold a record. */
  function RecordPositions(outs: seq<Parsed>, i: nat): seq<nat>
    requires i <= |outs|
    decreases |outs| - i
  {
    if i == |outs| then []
    else (if outs[i].records != [] then [i] else []) + RecordPositions(outs, i + 1)
  }

  lemma {:induction false} ConcatRecordOrder(outs: seq<Parsed>, i: nat)
    requires i <= |outs|
    requires forall k :: 0 <= k < |outs| ==> |outs[k].records| <= 1
    ensures var recs := Concat(outs, i).records;
      var at := RecordPositions(outs, i);
      && |at| == |recs|
      && (forall k :: 0 <= k < |at| ==> i <= at[k] < |outs| && outs[at[k]].records == [recs[k]])
      && (forall k, m :: 0 <= k < m < |at| ==> at[k] < at[m])
    decreases |outs| - i
  {
    if i < |outs| {
      ConcatRecordOrder(outs, i + 1);
      assert |outs[i].records| <= 1;
    }
  }

  /** The facts of `LineFacts`, for every line of a text. */
  lemma AllLineFacts(lines: seq<string>, delimiter: string, p: DateParser)
    ensures forall k :: 0 <= k < |lines| ==>
      && Tagged(Outcomes(lines, delimiter, p)[k], k + 1)
      && RecordsValid(Outcomes(lines, delimiter, p)[k].records)
      && (Outcomes(lines, delimiter, p)[k] != Parsed([], []) ==> !Skipped(lines[k], delimiter))
  {
    var outs := Outcomes(lines, delimiter, p);
    forall k | 0 <= k < |lines|
      ensures Tagged(outs[k], k + 1) && RecordsValid(outs[k].records)
      ensures outs[k] != Parsed([], []) ==> !Skipped(lines[k], delimiter)
    {
      OutcomeAt(lines, 1, k, delimiter, p);
      LineFacts(lines[k], k + 1, delimiter, p);
    }
  }

  /** Every record of a text has both IDs and a range that is not inverted. */
  lemma RecordsAreValid(text: string, delimiter: string, p: DateParser)
    ensures RecordsValid(ParseText(text, delimiter, p).records)
  {
    AllLineFacts(Lines(text), delimiter, p);
    ConcatRecordsValid(Outcomes(Lines(text), delimiter, p), 0);
  }

  /**
   * Row numbers are 1-based line positions after the whole text is trimmed:
   * every error names a row in 1..|lines| whose line was not skipped, and
   * errors come in non-decreasing row order.
   */
  lemma ErrorRowsAreLinePositions(text: string, delimiter: string, p: DateParser)
    ensures var lines := Lines(text);
      var errs := ParseText(text, delimiter, p).errors;
      && (forall m :: 0 <= m < |errs| ==> 1 <= errs[m].row <= |lines| && !Skipped(lines[errs[m].row - 1], delimiter))
      && (forall m, n :: 0 <= m < n < |errs| ==> errs[m].row <= errs[n].row)
  {
    AllLineFacts(Lines(text), delimiter, p);
    ConcatErrorRows(Outcomes(Lines(text), delimiter, p), 0);
  }

  /**
   * Records keep the line order: the k-th record is the record of the k-th
   * line that yields one (line m's outcome is `Outcomes(lines, ...)[m]`, see
   * `OutcomeAt`), and those lines come in increasing order.
   */
  lemma RecordsKeepLineOrder(text: string, delimiter: string, p: DateParser)
    ensures var outs := Outcomes(Lines(text), delimiter, p);
      var recs := ParseText(text, delimiter, p).records;
      var at := RecordPositions(outs, 0);
      && |at| == |recs|
      && (forall k :: 0 <= k < |at| ==> at[k] < |outs| && outs[at[k]].records == [recs[k]])
      && (forall k, m :: 0 <= k < m < |at| ==> at[k] < at[m])
  {
    AllLineFacts(Lines(text), delimiter, p);
    ConcatRecordOrder(Outcomes(Lines(text), delimiter, p), 0);
  }

  /** An empty date column is read as "now", so it is never reported as an invalid date. */
  lemma EmptyDateColumnIsNeverInvalid(line: string, rowNum: int, delimiter: string, p: DateParser)
    requires !Skipped(line, delimiter)
    requires |Columns(line, delimiter)| >= 4
    ensures var cols := Columns(line, delimiter);
      var errs := LineOutcome(line, rowNum, delimiter, p).errors;
      && (cols[2] == "" ==> forall k :: 0 <= k < |errs| ==> !errs[k].kind.InvalidDateFrom?)
      && (cols[3] == "" ==> forall k :: 0 <= k < |errs| ==> !errs[k].kind.InvalidDateTo?)
  {
  }
}
