/** The per-row checks of a delimited row (`checkRowErrors`). */
module RowValidator {
  import opened Common
  import opened Types

  /**
   * Column `i`, or "" past the end: destructuring a short array yields
   * `undefined`, which every later use of it treats exactly like "".
   */
  function Column(cols: seq<string>, i: nat): string {
    if i < |cols| then cols[i] else ""
  }

  /**
   * The errors of one row: a short row gets only "not enough columns";
   * otherwise each independent check, in its fixed order, adds at most one.
   */
  function RowErrors(cols: seq<string>, rowNum: int, from: Option<int>, to: Option<int>): seq<CsvError> {
    if |cols| < 4 then [CsvError(rowNum, NotEnoughColumns)]
    else
      (if cols[0] == "" then [CsvError(rowNum, MissingEmployeeId)] else [])
      + (if cols[1] == "" then [CsvError(rowNum, MissingProjectId)] else [])
      + (if from.None? then [CsvError(rowNum, InvalidDateFrom(cols[2]))] else [])
      + (if to.None? then [CsvError(rowNum, InvalidDateTo(cols[3]))] else [])
      + (if from.Some? && to.Some? && from.value > to.value then [CsvError(rowNum, DateFromAfterDateTo)] else [])
  }

  /** `checkRowErrors`, pushing onto a local list with one early exit. */
  method CheckRowErrors(cols: seq<string>, rowNum: int, from: Option<int>, to: Option<int>)
    returns (errors: seq<CsvError>)
    ensures errors == RowErrors(cols, rowNum, from, to)
  {
    errors := [];
    if |cols| < 4 {
      errors := errors + [CsvError(rowNum, NotEnoughColumns)];
      return;
    }
    if cols[0] == "" {
      errors := errors + [CsvError(rowNum, MissingEmployeeId)];
    }
    if cols[1] == "" {
      errors := errors + [CsvError(rowNum, MissingProjectId)];
    }
    if from.None? {
      errors := errors + [CsvError(rowNum, InvalidDateFrom(cols[2]))];
    }
    if to.None? {
      errors := errors + [CsvError(rowNum, InvalidDateTo(cols[3]))];
    }
    if from.Some? && to.Some? && from.value > to.value {
      errors := errors + [CsvError(rowNum, DateFromAfterDateTo)];
    }
  }

  /** The position of each kind in the fixed order of the checks. */
  function Rank(k: ErrorKind): nat {
    match k
    case NotEnoughColumns => 0
    case MissingEmployeeId => 1
    case MissingProjectId => 2
    case InvalidDateFrom(_) => 3
    case InvalidDateTo(_) => 4
    case DateFromAfterDateTo => 5
  }

  /** A row with fewer than four columns gets exactly one error and no other check runs. */
  lemma ShortRowHasOnlyColumnError(cols: seq<string>, rowNum: int, from: Option<int>, to: Option<int>)
    requires |cols| < 4
    ensures RowErrors(cols, rowNum, from, to) == [CsvError(rowNum, NotEnoughColumns)]
  {
  }

  /**
   * With four or more columns: at most four errors, each tagged with the row,
   * in the fixed order of the checks (so no kind twice), and never the
   * column-count error.
   */
  lemma RowErrorsShape(cols: seq<string>, rowNum: int, from: Option<int>, to: Option<int>)
    requires |cols| >= 4
    ensures var errs := RowErrors(cols, rowNum, from, to);
      && |errs| <= 4
      && (forall i :: 0 <= i < |errs| ==> errs[i].row == rowNum && errs[i].kind != NotEnoughColumns)
      && (forall i, j :: 0 <= i < j < |errs| ==> Rank(errs[i].kind) < Rank(errs[j].kind))
  {
  }

  /** Each check reports exactly when its condition holds. */
  lemma RowErrorsMembership(cols: seq<string>, rowNum: int, from: Option<int>, to: Option<int>)
    requires |cols| >= 4
    ensures var errs := RowErrors(cols, rowNum, from, to);
      && (CsvError(rowNum, MissingEmployeeId) in errs <==> cols[0] == "")
      && (CsvError(rowNum, MissingProjectId) in errs <==> cols[1] == "")
      && (CsvError(rowNum, InvalidDateFrom(cols[2])) in errs <==> from.None?)
      && (CsvError(rowNum, InvalidDateTo(cols[3])) in errs <==> to.None?)
      && (CsvError(rowNum, DateFromAfterDateTo) in errs <==> from.Some? && to.Some? && from.value > to.value)
  {
    var e1 := if cols[0] == "" then [CsvError(rowNum, MissingEmployeeId)] else [];
    var e2 := if cols[1] == "" then [CsvError(rowNum, MissingProjectId)] else [];
    var e3 := if from.None? then [CsvError(rowNum, InvalidDateFrom(cols[2]))] else [];
    var e4 := if to.None? then [CsvError(rowNum, InvalidDateTo(cols[3]))] else [];
    var e5 := if from.Some? && to.Some? && from.value > to.value then [CsvError(rowNum, DateFromAfterDateTo)] else [];
    var errs := RowErrors(cols, rowNum, from, to);
    assert errs == e1 + e2 + e3 + e4 + e5;
    forall x ensures x in errs <==> x in e1 || x in e2 || x in e3 || x in e4 || x in e5 {
    }
  }

  /** An invalid date and an inverted range are never reported together. */
  lemma InvalidDateExcludesInvertedRange(cols: seq<string>, rowNum: int, from: Option<int>, to: Option<int>)
    ensures var errs := RowErrors(cols, rowNum, from, to);
      forall i, j :: 0 <= i < |errs| && 0 <= j < |errs| && errs[j].kind == DateFromAfterDateTo ==>
        !errs[i].kind.InvalidDateFrom? && !errs[i].kind.InvalidDateTo?
  {
  }

  /** A row is error-free exactly when it has four columns, both IDs, both dates, and from <= to. */
  lemma NoErrorsIff(cols: seq<string>, rowNum: int, from: Option<int>, to: Option<int>)
    ensures RowErrors(cols, rowNum, from, to) == [] <==>
      |cols| >= 4 && cols[0] != "" && cols[1] != "" && from.Some? && to.Some? && from.value <= to.value
  {
  }
}
