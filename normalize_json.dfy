/**
 * The field-alias normaliser for decoded JSON and spreadsheet rows
 * (`normalizeRecord`; the analyzer's private copy is the same code). Each
 * logical field is the first of its alias keys whose value is neither null
 * nor undefined (`??`); the two IDs must then be truthy and both dates must
 * parse, or the row is dropped.
 */
module NormalizeJson {
  import opened Common
  import opened JsText
  import opened Types
  import opened Dates

  /** A decoded scalar field value. JSON numbers are taken as integers here. */
  datatype Json = JNull | JString(s: string) | JNumber(n: int) | JBool(b: bool)

  /** A decoded row: a key absent from the map reads as `undefined`. */
  type RawRecord = map<string, Json>

  const EmpIdKeys: seq<string> := ["empId", "employeeId", "employeeID", "emp_id", "EmpID"]
  const ProjectIdKeys: seq<string> := ["projectId", "projectID", "ProjectId", "ProjectID"]
  const FromKeys: seq<string> := ["from", "dateFrom", "DateFrom", "startDate", "start_date"]
  const ToKeys: seq<string> := ["to", "dateTo", "DateTo", "endDate", "end_date"]

  /** The field is undefined or null, so `??` passes over it. */
  predicate Nullish(r: RawRecord, key: string) {
    key !in r || r[key] == JNull
  }

  /**
   * `r[k0] ?? r[k1] ?? ...`: the value of the first key that is neither null
   * nor undefined, or `None` when every key is (the chain's null or undefined
   * result, which every later use treats alike).
   */
  function Coalesce(r: RawRecord, keys: seq<string>): (v: Option<Json>)
    ensures v.None? <==> forall i :: 0 <= i < |keys| ==> Nullish(r, keys[i])
    ensures v.Some? ==> exists i :: 0 <= i < |keys| && FirstPresent(r, keys, i) && v.value == r[keys[i]]
  {
    if keys == [] then None
    else if !Nullish(r, keys[0]) then Some(r[keys[0]])
    else
      var v := Coalesce(r, keys[1..]);
      assert forall i :: 1 <= i < |keys| ==> keys[i] == keys[1..][i - 1];
      if v.Some? then
        var i :| 0 <= i < |keys[1..]| && FirstPresent(r, keys[1..], i) && v.value == r[keys[1..][i]];
        assert FirstPresent(r, keys, i + 1);
        v
      else v
  }

  /** Key `i` is present and not null, and every key before it is null or undefined. */
  predicate FirstPresent(r: RawRecord, keys: seq<string>, i: nat)
    requires i < |keys|
  {
    !Nullish(r, keys[i]) && forall j :: 0 <= j < i ==> Nullish(r, keys[j])
  }

  /** JavaScript falsiness of a possibly undefined value (NaN is not modelled). */
  predicate Falsy(v: Option<Json>) {
    match v
    case None => true
    case Some(JNull) => true
    case Some(JString(s)) => s == ""
    case Some(JNumber(n)) => n == 0
    case Some(JBool(b)) => !b
  }

  /** The number a run of decimal digits spells, most significant digit first. */
  function DigitsValue(s: string): int
    decreases |s|
  {
    if s == [] then 0 else DigitsValue(s[..|s| - 1]) * 10 + (s[|s| - 1] as int - '0' as int)
  }

  /**
   * The decimal numeral of a natural number: digits only, spelling exactly
   * `n`. This is `String(n)` below 2^53; from there on JavaScript's numbers
   * are doubles, and `String` prints the shortest digits that read back as
   * the same double (exponent form from 10^21), which is not modelled.
   */
  function NatToDecimal(n: nat): (r: string)
    ensures r != []
    ensures forall i :: 0 <= i < |r| ==> '0' <= r[i] <= '9'
    ensures DigitsValue(r) == n
    decreases n
  {
    var d := ['0' + (n % 10) as char];
    if n < 10 then d
    else
      var high := NatToDecimal(n / 10);
      assert (high + d)[..|high + d| - 1] == high;
      high + d
  }

  /** `String(v)` for the values that reach it. */
  function ToText(v: Json): string {
    match v
    case JNull => "null"
    case JString(s) => s
    case JNumber(n) => if n < 0 then "-" + NatToDecimal(-n) else NatToDecimal(n)
    case JBool(b) => if b then "true" else "false"
  }

  /**
   * `String` of a number is injective, so IDs given as different numbers stay
   * different after normalisation.
   */
  lemma NumberTextInjective(m: int, n: int)
    requires ToText(JNumber(m)) == ToText(JNumber(n))
    ensures m == n
  {
    var tm, tn := ToText(JNumber(m)), ToText(JNumber(n));
    NumberTextSign(m);
    NumberTextSign(n);
    if m < 0 && n < 0 {
      var dm, dn := NatToDecimal(-m), NatToDecimal(-n);
      assert tm == "-" + dm && tm[1..] == dm;
      assert tn == "-" + dn && tn[1..] == dn;
    } else if m >= 0 && n >= 0 {
      assert NatToDecimal(m) == tm == tn == NatToDecimal(n);
    }
  }

  /** `String` of a number starts with "-" exactly when the number is negative. */
  lemma NumberTextSign(n: int)
    ensures ToText(JNumber(n)) != [] && (ToText(JNumber(n))[0] == '-' <==> n < 0)
  {
    if n >= 0 {
      assert '0' <= NatToDecimal(n)[0] <= '9';
    }
  }

  /**
   * `parseDate` applied to a raw field: a falsy value means "now" (`!value`);
   * text goes through the parser; any other truthy value makes
   * `value.toUpperCase()` raise a TypeError.
   */
  function ParseRawDate(p: DateParser, raw: Option<Json>): Result<Option<int>, FileError> {
    if Falsy(raw) then Success(Some(p.now))
    else match raw.value
      case JString(s) => Success(ParseDate(p, s))
      case _ => Failure(DateNotText)
  }

  /**
   * `normalizeRecord`: both dates are parsed first (either may raise); then
   * the row is dropped unless both IDs are truthy and both dates parsed.
   */
  function NormalizeRecord(r: RawRecord, p: DateParser): Result<Option<RecordRow>, FileError> {
    var empId := Coalesce(r, EmpIdKeys);
    var projectId := Coalesce(r, ProjectIdKeys);
    var fromRaw := Coalesce(r, FromKeys);
    var toRaw := Coalesce(r, ToKeys);
    match ParseRawDate(p, fromRaw)
    case Failure(e) => Failure(e)
    case Success(from) =>
      match ParseRawDate(p, toRaw)
      case Failure(e) => Failure(e)
      case Success(to) =>
        if Falsy(empId) || Falsy(projectId) || from.None? || to.None? then Success(None)
        else Success(Some(RecordRow(ToText(empId.value), ToText(projectId.value), from.value, to.value)))
  }

  /** A raw date field that makes `parseDate` raise: truthy and not text. */
  predicate RaisesInParse(raw: Option<Json>) {
    !Falsy(raw) && !raw.value.JString?
  }

  /**
   * Normalisation raises exactly when a resolved date field is truthy but not
   * text; the start date is parsed first, so its error is the one reported.
   */
  lemma NormalizeRaisesIff(r: RawRecord, p: DateParser)
    ensures NormalizeRecord(r, p).Failure? <==>
      RaisesInParse(Coalesce(r, FromKeys)) || RaisesInParse(Coalesce(r, ToKeys))
    ensures NormalizeRecord(r, p).Failure? ==> NormalizeRecord(r, p).error == DateNotText
  {
  }

  /**
   * A row that does not raise is dropped exactly when a resolved ID is falsy
   * or a resolved date does not parse.
   */
  lemma NormalizeDropsIff(r: RawRecord, p: DateParser)
    requires NormalizeRecord(r, p).Success?
    ensures NormalizeRecord(r, p).value.None? <==>
      || Falsy(Coalesce(r, EmpIdKeys)) || Falsy(Coalesce(r, ProjectIdKeys))
      || ParseRawDate(p, Coalesce(r, FromKeys)) == Success(None)
      || ParseRawDate(p, Coalesce(r, ToKeys)) == Success(None)
  {
  }

  /**
   * A kept row holds the text of the resolved IDs, neither of them empty, and
   * exactly the parsed dates.
   */
  lemma NormalizedFields(r: RawRecord, p: DateParser)
    requires NormalizeRecord(r, p).Success? && NormalizeRecord(r, p).value.Some?
    ensures var rec := NormalizeRecord(r, p).value.value;
      && rec.empId == ToText(Coalesce(r, EmpIdKeys).value) && rec.empId != ""
      && rec.projectId == ToText(Coalesce(r, ProjectIdKeys).value) && rec.projectId != ""
      && ParseRawDate(p, Coalesce(r, FromKeys)) == Success(Some(rec.from))
      && ParseRawDate(p, Coalesce(r, ToKeys)) == Success(Some(rec.to))
  {
    TextOfTruthy(Coalesce(r, EmpIdKeys).value);
    TextOfTruthy(Coalesce(r, ProjectIdKeys).value);
  }

  /** `String(v)` of a truthy value is never empty. */
  lemma TextOfTruthy(v: Json)
    requires !Falsy(Some(v))
    ensures ToText(v) != ""
  {
  }

  /**
   * `??` skips only null and undefined: when the first present alias of an
   * ID is falsy (for example `""`), every later alias is hidden behind it,
   * and a row whose dates do not raise is dropped.
   */
  lemma EmptyAliasShadowsLaterOnes(r: RawRecord, p: DateParser, keys: seq<string>, i: nat)
    requires keys == EmpIdKeys || keys == ProjectIdKeys
    requires i < |keys| && FirstPresent(r, keys, i) && Falsy(Some(r[keys[i]]))
    requires !RaisesInParse(Coalesce(r, FromKeys)) && !RaisesInParse(Coalesce(r, ToKeys))
    ensures NormalizeRecord(r, p) == Success(None)
  {
    var v := Coalesce(r, keys);
    var i' :| 0 <= i' < |keys| && FirstPresent(r, keys, i') && v.value == r[keys[i']];
    assert i' == i;
  }

  /**
   * A row with every date alias null or undefined, and both IDs truthy, is
   * kept with both dates "now" rather than dropped.
   */
  lemma MissingDatesAreNow(r: RawRecord, p: DateParser)
    requires forall i :: 0 <= i < |FromKeys| ==> Nullish(r, FromKeys[i])
    requires forall i :: 0 <= i < |ToKeys| ==> Nullish(r, ToKeys[i])
    requires !Falsy(Coalesce(r, EmpIdKeys)) && !Falsy(Coalesce(r, ProjectIdKeys))
    ensures NormalizeRecord(r, p) == Success(Some(RecordRow(
      ToText(Coalesce(r, EmpIdKeys).value), ToText(Coalesce(r, ProjectIdKeys).value), p.now, p.now)))
  {
  }

  /**
   * No range check is made: with truthy IDs and two parsed dates the row is
   * kept with exactly those dates, whichever of them is later.
   */
  lemma KeptWhateverTheOrder(r: RawRecord, p: DateParser, from: int, to: int)
    requires !Falsy(Coalesce(r, EmpIdKeys)) && !Falsy(Coalesce(r, ProjectIdKeys))
    requires ParseRawDate(p, Coalesce(r, FromKeys)) == Success(Some(from))
    requires ParseRawDate(p, Coalesce(r, ToKeys)) == Success(Some(to))
    ensures NormalizeRecord(r, p) == Success(Some(RecordRow(
      ToText(Coalesce(r, EmpIdKeys).value), ToText(Coalesce(r, ProjectIdKeys).value), from, to)))
  {
  }

  /** `rows.map(normalizeRecord)`: every row normalised in order; the first one that raises aborts the map. */
  function NormalizeEach(rows: seq<RawRecord>, p: DateParser): Result<seq<Option<RecordRow>>, FileError> {
    if rows == [] then Success([])
    else
      match NormalizeRecord(rows[0], p)
      case Failure(e) => Failure(e)
      case Success(first) =>
        match NormalizeEach(rows[1..], p)
        case Failure(e) => Failure(e)
        case Success(rest) => Success([first] + rest)
  }

  /** `filter(Boolean)`: the records of the rows that were not dropped, in order. */
  function KeepPresent(xs: seq<Option<RecordRow>>): seq<RecordRow> {
    if xs == [] then []
    else (if xs[0].Some? then [xs[0].value] else []) + KeepPresent(xs[1..])
  }

  /** `rows.map(normalizeRecord).filter(Boolean)`. */
  function NormalizeAll(rows: seq<RawRecord>, p: DateParser): Result<seq<RecordRow>, FileError> {
    match NormalizeEach(rows, p)
    case Failure(e) => Failure(e)
    case Success(xs) => Success(KeepPresent(xs))
  }

  /**
   * The map fails exactly when some row raises; otherwise it holds one entry
   * per row, that row's normalisation.
   */
  lemma {:induction false} NormalizeEachSpec(rows: seq<RawRecord>, p: DateParser)
    ensures NormalizeEach(rows, p).Failure? <==> exists k :: 0 <= k < |rows| && NormalizeRecord(rows[k], p).Failure?
    ensures NormalizeEach(rows, p).Success? ==>
      && |NormalizeEach(rows, p).value| == |rows|
      && forall k :: 0 <= k < |rows| ==> NormalizeRecord(rows[k], p) == Success(NormalizeEach(rows, p).value[k])
  {
    if rows != [] {
      NormalizeEachSpec(rows[1..], p);
      if NormalizeEach(rows, p).Failure? && NormalizeRecord(rows[0], p).Success? {
        var k :| 0 <= k < |rows[1..]| && NormalizeRecord(rows[1..][k], p).Failure?;
        assert rows[k + 1] == rows[1..][k];
      }
      if exists k :: 0 <= k < |rows| && NormalizeRecord(rows[k], p).Failure? {
        var k :| 0 <= k < |rows| && NormalizeRecord(rows[k], p).Failure?;
        if k > 0 {
          assert rows[1..][k - 1] == rows[k];
        }
      }
      if NormalizeEach(rows, p).Success? {
        var xs := NormalizeEach(rows, p).value;
        forall k | 0 <= k < |rows|
          ensures NormalizeRecord(rows[k], p) == Success(xs[k])
        {
          if k > 0 {
            assert rows[1..][k - 1] == rows[k];
          }
        }
      }
    }
  }

  /** The list fails exactly when some row raises. */
  lemma NormalizeAllFailsIff(rows: seq<RawRecord>, p: DateParser)
    ensures NormalizeAll(rows, p).Failure? <==> exists k :: 0 <= k < |rows| && NormalizeRecord(rows[k], p).Failure?
  {
    NormalizeEachSpec(rows, p);
  }

  /** The positions, from `i` on, of the entries that hold a record. */
  function PresentPositions(xs: seq<Option<RecordRow>>, i: nat): seq<nat>
    requires i <= |xs|
    decreases |xs| - i
  {
    if i == |xs| then []
    else (if xs[i].Some? then [i] else []) + PresentPositions(xs, i + 1)
  }

  /**
   * The filter keeps exactly the present entries, in order: the k-th record
   * is the k-th present entry, and every present entry is kept.
   */
  lemma {:induction false} KeepPresentOrder(xs: seq<Option<RecordRow>>, i: nat)
    requires i <= |xs|
    ensures var recs := KeepPresent(xs[i..]);
      var at := PresentPositions(xs, i);
      && |recs| == |at| <= |xs| - i
      && (forall k :: 0 <= k < |at| ==> i <= at[k] < |xs| && xs[at[k]] == Some(recs[k]))
      && (forall k, m :: 0 <= k < m < |at| ==> at[k] < at[m])
      && (forall j :: i <= j < |xs| && xs[j].Some? ==> j in at)
    decreases |xs| - i
  {
    if i < |xs| {
      assert xs[i..][0] == xs[i] && xs[i..][1..] == xs[i + 1..];
      assert KeepPresent(xs[i..]) == (if xs[i].Some? then [xs[i].value] else []) + KeepPresent(xs[i + 1..]);
      assert PresentPositions(xs, i) == (if xs[i].Some? then [i] else []) + PresentPositions(xs, i + 1);
      KeepPresentOrder(xs, i + 1);
    }
  }

  /** The row normalises to a record, neither raising nor being dropped. */
  predicate KeptRow(r: RawRecord, p: DateParser) {
    NormalizeRecord(r, p).Success? && NormalizeRecord(r, p).value.Some?
  }

  /**
   * Otherwise the list is the kept rows' records, in row order: with `at` the
   * positions of the kept rows, the k-th record is the normalisation of row
   * `at[k]`, every kept row is among them, and each record has both IDs.
   */
  lemma NormalizeAllKept(rows: seq<RawRecord>, p: DateParser)
    requires NormalizeAll(rows, p).Success?
    ensures NormalizeEach(rows, p).Success?
    ensures var recs := NormalizeAll(rows, p).value;
      var at := PresentPositions(NormalizeEach(rows, p).value, 0);
      && |recs| == |at| <= |rows|
      && (forall k :: 0 <= k < |at| ==> at[k] < |rows| && NormalizeRecord(rows[at[k]], p) == Success(Some(recs[k])))
      && (forall k, m :: 0 <= k < m < |at| ==> at[k] < at[m])
      && (forall j :: 0 <= j < |rows| && KeptRow(rows[j], p) ==> j in at)
      && (forall k :: 0 <= k < |recs| ==> recs[k].empId != "" && recs[k].projectId != "")
  {
    NormalizeEachSpec(rows, p);
    var xs := NormalizeEach(rows, p).value;
    assert xs[0..] == xs;
    KeepPresentOrder(xs, 0);
    var recs := NormalizeAll(rows, p).value;
    var at := PresentPositions(xs, 0);
    forall k | 0 <= k < |recs|
      ensures recs[k].empId != "" && recs[k].projectId != ""
    {
      NormalizedFields(rows[at[k]], p);
    }
  }
}
