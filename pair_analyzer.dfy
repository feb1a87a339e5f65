/**
 * The all-pairs overlap analysis (`overlapDays`, `analyzeEmployeePairs`,
 * `findBestPair`). Every record pair i < j of different employees on the same
 * project that overlaps by at least one whole day contributes its days to the
 * pair's running total and one entry to the pair's detail list; the winner is
 * the first inserted pair with the greatest total.
 */
module PairAnalyzer {
  import opened Common
  import opened JsText
  import opened Types

  /** Milliseconds in a day (`DAY_MS`). */
  const DayMs: int := 1000 * 60 * 60 * 24

  function Max(x: int, y: int): int { if x >= y then x else y }
  function Min(x: int, y: int): int { if x <= y then x else y }

  /**
   * `overlapDays`: whole days in the intersection of the two ranges, measured
   * as a time difference, or 0 when the ranges do not meet.
   */
  function OverlapDays(a: RecordRow, b: RecordRow): (days: int)
    ensures days >= 0
  {
    var start := Max(a.from, b.from);
    var end := Min(a.to, b.to);
    if start <= end then (end - start) / DayMs else 0
  }

  /**
   * The overlap is symmetric; it is 0 when the later start is after the
   * earlier end; otherwise it is the floor of the intersection's length in
   * days, so a single shared instant (or anything under a day) gives 0.
   */
  lemma OverlapDaysSpec(a: RecordRow, b: RecordRow)
    ensures OverlapDays(a, b) == OverlapDays(b, a)
    ensures var start, end := Max(a.from, b.from), Min(a.to, b.to);
      && (start > end ==> OverlapDays(a, b) == 0)
      && (start <= end ==>
            OverlapDays(a, b) * DayMs <= end - start < (OverlapDays(a, b) + 1) * DayMs)
      && (end - start < DayMs ==> OverlapDays(a, b) == 0)
  {
  }

  /** `[a, b].sort()`: the two IDs in ascending order. */
  function SortedPair(a: string, b: string): PairKey {
    if Less(b, a) then (b, a) else (a, b)
  }

  /**
   * The key of a pair does not depend on which record came first, holds the
   * same two IDs, and for different IDs is strictly ascending.
   */
  lemma SortedPairCanonical(a: string, b: string)
    ensures SortedPair(a, b) == SortedPair(b, a)
    ensures {SortedPair(a, b).0, SortedPair(a, b).1} == {a, b}
    ensures a != b ==> Less(SortedPair(a, b).0, SortedPair(a, b).1)
  {
    LessTotal(a, b);
    LessAsymmetric(a, b);
  }

  /** Two keys are equal exactly when they are keys of the same unordered pair. */
  lemma SortedPairInjective(a: string, b: string, c: string, d: string)
    ensures SortedPair(a, b) == SortedPair(c, d) <==> (a == c && b == d) || (a == d && b == c)
  {
    SortedPairCanonical(a, b);
    SortedPairCanonical(c, d);
  }

  /** One contributing record pair: its key and its detail entry. */
  datatype Contribution = Contribution(key: PairKey, entry: ProjectDays)

  /** What the record pair (a, b) contributes, if anything. */
  function PairContribution(a: RecordRow, b: RecordRow): Option<Contribution> {
    if a.empId == b.empId || a.projectId != b.projectId then None
    else
      var days := OverlapDays(a, b);
      if days <= 0 then None
      else Some(Contribution(SortedPair(a.empId, b.empId), ProjectDays(a.projectId, days)))
  }

  /** The pair contributes exactly when the employees differ, the project is the same and the overlap is positive. */
  predicate Qualifies(a: RecordRow, b: RecordRow) {
    a.empId != b.empId && a.projectId == b.projectId && OverlapDays(a, b) > 0
  }

  lemma PairContributionSpec(a: RecordRow, b: RecordRow)
    ensures PairContribution(a, b).Some? <==> Qualifies(a, b)
    ensures PairContribution(a, b).Some? ==>
      PairContribution(a, b).value == Contribution(SortedPair(a.empId, b.empId), ProjectDays(a.projectId, OverlapDays(a, b)))
  {
  }

  /** What the single record pair (i, j) contributes: nothing or one entry. */
  function PairStep(recs: seq<RecordRow>, i: nat, j: nat): seq<Contribution>
    requires i < j < |recs|
  {
    match PairContribution(recs[i], recs[j])
    case None => []
    case Some(c) => [c]
  }

  /** The contributions of the pairs (i, i + 1), ..., (i, j - 1), in scan order. */
  function RowBefore(recs: seq<RecordRow>, i: nat, j: nat): seq<Contribution>
    requires i < j <= |recs|
    decreases j
  {
    if j == i + 1 then [] else RowBefore(recs, i, j - 1) + PairStep(recs, i, j - 1)
  }

  /** The contributions of every pair whose first record is at `i`. */
  function RowContribs(recs: seq<RecordRow>, i: nat): seq<Contribution>
    requires i < |recs|
  {
    RowBefore(recs, i, |recs|)
  }

  /** The contributions of every pair whose first record is before `i`, in scan order. */
  function ContribsBefore(recs: seq<RecordRow>, i: nat): seq<Contribution>
    requires i <= |recs|
  {
    if i == 0 then [] else ContribsBefore(recs, i - 1) + RowContribs(recs, i - 1)
  }

  /**
   * The two maps of `analyzeEmployeePairs`, keyed by sorted pair, with the
   * insertion order of their keys (the iteration order of a JavaScript Map).
   */
  datatype PairResult = PairResult(keys: seq<PairKey>, totals: map<PairKey, int>, details: map<PairKey, seq<ProjectDays>>)

  const NoPairs := PairResult([], map[], map[])

  /** One step of the scan: add the days to the key's total and push the entry onto its list. */
  function Add(t: PairResult, c: Contribution): PairResult {
    var key := c.key;
    PairResult(
      if key in t.totals then t.keys else t.keys + [key],
      t.totals[key := (if key in t.totals then t.totals[key] else 0) + c.entry.days],
      t.details[key := (if key in t.details then t.details[key] else []) + [c.entry]])
  }

  /** The maps after adding the first `n` contributions one after another. */
  function AccumulateUpTo(t: PairResult, cs: seq<Contribution>, n: nat): PairResult
    requires n <= |cs|
  {
    if n == 0 then t else Add(AccumulateUpTo(t, cs, n - 1), cs[n - 1])
  }

  /** The maps after adding the contributions one after another. */
  function Accumulate(t: PairResult, cs: seq<Contribution>): PairResult {
    AccumulateUpTo(t, cs, |cs|)
  }

  /** The maps `analyzeEmployeePairs` builds for a record list. */
  function Analyze(recs: seq<RecordRow>): PairResult {
    Accumulate(NoPairs, ContribsBefore(recs, |recs|))
  }

  /**
   * `analyzeEmployeePairs`: the outer loop of the i < j scan, updating the two
   * maps in place; the inner loop over j is `ScanRow`.
   */
  method AnalyzeEmployeePairs(records: seq<RecordRow>) returns (result: PairResult)
    ensures result == Analyze(records)
  {
    result := NoPairs;
    ghost var done: seq<Contribution> := [];
    var i := 0;
    while i < |records|
      invariant 0 <= i <= |records|
      invariant done == ContribsBefore(records, i)
      invariant result == Accumulate(NoPairs, done)
    {
      result := ScanRow(records, i, result);
      AccumulateAppend(NoPairs, done, RowContribs(records, i));
      done := done + RowContribs(records, i);
      i := i + 1;
    }
  }

  /** The inner loop of `analyzeEmployeePairs`: the pairs (i, j) for every j > i. */
  method ScanRow(records: seq<RecordRow>, i: nat, maps: PairResult) returns (maps': PairResult)
    requires i < |records|
    ensures maps' == Accumulate(maps, RowContribs(records, i))
  {
    maps' := maps;
    ghost var seen: seq<Contribution> := [];
    var j := i + 1;
    while j < |records|
      invariant i + 1 <= j <= |records|
      invariant seen == RowBefore(records, i, j)
      invariant maps' == Accumulate(maps, seen)
    {
      maps' := VisitPair(records, i, j, maps');
      AccumulateAppend(maps, seen, PairStep(records, i, j));
      seen := seen + PairStep(records, i, j);
      j := j + 1;
    }
  }

  /** The body of the inner loop for one record pair (i, j). */
  method VisitPair(records: seq<RecordRow>, i: nat, j: nat, maps: PairResult) returns (maps': PairResult)
    requires i < j < |records|
    ensures maps' == Accumulate(maps, PairStep(records, i, j))
  {
    maps' := maps;
    var a, b := records[i], records[j];
    if a.empId == b.empId || a.projectId != b.projectId {
      return;
    }
    var days := OverlapDays(a, b);
    if days <= 0 {
      return;
    }
    var key := SortedPair(a.empId, b.empId);
    maps' := Record(maps, key, ProjectDays(a.projectId, days));
    assert PairStep(records, i, j) == [Contribution(key, ProjectDays(a.projectId, days))];
    assert AccumulateUpTo(maps, PairStep(records, i, j), 0) == maps;
  }

  /**
   * Lines 111-115 of the scan: `totals.set(key, (totals.get(key) ?? 0) + days)`,
   * then an empty list for a new key in `details` and a push onto it; a new key
   * goes to the end of the insertion order.
   */
  method Record(maps: PairResult, key: PairKey, entry: ProjectDays) returns (maps': PairResult)
    ensures maps' == Add(maps, Contribution(key, entry))
  {
    var keys, totals, details := maps.keys, maps.totals, maps.details;
    if key !in totals {
      keys := keys + [key];
    }
    totals := totals[key := (if key in totals then totals[key] else 0) + entry.days];
    if key !in details {
      details := details[key := []];
    }
    details := details[key := details[key] + [entry]];
    maps' := PairResult(keys, totals, details);
  }

  /** Every key in the insertion order has a total and a detail list. */
  predicate KeysMapped(maps: PairResult) {
    forall k :: k in maps.keys ==> k in maps.totals && k in maps.details
  }

  /**
   * The key at index `w` of the insertion order wins: its total is positive
   * and the greatest, and every key before it has a strictly smaller total.
   */
  predicate IsWinner(maps: PairResult, w: int)
    requires KeysMapped(maps)
  {
    && 0 <= w < |maps.keys|
    && maps.totals[maps.keys[w]] > 0
    && (forall v :: 0 <= v < |maps.keys| ==> maps.totals[maps.keys[v]] <= maps.totals[maps.keys[w]])
    && (forall v :: 0 <= v < w ==> maps.totals[maps.keys[v]] < maps.totals[maps.keys[w]])
  }

  /**
   * `findBestPair`: scan the totals in insertion order, keeping a key only
   * when its total is strictly greater than the best so far (which starts at 0).
   */
  method FindBestPair(maps: PairResult) returns (best: Option<AnalysisResult>)
    requires KeysMapped(maps)
    ensures best.None? <==> forall v :: 0 <= v < |maps.keys| ==> maps.totals[maps.keys[v]] <= 0
    ensures best.Some? ==> exists w :: (IsWinner(maps, w)
      && best.value == AnalysisResult(maps.keys[w], maps.details[maps.keys[w]], maps.totals[maps.keys[w]]))
  {
    var bestKey: Option<PairKey> := None;
    var maxDays := 0;
    ghost var bestIndex := 0;
    var n := 0;
    while n < |maps.keys|
      invariant 0 <= n <= |maps.keys|
      invariant bestKey.None? ==> maxDays == 0 && forall v :: 0 <= v < n ==> maps.totals[maps.keys[v]] <= 0
      invariant bestKey.Some? ==>
        && bestIndex < n
        && bestKey.value == maps.keys[bestIndex]
        && maxDays == maps.totals[maps.keys[bestIndex]] > 0
        && (forall v :: 0 <= v < n ==> maps.totals[maps.keys[v]] <= maxDays)
        && (forall v :: 0 <= v < bestIndex ==> maps.totals[maps.keys[v]] < maxDays)
    {
      var key := maps.keys[n];
      var totalDays := maps.totals[key];
      if totalDays > maxDays {
        maxDays := totalDays;
        bestKey := Some(key);
        bestIndex := n;
      }
      n := n + 1;
    }
    if bestKey.None? {
      return None;
    }
    best := Some(AnalysisResult(bestKey.value, maps.details[bestKey.value], maxDays));
    assert IsWinner(maps, bestIndex);
  }

  /** At most one index wins, so a tie at the maximum goes to the first key inserted. */
  lemma WinnerUnique(maps: PairResult, w1: int, w2: int)
    requires KeysMapped(maps)
    requires IsWinner(maps, w1) && IsWinner(maps, w2)
    ensures w1 == w2
  {
  }

  /** Adding two runs of contributions is adding their concatenation. */
  lemma AccumulateAppend(t: PairResult, xs: seq<Contribution>, ys: seq<Contribution>)
    ensures Accumulate(t, xs + ys) == Accumulate(Accumulate(t, xs), ys)
  {
    UpToSuffix(t, xs, ys, |ys|);
    assert |xs + ys| == |xs| + |ys|;
  }

  lemma {:induction false} UpToPrefix(t: PairResult, xs: seq<Contribution>, ys: seq<Contribution>, n: nat)
    requires n <= |xs|
    ensures AccumulateUpTo(t, xs + ys, n) == AccumulateUpTo(t, xs, n)
  {
    if n > 0 {
      UpToPrefix(t, xs, ys, n - 1);
      assert (xs + ys)[n - 1] == xs[n - 1];
    }
  }

  lemma {:induction false} UpToSuffix(t: PairResult, xs: seq<Contribution>, ys: seq<Contribution>, n: nat)
    requires n <= |ys|
    ensures AccumulateUpTo(t, xs + ys, |xs| + n) == AccumulateUpTo(AccumulateUpTo(t, xs, |xs|), ys, n)
  {
    if n == 0 {
      UpToPrefix(t, xs, ys, |xs|);
    } else {
      UpToSuffix(t, xs, ys, n - 1);
      assert (xs + ys)[|xs| + n - 1] == ys[n - 1];
    }
  }
}
