/**
 * What the pair scan guarantees about the maps it builds: one key set shared
 * by the insertion order and both maps, each total the sum of its detail list,
 * one detail entry per contributing record pair, keys only for qualifying
 * pairs, and keys in the order their first contributing pair was scanned.
 */
module PairProperties {
  import opened Common
  import opened JsText
  import opened Types
  import opened PairAnalyzer

  /** The sum of the days of a detail list. */
  function SumDays(es: seq<ProjectDays>): int
    decreases |es|
  {
    if es == [] then 0 else SumDays(es[..|es| - 1]) + es[|es| - 1].days
  }

  /** The detail entries that the contributions give to `key`, in order. */
  function EntriesFor(cs: seq<Contribution>, key: PairKey): seq<ProjectDays>
    decreases |cs|
  {
    if cs == [] then []
    else
      EntriesFor(cs[..|cs| - 1], key)
      + (if cs[|cs| - 1].key == key then [cs[|cs| - 1].entry] else [])
  }

  /** No key is listed twice. */
  predicate Distinct(keys: seq<PairKey>) {
    forall a, b :: 0 <= a < b < |keys| ==> keys[a] != keys[b]
  }

  /**
   * The shape the scan keeps: the insertion order lists each key of the two
   * maps once, the maps have the same keys, and each total is the sum of its list.
   */
  ghost predicate WellFormed(t: PairResult) {
    && Distinct(t.keys)
    && (forall k :: k in t.totals <==> k in t.keys)
    && (forall k :: k in t.details <==> k in t.keys)
    && (forall k :: k in t.keys ==> t.totals[k] == SumDays(t.details[k]))
  }

  /** `key` occurs among the contributions, at an index where `other` has not occurred yet. */
  predicate SeenBefore(cs: seq<Contribution>, key: PairKey, other: PairKey) {
    exists m :: 0 <= m < |cs| && cs[m].key == key && NotUpTo(cs, other, m)
  }

  /** `key` does not occur among the contributions at indices 0..m. */
  predicate NotUpTo(cs: seq<Contribution>, key: PairKey, m: int) {
    forall m' :: 0 <= m' <= m && m' < |cs| ==> cs[m'].key != key
  }

  lemma SumDaysSnoc(es: seq<ProjectDays>, e: ProjectDays)
    ensures SumDays(es + [e]) == SumDays(es) + e.days
  {
    assert (es + [e])[..|es|] == es;
  }

  lemma AccumulateSnoc(t: PairResult, cs: seq<Contribution>, c: Contribution)
    ensures Accumulate(t, cs + [c]) == Add(Accumulate(t, cs), c)
  {
    AccumulateAppend(t, cs, [c]);
    assert AccumulateUpTo(Accumulate(t, cs), [c], 0) == Accumulate(t, cs);
  }

  /** One step of the scan keeps the shape. */
  lemma AddKeepsWellFormed(t: PairResult, c: Contribution)
    requires WellFormed(t)
    ensures WellFormed(Add(t, c))
  {
    var t' := Add(t, c);
    if c.key in t.totals {
      SumDaysSnoc(t.details[c.key], c.entry);
    } else {
      SumDaysSnoc([], c.entry);
      forall a, b | 0 <= a < b < |t'.keys|
        ensures t'.keys[a] != t'.keys[b]
      {
        if b == |t.keys| {
          assert t'.keys[a] in t.keys;
        }
      }
    }
  }

  /**
   * Whatever the contributions, the maps built from them are well formed, a
   * key is present exactly when some contribution carries it, and its detail
   * list holds the entries of those contributions in order.
   */
  lemma {:induction false} AccumulateFacts(cs: seq<Contribution>)
    ensures WellFormed(Accumulate(NoPairs, cs))
    ensures forall k :: k in Accumulate(NoPairs, cs).keys <==> EntriesFor(cs, k) != []
    ensures forall k :: k in Accumulate(NoPairs, cs).details ==> Accumulate(NoPairs, cs).details[k] == EntriesFor(cs, k)
    decreases |cs|
  {
    if cs == [] {
      assert Accumulate(NoPairs, cs) == NoPairs;
    } else {
      var init, c := cs[..|cs| - 1], cs[|cs| - 1];
      assert cs == init + [c];
      AccumulateFacts(init);
      AccumulateSnoc(NoPairs, init, c);
      AddKeepsWellFormed(Accumulate(NoPairs, init), c);
    }
  }

  /** `EntriesFor` is non-empty exactly when some contribution carries the key. */
  lemma {:induction false} EntriesNonEmpty(cs: seq<Contribution>, key: PairKey)
    ensures EntriesFor(cs, key) != [] <==> exists m :: 0 <= m < |cs| && cs[m].key == key
    decreases |cs|
  {
    if cs != [] {
      var init := cs[..|cs| - 1];
      EntriesNonEmpty(init, key);
      if EntriesFor(init, key) != [] {
        var m :| 0 <= m < |init| && init[m].key == key;
        assert cs[m].key == key;
      }
    }
  }

  /** Every entry listed for a key comes from a contribution with that key. */
  lemma {:induction false} EntriesFrom(cs: seq<Contribution>, key: PairKey, e: ProjectDays)
    requires e in EntriesFor(cs, key)
    ensures exists m :: 0 <= m < |cs| && cs[m] == Contribution(key, e)
    decreases |cs|
  {
    var init := cs[..|cs| - 1];
    if e in EntriesFor(init, key) {
      EntriesFrom(init, key, e);
      var m :| 0 <= m < |init| && init[m] == Contribution(key, e);
      assert cs[m] == Contribution(key, e);
    } else {
      assert cs[|cs| - 1] == Contribution(key, e);
    }
  }

  /** Every contribution of a row comes from one of its qualifying pairs ... */
  lemma {:induction false} RowBeforeSound(recs: seq<RecordRow>, i: nat, j: nat, c: Contribution)
    requires i < j <= |recs|
    requires c in RowBefore(recs, i, j)
    ensures exists m :: i < m < j && PairContribution(recs[i], recs[m]) == Some(c)
    decreases j
  {
    if c in RowBefore(recs, i, j - 1) {
      RowBeforeSound(recs, i, j - 1, c);
    } else {
      assert PairContribution(recs[i], recs[j - 1]) == Some(c);
    }
  }

  /** ... and every qualifying pair of the row contributes. */
  lemma {:induction false} RowBeforeComplete(recs: seq<RecordRow>, i: nat, m: nat, j: nat, c: Contribution)
    requires i < m < j <= |recs|
    requires PairContribution(recs[i], recs[m]) == Some(c)
    ensures c in RowBefore(recs, i, j)
    decreases j
  {
    if m < j - 1 {
      RowBeforeComplete(recs, i, m, j - 1, c);
    } else {
      assert c in PairStep(recs, i, m);
    }
  }

  /** Every contribution of the rows before `n` comes from one of their qualifying pairs ... */
  lemma {:induction false} ContribsBeforeSound(recs: seq<RecordRow>, n: nat, c: Contribution)
    requires n <= |recs|
    requires c in ContribsBefore(recs, n)
    ensures exists i, m :: 0 <= i < n && i < m < |recs| && PairContribution(recs[i], recs[m]) == Some(c)
    decreases n
  {
    if c in ContribsBefore(recs, n - 1) {
      ContribsBeforeSound(recs, n - 1, c);
      var i, m :| 0 <= i < n - 1 && i < m < |recs| && PairContribution(recs[i], recs[m]) == Some(c);
      assert 0 <= i < n;
    } else {
      RowBeforeSound(recs, n - 1, |recs|, c);
      var m :| n - 1 < m < |recs| && PairContribution(recs[n - 1], recs[m]) == Some(c);
      assert 0 <= n - 1 < n;
    }
  }

  /** ... and every qualifying pair of those rows contributes. */
  lemma {:induction false} ContribsBeforeComplete(recs: seq<RecordRow>, i: nat, m: nat, n: nat, c: Contribution)
    requires i < n <= |recs| && i < m < |recs|
    requires PairContribution(recs[i], recs[m]) == Some(c)
    ensures c in ContribsBefore(recs, n)
    decreases n
  {
    if i < n - 1 {
      ContribsBeforeComplete(recs, i, m, n - 1, c);
    } else {
      RowBeforeComplete(recs, i, m, |recs|, c);
    }
  }

  /** The contributions of the whole scan. */
  function Contribs(recs: seq<RecordRow>): seq<Contribution> {
    ContribsBefore(recs, |recs|)
  }

  /**
   * A contribution of the scan is exactly the key and entry of a record pair
   * i < j with different employees, the same project and a positive overlap.
   */
  lemma ContribsAreQualifyingPairs(recs: seq<RecordRow>, c: Contribution)
    ensures c in Contribs(recs)
       <==> exists i, j :: 0 <= i < j < |recs| && Qualifies(recs[i], recs[j])
              && c == Contribution(SortedPair(recs[i].empId, recs[j].empId),
                                   ProjectDays(recs[i].projectId, OverlapDays(recs[i], recs[j])))
  {
    if c in Contribs(recs) {
      ContribsBeforeSound(recs, |recs|, c);
      var i, j :| 0 <= i < |recs| && i < j < |recs| && PairContribution(recs[i], recs[j]) == Some(c);
      PairContributionSpec(recs[i], recs[j]);
    } else {
      forall i, j | 0 <= i < j < |recs| && Qualifies(recs[i], recs[j])
        ensures c != Contribution(SortedPair(recs[i].empId, recs[j].empId),
                                  ProjectDays(recs[i].projectId, OverlapDays(recs[i], recs[j])))
      {
        PairContributionSpec(recs[i], recs[j]);
        if c == PairContribution(recs[i], recs[j]).value {
          ContribsBeforeComplete(recs, i, j, |recs|, c);
        }
      }
    }
  }

  /**
   * `analyzeEmployeePairs` returns well-formed maps: `totals` and `details`
   * have the same keys, each total is the sum of the days in its list, and
   * that list holds one entry per contributing record pair, in scan order.
   */
  lemma AnalyzeWellFormed(recs: seq<RecordRow>)
    ensures WellFormed(Analyze(recs))
    ensures forall k :: k in Analyze(recs).details ==> Analyze(recs).details[k] == EntriesFor(Contribs(recs), k)
  {
    AccumulateFacts(Contribs(recs));
  }

  /** A key is present exactly when some record pair qualifies for it. */
  lemma AnalyzeKeys(recs: seq<RecordRow>, k: PairKey)
    ensures k in Analyze(recs).totals
       <==> exists i, j :: 0 <= i < j < |recs| && Qualifies(recs[i], recs[j])
              && SortedPair(recs[i].empId, recs[j].empId) == k
  {
    var cs := Contribs(recs);
    AccumulateFacts(cs);
    EntriesNonEmpty(cs, k);
    if k in Analyze(recs).totals {
      var m :| 0 <= m < |cs| && cs[m].key == k;
      ContribsAreQualifyingPairs(recs, cs[m]);
    } else {
      forall i, j | 0 <= i < j < |recs| && Qualifies(recs[i], recs[j])
        ensures SortedPair(recs[i].empId, recs[j].empId) != k
      {
        var c := Contribution(SortedPair(recs[i].empId, recs[j].empId),
                              ProjectDays(recs[i].projectId, OverlapDays(recs[i], recs[j])));
        ContribsAreQualifyingPairs(recs, c);
        var m :| 0 <= m < |cs| && cs[m] == c;
      }
    }
  }

  /** Every contribution has a positive day count and a key in strictly ascending order. */
  lemma ContribsPositive(recs: seq<RecordRow>, c: Contribution)
    requires c in Contribs(recs)
    ensures c.entry.days > 0 && Less(c.key.0, c.key.1)
  {
    ContribsAreQualifyingPairs(recs, c);
    var i, j :| 0 <= i < j < |recs| && Qualifies(recs[i], recs[j])
      && c == Contribution(SortedPair(recs[i].empId, recs[j].empId),
                           ProjectDays(recs[i].projectId, OverlapDays(recs[i], recs[j])));
    SortedPairCanonical(recs[i].empId, recs[j].empId);
  }

  lemma {:induction false} SumDaysPositive(es: seq<ProjectDays>)
    requires es != []
    requires forall n :: 0 <= n < |es| ==> es[n].days > 0
    ensures SumDays(es) > 0
    decreases |es|
  {
    var init := es[..|es| - 1];
    if init != [] {
      SumDaysPositive(init);
    }
  }

  /**
   * Every key holds two different IDs in ascending order, every detail entry
   * has a positive day count and every total is positive.
   */
  lemma AnalyzePositive(recs: seq<RecordRow>, k: PairKey)
    requires k in Analyze(recs).totals
    ensures Less(k.0, k.1)
    ensures k in Analyze(recs).details && forall e :: e in Analyze(recs).details[k] ==> e.days > 0
    ensures Analyze(recs).totals[k] > 0
  {
    var cs := Contribs(recs);
    AnalyzeWellFormed(recs);
    AccumulateFacts(cs);
    EntriesNonEmpty(cs, k);
    var m :| 0 <= m < |cs| && cs[m].key == k;
    ContribsPositive(recs, cs[m]);
    var es := Analyze(recs).details[k];
    forall e | e in es
      ensures e.days > 0
    {
      EntriesFrom(cs, k, e);
      var m' :| 0 <= m' < |cs| && cs[m'] == Contribution(k, e);
      ContribsPositive(recs, cs[m']);
    }
    SumDaysPositive(es);
  }

  /** The maps are empty exactly when no record pair qualifies. */
  lemma AnalyzeEmptyIff(recs: seq<RecordRow>)
    ensures Analyze(recs).keys == []
       <==> forall i, j :: 0 <= i < j < |recs| ==> !Qualifies(recs[i], recs[j])
  {
    AnalyzeWellFormed(recs);
    if Analyze(recs).keys != [] {
      AnalyzeKeys(recs, Analyze(recs).keys[0]);
    } else {
      forall i, j | 0 <= i < j < |recs|
        ensures !Qualifies(recs[i], recs[j])
      {
        AnalyzeKeys(recs, SortedPair(recs[i].empId, recs[j].empId));
      }
    }
  }

  /**
   * The insertion order of the keys is the order in which their first
   * contributions were scanned: of two listed keys, the earlier one occurs
   * before the later one occurs at all.
   */
  lemma {:induction false} AccumulateKeyOrder(cs: seq<Contribution>)
    ensures forall a, b :: 0 <= a < b < |Accumulate(NoPairs, cs).keys| ==>
      SeenBefore(cs, Accumulate(NoPairs, cs).keys[a], Accumulate(NoPairs, cs).keys[b])
    decreases |cs|
  {
    if cs != [] {
      var init, c := cs[..|cs| - 1], cs[|cs| - 1];
      assert cs == init + [c];
      AccumulateKeyOrder(init);
      AccumulateSnoc(NoPairs, init, c);
      AccumulateFacts(init);
      var s, t := Accumulate(NoPairs, init), Accumulate(NoPairs, cs);
      forall a, b | 0 <= a < b < |t.keys|
        ensures SeenBefore(cs, t.keys[a], t.keys[b])
      {
        if b < |s.keys| {
          SeenBeforeExtends(init, c, s.keys[a], s.keys[b]);
        } else {
          NewKeySeenLast(init, c, s.keys[a]);
        }
      }
    }
  }

  lemma SeenBeforeExtends(init: seq<Contribution>, c: Contribution, key: PairKey, other: PairKey)
    requires SeenBefore(init, key, other)
    ensures SeenBefore(init + [c], key, other)
  {
    var m :| 0 <= m < |init| && init[m].key == key && NotUpTo(init, other, m);
    assert (init + [c])[m].key == key && NotUpTo(init + [c], other, m);
  }

  lemma NewKeySeenLast(init: seq<Contribution>, c: Contribution, key: PairKey)
    requires key in Accumulate(NoPairs, init).keys
    requires c.key !in Accumulate(NoPairs, init).keys
    ensures SeenBefore(init + [c], key, c.key)
  {
    AccumulateFacts(init);
    EntriesNonEmpty(init, key);
    EntriesNonEmpty(init, c.key);
    var m :| 0 <= m < |init| && init[m].key == key;
    assert (init + [c])[m].key == key && NotUpTo(init + [c], c.key, m);
  }

  /** For the scan: a key is listed before another when its first qualifying pair is scanned first. */
  lemma AnalyzeKeyOrder(recs: seq<RecordRow>)
    ensures forall a, b :: 0 <= a < b < |Analyze(recs).keys| ==>
      SeenBefore(Contribs(recs), Analyze(recs).keys[a], Analyze(recs).keys[b])
  {
    AccumulateKeyOrder(Contribs(recs));
  }
}
