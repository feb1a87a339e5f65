/**
 * The string key the scan actually stores: the two employee IDs, sorted and
 * joined with ":", which `findBestPair` splits on ":" to recover the pair.
 * Without ":" in the IDs this is the sorted tuple key of `PairAnalyzer`;
 * with ":" in them two different pairs can share one key, and the split
 * gives back more than two pieces.
 */
module JoinedKey {
  import opened JsText
  import opened Types
  import opened PairAnalyzer

  /** `[a, b].sort().join(":")`. */
  function JoinedKey(a: string, b: string): string {
    var k := SortedPair(a, b);
    k.0 + ":" + k.1
  }

  /** `bestKey.split(":")`. */
  function SplitKey(key: string): seq<string> {
    Split(key, ":")
  }

  /**
   * The employees "a:b" and "c" form a different pair from "a" and "b:c",
   * yet both pairs get the key "a:b:c", so their totals and detail lists are
   * merged; and splitting that key gives three pieces, not the pair.
   */
  lemma JoinedKeysCollide()
    ensures SortedPair("a:b", "c") != SortedPair("a", "b:c")
    ensures JoinedKey("a:b", "c") == JoinedKey("a", "b:c") == "a:b:c"
    ensures SplitKey("a:b:c") == ["a", "b", "c"]
  {
    assert !Less("c", "a:b");
    assert !Less("b:c", "a");
    assert "a:b:c" == "a" + ":b:c" && "b:c" == "b" + ":c";
    SplitsAt("a", "b:c");
    SplitsAt("b", "c");
    NoSeparator("c");
  }

  /** A piece without ":" followed by ":" is split off whole. */
  lemma SplitsAt(x: string, rest: string)
    requires ':' !in x
    ensures SplitFrom(x + ":" + rest, ":", []) == [x] + SplitFrom(rest, ":", [])
  {
    assert x + ":" + rest == x + (":" + rest);
    SkipToSeparator(x, ":" + rest, []);
    assert [] + x == x;
    var s := ":" + rest;
    assert s[..1] == ":" && s[1..] == rest;
  }

  /** A string without ":" is a single piece. */
  lemma NoSeparator(x: string)
    requires ':' !in x
    ensures SplitFrom(x, ":", []) == [x]
  {
    assert x + [] == x && [] + x == x;
    SkipToSeparator(x, [], []);
  }

  /** Scanning a run without ":" only extends the current piece. */
  lemma {:induction false} SkipToSeparator(x: string, rest: string, current: string)
    requires ':' !in x
    ensures SplitFrom(x + rest, ":", current) == SplitFrom(rest, ":", current + x)
    decreases |x|
  {
    if x == [] {
      assert x + rest == rest && current + x == current;
    } else {
      var s := x + rest;
      assert s[..1] == [x[0]] != ":";
      assert s[1..] == x[1..] + rest;
      SkipToSeparator(x[1..], rest, current + [x[0]]);
      assert current + [x[0]] + x[1..] == current + x;
    }
  }

  /** When neither ID contains ":", splitting the key gives back the sorted pair. */
  lemma JoinedKeyRoundTrip(a: string, b: string)
    requires ':' !in a && ':' !in b
    ensures SplitKey(JoinedKey(a, b)) == [SortedPair(a, b).0, SortedPair(a, b).1]
  {
    var k := SortedPair(a, b);
    SortedPairCanonical(a, b);
    assert k.0 in {a, b} && k.1 in {a, b};
    SplitsAt(k.0, k.1);
    NoSeparator(k.1);
  }

  /**
   * When no ID contains ":", two joined keys are equal exactly when the
   * tuple keys are, so the tuple key models the scan faithfully.
   */
  lemma JoinedKeyFaithfulWithoutColons(a: string, b: string, c: string, d: string)
    requires ':' !in a && ':' !in b && ':' !in c && ':' !in d
    ensures JoinedKey(a, b) == JoinedKey(c, d) <==> SortedPair(a, b) == SortedPair(c, d)
  {
    JoinedKeyRoundTrip(a, b);
    JoinedKeyRoundTrip(c, d);
  }
}
