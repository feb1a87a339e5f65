/**
 * The JavaScript string operations the analyzer relies on, over `string`
 * (a sequence of `char`): `trim`, `split` with a string separator, the
 * case mappings used for comparisons, and the `<` order that
 * `Array.prototype.sort` uses by default.
 */
module JsText {

  /** The ECMAScript WhiteSpace and LineTerminator code points; `trim` strips exactly these. */
  predicate IsWhitespace(c: char) {
    || c == '\t' || c == '\n' || c == '\U{000B}' || c == '\U{000C}' || c == '\r' || c == ' '
    || c == '\U{00A0}' || c == '\U{1680}' || ('\U{2000}' <= c <= '\U{200A}')
    || c == '\U{2028}' || c == '\U{2029}' || c == '\U{202F}' || c == '\U{205F}'
    || c == '\U{3000}' || c == '\U{FEFF}'
  }

  predicate AllWhitespace(s: string) {
    forall i :: 0 <= i < |s| ==> IsWhitespace(s[i])
  }

  /** Drops the leading whitespace. */
  function TrimStart(s: string): string {
    if s == [] || !IsWhitespace(s[0]) then s else TrimStart(s[1..])
  }

  /** Drops the trailing whitespace. */
  function TrimEnd(s: string): string {
    if s == [] || !IsWhitespace(s[|s| - 1]) then s else TrimEnd(s[..|s| - 1])
  }

  /** `String.prototype.trim`: whitespace removed on both sides. */
  function Trim(s: string): string {
    TrimEnd(TrimStart(s))
  }

  /** What `TrimStart` leaves is a suffix that starts with a non-space, and all it removes is whitespace. */
  lemma {:induction false} TrimStartSpec(s: string)
    ensures var r := TrimStart(s);
      && |r| <= |s| && r == s[|s| - |r|..]
      && AllWhitespace(s[..|s| - |r|])
      && (r == [] || !IsWhitespace(r[0]))
  {
    if s != [] && IsWhitespace(s[0]) {
      TrimStartSpec(s[1..]);
      var r := TrimStart(s[1..]);
      assert s[..|s| - |r|] == [s[0]] + s[1..][..|s| - 1 - |r|];
    }
  }

  /** What `TrimEnd` leaves is a prefix that ends with a non-space, and all it removes is whitespace. */
  lemma {:induction false} TrimEndSpec(s: string)
    ensures var r := TrimEnd(s);
      && |r| <= |s| && r == s[..|r|]
      && AllWhitespace(s[|r|..])
      && (r == [] || !IsWhitespace(r[|r| - 1]))
    decreases |s|
  {
    if s != [] && IsWhitespace(s[|s| - 1]) {
      TrimEndSpec(s[..|s| - 1]);
      var r := TrimEnd(s[..|s| - 1]);
      assert s[|r|..] == s[..|s| - 1][|r|..] + [s[|s| - 1]];
    }
  }

  /** Number of leading whitespace characters of `s`. */
  function LeadingSpace(s: string): nat {
    TrimStartSpec(s);
    |s| - |TrimStart(s)|
  }

  /**
   * `Trim` keeps the infix of `s` left after removing whitespace on both
   * sides: everything removed is whitespace and the result neither starts nor
   * ends with it.
   */
  lemma TrimSpec(s: string)
    ensures var r := Trim(s);
      && LeadingSpace(s) + |r| <= |s|
      && r == s[LeadingSpace(s)..LeadingSpace(s) + |r|]
      && AllWhitespace(s[..LeadingSpace(s)]) && AllWhitespace(s[LeadingSpace(s) + |r|..])
      && (r == [] || (!IsWhitespace(r[0]) && !IsWhitespace(r[|r| - 1])))
  {
    var t := TrimStart(s);
    TrimStartSpec(s);
    TrimEndSpec(t);
    var r := TrimEnd(t);
    assert s[LeadingSpace(s) + |r|..] == t[|r|..];
  }

  /** A string trims to nothing exactly when every character of it is whitespace. */
  lemma TrimEmptyIff(s: string)
    ensures Trim(s) == [] <==> AllWhitespace(s)
  {
    TrimSpec(s);
    var k := LeadingSpace(s);
    if Trim(s) == [] {
      var t := TrimStart(s);
      TrimStartSpec(s);
      TrimEndSpec(t);
      assert t == [];
      assert s[..k] == s;
    } else {
      assert s[k] == Trim(s)[0];
    }
  }

  /** Trimming twice is trimming once. */
  lemma TrimIdempotent(s: string)
    ensures Trim(Trim(s)) == Trim(s)
  {
    TrimSpec(s);
    var r := Trim(s);
    if r != [] {
      assert TrimStart(r) == r;
      assert TrimEnd(r) == r;
    }
  }

  /**
   * `String.prototype.split` with a string separator: an empty separator cuts
   * the string into its characters (and `""` into no pieces at all); otherwise
   * the pieces lie between the left-most non-overlapping occurrences of `sep`.
   */
  function Split(s: string, sep: string): (parts: seq<string>)
    ensures sep != [] ==> |parts| >= 1
  {
    if sep == [] then seq(|s|, i requires 0 <= i < |s| => [s[i]])
    else SplitFrom(s, sep, [])
  }

  /** Splits `s`, where `current` is the piece scanned so far in front of `s`. */
  function SplitFrom(s: string, sep: string, current: string): (parts: seq<string>)
    requires sep != []
    ensures |parts| >= 1
    decreases |s|
  {
    if |s| < |sep| then [current + s]
    else if s[..|sep|] == sep then [current] + SplitFrom(s[|sep|..], sep, [])
    else SplitFrom(s[1..], sep, current + [s[0]])
  }

  /** `Array.prototype.join`: the pieces with `sep` between consecutive ones. */
  function Join(parts: seq<string>, sep: string): string {
    if parts == [] then []
    else if |parts| == 1 then parts[0]
    else parts[0] + sep + Join(parts[1..], sep)
  }

  /** `split` loses nothing: joining the pieces with the separator gives the string back. */
  lemma SplitJoin(s: string, sep: string)
    ensures Join(Split(s, sep), sep) == s
  {
    if sep == [] {
      CharsJoin(s);
    } else {
      SplitFromJoin(s, sep, []);
    }
  }

  lemma {:induction false} CharsJoin(s: string)
    ensures Join(seq(|s|, i requires 0 <= i < |s| => [s[i]]), []) == s
    decreases |s|
  {
    var parts := seq(|s|, i requires 0 <= i < |s| => [s[i]]);
    if |s| > 1 {
      assert parts[1..] == seq(|s[1..]|, i requires 0 <= i < |s[1..]| => [s[1..][i]]);
      CharsJoin(s[1..]);
      assert s == [s[0]] + s[1..];
    }
  }

  lemma {:induction false} SplitFromJoin(s: string, sep: string, current: string)
    requires sep != []
    ensures Join(SplitFrom(s, sep, current), sep) == current + s
    decreases |s|
  {
    if |s| < |sep| {
    } else if s[..|sep|] == sep {
      var rest := SplitFrom(s[|sep|..], sep, []);
      SplitFromJoin(s[|sep|..], sep, []);
      assert ([current] + rest)[1..] == rest;
      assert s == sep + s[|sep|..];
    } else {
      SplitFromJoin(s[1..], sep, current + [s[0]]);
      assert s == [s[0]] + s[1..];
    }
  }

  /** `sep` occurs in `t` starting at index `i`. */
  predicate OccursAt(t: string, sep: string, i: int) {
    0 <= i && i + |sep| <= |t| && t[i..i + |sep|] == sep
  }

  /** `sep` occurs nowhere in `piece`. */
  predicate FreeOf(piece: string, sep: string) {
    forall i :: 0 <= i <= |piece| ==> !OccursAt(piece, sep, i)
  }

  /**
   * A piece followed by `sep` holds no occurrence of `sep` that starts inside
   * the piece: the cut after it is at the first occurrence, not a later one.
   */
  predicate CutAtFirst(piece: string, sep: string) {
    forall i :: 0 <= i < |piece| ==> !OccursAt(piece + sep, sep, i)
  }

  /**
   * `split` cuts at every separator, and always at the left-most one: no
   * piece holds `sep`, and no occurrence of `sep` starts inside a piece and
   * runs into the separator after it (an empty `sep` gives one piece per
   * character). With `SplitJoin` this fixes the pieces, also for a separator
   * that overlaps itself: each cut is the first occurrence of `sep` at or
   * after the end of the previous one.
   */
  lemma SplitPiecesFree(s: string, sep: string)
    ensures sep != [] ==> forall k :: 0 <= k < |Split(s, sep)| ==> FreeOf(Split(s, sep)[k], sep)
    ensures sep != [] ==> forall k :: 0 <= k < |Split(s, sep)| - 1 ==> CutAtFirst(Split(s, sep)[k], sep)
    ensures sep == [] ==> forall k :: 0 <= k < |Split(s, sep)| ==> |Split(s, sep)[k]| == 1
  {
    if sep != [] {
      SplitFromFree(s, sep, []);
    }
  }

  /**
   * `SplitPiecesFree` for a scan that has `current` in front of `s`, when no
   * occurrence of `sep` in `current + s` starts inside `current`.
   */
  lemma {:induction false} SplitFromFree(s: string, sep: string, current: string)
    requires sep != []
    requires forall i :: 0 <= i < |current| ==> !OccursAt(current + s, sep, i)
    ensures forall k :: 0 <= k < |SplitFrom(s, sep, current)| ==> FreeOf(SplitFrom(s, sep, current)[k], sep)
    ensures forall k :: 0 <= k < |SplitFrom(s, sep, current)| - 1 ==> CutAtFirst(SplitFrom(s, sep, current)[k], sep)
    decreases |s|
  {
    var t := current + s;
    if |s| < |sep| {
      assert SplitFrom(s, sep, current) == [t];
    } else if s[..|sep|] == sep {
      var rest := SplitFrom(s[|sep|..], sep, []);
      SplitFromFree(s[|sep|..], sep, []);
      forall i | OccursAt(current, sep, i)
        ensures false
      {
        assert current[i..i + |sep|] == t[i..i + |sep|];
        assert OccursAt(t, sep, i);
      }
      forall i | 0 <= i < |current|
        ensures !OccursAt(current + sep, sep, i)
      {
        var u := current + sep;
        assert u == t[..|u|];
        assert !OccursAt(t, sep, i);
        if i + |sep| <= |u| {
          assert u[i..i + |sep|] == t[i..i + |sep|];
        }
      }
      assert CutAtFirst(current, sep);
      assert SplitFrom(s, sep, current) == [current] + rest;
    } else {
      var current' := current + [s[0]];
      assert current' + s[1..] == t;
      forall i | 0 <= i < |current'|
        ensures !OccursAt(t, sep, i)
      {
        if i == |current| && i + |sep| <= |t| {
          assert t[i..i + |sep|] == s[..|sep|];
        }
      }
      SplitFromFree(s[1..], sep, current');
    }
  }

  /** ASCII upper-casing of one character, as `toUpperCase` does for the letters a-z. */
  function UpperChar(c: char): char {
    if 'a' <= c <= 'z' then (c as int - 32) as char else c
  }

  /** ASCII lower-casing of one character, as `toLowerCase` does for the letters A-Z. */
  function LowerChar(c: char): char {
    if 'A' <= c <= 'Z' then (c as int + 32) as char else c
  }

  /** `toUpperCase`, restricted to the ASCII letters. */
  function ToUpper(s: string): string {
    seq(|s|, i requires 0 <= i < |s| => UpperChar(s[i]))
  }

  /** `toLowerCase`, restricted to the ASCII letters. */
  function ToLower(s: string): string {
    seq(|s|, i requires 0 <= i < |s| => LowerChar(s[i]))
  }

  /**
   * The relational `<` on strings, which the default comparator of
   * `Array.prototype.sort` also uses: the first differing character decides,
   * and a proper prefix comes first.
   */
  predicate Less(a: string, b: string)
    decreases |a|
  {
    if a == [] then b != []
    else if b == [] then false
    else if a[0] != b[0] then a[0] < b[0]
    else Less(a[1..], b[1..])
  }

  /** `Less` is a strict total order: any two different strings are ordered one way ... */
  lemma {:induction false} LessTotal(a: string, b: string)
    ensures a == b || Less(a, b) || Less(b, a)
    decreases |a|
  {
    if a != [] && b != [] && a[0] == b[0] {
      LessTotal(a[1..], b[1..]);
      if a[1..] == b[1..] {
        assert a == [a[0]] + a[1..] && b == [b[0]] + b[1..];
      }
    }
  }

  /** ... and never both ways. */
  lemma {:induction false} LessAsymmetric(a: string, b: string)
    ensures !(Less(a, b) && Less(b, a))
    decreases |a|
  {
    if a != [] && b != [] && a[0] == b[0] {
      LessAsymmetric(a[1..], b[1..]);
    }
  }
}
