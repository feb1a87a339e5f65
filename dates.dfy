/**
 * Date parsing, seen from the analyzer. The format table and the fallback
 * constructor of the date library are not visible, so they are one arbitrary
 * function `formats`; what is modelled exactly is the sentinel rule in front
 * of them: an empty value or any casing of "NULL" means "now".
 */
module Dates {
  import opened Common
  import opened JsText

  /** A date parser: the instant taken as "now", and the library's format matching. */
  datatype DateParser = DateParser(now: int, formats: string -> Option<int>)

  /** The values that stand for an open or unspecified date. */
  predicate IsNullSentinel(value: string) {
    value == [] || ToUpper(value) == "NULL"
  }

  /** `parseDate`: the sentinel gives `now`, anything else goes to the format table. */
  function ParseDate(p: DateParser, value: string): Option<int> {
    if IsNullSentinel(value) then Some(p.now) else p.formats(value)
  }

  /** "NULL" in any mix of cases parses to `now`, whatever the format table says. */
  lemma NullInAnyCaseIsNow(p: DateParser, value: string)
    requires |value| == 4
    requires value[0] in "nN" && value[1] in "uU" && value[2] in "lL" && value[3] in "lL"
    ensures ParseDate(p, value) == Some(p.now)
  {
    assert ToUpper(value) == "NULL";
  }

  /** The empty value parses to `now`, so it is never an invalid date. */
  lemma EmptyIsNow(p: DateParser)
    ensures ParseDate(p, "") == Some(p.now)
  {
  }
}
