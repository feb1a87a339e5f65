# Employee pair analyzer — Dafny model

This project models the analysis core of the employee-pair analyzer. The
analyzer reads a file of project assignments (employee ID, project ID, start
date, end date) and finds the pair of employees who worked together on common
projects for the most days.

- **Reading delimited text.** `getCSV` (and its copy `parseCSVRows`) trims the
  text and cuts it into lines. It skips blank lines, validates each remaining
  row with `checkRowErrors`, and reports row errors with 1-based row numbers.
- **Reading decoded rows.** `normalizeRecord`, in `normalizeJSON.ts` and in its
  private copy in the analyzer, resolves field aliases with `??`. It drops a
  row whose IDs are falsy or whose dates do not parse.
- **The pair scan.** `analyzeEmployeePairs` looks at every record pair i < j.
  A pair counts when the employees differ, the project is the same and the
  ranges overlap by at least one whole day. It adds the overlap to a running
  total per sorted employee pair and pushes one detail entry per record pair.
- **Choosing the winner.** `findBestPair` walks the totals in insertion order
  with a strict `>`. The first pair inserted among those tied at the largest
  positive total wins.
- **Dispatch.** `analyzeFile` chooses the reader from the lower-cased text after
  the last `.` of the file name, then runs the scan and picks the winner.

Dates are epoch milliseconds (`int`). `parseDate` is a `DateParser` value. It
holds the instant taken as "now" and an arbitrary function standing for the
date library's format table. The rule in front of that table is modelled
exactly: an empty value or any casing of `"NULL"` means "now".

The imperative parts are methods proved against specification functions:

- `RowValidator.CheckRowErrors` is proved against `RowErrors`.
- `DelimitedParser.GetCsv` is proved against `ParseText`.
- `PairAnalyzer.AnalyzeEmployeePairs` and its inner loops are proved against
  `Analyze`.
- `PairAnalyzer.FindBestPair` is proved against `IsWinner`.
- `FileDispatcher.AnalyzeFile` is proved against `ReadRecords`, `Analyze` and
  `IsWinner`.

The properties of those functions are lemmas.

Modules:

- `Common` holds `Option` and `Result`.
- `JsText` holds the JavaScript string operations: trim, split, join, ASCII
  case mapping and string order.
- `Types` holds the records, errors and result shapes.
- `Dates` holds `parseDate`.
- `RowValidator` holds `checkRowErrors`.
- `DelimitedParser` holds `getCSV`.
- `NormalizeJson` holds `normalizeRecord` and the JSON/spreadsheet row list.
- `PairAnalyzer` holds `overlapDays`, `analyzeEmployeePairs` and
  `findBestPair`.
- `PairProperties` holds the lemmas about the scan's maps.
- `JoinedKey` holds the string key as written; see Findings.
- `FileDispatcher` holds `analyzeFile`.

## Model

| member | source | states |
|---|---|---|
| JsText.TrimSpec | src/utils/analyzer.ts:152-157 | `trim` removes only whitespace, from both ends, and the result neither starts nor ends with whitespace |
| JsText.TrimEmptyIff | src/utils/analyzer.ts:157 | a line trims to nothing exactly when it is all whitespace, so `!line.trim()` skips exactly the blank lines |
| JsText.TrimIdempotent | src/utils/analyzer.ts:153-159 | trimming a trimmed value changes nothing |
| JsText.SplitJoin | src/utils/analyzer.ts:154-159 | splitting at a separator and joining with it gives back the text, so no character is lost or added |
| JsText.SplitPiecesFree | src/utils/analyzer.ts:154-159 | no piece of a split holds the separator, and every cut is at the left-most occurrence: no occurrence starts inside a piece and runs into the separator after it (an empty separator gives one piece per character); with `SplitJoin`, each cut is the first occurrence at or after the previous cut, also for a separator that overlaps itself |
| JsText.LessTotal | src/utils/analyzer.ts:111 | the order `sort()` uses compares any two different IDs one way or the other |
| JsText.LessAsymmetric | src/utils/analyzer.ts:111 | no two IDs are each below the other |
| Dates.NullInAnyCaseIsNow | src/utils/dateParser.ts:13 | "NULL" in any casing parses to "now", whatever the format table says |
| Dates.EmptyIsNow | src/utils/dateParser.ts:13 | the empty value parses to "now" |
| RowValidator.CheckRowErrors | src/utils/analyzer.ts:23-47 | the pushes onto the local list produce exactly `RowErrors` of the columns, row number and dates |
| RowValidator.ShortRowHasOnlyColumnError | src/utils/analyzer.ts:32-35 | a row with fewer than four columns gets exactly one error, "not enough columns", tagged with its row, and no other check runs |
| RowValidator.RowErrorsShape | src/utils/analyzer.ts:37-46 | with four or more columns there are at most four errors, all tagged with the row number, none of them the column-count error, strictly in the order of the checks |
| RowValidator.RowErrorsMembership | src/utils/analyzer.ts:37-44 | each check's error is present exactly when its condition holds, and the invalid-date errors carry the raw column text |
| RowValidator.InvalidDateExcludesInvertedRange | src/utils/analyzer.ts:39-44 | an invalid-date error and "from after to" never appear together |
| RowValidator.NoErrorsIff | src/utils/analyzer.ts:32-44 | a row has no error exactly when it has four columns, both IDs, both dates and from <= to |
| DelimitedParser.OutcomeAt | src/utils/analyzer.ts:155-156 | the outcome of line k is that of the line with row number first + k |
| DelimitedParser.VisitLine | src/utils/analyzer.ts:155-172 | the callback for the line at `index` pushes exactly that line's outcome, with row number index + 1 |
| DelimitedParser.GetCsv | src/utils/analyzer.ts:145-175 | the loop's records and errors are the concatenation, in line order, of the outcomes of all lines of the trimmed text |
| DelimitedParser.LineRecordIffNoErrors | src/utils/analyzer.ts:157-171 | a skipped line yields nothing; otherwise its errors are those of `checkRowErrors`, and it yields a record exactly when there are none; the record holds the trimmed columns 0 and 1 and the parsed dates |
| DelimitedParser.LineFacts | src/utils/analyzer.ts:157-171 | one line gives at most one record, all its errors carry its row number, and its record has both IDs and from <= to |
| DelimitedParser.RecordsAreValid | src/utils/analyzer.ts:166-171 | every record of a text has a nonempty employee ID and project ID and a range that is not inverted |
| DelimitedParser.ErrorRowsAreLinePositions | src/utils/analyzer.ts:152-167 | every error names a 1-based line position of the trimmed text whose line was not skipped, and errors come in non-decreasing row order |
| DelimitedParser.RecordsKeepLineOrder | src/utils/analyzer.ts:155-171 | the k-th record is the record of the k-th line that yields one, and those lines are in increasing order |
| DelimitedParser.EmptyDateColumnIsNeverInvalid | src/utils/analyzer.ts:162-166 | an empty date column never produces an invalid-date error |
| NormalizeJson.Coalesce | src/utils/normalizeJSON.ts:6-13 | the `??` chain is absent exactly when every alias is null or undefined; otherwise it is the value of the first alias that is neither |
| NormalizeJson.NatToDecimal | src/utils/normalizeJSON.ts:21-22 | `String` of a natural number below 2^53 is a nonempty run of decimal digits whose value is that number |
| NormalizeJson.NumberTextSign | src/utils/normalizeJSON.ts:21-22 | `String` of a number is nonempty and starts with "-" exactly when the number is negative |
| NormalizeJson.NumberTextInjective | src/utils/normalizeJSON.ts:21-22 | different integers give different texts, so numeric IDs stay distinct after `String` (for the model's exact integers; see Left out) |
| NormalizeJson.NormalizeRaisesIff | src/utils/normalizeJSON.ts:15-16 | normalising raises exactly when a resolved date is truthy but not text, as `value.toUpperCase()` then throws |
| NormalizeJson.NormalizeDropsIff | src/utils/normalizeJSON.ts:18 | a row that does not raise is dropped exactly when a resolved ID is falsy or a parsed date is null |
| NormalizeJson.NormalizedFields | src/utils/normalizeJSON.ts:20-25 | a kept row holds `String` of the resolved IDs, neither of them empty, and exactly the parsed dates |
| NormalizeJson.TextOfTruthy | src/utils/normalizeJSON.ts:18-22 | `String` of a truthy value is never empty |
| NormalizeJson.EmptyAliasShadowsLaterOnes | src/utils/normalizeJSON.ts:6-18 | when the first present alias of either ID is falsy (for example `""`), every later alias is hidden behind it, and a row whose dates do not raise is dropped |
| NormalizeJson.MissingDatesAreNow | src/utils/normalizeJSON.ts:10-25 | a row whose date aliases are all null or undefined, and whose resolved IDs are truthy, is kept with `String` of its IDs and both dates "now" |
| NormalizeJson.KeptWhateverTheOrder | src/utils/normalizeJSON.ts:18-25 | no range check is made: the row is kept with its parsed dates even when from > to |
| NormalizeJson.NormalizeEachSpec | src/utils/analyzer.ts:180 | `map(normalizeRecord)` fails exactly when some row raises; otherwise it has one entry per row, that row's normalisation |
| NormalizeJson.KeepPresentOrder | src/utils/analyzer.ts:180 | `filter(Boolean)` keeps exactly the non-null entries, in order |
| NormalizeJson.NormalizeAllFailsIff | src/utils/analyzer.ts:180 | `map(normalizeRecord).filter(Boolean)` fails exactly when some row raises |
| NormalizeJson.NormalizeAllKept | src/utils/analyzer.ts:180 | otherwise the records are the normalisations of the kept rows, in increasing row order; every kept row is among them, and each record has both IDs nonempty |
| PairAnalyzer.OverlapDays | src/utils/analyzer.ts:17-21 | the overlap is never negative |
| PairAnalyzer.OverlapDaysSpec | src/utils/analyzer.ts:17-21 | the overlap is symmetric; it is 0 when the later start is after the earlier end; otherwise it is the floor of the intersection in days, so ranges that meet in one instant, or for less than a day, give 0 |
| PairAnalyzer.SortedPairCanonical | src/utils/analyzer.ts:111 | the key does not depend on the order of the two records, holds the same two IDs, and is strictly ascending for different IDs |
| PairAnalyzer.SortedPairInjective | src/utils/analyzer.ts:111 | two keys are equal exactly when they belong to the same unordered pair of IDs |
| PairAnalyzer.PairContributionSpec | src/utils/analyzer.ts:106-115 | a record pair contributes exactly when the employees differ, the project is the same and the overlap is positive, and it contributes its sorted key with its project and overlap |
| PairAnalyzer.AnalyzeEmployeePairs | src/utils/analyzer.ts:97-120 | the nested scan builds exactly `Analyze` of the records: every contribution of the pairs i < j, in scan order, added to the maps |
| PairAnalyzer.ScanRow | src/utils/analyzer.ts:102-116 | the inner loop adds the contributions of the pairs (i, j), j > i, in order |
| PairAnalyzer.VisitPair | src/utils/analyzer.ts:103-115 | one loop body adds the contribution of pair (i, j), or nothing when it is skipped |
| PairAnalyzer.Record | src/utils/analyzer.ts:111-115 | the two map updates add the days to the key's total, push one entry onto its list, and put a new key at the end of the insertion order |
| PairAnalyzer.FindBestPair | src/utils/analyzer.ts:122-143 | the result is null exactly when no total is positive; otherwise it is the key, details and total of the winner: the key with the greatest total, with every earlier key strictly smaller |
| PairAnalyzer.WinnerUnique | src/utils/analyzer.ts:129-134 | at most one position wins, so among tied keys the first inserted one wins |
| PairAnalyzer.AccumulateAppend | src/utils/analyzer.ts:101-117 | adding two runs of contributions one after the other is adding their concatenation |
| PairProperties.AddKeepsWellFormed | src/utils/analyzer.ts:111-115 | one update keeps the two maps on one key set, the insertion order free of repeats, and each total the sum of its list |
| PairProperties.AccumulateFacts | src/utils/analyzer.ts:101-117 | after any run of contributions the maps are well-formed, a key is present exactly when some contribution has it, and its list is that key's entries in order |
| PairProperties.ContribsAreQualifyingPairs | src/utils/analyzer.ts:101-115 | a contribution of the scan is exactly the key and entry of a qualifying record pair i < j |
| PairProperties.AnalyzeWellFormed | src/utils/analyzer.ts:97-119 | `totals` and `details` have the same keys, each total is the sum of the days in its list, and the list has one entry per contributing record pair, in scan order |
| PairProperties.AnalyzeKeys | src/utils/analyzer.ts:106-112 | a key is present exactly when some record pair i < j qualifies and has that sorted key |
| PairProperties.ContribsPositive | src/utils/analyzer.ts:108-111 | every contribution has a positive day count and a strictly ascending key |
| PairProperties.SumDaysPositive | src/utils/analyzer.ts:112 | a nonempty list of positive day counts has a positive sum |
| PairProperties.AnalyzePositive | src/utils/analyzer.ts:106-115 | every key holds two different IDs in ascending order, its detail entries all have positive days, and its total is positive |
| PairProperties.AnalyzeEmptyIff | src/utils/analyzer.ts:97-119 | the maps are empty exactly when no record pair qualifies |
| PairProperties.AccumulateKeyOrder | src/utils/analyzer.ts:112 | the insertion order of keys is the order of their first contributions |
| PairProperties.AnalyzeKeyOrder | src/utils/analyzer.ts:101-112 | of two keys of the scan, the earlier-inserted one had a qualifying pair scanned before the other key's first one |
| JoinedKey.JoinedKeysCollide | src/utils/analyzer.ts:111-115 | the pairs ("a:b", "c") and ("a", "b:c") are different yet get the same key "a:b:c", and splitting it gives three pieces |
| JoinedKey.JoinedKeyRoundTrip | src/utils/analyzer.ts:139 | when no ID holds ":", splitting the joined key gives back the sorted pair |
| JoinedKey.JoinedKeyFaithfulWithoutColons | src/utils/analyzer.ts:111 | when no ID holds ":", joined keys are equal exactly when the sorted tuple keys are |
| FileDispatcher.AfterLastDotSpec | src/utils/analyzer.ts:196 | the text after the last dot holds no dot and ends the name, right after its last dot when it has one, and is the whole name when it has none |
| FileDispatcher.AfterLastDotEmptyIff | src/utils/analyzer.ts:196-197 | nothing follows the last dot exactly when the name is empty or ends with a dot |
| FileDispatcher.ExtensionIsAfterLastDot | src/utils/analyzer.ts:196 | `split(".").pop()` followed by lower-casing is the lower-cased text after the last dot |
| FileDispatcher.ExtensionEmptyIff | src/utils/analyzer.ts:196-197 | the extension is empty exactly when the name is empty or ends with a dot |
| FileDispatcher.ExtensionOfEnding | src/utils/analyzer.ts:196 | a name ending in a dot and a dot-free ending has that ending, lower-cased, as its extension |
| FileDispatcher.AnalyzeFile | src/utils/analyzer.ts:192-219 | the analysis fails exactly when reading fails, with the same error; otherwise its errors are the reader's, its result is null exactly when no two records qualify, and otherwise it is the winner of the scan's maps |
| FileDispatcher.ErrorsOnlyFromDelimitedText | src/utils/analyzer.ts:199-214 | a read that succeeds on anything but csv/tsv is json or xlsx and has no errors |
| FileDispatcher.TsvIgnoresDelimiter | src/utils/analyzer.ts:202-205 | a tsv file is cut at tabs whatever delimiter is asked for |
| FileDispatcher.NameEndingInDot | src/utils/analyzer.ts:196-197 | "data." fails as an unknown file type |
| FileDispatcher.NameWithoutDot | src/utils/analyzer.ts:196-214 | "data" has the whole name as its extension and fails as an unsupported format |
| FileDispatcher.ExtensionIgnoresCase | src/utils/analyzer.ts:196-205 | "Staff.CSV" is read as delimited text with the given delimiter |

## Left out

- `parseDate`'s format table and its fallback through the `Date` constructor
  are not modelled. They come from a date library and the JavaScript runtime,
  so they are an arbitrary function `formats` of the `DateParser`. Only the
  rule for the empty value and `"NULL"` is exact.
- Wall-clock time is left out. Each `new Date()` for "now" is one fixed
  instant (`DateParser.now`) for the whole analysis, while the program reads
  the clock at each call.
- `file.text()`, `file.arrayBuffer()`, `JSON.parse`, `XLSX.read` and
  `sheet_to_json` are I/O or foreign libraries. The upload arrives with its
  text and its decoded rows (`Upload`). A payload that fails to decode, and a
  JSON value that is not an array, are not modelled.
- NormalizeJson.NatToDecimal: numbers are exact integers, while the program's
  are doubles. From 2^53 on, `JSON.parse` rounds an integer to the nearest
  double, and `String` prints the shortest digits that read back as that
  double, padded with zeros (`String(2**64)` is "18446744073709552000"); from
  10^21 on it prints exponent form ("1e+21"). The model spells every integer
  out exactly. So for a numeric ID of magnitude 2^53 or more, its text, its
  place in the `sort()` order and whether it equals a text ID such as
  "18446744073709552000" can differ from the program's, and the pair count
  with it. `NumberTextInjective` holds for the model's exact integers only.
- Decoded rows are maps from keys to null, strings, integer numbers or
  booleans. Rows that are not objects, and nested values, are left out.
  Fractional numbers, `NaN` and their `String` forms are left out too.
- `toUpperCase` and `toLowerCase` map ASCII letters only and leave every
  other character unchanged. Full Unicode case mapping, which can also change
  a string's length, is not modelled.
- Strings are sequences of Unicode scalar values (Dafny characters). The
  program works on UTF-16 code units, where a character outside the Basic
  Multilingual Plane is two units. The two agree on every string made of
  Basic Multilingual Plane characters. They differ for other characters in
  two places. `sort()` orders such a character between U+D7FF and U+E000 by
  code unit, while the model orders it above U+FFFF. `split("")` cuts such a
  character into its two surrogate halves, while the model keeps it whole.
- `findBestPair` splits the joined string key back into the pair. The model
  keys the maps by the sorted tuple and returns it as the pair. The string key
  itself is modelled in `JoinedKey` and is the Finding below.
- `parseCSVRows` is the same code as `getCSV`, and the analyzer's private
  `normalizeRecord` is the same code as the one in `normalizeJSON.ts`. Each
  pair is one member.
- The single nested loop of `analyzeEmployeePairs` is split into
  `AnalyzeEmployeePairs` (outer loop), `ScanRow` (inner loop), `VisitPair`
  (loop body) and `Record` (the map updates). The maps are values threaded
  through these methods rather than objects updated in place.
- `analyzeFile` and `getJSON`/`getXLSX` are asynchronous. The model runs them
  as ordinary calls.
- A name without a dot is taken whole as its extension (`NameWithoutDot`),
  so `data` fails as an unsupported format. Only an empty name or one ending
  in a dot is an unknown file type.
- The error texts of `constants.ts` are not modelled: row errors are an
  enumeration that keeps the raw date text, and file errors are an
  enumeration too.
- The React components, and the generic
  "unsupported or invalid file" message the UI shows for any failure are not
  part of this model.

## Findings

| source | as written | input that shows it | evidently intended | confidence | as-written member | corrected member |
|---|---|---|---|---|---|---|
| src/utils/analyzer.ts:111 | the pair key is the two sorted IDs joined with ":", and the winner's pair is that key split at ":" (line 139) | employees "a:b" and "c" against "a" and "b:c": both pairs get the key "a:b:c", so their totals and details merge, and splitting it gives ["a", "b", "c"] | each unordered pair of employees has its own total, and the result returns that pair | not executed; holds whenever an ID contains ":" | JoinedKey.JoinedKeysCollide | PairAnalyzer.SortedPairInjective |
