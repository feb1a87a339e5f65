/**
 * `analyzeFile`: picks a reader by the file name's extension, collects the
 * records (and, for delimited text, the row errors), runs the pair scan and
 * picks the winner. Reading the file and decoding JSON or a spreadsheet are
 * outside the model: the upload arrives with its text and its decoded rows.
 */
module FileDispatcher {
  import opened Common
  import opened JsText
  import opened Types
  import opened Dates
  import opened DelimitedParser
  import opened NormalizeJson
  import opened PairAnalyzer
  import opened PairProperties

  /**
   * An uploaded file: its name, its content as text (what `file.text()`
   * gives) and its content decoded into rows (what `JSON.parse` or the first
   * sheet of the workbook gives).
   */
  datatype Upload = Upload(name: string, text: string, rows: seq<RawRecord>)

  /** The text after the last "." of a name, or the whole name when it has none. */
  function AfterLastDot(s: string): string
    decreases |s|
  {
    if s == [] then []
    else if '.' in s[1..] then AfterLastDot(s[1..])
    else if s[0] == '.' then s[1..]
    else s
  }

  /** `file.name.split(".").pop()?.toLowerCase()`. */
  function Extension(name: string): string {
    var parts := Split(name, ".");
    ToLower(parts[|parts| - 1])
  }

  /** Scanning a dot-free rest adds it to the current piece, which is the last piece. */
  lemma {:induction false} LastPieceNoDot(s: string, current: string)
    requires '.' !in s
    ensures var parts := SplitFrom(s, ".", current); parts[|parts| - 1] == current + s
    decreases |s|
  {
    if |s| >= 1 {
      assert s[..1] == [s[0]] != ".";
      LastPieceNoDot(s[1..], current + [s[0]]);
      assert current + [s[0]] + s[1..] == current + s;
    }
  }

  /** When the rest has a dot, the last piece is what follows its last dot. */
  lemma {:induction false} LastPieceDot(s: string, current: string)
    requires '.' in s
    ensures var parts := SplitFrom(s, ".", current); parts[|parts| - 1] == AfterLastDot(s)
    decreases |s|
  {
    var tail := s[1..];
    if s[..1] == "." {
      assert s[0] == s[..1][0] == '.';
      var rest := SplitFrom(tail, ".", []);
      assert SplitFrom(s, ".", current) == [current] + rest;
      if '.' in tail {
        LastPieceDot(tail, []);
      } else {
        LastPieceNoDot(tail, []);
        assert [] + tail == tail;
      }
      assert ([current] + rest)[|rest|] == rest[|rest| - 1];
    } else {
      assert s[..1] == [s[0]] && s[0] != '.';
      assert SplitFrom(s, ".", current) == SplitFrom(tail, ".", current + [s[0]]);
      assert '.' in tail;
      LastPieceDot(tail, current + [s[0]]);
    }
  }

  /** The text after the last dot holds no dot and ends the name, right after a dot if there is one. */
  lemma {:induction false} AfterLastDotSpec(s: string)
    ensures '.' !in AfterLastDot(s)
    ensures exists k :: (0 <= k <= |s| && s[k..] == AfterLastDot(s)
      && ('.' in s ==> 0 < k && s[k - 1] == '.')
      && ('.' !in s ==> k == 0))
    decreases |s|
  {
    if s == [] {
      assert s[0..] == s;
    } else if '.' in s[1..] {
      AfterLastDotSpec(s[1..]);
      var k :| 0 <= k <= |s[1..]| && s[1..][k..] == AfterLastDot(s[1..]) && 0 < k && s[1..][k - 1] == '.';
      assert s[k + 1..] == s[1..][k..];
    } else if s[0] == '.' {
      assert s[1..] == AfterLastDot(s);
    } else {
      assert s[0..] == s;
    }
  }

  /** Nothing follows the last dot exactly when the name is empty or ends in a dot. */
  lemma {:induction false} AfterLastDotEmptyIff(s: string)
    ensures AfterLastDot(s) == [] <==> s == [] || s[|s| - 1] == '.'
    decreases |s|
  {
    if s != [] {
      if '.' in s[1..] {
        AfterLastDotEmptyIff(s[1..]);
        assert s[1..][|s| - 2] == s[|s| - 1];
      } else if |s| > 1 {
        assert s[|s| - 1] in s[1..];
      }
    }
  }

  /** A name that is a stem, a dot and a dot-free ending has that ending after its last dot. */
  lemma {:induction false} AfterLastDotOfEnding(stem: string, ending: string)
    requires '.' !in ending
    ensures AfterLastDot(stem + "." + ending) == ending
    decreases |stem|
  {
    var s := stem + "." + ending;
    if stem == [] {
      assert s == "." + ending && s[1..] == ending;
    } else {
      assert s[1..] == stem[1..] + "." + ending;
      assert '.' in s[1..] by { assert s[1..][|stem| - 1] == '.'; }
      AfterLastDotOfEnding(stem[1..], ending);
    }
  }

  /** The extension is the lower-cased text after the last "." of the name. */
  lemma ExtensionIsAfterLastDot(name: string)
    ensures Extension(name) == ToLower(AfterLastDot(name))
  {
    LastPieceIsAfterLastDot(name);
  }

  /** A name without a dot is all of it after its "last dot". */
  lemma NoDotIsWhole(name: string)
    requires '.' !in name
    ensures AfterLastDot(name) == name
  {
    if name != [] {
      assert '.' !in name[1..] && name[0] != '.';
    }
  }

  lemma LastPieceIsAfterLastDot(name: string)
    ensures Split(name, ".")[|Split(name, ".")| - 1] == AfterLastDot(name)
  {
    var parts := Split(name, ".");
    assert parts == SplitFrom(name, ".", []);
    if '.' in name {
      LastPieceDot(name, []);
      assert parts[|parts| - 1] == AfterLastDot(name);
    } else {
      LastPieceNoDot(name, []);
      assert [] + name == name;
      if name != [] {
        assert '.' !in name[1..] && name[0] != '.';
      }
      assert parts[|parts| - 1] == name == AfterLastDot(name);
    }
  }

  /** The extension is empty exactly when the name is empty or ends in a dot. */
  lemma ExtensionEmptyIff(name: string)
    ensures Extension(name) == [] <==> name == [] || name[|name| - 1] == '.'
  {
    ExtensionIsAfterLastDot(name);
    AfterLastDotEmptyIff(name);
  }

  /** A name with a dot-free ending after its last dot: the extension is that ending, lower-cased. */
  lemma ExtensionOfEnding(stem: string, ending: string)
    requires '.' !in ending
    ensures Extension(stem + "." + ending) == ToLower(ending)
  {
    ExtensionIsAfterLastDot(stem + "." + ending);
    AfterLastDotOfEnding(stem, ending);
  }

  /**
   * The records, and errors, a file yields, or the error that aborts its
   * analysis: no extension, an unsupported one, or a decoded row whose date
   * is not text.
   */
  function ReadRecords(file: Upload, delimiter: string, p: DateParser): Result<Parsed, FileError> {
    var ext := Extension(file.name);
    if ext == [] then Failure(UnknownFileType)
    else if ext == "csv" || ext == "tsv" then
      Success(ParseText(file.text, if ext == "tsv" then "\t" else delimiter, p))
    else if ext == "json" || ext == "xlsx" then
      match NormalizeAll(file.rows, p)
      case Failure(e) => Failure(e)
      case Success(recs) => Success(Parsed(recs, []))
    else Failure(UnsupportedFormat)
  }

  /**
   * `analyzeFile`: dispatch on the extension, then `analyzeEmployeePairs` and
   * `findBestPair` on the records. The output keeps the row errors of the
   * file, and its result is absent exactly when no two records qualify;
   * otherwise it is the first inserted pair with the greatest total.
   */
  method AnalyzeFile(file: Upload, delimiter: string, p: DateParser) returns (out: Result<AnalysisOutput, FileError>)
    ensures out.Failure? <==> ReadRecords(file, delimiter, p).Failure?
    ensures out.Failure? ==> out.error == ReadRecords(file, delimiter, p).error
    ensures out.Success? ==>
      var read := ReadRecords(file, delimiter, p).value;
      var maps := Analyze(read.records);
      && out.value.errors == read.errors
      && KeysMapped(maps)
      && (out.value.result.None? <==>
            forall i, j :: 0 <= i < j < |read.records| ==> !Qualifies(read.records[i], read.records[j]))
      && (out.value.result.Some? ==> exists w :: (IsWinner(maps, w)
            && out.value.result.value
               == AnalysisResult(maps.keys[w], maps.details[maps.keys[w]], maps.totals[maps.keys[w]])))
  {
    var ext := Extension(file.name);
    if ext == [] {
      return Failure(UnknownFileType);
    }
    var records: seq<RecordRow> := [];
    var errors: seq<CsvError> := [];
    if ext == "csv" || ext == "tsv" {
      var delim := if ext == "tsv" then "\t" else delimiter;
      records, errors := GetCsv(file.text, delim, p);
    } else if ext == "json" {
      var json := NormalizeAll(file.rows, p);
      if json.Failure? {
        return Failure(json.error);
      }
      records := json.value;
    } else if ext == "xlsx" {
      var sheet := NormalizeAll(file.rows, p);
      if sheet.Failure? {
        return Failure(sheet.error);
      }
      records := sheet.value;
    } else {
      return Failure(UnsupportedFormat);
    }
    assert Parsed(records, errors) == ReadRecords(file, delimiter, p).value;
    var maps := AnalyzeEmployeePairs(records);
    AnalyzeWellFormed(records);
    AnalyzeEmptyIff(records);
    forall k | k in maps.totals
      ensures maps.totals[k] > 0
    {
      AnalyzePositive(records, k);
    }
    var result := FindBestPair(maps);
    if maps.keys != [] {
      assert maps.keys[0] in maps.totals;
    }
    out := Success(AnalysisOutput(result, errors));
  }

  /** Only delimited text reports row errors; decoded rows never do. */
  lemma ErrorsOnlyFromDelimitedText(file: Upload, delimiter: string, p: DateParser)
    requires ReadRecords(file, delimiter, p).Success?
    requires Extension(file.name) != "csv" && Extension(file.name) != "tsv"
    ensures ReadRecords(file, delimiter, p).value.errors == []
    ensures Extension(file.name) == "json" || Extension(file.name) == "xlsx"
  {
  }

  /** A ".tsv" file is always cut at tabs, whatever delimiter is asked for. */
  lemma TsvIgnoresDelimiter(file: Upload, d1: string, d2: string, p: DateParser)
    requires Extension(file.name) == "tsv"
    ensures ReadRecords(file, d1, p) == ReadRecords(file, d2, p) == Success(ParseText(file.text, "\t", p))
  {
  }

  /** A name ending in "." has no extension: "data." is an unknown file type. */
  lemma NameEndingInDot(file: Upload, delimiter: string, p: DateParser)
    requires file.name == "data."
    ensures ReadRecords(file, delimiter, p) == Failure(UnknownFileType)
  {
    ExtensionEmptyIff(file.name);
  }

  /**
   * A name without "." is taken whole as its extension, so "data" is an
   * unsupported format, not an unknown file type.
   */
  lemma NameWithoutDot(file: Upload, delimiter: string, p: DateParser)
    requires file.name == "data"
    ensures ReadRecords(file, delimiter, p) == Failure(UnsupportedFormat)
  {
    ExtensionIsAfterLastDot(file.name);
    NoDotIsWhole(file.name);
    assert ToLower("data") == "data";
  }

  /** The extension is matched without regard to case: "Staff.CSV" is read as delimited text. */
  lemma ExtensionIgnoresCase(file: Upload, delimiter: string, p: DateParser)
    requires file.name == "Staff.CSV"
    ensures ReadRecords(file, delimiter, p) == Success(ParseText(file.text, delimiter, p))
  {
    assert file.name == "Staff" + "." + "CSV";
    ExtensionOfEnding("Staff", "CSV");
    assert ToLower("CSV") == "csv";
  }
}
