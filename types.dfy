/** The value shapes the analyzer passes between its stages. */
module Types {
  import opened Common

  /** One employee's assignment to one project; dates are epoch milliseconds. */
  datatype RecordRow = RecordRow(empId: string, projectId: string, from: int, to: int)

  /** The row-level problems a delimited row can have; the invalid-date kinds keep the raw column. */
  datatype ErrorKind =
    | NotEnoughColumns
    | MissingEmployeeId
    | MissingProjectId
    | InvalidDateFrom(raw: string)
    | InvalidDateTo(raw: string)
    | DateFromAfterDateTo

  /** One reported problem, tagged with its 1-based row number. */
  datatype CsvError = CsvError(row: int, kind: ErrorKind)

  /** Days two employees overlapped on one project, for one pair of their records. */
  datatype ProjectDays = ProjectDays(projectId: string, days: int)

  /** The canonical key of an unordered employee pair: the two IDs in sorted order. */
  type PairKey = (string, string)

  /** The winning pair, its per-project contributions and its total. */
  datatype AnalysisResult = AnalysisResult(pair: PairKey, projects: seq<ProjectDays>, totalDays: int)

  /** What one analysis returns: the winner, if any, and the row errors of a delimited file. */
  datatype AnalysisOutput = AnalysisOutput(result: Option<AnalysisResult>, errors: seq<CsvError>)

  /**
   * The errors that abort a whole analysis: a name without an extension, an
   * extension no reader handles, and the TypeError raised when a decoded date
   * field holds a truthy value that is not text.
   */
  datatype FileError = UnknownFileType | UnsupportedFormat | DateNotText
}
