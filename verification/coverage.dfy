/**
 The data the console formatter consumes from the coverage run, and its
 configuration, as immutable values. The formatter does change the result's
 file list in place when it hides fully covered files without sorting
 first; `Report.CallerFiles` models what the caller's list holds afterwards.
 */
module Coverage {
  import opened Wrappers

  /** One source file's measurement. `percent` is the exact covered percentage
      (the formatter only ever compares it and prints it); `missedLines` holds the
      line numbers of the missed lines, in the order the measurement lists them. */
  datatype FileCov = FileCov(
    filename: string,
    percent: real,
    linesOfCode: nat,
    coveredLines: nat,
    missedLines: seq<int>)

  /** The aggregate of a run: overall percentage, line totals and the files. */
  datatype CoverageResult = CoverageResult(
    percent: real,
    coveredLines: nat,
    totalLines: nat,
    files: seq<FileCov>)

  /** A value configured as `table_options`: a Hash of renderer options,
      `false` (which `|| {}` replaces with an empty Hash, like `nil`), or any
      other object (which the table renderer rejects). */
  datatype TableOptions = HashOptions(entries: map<string, string>) | SetToFalse | NotAHash

  /** The formatter's class-level configuration, read once per report.
      `maxRows == None` stands for a `nil` row limit, `tableOptions == None`
      for an unset option Hash. */
  datatype Config = Config(
    useColors: bool,
    maxRows: Option<int>,
    showCovered: bool,
    sort: string,
    outputStyle: string,
    tableOptions: Option<TableOptions>)

  /** The row limit read from the environment when it is not set. */
  const DefaultMaxRows: int := 15

  /** A file the formatter treats as fully covered (and hides unless
      `show_covered` is set): exactly 100 percent. */
  predicate FullyCovered(f: FileCov) {
    f.percent == 100.0
  }
}
