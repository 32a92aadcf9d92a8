/**
 The report `format` writes: the summary line, then (when a project root is
 known and something is left to list) the optional truncation notice, the
 rendered table or blocks, and the footer counting hidden fully covered
 files. The printed text itself is not modelled; each line is the value it
 is rendered from.
 */
module Report {
  import opened Wrappers
  import opened Coverage
  import opened Colors
  import opened Paths
  import opened MissedLines
  import opened MissedText
  import opened Ordering
  import opened Selection

  /** A percentage and the colour it is painted in. */
  datatype Cell = Cell(percent: real, paint: Paint)

  /** One table row: coverage, file, lines, missed, missing. */
  datatype Row = Row(coverage: Cell, file: string, lines: nat, missed: nat, missing: string)

  /** The options handed to the table renderer: the user's options with
      `headings` and `rows` set by the formatter. */
  datatype TableSpec = TableSpec(options: map<string, string>, headings: seq<string>, rows: seq<Row>)

  /** One entry of the block style: file, coverage (with covered and total
      line counts) and missed ranges. */
  datatype BlockEntry = BlockEntry(file: string, coverage: Cell, covered: nat, lines: nat, missing: string)

  /** The exceptions `format` can raise while rendering. */
  datatype Failure =
      /** `send` found no method named after the output style. */
    | UnknownOutputStyle(name: string)
      /** The renderer called `map`/`each` on the `nil` a negative slice gave. */
    | NilFileList
      /** `table_options` is set to something other than a Hash. */
    | TableOptionsNotHash

  datatype Body = TableBody(table: TableSpec) | BlockBody(entries: seq<BlockEntry>) | Raised(failure: Failure)

  /** "showing bottom (worst) `limit` of `total` files". */
  datatype Notice = Notice(limit: int, total: nat)

  /** "COVERAGE: `coverage` -- `coveredLines`/`totalLines` lines in `fileCount` files". */
  datatype Summary = Summary(coverage: Cell, coveredLines: nat, totalLines: nat, fileCount: nat)

  datatype Detail =
      /** `format` returned after the summary. */
    | SummaryOnly
      /** The optional notice, the rendered body, and the footer's count of
          hidden fully covered files when one is printed. */
    | Listing(notice: Option<Notice>, body: Body, footer: Option<nat>)

  datatype Report = Report(summary: Summary, detail: Detail)

  const Headings: seq<string> := ["coverage", "file", "lines", "missed", "missing"]

  // ---------------------------------------------------------------------------
  // Renderers

  function CellOf(percent: real, useColors: bool): Cell {
    Cell(percent, Colorize(percent, useColors))
  }

  /** One table row. The file column is the source's `gsub`, so it is never
      longer than the name and is the name itself when the name does not
      mention `root + "/"`; the "missing" column is empty exactly when no
      line was missed. */
  function RowOf(f: FileCov, root: string, useColors: bool): (row: Row)
    ensures row.coverage.percent == f.percent && row.lines == f.linesOfCode
    ensures row.coverage.paint == Colorize(f.percent, useColors)
    ensures row.missed == |f.missedLines|
    ensures row.missing == "" <==> |f.missedLines| == 0
    ensures |row.file| <= |f.filename|
    ensures !Contains(f.filename, root + "/") ==> row.file == f.filename
  {
    Row(CellOf(f.percent, useColors), StripAllAsWritten(f.filename, root), f.linesOfCode,
        |f.missedLines|, MissingText(f.missedLines))
  }

  /** One block entry, with the same file and "missed" fields as a row. */
  function EntryOf(f: FileCov, root: string, useColors: bool): (e: BlockEntry)
    ensures e.coverage.percent == f.percent
    ensures e.coverage.paint == Colorize(f.percent, useColors)
    ensures e.covered == f.coveredLines && e.lines == f.linesOfCode
    ensures e.missing == "" <==> |f.missedLines| == 0
    ensures |e.file| <= |f.filename|
    ensures !Contains(f.filename, root + "/") ==> e.file == f.filename
  {
    BlockEntry(StripAllAsWritten(f.filename, root), CellOf(f.percent, useColors), f.coveredLines,
               f.linesOfCode, MissingText(f.missedLines))
  }

  /** `table_options || {}`, kept only when it is a Hash: `nil` and `false`
      both become an empty Hash. */
  function UserOptions(t: Option<TableOptions>): (r: Option<map<string, string>>)
    ensures r.None? <==> t == Some(NotAHash)
    ensures t.None? || t == Some(SetToFalse) ==> r == Some(map[])
    ensures t.Some? && t.value.HashOptions? ==> r == Some(t.value.entries)
  {
    match t
    case None => Some(map[])
    case Some(SetToFalse) => Some(map[])
    case Some(NotAHash) => None
    case Some(HashOptions(m)) => Some(m)
  }

  /** `table_output`: rows are built first (so a `nil` list fails before the
      option check), then the options are checked and merged. A table
      always has the five headings and one row per file, and the user's
      options never replace `headings` or `rows`. */
  function TableOutput(files: Option<seq<FileCov>>, root: string, config: Config): (b: Body)
    ensures files.None? ==> b == Raised(NilFileList)
    ensures files.Some? ==> (b.Raised? <==> config.tableOptions == Some(NotAHash))
    ensures b.Raised? || b.TableBody?
    ensures b.TableBody? ==>
      && files.Some?
      && b.table.headings == Headings
      && |b.table.rows| == |files.value|
      && "headings" !in b.table.options && "rows" !in b.table.options
  {
    if files.None? then Raised(NilFileList)
    else
      var rows := seq(|files.value|, i requires 0 <= i < |files.value| => RowOf(files.value[i], root, config.useColors));
      match UserOptions(config.tableOptions)
      case None => Raised(TableOptionsNotHash)
      case Some(m) => TableBody(TableSpec(m - {"headings", "rows"}, Headings, rows))
  }

  /** `block_output`: one entry per file, or the failure on a `nil` list. */
  function BlockOutput(files: Option<seq<FileCov>>, root: string, useColors: bool): (b: Body)
    ensures b.Raised? <==> files.None?
    ensures b.Raised? ==> b.failure == NilFileList
    ensures b.BlockBody? ==> files.Some? && |b.entries| == |files.value|
    ensures !b.TableBody?
  {
    if files.None? then Raised(NilFileList)
    else BlockBody(seq(|files.value|, i requires 0 <= i < |files.value| => EntryOf(files.value[i], root, useColors)))
  }

  /** `send(output_style + "_output", files, root)`. */
  function Render(files: Option<seq<FileCov>>, root: string, config: Config): (b: Body)
    ensures b == Raised(UnknownOutputStyle(config.outputStyle + "_output")) <==>
      config.outputStyle != "table" && config.outputStyle != "block"
  {
    if config.outputStyle == "table" then TableOutput(files, root, config)
    else if config.outputStyle == "block" then BlockOutput(files, root, config.useColors)
    else Raised(UnknownOutputStyle(config.outputStyle + "_output"))
  }

  /** The footer is printed only when rendering returned normally and some
      fully covered file was hidden. */
  function Footer(body: Body, covered: nat): (r: Option<nat>)
    ensures r.Some? <==> !body.Raised? && covered > 0
    ensures r.Some? ==> r.value == covered
  {
    if body.Raised? || covered == 0 then None else Some(covered)
  }

  // ---------------------------------------------------------------------------
  // format

  /** The summary line: the overall percentage, painted by its tier, the
      covered and total line counts, and the number of files. */
  function SummaryOf(result: CoverageResult, useColors: bool): (s: Summary)
    ensures s.coverage.percent == result.percent
    ensures s.coverage.paint == Colorize(result.percent, useColors)
    ensures s.coveredLines == result.coveredLines && s.totalLines == result.totalLines
    ensures s.fileCount == |result.files|
  {
    Summary(CellOf(result.percent, useColors), result.coveredLines, result.totalLines, |result.files|)
  }

  /** The report for `result` under `config`; `root` is the project root the
      formatter found, if any. */
  function Format(result: CoverageResult, config: Config, root: Option<string>): (r: Report)
    ensures r.summary.fileCount == |result.files|
    ensures r.summary.coveredLines == result.coveredLines && r.summary.totalLines == result.totalLines
    ensures r.summary.coverage == Cell(result.percent, Colorize(result.percent, config.useColors))
    ensures r.detail.SummaryOnly? <==>
      root.None? || (!config.showCovered && forall i :: 0 <= i < |result.files| ==> FullyCovered(result.files[i]))
  {
    var summary := SummaryOf(result, config.useColors);
    if root.None? then Report(summary, SummaryOnly)
    else
      var mode := SortModeOf(config.sort);
      match SelectionOf(result, config)
      case AllCovered(_) => Report(summary, SummaryOnly)
      case Selected(files, covered, from) =>
        SelectTruncates(result.files, mode, config.showCovered, config.maxRows);
        var notice := if from.Some? then Some(Notice(config.maxRows.value, from.value)) else None;
        var body := Render(Some(files), root.value, config);
        Report(summary, Listing(notice, body, Footer(body, covered)))
      case NilRows(covered, limit, from) =>
        var body := Render(None, root.value, config);
        Report(summary, Listing(Some(Notice(limit, from)), body, Footer(body, covered)))
  }

  /** The caller's `result.files` after `format`. Without sorting, `files`
      is the result's own list, and `select!` removes the fully covered files
      from it in place; sorting works on a copy, and showing covered files or
      having no root leaves the list alone. */
  function CallerFiles(result: CoverageResult, config: Config, root: Option<string>): (files: seq<FileCov>)
    ensures root.Some? && SortModeOf(config.sort) == InputOrder && !config.showCovered ==>
      && |files| + |CoveredPositions(result.files)| == |result.files|
      && (forall i :: 0 <= i < |files| ==> !FullyCovered(files[i]))
      && (forall f :: multiset(files)[f] == if FullyCovered(f) then 0 else multiset(result.files)[f])
    ensures !(root.Some? && SortModeOf(config.sort) == InputOrder && !config.showCovered) ==>
      files == result.files
  {
    if root.Some? && SortModeOf(config.sort) == InputOrder && !config.showCovered then
      RemovedCountsCovered(result.files);
      KeptMultiset(result.files);
      RemoveCovered(result.files).kept
    else result.files
  }

  // ---------------------------------------------------------------------------
  // What the report shows

  /** The number of files that reach the renderer out of `k` candidates. */
  function ShownCount(k: nat, maxRows: Option<int>): (n: nat)
    ensures n <= k
    ensures n < k ==> !Unlimited(maxRows) && (n == maxRows.value || maxRows.value < 0)
  {
    if Unlimited(maxRows) || k <= maxRows.value then k
    else if maxRows.value >= 0 then maxRows.value
    else 0
  }

  lemma CoveredPositionsNonEmpty(files: seq<FileCov>)
    ensures |CoveredPositions(files)| > 0 <==> exists i :: 0 <= i < |files| && FullyCovered(files[i])
  {
    var s := CoveredPositions(files);
    if |s| > 0 {
      var i :| i in s;
      assert FullyCovered(files[i]);
    } else {
      forall i | 0 <= i < |files| ensures !FullyCovered(files[i]) {
        assert i !in s;
      }
    }
  }

  function SelectionOf(result: CoverageResult, config: Config): Selection {
    Select(result.files, SortModeOf(config.sort), config.showCovered, config.maxRows)
  }

  /** The files handed to the renderer are the first `ShownCount` candidates. */
  lemma SelectedAreShown(result: CoverageResult, config: Config)
    ensures var sel := SelectionOf(result, config);
      var c := Candidates(result.files, SortModeOf(config.sort), config.showCovered).kept;
      sel.Selected? ==> sel.files == c[..ShownCount(|c|, config.maxRows)]
  {
    var sel := SelectionOf(result, config);
    var c := Candidates(result.files, SortModeOf(config.sort), config.showCovered).kept;
    if sel.Selected? {
      assert c[..|c|] == c;
    }
  }

  /** The footer appears exactly when covered files are hidden, at least one
      file is fully covered, and rendering did not raise; it counts the fully
      covered files. */
  lemma FormatFooter(result: CoverageResult, config: Config, root: Option<string>)
    ensures var r := Format(result, config, root);
      r.detail.Listing? ==>
        && (r.detail.footer.Some? <==>
              && !r.detail.body.Raised?
              && !config.showCovered
              && exists i :: 0 <= i < |result.files| && FullyCovered(result.files[i]))
        && (r.detail.footer.Some? ==> r.detail.footer.value == |CoveredPositions(result.files)|)
  {
    CoveredPositionsNonEmpty(result.files);
  }

  /** The notice appears exactly when a row limit is set and fewer rows than
      candidates fit under it; it names the limit and the number of
      candidates. */
  lemma FormatNotice(result: CoverageResult, config: Config, root: Option<string>)
    ensures var r := Format(result, config, root);
      var c := Candidates(result.files, SortModeOf(config.sort), config.showCovered);
      r.detail.Listing? ==>
        && (r.detail.notice.Some? <==> !Unlimited(config.maxRows) && |c.kept| > config.maxRows.value)
        && (r.detail.notice.Some? ==> r.detail.notice.value == Notice(config.maxRows.value, |c.kept|))
  {
  }

  /** Rendering raises exactly for an unknown output style, for a row limit
      below -1 (the slice is `nil`), or for table output with options that
      are not a Hash; the first of these that applies is the one raised. */
  lemma FormatFailure(result: CoverageResult, config: Config, root: Option<string>)
    ensures var r := Format(result, config, root);
      var style := config.outputStyle;
      var nilSlice := config.maxRows.Some? && config.maxRows.value < -1;
      r.detail.Listing? ==>
        && (r.detail.body.Raised? <==>
              || (style != "table" && style != "block")
              || nilSlice
              || (style == "table" && config.tableOptions == Some(NotAHash)))
        && (style != "table" && style != "block" ==>
              r.detail.body == Raised(UnknownOutputStyle(style + "_output")))
        && ((style == "table" || style == "block") && nilSlice ==>
              r.detail.body == Raised(NilFileList))
        && (style == "table" && !nilSlice && config.tableOptions == Some(NotAHash) ==>
              r.detail.body == Raised(TableOptionsNotHash))
  {
  }

  /** A rendered table has the five headings, the user's options except
      `headings` and `rows`, and one row per shown candidate, in order. */
  lemma FormatTable(result: CoverageResult, config: Config, root: Option<string>)
    ensures var r := Format(result, config, root);
      var c := Candidates(result.files, SortModeOf(config.sort), config.showCovered).kept;
      var n := ShownCount(|c|, config.maxRows);
      r.detail.Listing? && r.detail.body.TableBody? ==>
        var t := r.detail.body.table;
        var user := UserOptions(config.tableOptions);
        && config.outputStyle == "table"
        && t.headings == Headings
        && user.Some?
        && t.options.Keys == user.value.Keys - {"headings", "rows"}
        && (forall k :: k in t.options ==> t.options[k] == user.value[k])
        && |t.rows| == n
        && (forall i :: 0 <= i < n ==> t.rows[i] == RowOf(c[i], root.value, config.useColors))
  {
    var r := Format(result, config, root);
    if r.detail.Listing? && r.detail.body.TableBody? {
      var sel := SelectionOf(result, config);
      assert sel.Selected?;
      SelectedAreShown(result, config);
      assert r.detail.body == TableOutput(Some(sel.files), root.value, config);
    }
  }

  /** Block output has one entry per shown candidate, in order. */
  lemma FormatBlocks(result: CoverageResult, config: Config, root: Option<string>)
    ensures var r := Format(result, config, root);
      var c := Candidates(result.files, SortModeOf(config.sort), config.showCovered).kept;
      var n := ShownCount(|c|, config.maxRows);
      r.detail.Listing? && r.detail.body.BlockBody? ==>
        && config.outputStyle == "block"
        && |r.detail.body.entries| == n
        && (forall i :: 0 <= i < n ==> r.detail.body.entries[i] == EntryOf(c[i], root.value, config.useColors))
  {
    var r := Format(result, config, root);
    if r.detail.Listing? && r.detail.body.BlockBody? {
      var sel := SelectionOf(result, config);
      assert sel.Selected?;
      SelectedAreShown(result, config);
      assert r.detail.body == BlockOutput(Some(sel.files), root.value, config.useColors);
    }
  }

  /** A row gives back what it was made from: the missed lines read back from
      the "missing" column (for strictly ascending, non-negative line
      numbers), the missed count and
      the percentage; and, for a file under the root whose relative path
      does not mention `root + "/"` again, the full name from the root and
      the "file" column. (When it does, `gsub` loses part of the name; see
      `Paths.GsubNestedRootCounterexample`.) */
  lemma RowRoundTrip(f: FileCov, root: string, useColors: bool)
    requires StrictlyAscending(f.missedLines)
    requires forall i :: 0 <= i < |f.missedLines| ==> f.missedLines[i] >= 0
    ensures var row := RowOf(f, root, useColors);
      && ReadMissing(row.missing) == Some(f.missedLines)
      && row.missed == |f.missedLines|
      && (root + "/" <= f.filename && !Contains(f.filename[|root| + 1..], root + "/") ==>
            root + "/" + row.file == f.filename)
      && row.coverage.percent == f.percent
  {
    MissingTextRoundTrip(f.missedLines);
    NameUnderRoot(f.filename, root);
  }

  /** The same for a block entry, which also carries the covered count. */
  lemma EntryRoundTrip(f: FileCov, root: string, useColors: bool)
    requires StrictlyAscending(f.missedLines)
    requires forall i :: 0 <= i < |f.missedLines| ==> f.missedLines[i] >= 0
    ensures var e := EntryOf(f, root, useColors);
      && ReadMissing(e.missing) == Some(f.missedLines)
      && e.covered == f.coveredLines && e.lines == f.linesOfCode
      && (root + "/" <= f.filename && !Contains(f.filename[|root| + 1..], root + "/") ==>
            root + "/" + e.file == f.filename)
      && e.coverage.percent == f.percent
  {
    MissingTextRoundTrip(f.missedLines);
    NameUnderRoot(f.filename, root);
  }

  lemma NameUnderRoot(filename: string, root: string)
    ensures root + "/" <= filename && !Contains(filename[|root| + 1..], root + "/") ==>
      root + "/" + StripAllAsWritten(filename, root) == filename
  {
    if root + "/" <= filename && !Contains(filename[|root| + 1..], root + "/") {
      var rel := filename[|root| + 1..];
      assert filename == root + "/" + rel;
      GsubStripsRoot(root, rel);
    }
  }

  /** The configuration when no environment variable is set. */
  const DefaultConfig: Config := Config(true, Some(DefaultMaxRows), false, "coverage", "table", None)

  const ExampleCovered: FileCov := FileCov("/app/a.rb", 100.0, 10, 10, [])
  const ExampleHalf: FileCov := FileCov("/app/b.rb", 50.0, 10, 5, [3, 4, 8])

  lemma ExampleSelection()
    ensures Select([ExampleCovered, ExampleHalf], ByCoverage, false, Some(DefaultMaxRows)) ==
      Selected([ExampleHalf], 1, None)
  {
    var files := [ExampleCovered, ExampleHalf];
    assert Candidates(files, ByCoverage, false) == Filtered([ExampleHalf], 1) by {
      ExampleOrder();
      ExampleRemove();
    }
    assert Truncate([ExampleHalf], Some(DefaultMaxRows)) == Whole([ExampleHalf]);
  }

  lemma ExampleOrder()
    ensures Order([ExampleCovered, ExampleHalf], ByCoverage) == [ExampleHalf, ExampleCovered]
  {
    var a, b := ExampleCovered, ExampleHalf;
    assert [a, b][1..] == [b];
    assert SortByCoverage([b]) == [b] by {
      assert [b][1..] == [];
    }
    assert Insert(a, [b]) == [b, a] by {
      assert [b][1..] == [];
    }
  }

  lemma ExampleRemove()
    ensures RemoveCovered([ExampleHalf, ExampleCovered]) == Filtered([ExampleHalf], 1)
  {
    var a, b := ExampleCovered, ExampleHalf;
    assert [b, a][..1] == [b];
    assert [b][..0] == [];
  }

  lemma ExampleRow()
    ensures RowOf(ExampleHalf, "/app", true) == Row(Cell(50.0, Red), "b.rb", 10, 3, "3-4, 8")
  {
    assert CellOf(50.0, true) == Cell(50.0, Red);
    assert StripAllAsWritten("/app/b.rb", "/app") == "b.rb" by {
      ShortNotContains("b.rb", "/app/");
      GsubStripsRoot("/app", "b.rb");
      assert "/app" + "/" + "b.rb" == "/app/b.rb";
    }
    assert MissingText([3, 4, 8]) == "3-4, 8" by {
      ExampleMissingText();
    }
  }

  lemma ExampleTable()
    ensures Render(Some([ExampleHalf]), "/app", DefaultConfig) ==
      TableBody(TableSpec(map[], Headings, [Row(Cell(50.0, Red), "b.rb", 10, 3, "3-4, 8")]))
  {
    ExampleRow();
    TableOfOne(ExampleHalf, "/app", DefaultConfig);
  }

  lemma TableOfOne(f: FileCov, root: string, config: Config)
    requires config.outputStyle == "table" && config.tableOptions.None?
    ensures Render(Some([f]), root, config) == TableBody(TableSpec(map[], Headings, [RowOf(f, root, config.useColors)]))
  {
    var none: map<string, string> := map[];
    var rows := seq(1, i requires 0 <= i < 1 => RowOf([f][i], root, config.useColors));
    assert UserOptions(config.tableOptions) == Some(none);
    assert TableOutput(Some([f]), root, config) == TableBody(TableSpec(none - {"headings", "rows"}, Headings, rows));
    assert none - {"headings", "rows"} == none;
    assert rows == [RowOf(f, root, config.useColors)];
  }

  /** Two files, one fully covered: the summary counts both, the table lists
      only the other with its missed ranges, and the footer counts one hidden
      file. */
  lemma ExampleReport()
    ensures
      Format(CoverageResult(75.0, 15, 20, [ExampleCovered, ExampleHalf]), DefaultConfig, Some("/app")) ==
        Report(Summary(Cell(75.0, Red), 15, 20, 2),
               Listing(None,
                       TableBody(TableSpec(map[], Headings, [Row(Cell(50.0, Red), "b.rb", 10, 3, "3-4, 8")])),
                       Some(1)))
  {
    var result := CoverageResult(75.0, 15, 20, [ExampleCovered, ExampleHalf]);
    ExampleSelection();
    ExampleTable();
    assert SummaryOf(result, true) == Summary(Cell(75.0, Red), 15, 20, 2) by {
      assert Colorize(75.0, true) == Red;
    }
    assert SortModeOf("coverage") == ByCoverage;
    ListingOfSelection(result, DefaultConfig, "/app", [ExampleHalf], 1);
  }

  lemma ListingOfSelection(result: CoverageResult, config: Config, root: string, files: seq<FileCov>, covered: nat)
    requires Select(result.files, SortModeOf(config.sort), config.showCovered, config.maxRows) == Selected(files, covered, None)
    ensures var body := Render(Some(files), root, config);
      Format(result, config, Some(root)) ==
        Report(SummaryOf(result, config.useColors), Listing(None, body, Footer(body, covered)))
  {
  }
}
