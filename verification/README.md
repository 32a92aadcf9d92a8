# simplecov-console, modelled in Dafny

A model of the console formatter for SimpleCov coverage results
(`SimpleCov::Formatter::Console`, `lib/simplecov-console.rb`). After a test
run the formatter prints:

- a summary line: overall percentage, covered/total lines, number of files;
- then, when a project root is known, the files worth looking at. It sorts
  them by coverage (worst first), drops the fully covered ones (counting
  them), cuts the list to `max_rows` with a notice, and renders it as a table
  or as blocks;
- finally, a footer counting the hidden fully covered files.

Each file's missed lines are shown as compact ranges such as `3-4, 8`.

The model is a set of pure functions over immutable values:

| file | module | what it holds |
|---|---|---|
| `wrappers.dfy` | `Wrappers` | `Option` |
| `seqs.dfy` | `Seqs` | small general facts about sequences (last element, prefixes, updates) used by the proofs |
| `coverage.dfy` | `Coverage` | the input: file records, the result, the configuration |
| `decimal.dfy` | `Decimal` | integers as decimal text, and reading them back |
| `missed_lines.dfy` | `MissedLines` | `missed`: the grouping walk over the line numbers, with Ruby Hash semantics |
| `missed_text.dfy` | `MissedText` | the `", "`-joined range text, and a reader for it |
| `ordering.dfy` | `Ordering` | the coverage sort |
| `selection.dfy` | `Selection` | sort mode, `select!` of uncovered files with the counter, `max_rows` truncation |
| `colors.dfy` | `Colors` | the colour tier `colorize` picks |
| `paths.dfy` | `Paths` | the file column: root stripping as written (`gsub`, used by the report), and the prefix-only strip it was meant to be |
| `report.dfy` | `Report` | `format`, `table_output` and `block_output`, as values rather than printed text |

The configuration (`use_colors`, `max_rows`, `show_covered`, `sort`,
`output_style`, `table_options`) is a parameter of `Format`. So is the project
root, as `Option<string>`. The report is a value:

- the summary;
- then either `SummaryOnly` (the early returns) or a `Listing`, which holds:
  - the optional notice;
  - the body: table rows, block entries, or the exception rendering raised;
  - the optional footer count.

Points where the code behaves in a way its documentation does not spell out.
The model follows the code in each case:

- `missed` keeps its groups in a Ruby Hash keyed by the run's first line.
  - On every input, the entry of the open run satisfies
    `base + length == previous` (`MissedLines.CursorIsTracked`). The closing
    bound printed is therefore the run's last line, and there is no
    off-by-one. On strictly ascending input the ranges expand back to exactly
    the lines (`MissedLines.MissedRoundTrip`).
  - On unordered input, a run that restarts at an earlier base overwrites
    that entry in place, and lines are lost (`MissedLines.ExampleRestartedKey`).
- The row limit has several cases.
  - `max_rows` of `nil` or `-1` means no limit, and `0` shows no rows.
  - A limit below `-1` prints the notice. Then `slice(0, n)` returns `nil`, and
    the renderer raises `NoMethodError` on it (`Report.FormatFailure`).
- Only the exact `sort` value `"coverage"` sorts the files. The notice still
  says "bottom (worst)" when they are not sorted.
- The early return for an empty list happens only when covered files are
  hidden. With `show_covered` set, an empty list is still rendered.
- When every file is fully covered and hidden, `format` returns before the
  footer. Nothing says that files were hidden.
- An unknown `output_style` makes `send` raise `NoMethodError` when the
  list is rendered. By then the summary is printed, and so is the
  truncation notice when the list was cut. A `table_options` value other
  than `nil`, `false` or a Hash raises `ArgumentError` only in table style,
  and only after the rows are built. `false` behaves like `nil`.
- The file column is `filename.gsub(root + "/", '')`, which removes every
  occurrence of the root and its slash, not just the leading one. The
  report keeps that (`Paths.StripAllAsWritten`); see "## Findings".
- Without sorting, `files` is the result's own list, so hiding covered
  files with `select!` removes them from the caller's `result.files` too
  (`Report.CallerFiles`).
- The colour is chosen from the two-decimal text, not the exact percentage.
  So 89.996 is green (`Colors.Colorize`).

## Model

| member | source | states |
|---|---|---|
| MissedLines.Assign | lib/simplecov-console.rb:93-99 | `groups[k] = v` on a Hash: an existing key keeps its position, and the key list and size are unchanged; a new key is appended |
| MissedLines.AssignReadBack | lib/simplecov-console.rb:94-98 | after `groups[k] = v`, `groups[k]` reads `v` and every other key reads what it read before |
| MissedLines.Step | lib/simplecov-console.rb:92-100 | after one line the open run ends at that line, and at most one entry is added |
| MissedLines.StepReadBack | lib/simplecov-console.rb:93-100 | a line right after the previous one adds one to its run's entry; any other line starts its own run with entry 0; no other entry changes and no key is lost or moved |
| MissedLines.Walk | lib/simplecov-console.rb:88-101 | no lines leave the Hash empty and `base` unset; otherwise the open run ends at the last line; never more entries than lines |
| MissedLines.TokenOf | lib/simplecov-console.rb:104-110 | a Hash entry of length 0 prints as its single line; any other entry prints as the range from its key to key plus length, so it stands for exactly length + 1 lines |
| MissedLines.Missed | lib/simplecov-console.rb:87-113 | no missed lines give no ranges; any missed line gives at least one |
| MissedLines.CursorIsTracked | lib/simplecov-console.rb:89-100 | for every input, bases are distinct and occur in the input, and the entry of the run being extended satisfies base + length == previous == the last line seen |
| MissedLines.TokensFollowFirstEncounter | lib/simplecov-console.rb:96-104 | the ranges come out in the order each run start was first met, once per distinct start (Hash insertion order) |
| MissedLines.MissedAtMostBreaks | lib/simplecov-console.rb:91-101 | never more ranges than positions where a new run starts |
| MissedLines.MissedRoundTrip | lib/simplecov-console.rb:87-113 | for strictly ascending lines, expanding the ranges gives the lines back; every span covers at least two lines; adjacent ranges cannot be merged; one range per run |
| MissedLines.ExampleRuns | lib/simplecov-console.rb:87-113 | lines 5, 6, 7, 10 give "5-7" and "10" |
| MissedLines.ExampleRestartedKey | lib/simplecov-console.rb:93-99 | unordered lines 5, 6, 3, 5 give "5" and "3": the restarted key resets the first run in place |
| MissedLines.GroupMissed | lib/simplecov-console.rb:91-112 | the loop over the lines and the map over the Hash compute the same ranges, and for strictly ascending input they round-trip |
| Decimal.ReadNatText | lib/simplecov-console.rb:106-108 | a line number interpolated into the text reads back as the same number |
| MissedText.TokenText | lib/simplecov-console.rb:105-109 | a range's text is never empty and never holds a comma or a space |
| MissedText.Join | lib/simplecov-console.rb:144 | joining no ranges gives the empty text; joining n ranges gives exactly n - 1 commas |
| MissedText.MissingTextRoundTrip | lib/simplecov-console.rb:144 | for strictly ascending non-negative lines, reading the `", "`-joined range text back gives exactly the missed lines |
| MissedText.ExampleMissingText | lib/simplecov-console.rb:144 | lines 3, 4, 8 are shown as "3-4, 8" |
| Ordering.Insert | lib/simplecov-console.rb:51 | inserting into a list sorted by percent keeps it sorted and adds exactly that file |
| Ordering.SortByCoverage | lib/simplecov-console.rb:51 | the result is ordered by ascending percent and is a permutation of the input |
| Ordering.SortKeepsSorted | lib/simplecov-console.rb:51 | the model's insertion sort leaves a list already in order as it is (a property of the model's sort, not promised by Ruby's `sort`) |
| Ordering.SortedPermutationsAgree | lib/simplecov-console.rb:51 | any two sorted permutations of the same files agree on every position's percentage, so the order of percentages does not depend on how ties are broken |
| Selection.SortModeOf | lib/simplecov-console.rb:50 | files are sorted if and only if `sort` is exactly "coverage" |
| Selection.Order | lib/simplecov-console.rb:50-54 | sorted permutation when sorting, the input unchanged otherwise |
| Selection.RemoveCovered | lib/simplecov-console.rb:58-66 | kept plus counted equals the input size; no kept file is at 100 percent |
| Selection.KeptMultiset | lib/simplecov-console.rb:58-66 | the rejected files are exactly the fully covered ones: every other file is kept as often as it occurs in the input |
| Selection.RemovedCountsCovered | lib/simplecov-console.rb:56-66 | the counter ends at the number of fully covered files |
| Selection.KeptInOrder | lib/simplecov-console.rb:59-66 | the kept files are a subsequence of the input that misses no uncovered file |
| Selection.Truncate | lib/simplecov-console.rb:72-77 | unchanged iff the limit is nil, -1 or not exceeded; otherwise the first `max_rows` files with the pre-cut size, or `nil` for a limit below -1 |
| Selection.Select | lib/simplecov-console.rb:50-77 | the early return happens iff covered files are hidden and every file is fully covered; the hidden count is the number of fully covered files (0 when shown) |
| Selection.SelectShowsCandidates | lib/simplecov-console.rb:50-77 | uncut, the listing holds every shown file as often as in the input, sorted in coverage mode, without fully covered files when hidden, within the limit |
| Selection.SelectTruncates | lib/simplecov-console.rb:72-77 | cut, the listing is the first `max_rows` candidates; the notice's total plus the hidden count is the number of files |
| Selection.ShownAreCandidates | lib/simplecov-console.rb:72-77 | a cut listing is a sub-multiset of the input, sorted in coverage mode and free of hidden files |
| Selection.ShownAreWorst | lib/simplecov-console.rb:74-76 | in coverage mode no shown file has higher coverage than a candidate that was cut off |
| Selection.CandidatesEmpty | lib/simplecov-console.rb:67-69 | with covered files hidden, the list is empty iff every file is fully covered |
| Selection.SelectIdempotent | lib/simplecov-console.rb:50-77 | selecting again from a non-empty listing returns it unchanged, with nothing hidden and no cut |
| Selection.InputOrderKept | lib/simplecov-console.rb:52-77 | without sorting, the listing keeps the input's relative order |
| Colors.Tier | lib/simplecov-console.rb:128-134 | green iff at least 90, yellow iff at least 80 and below 90, red iff below 80 |
| Colors.Displayed | lib/simplecov-console.rb:126-127 | the number read back from the printed percentage is within half a hundredth of it and never negative |
| Colors.Colorize | lib/simplecov-console.rb:123-135 | plain iff colours are off; otherwise green iff at least 89.995, yellow iff at least 79.995 and below 89.995, red below |
| Colors.ColorizeMonotone | lib/simplecov-console.rb:123-135 | higher coverage never gets a worse colour |
| Colors.ExampleTiers | lib/simplecov-console.rb:123-135 | 95 and 90 green, 85 and 80 yellow, 79.99 and 70 red, 89.996 green, plain without colours |
| Paths.RemoveAll | lib/simplecov-console.rb:141 | `gsub` of a literal pattern: never longer than the text; the text itself when the pattern does not occur; at least the pattern shorter when the text starts with it |
| Paths.StripAllAsWritten | lib/simplecov-console.rb:141 | the file column as written: never longer than the name; the name itself when it does not mention `root + "/"`; at least the root and slash shorter for a name under the root |
| Paths.GsubLeavesOtherPaths | lib/simplecov-console.rb:141 | a file name not containing `root + "/"` is shown unchanged |
| Paths.GsubStripsRoot | lib/simplecov-console.rb:141 | `root/rel` is shown as `rel` when `rel` does not itself contain `root + "/"` |
| Paths.GsubNestedRootCounterexample | lib/simplecov-console.rb:141 | with root "/a", "/a/b/a/c" is shown as "bc" |
| Paths.StripRoot | lib/simplecov-console.rb:141 | not what line 141 does, but the corrected column of the "## Findings" row: under the root, root + "/" + result is the file name; elsewhere the name is unchanged |
| Paths.StripRootRelative | lib/simplecov-console.rb:141 | the corrected column of the "## Findings" row (not what line 141 does): `root/rel` becomes `rel` for every `rel` |
| Paths.StripRootAgreesWithGsub | lib/simplecov-console.rb:141 | where the root occurs only as the prefix (or not at all), the corrected column equals the written one |
| Report.RowOf | lib/simplecov-console.rb:138-146 | a row keeps the percentage, painted `Colorize(percent, use_colors)`, the line count and the missed count; its "missing" text is empty iff no line was missed; its file column (the `gsub`) is never longer than the name and is the name itself when that does not mention `root + "/"` |
| Report.EntryOf | lib/simplecov-console.rb:162-167 | the same for a block entry, with its coverage painted by `Colorize` too, and it also keeps the covered count |
| Report.UserOptions | lib/simplecov-console.rb:148-151 | options are rejected iff set to something other than `nil`, `false` or a Hash; `nil` and `false` mean an empty Hash |
| Report.TableOutput | lib/simplecov-console.rb:137-158 | a `nil` list fails first; otherwise it raises iff the options are rejected; a table has the five headings, one row per file, and no user option named `headings` or `rows` |
| Report.BlockOutput | lib/simplecov-console.rb:160-170 | it fails iff the list is `nil`; otherwise one entry per file |
| Report.Render | lib/simplecov-console.rb:79 | `NoMethodError` for the style's method name iff the style is neither "table" nor "block" |
| Report.Footer | lib/simplecov-console.rb:81-83 | the footer appears iff rendering returned and at least one file was hidden, and it holds that count |
| Report.CallerFiles | lib/simplecov-console.rb:50-66 | with a root, no sorting and covered files hidden, the caller's list afterwards has lost exactly its fully covered files (every other file as often as before); in every other case it is unchanged |
| Report.SummaryOf | lib/simplecov-console.rb:43 | the summary line carries the overall percentage painted by `Colorize(percent, use_colors)`, the covered and total line counts, and the number of files |
| Report.Format | lib/simplecov-console.rb:29-85 | the summary carries the result's covered and total lines and its percentage painted by `Colorize`, and counts every file; the report stops after the summary iff there is no root or every file is fully covered and hidden |
| Report.FormatFooter | lib/simplecov-console.rb:81-83 | the footer appears iff covered files are hidden, one exists and rendering returned; it counts the fully covered files |
| Report.FormatNotice | lib/simplecov-console.rb:74-75 | the notice appears iff a limit is set and exceeded by the candidates; it names the limit and the candidate count |
| Report.FormatFailure | lib/simplecov-console.rb:72-79 | rendering raises iff the style is unknown, the limit is below -1, or table options are not a Hash, in that priority |
| Report.FormatTable | lib/simplecov-console.rb:137-158 | a table has the five headings, the user's options apart from `headings` and `rows`, and one row per shown candidate in order |
| Report.FormatBlocks | lib/simplecov-console.rb:160-170 | block output has one entry per shown candidate in order |
| Report.RowRoundTrip | lib/simplecov-console.rb:138-146 | for strictly ascending, non-negative missed lines, a row gives back its file's missed lines, missed count and percentage; and the full name, when the file is under the root and its relative path does not mention `root + "/"` again |
| Report.EntryRoundTrip | lib/simplecov-console.rb:162-167 | for strictly ascending, non-negative missed lines, a block entry gives back its file's missed lines, covered and total line counts and percentage; and the full name under the same condition as a row |
| Report.ExampleReport | lib/simplecov-console.rb:29-85 | a fully covered file and one at 50 percent with lines 3, 4, 8 missed: summary 15/20 in 2 files, one table row "3-4, 8", footer 1 |

## Left out

- The version constant and reading the defaults from the environment
  (`NO_COLOR`, `MAX_ROWS` with `to_i`, `SHOW_COVERED`, `SORT`, `OUTPUT_STYLE`)
  are left out: they are I/O. The defaults appear as `Report.DefaultConfig`.
- Finding the project root is left out: it depends on the `ROOT` constant,
  Rails, `BUNDLE_GEMFILE` and the working directory, all outside the formatter.
  The root is an `Option<string>` parameter.
- The printed text is left out: `puts`, the `sprintf` widths, the
  terminal-table layout and the ANSI escape codes. The model produces the
  values each line is rendered from.
- Colors.Displayed: rounds the exact percentage half up to two decimals.
  Ruby's `%.2f` rounds the binary floating-point value, so the two can differ
  on values that sit on a rounding boundary.
- Report.Format: does not model that `output_style << "_output"` appends to
  the configured string itself. A later call in the same process would look
  for `table_output_output`, but the configuration is an immutable value here.
- Ordering.SortByCoverage: Ruby's `sort` is not stable. The model uses an
  insertion sort, and its contract claims only order and permutation.
  `Ordering.SortedPermutationsAgree` shows that the percentages in each
  position do not depend on the choice. Which of several equally covered
  files survive a cut does depend on it.
- Ordering.SortKeepsSorted: is a property of the model's insertion sort.
  Ruby's `sort` does not promise to keep equally covered files of an
  ordered list in place, so the source need not have it.
- Selection.SelectIdempotent: relies on the model's sort leaving sorted input
  unchanged, which Ruby's sort does not promise for equally covered files. It
  also requires a non-empty listing when covered files are hidden, because a
  limit of 0 turns the second run into the early return.
- Missed-line records are reduced to their line numbers. The formatter reads
  nothing else from them.
- `table_options` keys are Ruby symbols in the source and names here. A
  value that is `false` is `SetToFalse`. Every other non-Hash value is
  collapsed into `NotAHash`, because the formatter only asks whether it is a
  Hash.
- Report.CallerFiles: models only what the caller's `result.files` holds
  after `format`. It does not model other references to that same list, or
  the timing of the change: the list is emptied of covered files before
  `format` returns early, and before the renderer raises.

## Findings

| source | as written | input that shows it | evidently intended | confidence | as-written member | corrected member |
|---|---|---|---|---|---|---|
| lib/simplecov-console.rb:141 | the file column is `filename.gsub(root + "/", '')`, which removes every occurrence of the root followed by a slash (also at line 163) | root "/a", file "/a/b/a/c": shown as "bc" | remove only the leading root, showing "b/a/c" | high; not executed | Paths.GsubNestedRootCounterexample | Paths.StripRootRelative |
