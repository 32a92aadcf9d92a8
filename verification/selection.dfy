/**
 The file selection inside `format`: optional ordering by coverage, removal of
 fully covered files (counting them), and truncation to `max_rows`.
 */
module Selection {
  import opened Wrappers
  import opened Coverage
  import opened Ordering

  datatype SortMode = ByCoverage | InputOrder

  /** Only the exact string "coverage" orders the files. */
  function SortModeOf(sort: string): (m: SortMode)
    ensures m == ByCoverage <==> sort == "coverage"
  {
    if sort == "coverage" then ByCoverage else InputOrder
  }

  function Order(files: seq<FileCov>, mode: SortMode): (r: seq<FileCov>)
    ensures multiset(r) == multiset(files)
    ensures mode == ByCoverage ==> SortedByPercent(r)
    ensures mode == InputOrder ==> r == files
  {
    match mode
    case ByCoverage => SortByCoverage(files)
    case InputOrder => files
  }

  // ---------------------------------------------------------------------------
  // Removing fully covered files

  /** What `select!` leaves, and the value of the `covered_files` counter. */
  datatype Filtered = Filtered(kept: seq<FileCov>, removed: nat)

  /** Positions of the fully covered files. */
  function CoveredPositions(files: seq<FileCov>): set<nat> {
    set i: nat | i < |files| && FullyCovered(files[i])
  }

  /** `files.select!` with the block that counts and drops files at exactly
      100 percent, walking the list front to back. */
  function RemoveCovered(files: seq<FileCov>): (r: Filtered)
    ensures |r.kept| + r.removed == |files|
    ensures forall i :: 0 <= i < |r.kept| ==> !FullyCovered(r.kept[i])
    decreases |files|
  {
    if |files| == 0 then Filtered([], 0)
    else
      var prefix := files[..|files| - 1];
      var f := files[|files| - 1];
      var r := RemoveCovered(prefix);
      assert files == prefix + [f];
      if FullyCovered(f) then Filtered(r.kept, r.removed + 1)
      else Filtered(r.kept + [f], r.removed)
  }

  lemma RemoveCoveredSnoc(prefix: seq<FileCov>, f: FileCov)
    ensures RemoveCovered(prefix + [f]) ==
      var r := RemoveCovered(prefix);
      if FullyCovered(f) then Filtered(r.kept, r.removed + 1) else Filtered(r.kept + [f], r.removed)
  {
    assert (prefix + [f])[..|prefix|] == prefix;
  }

  /** `select!` keeps every file that is not fully covered, as often as it
      occurs, and nothing else. */
  lemma {:induction false} KeptMultiset(files: seq<FileCov>)
    ensures forall f :: multiset(RemoveCovered(files).kept)[f] == if FullyCovered(f) then 0 else multiset(files)[f]
    decreases |files|
  {
    if |files| > 0 {
      var n := |files| - 1;
      KeptMultiset(files[..n]);
      KeptMultisetStep(files[..n], files[n]);
      assert files[..n] + [files[n]] == files;
    }
  }

  lemma KeptMultisetStep(prefix: seq<FileCov>, x: FileCov)
    requires forall f :: multiset(RemoveCovered(prefix).kept)[f] == if FullyCovered(f) then 0 else multiset(prefix)[f]
    ensures forall f :: multiset(RemoveCovered(prefix + [x]).kept)[f] == if FullyCovered(f) then 0 else multiset(prefix + [x])[f]
  {
    RemoveCoveredSnoc(prefix, x);
    var k := RemoveCovered(prefix).kept;
    assert multiset(prefix + [x]) == multiset(prefix) + multiset{x};
    assert multiset(k + [x]) == multiset(k) + multiset{x};
  }

  lemma CoveredPositionsSnoc(prefix: seq<FileCov>, f: FileCov)
    ensures CoveredPositions(prefix + [f]) ==
      CoveredPositions(prefix) + (if FullyCovered(f) then {|prefix|} else {})
    ensures |prefix| !in CoveredPositions(prefix)
  {
    var files := prefix + [f];
    assert forall i :: 0 <= i < |prefix| ==> files[i] == prefix[i];
  }

  /** `covered_files` ends up as the number of fully covered files. */
  lemma {:induction false} RemovedCountsCovered(files: seq<FileCov>)
    ensures RemoveCovered(files).removed == |CoveredPositions(files)|
    decreases |files|
  {
    if |files| > 0 {
      var prefix := files[..|files| - 1];
      var f := files[|files| - 1];
      RemovedCountsCovered(prefix);
      CountStep(prefix, f);
      assert files == prefix + [f];
    }
  }

  lemma CountStep(prefix: seq<FileCov>, f: FileCov)
    requires RemoveCovered(prefix).removed == |CoveredPositions(prefix)|
    ensures RemoveCovered(prefix + [f]).removed == |CoveredPositions(prefix + [f])|
  {
    RemoveCoveredSnoc(prefix, f);
    CoveredPositionsSnoc(prefix, f);
    var cp := CoveredPositions(prefix);
    assert |cp + {|prefix|}| == |cp| + 1;
  }

  /** `idx` lists, strictly increasing, the positions in `files` that `kept`
      was taken from, and misses no position of an uncovered file. */
  ghost predicate Enumerates(files: seq<FileCov>, kept: seq<FileCov>, idx: seq<nat>) {
    && PicksFrom(files, kept, idx)
    && (forall i :: 0 <= i < |files| && !FullyCovered(files[i]) ==> i in idx)
  }

  /** `sel` is a subsequence of `files`, taken at the strictly increasing
      positions `idx`. */
  ghost predicate PicksFrom(files: seq<FileCov>, sel: seq<FileCov>, idx: seq<nat>) {
    && |idx| == |sel|
    && (forall j :: 0 <= j < |idx| ==> idx[j] < |files| && sel[j] == files[idx[j]])
    && (forall j, k :: 0 <= j < k < |idx| ==> idx[j] < idx[k])
  }

  lemma PicksPrefix(files: seq<FileCov>, sel: seq<FileCov>, idx: seq<nat>, m: nat)
    requires PicksFrom(files, sel, idx) && m <= |sel|
    ensures PicksFrom(files, sel[..m], idx[..m])
  {
  }

  /** The kept files are exactly the files that are not fully covered, in
      their original relative order. */
  lemma {:induction false} KeptInOrder(files: seq<FileCov>) returns (idx: seq<nat>)
    ensures Enumerates(files, RemoveCovered(files).kept, idx)
    decreases |files|
  {
    if |files| == 0 {
      idx := [];
    } else {
      var prefix := files[..|files| - 1];
      var f := files[|files| - 1];
      var pre := KeptInOrder(prefix);
      assert files == prefix + [f];
      RemoveCoveredSnoc(prefix, f);
      idx := KeptStep(prefix, f, RemoveCovered(prefix).kept, pre);
    }
  }

  lemma KeptStep(prefix: seq<FileCov>, f: FileCov, kept: seq<FileCov>, pre: seq<nat>) returns (idx: seq<nat>)
    requires Enumerates(prefix, kept, pre)
    ensures Enumerates(prefix + [f], if FullyCovered(f) then kept else kept + [f], idx)
  {
    if FullyCovered(f) {
      idx := pre;
      SkipStep(prefix, f, kept, pre);
    } else {
      idx := pre + [|prefix|];
      KeepStep(prefix, f, kept, pre);
    }
  }

  lemma SkipStep(prefix: seq<FileCov>, f: FileCov, kept: seq<FileCov>, pre: seq<nat>)
    requires Enumerates(prefix, kept, pre) && FullyCovered(f)
    ensures Enumerates(prefix + [f], kept, pre)
  {
    var files := prefix + [f];
    assert forall i :: 0 <= i < |prefix| ==> files[i] == prefix[i];
  }

  lemma KeepStep(prefix: seq<FileCov>, f: FileCov, kept: seq<FileCov>, pre: seq<nat>)
    requires Enumerates(prefix, kept, pre) && !FullyCovered(f)
    ensures Enumerates(prefix + [f], kept + [f], pre + [|prefix|])
  {
    var files := prefix + [f];
    var idx := pre + [|prefix|];
    var kept' := kept + [f];
    assert forall i :: 0 <= i < |prefix| ==> files[i] == prefix[i];
    forall j | 0 <= j < |idx| ensures idx[j] < |files| && kept'[j] == files[idx[j]] {
      if j < |pre| { assert idx[j] == pre[j] && kept'[j] == kept[j]; }
    }
    forall i | 0 <= i < |files| && !FullyCovered(files[i]) ensures i in idx {
      if i < |prefix| { assert i in pre; } else { assert idx[|pre|] == i; }
    }
  }

  // ---------------------------------------------------------------------------
  // Truncation

  /** `max_rows` of -1 or `nil` means no limit. */
  predicate Unlimited(maxRows: Option<int>) {
    maxRows == None || maxRows == Some(-1)
  }

  /** The outcome of the `max_rows` check: the list unchanged, its first
      `max_rows` files, or, for a limit below -1, the `nil` that
      `slice(0, max_rows)` returns for a negative length. */
  datatype Truncation =
    | Whole(files: seq<FileCov>)
    | Cut(files: seq<FileCov>, from: nat)
    | NilSlice(limit: int, from: nat)

  function Truncate(files: seq<FileCov>, maxRows: Option<int>): (r: Truncation)
    ensures Unlimited(maxRows) || |files| <= maxRows.value <==> r.Whole?
    ensures r.Whole? ==> r.files == files
    ensures r.Cut? ==> && maxRows.Some? && 0 <= maxRows.value < |files|
                       && r.files == files[..maxRows.value] && r.from == |files|
    ensures r.NilSlice? <==> maxRows.Some? && maxRows.value < -1
    ensures r.NilSlice? ==> r.limit == maxRows.value && r.from == |files|
  {
    if Unlimited(maxRows) || |files| <= maxRows.value then Whole(files)
    else if maxRows.value >= 0 then Cut(files[..maxRows.value], |files|)
    else NilSlice(maxRows.value, |files|)
  }

  // ---------------------------------------------------------------------------
  // The whole selection

  datatype Selection =
      /** Every file was fully covered and hidden: `format` returns early. */
    | AllCovered(covered: nat)
      /** The files to render, the hidden count, and the pre-truncation size
          when the list was cut. */
    | Selected(files: seq<FileCov>, covered: nat, truncatedFrom: Option<nat>)
      /** `slice` returned `nil`; the renderer will raise on it. */
    | NilRows(covered: nat, limit: int, from: nat)

  /** The candidate list before truncation. */
  function Candidates(files: seq<FileCov>, mode: SortMode, showCovered: bool): Filtered {
    var ordered := Order(files, mode);
    if showCovered then Filtered(ordered, 0) else RemoveCovered(ordered)
  }

  function Select(files: seq<FileCov>, mode: SortMode, showCovered: bool, maxRows: Option<int>): (r: Selection)
    ensures r.AllCovered? <==> !showCovered && forall i :: 0 <= i < |files| ==> FullyCovered(files[i])
    ensures r.covered == if showCovered then 0 else |CoveredPositions(files)|
  {
    var c := Candidates(files, mode, showCovered);
    CandidatesCount(files, mode, showCovered);
    CandidatesEmpty(files, mode, showCovered);
    if !showCovered && |c.kept| == 0 then AllCovered(c.removed)
    else
      match Truncate(c.kept, maxRows)
      case Whole(kept) => Selected(kept, c.removed, None)
      case Cut(shown, from) => Selected(shown, c.removed, Some(from))
      case NilSlice(limit, from) => NilRows(c.removed, limit, from)
  }

  /** Untruncated, the selection holds every file that is not hidden, each as
      often as in the input, and nothing else; in coverage mode it is ordered
      worst first, and with covered files hidden none of them remains. */
  lemma SelectShowsCandidates(files: seq<FileCov>, mode: SortMode, showCovered: bool, maxRows: Option<int>)
    ensures var r := Select(files, mode, showCovered, maxRows);
      r.Selected? && r.truncatedFrom.None? ==>
        && (forall f :: multiset(r.files)[f] == if !showCovered && FullyCovered(f) then 0 else multiset(files)[f])
        && (mode == ByCoverage ==> SortedByPercent(r.files))
        && (!showCovered ==> forall i :: 0 <= i < |r.files| ==> !FullyCovered(r.files[i]))
        && (Unlimited(maxRows) || |r.files| <= maxRows.value)
  {
    var r := Select(files, mode, showCovered, maxRows);
    if r.Selected? && r.truncatedFrom.None? {
      var c := Candidates(files, mode, showCovered);
      assert r.files == c.kept;
      CandidatesContent(files, mode, showCovered);
      CandidatesSorted(files, mode, showCovered);
    }
  }

  /** Truncated, the selection is the first `max_rows` candidates, and the
      notice's total plus the hidden count is the number of files. */
  lemma SelectTruncates(files: seq<FileCov>, mode: SortMode, showCovered: bool, maxRows: Option<int>)
    ensures var r := Select(files, mode, showCovered, maxRows);
      r.Selected? && r.truncatedFrom.Some? ==>
        var c := Candidates(files, mode, showCovered);
        && maxRows.Some? && 0 <= maxRows.value < r.truncatedFrom.value == |c.kept|
        && r.files == c.kept[..maxRows.value]
        && r.truncatedFrom.value + r.covered == |files|
  {
    var r := Select(files, mode, showCovered, maxRows);
    var c := Candidates(files, mode, showCovered);
    if r.Selected? && r.truncatedFrom.Some? {
      CandidatesCount(files, mode, showCovered);
      var t := Truncate(c.kept, maxRows);
      assert t.Cut? && r == Selected(t.files, c.removed, Some(t.from));
    }
  }

  /** The truncated list shows only files that may be shown, in order. */
  lemma ShownAreCandidates(files: seq<FileCov>, mode: SortMode, showCovered: bool, maxRows: Option<int>)
    ensures var r := Select(files, mode, showCovered, maxRows);
      r.Selected? && r.truncatedFrom.Some? ==>
        && multiset(r.files) <= multiset(files)
        && (!showCovered ==> forall i :: 0 <= i < |r.files| ==> !FullyCovered(r.files[i]))
        && (mode == ByCoverage ==> SortedByPercent(r.files))
  {
    var r := Select(files, mode, showCovered, maxRows);
    if r.Selected? && r.truncatedFrom.Some? {
      SelectTruncates(files, mode, showCovered, maxRows);
      CandidatePrefix(files, mode, showCovered, maxRows.value);
    }
  }

  lemma CandidatePrefix(files: seq<FileCov>, mode: SortMode, showCovered: bool, m: nat)
    requires m <= |Candidates(files, mode, showCovered).kept|
    ensures var p := Candidates(files, mode, showCovered).kept[..m];
      && multiset(p) <= multiset(files)
      && (!showCovered ==> forall i :: 0 <= i < |p| ==> !FullyCovered(p[i]))
      && (mode == ByCoverage ==> SortedByPercent(p))
  {
    var c := Candidates(files, mode, showCovered);
    CandidatesContent(files, mode, showCovered);
    CandidatesSorted(files, mode, showCovered);
    PrefixIncluded(c.kept, m);
    assert multiset(c.kept) <= multiset(files) by {
      forall f ensures multiset(c.kept)[f] <= multiset(files)[f] { }
    }
  }

  /** In coverage mode no shown file has better coverage than a candidate
      that was cut: the rows are the bottom (worst) of the list. */
  lemma ShownAreWorst(files: seq<FileCov>, showCovered: bool, maxRows: Option<int>, f: FileCov, g: FileCov)
    requires var r := Select(files, ByCoverage, showCovered, maxRows);
      && r.Selected? && r.truncatedFrom.Some?
      && f in r.files
      && g in multiset(files) && !(!showCovered && FullyCovered(g))
      && multiset(r.files)[g] < multiset(files)[g]
    ensures f.percent <= g.percent
  {
    SelectTruncates(files, ByCoverage, showCovered, maxRows);
    var c := Candidates(files, ByCoverage, showCovered);
    CandidatesContent(files, ByCoverage, showCovered);
    CandidatesSorted(files, ByCoverage, showCovered);
    CutIsWorst(c.kept, maxRows.value, f, g);
  }

  lemma CutIsWorst(s: seq<FileCov>, m: nat, f: FileCov, g: FileCov)
    requires SortedByPercent(s) && m <= |s|
    requires f in s[..m] && multiset(s[..m])[g] < multiset(s)[g]
    ensures f.percent <= g.percent
  {
    assert s == s[..m] + s[m..];
    assert multiset(s) == multiset(s[..m]) + multiset(s[m..]);
    assert g in multiset(s[m..]);
    var j :| 0 <= j < |s[m..]| && s[m..][j] == g;
    var i :| 0 <= i < m && s[..m][i] == f;
    assert s[i] == f && s[m + j] == g;
  }

  lemma PrefixIncluded(s: seq<FileCov>, n: nat)
    requires n <= |s|
    ensures multiset(s[..n]) <= multiset(s)
    ensures SortedByPercent(s) ==> SortedByPercent(s[..n])
  {
    assert s == s[..n] + s[n..];
  }

  /** The count of fully covered files does not depend on their order. */
  lemma CountIgnoresOrder(a: seq<FileCov>, b: seq<FileCov>)
    requires multiset(a) == multiset(b)
    ensures RemoveCovered(a).removed == RemoveCovered(b).removed
    ensures multiset(RemoveCovered(a).kept) == multiset(RemoveCovered(b).kept)
  {
    var ka := RemoveCovered(a).kept;
    var kb := RemoveCovered(b).kept;
    KeptMultiset(a);
    KeptMultiset(b);
    assert multiset(ka) == multiset(kb) by {
      forall f ensures multiset(ka)[f] == multiset(kb)[f] { }
    }
    assert |ka| == |multiset(ka)| == |multiset(kb)| == |kb|;
    assert |a| == |multiset(a)| == |multiset(b)| == |b|;
  }

  lemma CandidatesCount(files: seq<FileCov>, mode: SortMode, showCovered: bool)
    ensures var c := Candidates(files, mode, showCovered);
      && c.removed == (if showCovered then 0 else |CoveredPositions(files)|)
      && |c.kept| + c.removed == |files|
  {
    var ordered := Order(files, mode);
    assert |ordered| == |multiset(ordered)| == |multiset(files)| == |files|;
    if !showCovered {
      CountIgnoresOrder(ordered, files);
      RemovedCountsCovered(files);
    }
  }

  lemma CandidatesContent(files: seq<FileCov>, mode: SortMode, showCovered: bool)
    ensures var c := Candidates(files, mode, showCovered);
      && (!showCovered ==> forall i :: 0 <= i < |c.kept| ==> !FullyCovered(c.kept[i]))
      && (forall f :: multiset(c.kept)[f] == if !showCovered && FullyCovered(f) then 0 else multiset(files)[f])
  {
    KeptMultiset(Order(files, mode));
  }

  lemma CandidatesSorted(files: seq<FileCov>, mode: SortMode, showCovered: bool)
    ensures mode == ByCoverage ==> SortedByPercent(Candidates(files, mode, showCovered).kept)
  {
    if mode == ByCoverage && !showCovered {
      var ordered := Order(files, mode);
      var kept := RemoveCovered(ordered).kept;
      var idx := KeptInOrder(ordered);
      forall i, j | 0 <= i < j < |kept| ensures kept[i].percent <= kept[j].percent {
        assert kept[i] == ordered[idx[i]] && kept[j] == ordered[idx[j]];
      }
    }
  }

  lemma CandidatesEmpty(files: seq<FileCov>, mode: SortMode, showCovered: bool)
    ensures !showCovered ==> (|Candidates(files, mode, showCovered).kept| == 0 <==>
      forall i :: 0 <= i < |files| ==> FullyCovered(files[i]))
  {
    var kept := Candidates(files, mode, showCovered).kept;
    CandidatesContent(files, mode, showCovered);
    if showCovered {
    } else if |kept| == 0 {
      forall i | 0 <= i < |files| ensures FullyCovered(files[i]) {
        assert files[i] in multiset(files);
      }
    } else {
      var f := kept[0];
      assert f in multiset(kept);
      assert multiset(files)[f] > 0;
    }
  }

  // ---------------------------------------------------------------------------
  // Running the selection on its own output

  lemma {:induction false} NothingToRemove(files: seq<FileCov>)
    requires forall i :: 0 <= i < |files| ==> !FullyCovered(files[i])
    ensures RemoveCovered(files) == Filtered(files, 0)
    decreases |files|
  {
    if |files| > 0 {
      var n := |files| - 1;
      NothingToRemove(files[..n]);
      KeepUncovered(files[..n], files[n]);
      assert files[..n] + [files[n]] == files;
    }
  }

  lemma KeepUncovered(prefix: seq<FileCov>, f: FileCov)
    requires RemoveCovered(prefix) == Filtered(prefix, 0) && !FullyCovered(f)
    ensures RemoveCovered(prefix + [f]) == Filtered(prefix + [f], 0)
  {
    RemoveCoveredSnoc(prefix, f);
  }

  lemma StableCandidates(sel: seq<FileCov>, mode: SortMode, showCovered: bool)
    requires mode == ByCoverage ==> SortedByPercent(sel)
    requires !showCovered ==> forall i :: 0 <= i < |sel| ==> !FullyCovered(sel[i])
    ensures Candidates(sel, mode, showCovered) == Filtered(sel, 0)
  {
    if mode == ByCoverage {
      SortKeepsSorted(sel);
    }
    assert Order(sel, mode) == sel;
    if !showCovered {
      NothingToRemove(sel);
    }
  }

  /** Selecting again from a selection changes nothing: it is already in
      order, holds no file to hide and fits the row limit. The hidden count
      of the second run is 0. (A limit of 0 with covered files hidden leaves
      an empty list, which the second run treats as the early exit.) */
  lemma SelectIdempotent(files: seq<FileCov>, mode: SortMode, showCovered: bool, maxRows: Option<int>)
    requires var r := Select(files, mode, showCovered, maxRows);
      r.Selected? && (showCovered || |r.files| > 0)
    ensures var r := Select(files, mode, showCovered, maxRows);
      Select(r.files, mode, showCovered, maxRows) == Selected(r.files, 0, None)
  {
    var r := Select(files, mode, showCovered, maxRows);
    var sel := r.files;
    SelectShowsCandidates(files, mode, showCovered, maxRows);
    ShownAreCandidates(files, mode, showCovered, maxRows);
    SelectTruncates(files, mode, showCovered, maxRows);
    StableCandidates(sel, mode, showCovered);
    assert Truncate(sel, maxRows) == Whole(sel);
  }

  lemma CandidatesInInputOrder(files: seq<FileCov>, showCovered: bool) returns (idx: seq<nat>)
    ensures PicksFrom(files, Candidates(files, InputOrder, showCovered).kept, idx)
  {
    if showCovered {
      idx := seq(|files|, i requires 0 <= i < |files| => i);
    } else {
      idx := KeptInOrder(files);
    }
  }

  /** In input order the selection keeps the files' original relative order:
      it is a subsequence of the input. */
  lemma InputOrderKept(files: seq<FileCov>, showCovered: bool, maxRows: Option<int>) returns (idx: seq<nat>)
    requires Select(files, InputOrder, showCovered, maxRows).Selected?
    ensures PicksFrom(files, Select(files, InputOrder, showCovered, maxRows).files, idx)
  {
    var r := Select(files, InputOrder, showCovered, maxRows);
    var c := Candidates(files, InputOrder, showCovered);
    SelectTruncates(files, InputOrder, showCovered, maxRows);
    var all := CandidatesInInputOrder(files, showCovered);
    if r.truncatedFrom.Some? {
      PicksPrefix(files, c.kept, all, maxRows.value);
      idx := all[..maxRows.value];
    } else {
      assert r.files == c.kept;
      idx := all;
    }
  }
}
