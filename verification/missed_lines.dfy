/**
 The missed-line range grouper (`missed`): it walks the missed line numbers in
 the order given and compresses each run of consecutive numbers into one
 token. Runs are collected in a Ruby Hash keyed by the run's first line, so
 the model keeps the Hash semantics: a key assigned again keeps its original
 position and has its length reset.
 */
module MissedLines {
  import opened Wrappers
  import opened Seqs

  /** One Hash entry `groups[base] = length`: the run starts at `base` and has
      absorbed `length` further lines. */
  datatype Group = Group(base: int, length: nat)

  /** Where the walk is: before the first line, or inside the run that started
      at `base` and whose last line so far is `previous`. */
  datatype Cursor = Idle | At(base: int, previous: int)

  datatype Grouping = Grouping(groups: seq<Group>, cursor: Cursor)

  /** One output token: `"n"` or `"lo-hi"`. */
  datatype Token = Single(line: int) | Span(lo: int, hi: int)

  // ---------------------------------------------------------------------------
  // The Hash, as an insertion-ordered association list

  function Keys(groups: seq<Group>): (ks: seq<int>)
    ensures |ks| == |groups|
    ensures forall i :: 0 <= i < |groups| ==> ks[i] == groups[i].base
  {
    seq(|groups|, i requires 0 <= i < |groups| => groups[i].base)
  }

  /** Position of the entry with key `k`, if any (the first one). */
  function KeyIndex(groups: seq<Group>, k: int): (r: Option<nat>)
    ensures r.Some? ==> r.value < |groups| && groups[r.value].base == k
    ensures r.Some? ==> forall j :: 0 <= j < r.value ==> groups[j].base != k
    ensures r.None? <==> k !in Keys(groups)
    decreases |groups|
  {
    if |groups| == 0 then None
    else if groups[0].base == k then Some(0)
    else match KeyIndex(groups[1..], k)
      case None => None
      case Some(i) => Some(i + 1)
  }

  /** `groups[k] = v`: overwrite in place when the key exists, else append.
      What the entries read afterwards is `AssignReadBack`. */
  function Assign(groups: seq<Group>, k: int, v: nat): (r: seq<Group>)
    ensures k in Keys(groups) ==> Keys(r) == Keys(groups) && |r| == |groups|
    ensures k !in Keys(groups) ==> r == groups + [Group(k, v)]
  {
    match KeyIndex(groups, k)
    case Some(i) => groups[i := Group(k, v)]
    case None => groups + [Group(k, v)]
  }

  /** `groups[k]`; the walk only reads keys it has assigned (see
      `CursorIsTracked`), so the fallback 0 is never used. */
  function LengthOf(groups: seq<Group>, k: int): nat {
    match KeyIndex(groups, k)
    case Some(i) => groups[i].length
    case None => 0
  }

  /** After `groups[k] = v`, `groups[k]` reads `v` and every other key reads
      what it read before. */
  lemma AssignReadBack(groups: seq<Group>, k: int, v: nat)
    ensures LengthOf(Assign(groups, k, v), k) == v
    ensures forall k' :: k' != k ==> LengthOf(Assign(groups, k, v), k') == LengthOf(groups, k')
  {
    match KeyIndex(groups, k)
    case Some(i) =>
      var r := groups[i := Group(k, v)];
      forall k' ensures KeyIndex(r, k') == KeyIndex(groups, k') {
        SameBasesSameIndex(groups, r, k');
      }
    case None =>
      forall k' ensures KeyIndex(groups + [Group(k, v)], k') == if k' == k then Some(|groups|) else KeyIndex(groups, k') {
        AppendIndex(groups, Group(k, v), k');
      }
  }

  /** Entries with the same keys in the same places are looked up alike. */
  lemma {:induction false} SameBasesSameIndex(a: seq<Group>, b: seq<Group>, k: int)
    requires |a| == |b| && forall i :: 0 <= i < |a| ==> a[i].base == b[i].base
    ensures KeyIndex(a, k) == KeyIndex(b, k)
    decreases |a|
  {
    if |a| > 0 && a[0].base != k {
      SameBasesSameIndex(a[1..], b[1..], k);
    }
  }

  /** Appending an entry for a new key finds it last and leaves every other
      lookup alone. */
  lemma {:induction false} AppendIndex(groups: seq<Group>, g: Group, k: int)
    requires g.base !in Keys(groups)
    ensures KeyIndex(groups + [g], k) == if k == g.base then Some(|groups|) else KeyIndex(groups, k)
    decreases |groups|
  {
    if |groups| == 0 {
      assert (groups + [g])[1..] == [];
    } else if groups[0].base != k {
      assert (groups + [g])[1..] == groups[1..] + [g];
      assert g.base !in Keys(groups[1..]) by {
        assert forall i :: 0 <= i < |groups| - 1 ==> Keys(groups[1..])[i] == Keys(groups)[i + 1];
      }
      AppendIndex(groups[1..], g, k);
    }
  }

  // ---------------------------------------------------------------------------
  // The walk

  /** One iteration of the `each` loop, for line number `ln`. What it does to
      the entries is `StepReadBack`. */
  function Step(g: Grouping, ln: int): (r: Grouping)
    ensures r.cursor.At? && r.cursor.previous == ln
    ensures |r.groups| <= |g.groups| + 1
  {
    match g.cursor
    case At(base, previous) =>
      if ln - 1 == previous then
        Grouping(Assign(g.groups, base, LengthOf(g.groups, base) + 1), At(base, ln))
      else
        Grouping(Assign(g.groups, ln, 0), At(ln, ln))
    case Idle =>
      Grouping(Assign(g.groups, ln, 0), At(ln, ln))
  }

  /** The state after walking all of `lines`: the open run ends at the last
      line, and there is at most one entry per line. */
  function Walk(lines: seq<int>): (r: Grouping)
    ensures |lines| == 0 ==> r == Grouping([], Idle)
    ensures |lines| > 0 ==> r.cursor.At? && r.cursor.previous == lines[|lines| - 1]
    ensures |r.groups| <= |lines|
    decreases |lines|
  {
    if |lines| == 0 then Grouping([], Idle)
    else Step(Walk(lines[..|lines| - 1]), lines[|lines| - 1])
  }

  /** A line right after the previous one adds one to its run's entry; any
      other line starts a run of its own with entry 0. No other entry
      changes, and no key is lost or moved. */
  lemma StepReadBack(g: Grouping, ln: int)
    ensures var r := Step(g, ln);
      && r.cursor.base in Keys(r.groups)
      && Keys(g.groups) <= Keys(r.groups)
      && (g.cursor.At? && ln - 1 == g.cursor.previous ==>
            r.cursor.base == g.cursor.base && LengthOf(r.groups, r.cursor.base) == LengthOf(g.groups, g.cursor.base) + 1)
      && (!(g.cursor.At? && ln - 1 == g.cursor.previous) ==>
            r.cursor.base == ln && LengthOf(r.groups, ln) == 0)
      && (forall k :: k != r.cursor.base ==> LengthOf(r.groups, k) == LengthOf(g.groups, k))
  {
    var r := Step(g, ln);
    var k := r.cursor.base;
    var v := if g.cursor.At? && ln - 1 == g.cursor.previous then LengthOf(g.groups, k) + 1 else 0;
    assert r.groups == Assign(g.groups, k, v);
    AssignReadBack(g.groups, k, v);
    if k !in Keys(g.groups) {
      assert Keys(r.groups) == Keys(g.groups) + [k];
    }
  }

  /** The text form of one Hash entry: a single line for a run of length
      0, otherwise the range from the key to the key plus the length. */
  function TokenOf(g: Group): (t: Token)
    ensures Lo(t) == g.base && Hi(t) == g.base + g.length
    ensures t.Span? <==> g.length > 0
    ensures |Expand(t)| == g.length + 1
  {
    if g.length > 0 then Span(g.base, g.base + g.length) else Single(g.base)
  }

  function Tokens(groups: seq<Group>): (ts: seq<Token>)
    ensures |ts| == |groups|
  {
    seq(|groups|, i requires 0 <= i < |groups| => TokenOf(groups[i]))
  }

  /** `missed`: the tokens of the runs, in the Hash's insertion order. */
  function Missed(lines: seq<int>): (ts: seq<Token>)
    ensures |lines| == 0 ==> ts == []
    ensures |lines| > 0 ==> |ts| > 0
  {
    WalkShape(lines);
    Tokens(Walk(lines).groups)
  }

  // ---------------------------------------------------------------------------
  // Reference notions

  function Lo(t: Token): int {
    match t
    case Single(n) => n
    case Span(lo, _) => lo
  }

  function Hi(t: Token): int {
    match t
    case Single(n) => n
    case Span(_, hi) => hi
  }

  /** The lines `lo, lo+1, …, hi`. */
  function Range(lo: int, hi: int): (r: seq<int>)
    ensures |r| == if hi < lo then 0 else hi - lo + 1
    ensures forall i :: 0 <= i < |r| ==> r[i] == lo + i
  {
    if hi < lo then [] else seq(hi - lo + 1, i requires 0 <= i <= hi - lo => lo + i)
  }

  /** The line numbers a token stands for. */
  function Expand(t: Token): seq<int> {
    Range(Lo(t), Hi(t))
  }

  function ExpandAll(ts: seq<Token>): seq<int>
    decreases |ts|
  {
    if |ts| == 0 then [] else ExpandAll(ts[..|ts| - 1]) + Expand(ts[|ts| - 1])
  }

  predicate StrictlyAscending(xs: seq<int>) {
    forall i, j :: 0 <= i < j < |xs| ==> xs[i] < xs[j]
  }

  /** A span covers at least two lines. */
  predicate WellFormed(ts: seq<Token>) {
    forall i :: 0 <= i < |ts| ==> (ts[i].Span? ==> ts[i].lo < ts[i].hi)
  }

  /** Neighbouring tokens leave a gap: no run could be extended by the next. */
  predicate Separated(ts: seq<Token>) {
    forall i :: 0 <= i < |ts| - 1 ==> Hi(ts[i]) + 1 < Lo(ts[i + 1])
  }

  /** Does a new run start at position `i`? */
  predicate IsBreak(xs: seq<int>, i: int)
    requires 0 <= i < |xs|
  {
    i == 0 || xs[i] != xs[i - 1] + 1
  }

  /** The number of positions at which a new run starts. */
  function Breaks(xs: seq<int>): nat
    decreases |xs|
  {
    if |xs| == 0 then 0
    else Breaks(xs[..|xs| - 1]) + (if IsBreak(xs, |xs| - 1) then 1 else 0)
  }

  /** The line numbers at which new runs start, in input order. */
  function BreakValues(xs: seq<int>): seq<int>
    decreases |xs|
  {
    if |xs| == 0 then []
    else BreakValues(xs[..|xs| - 1]) + (if IsBreak(xs, |xs| - 1) then [xs[|xs| - 1]] else [])
  }

  /** `xs` without repetitions, each value at its first occurrence. */
  function FirstOccurrences(xs: seq<int>): seq<int>
    decreases |xs|
  {
    if |xs| == 0 then []
    else
      var prefix := FirstOccurrences(xs[..|xs| - 1]);
      if xs[|xs| - 1] in prefix then prefix else prefix + [xs[|xs| - 1]]
  }

  // ---------------------------------------------------------------------------
  // Properties of the walk for any input

  /** What holds after every iteration: the Hash keys are distinct, each is one
      of the lines seen, and the current run's entry satisfies
      `base + length == previous`, the last line read. */
  ghost predicate Tracked(lines: seq<int>, g: Grouping) {
    && (forall i, j :: 0 <= i < j < |g.groups| ==> g.groups[i].base != g.groups[j].base)
    && (forall i :: 0 <= i < |g.groups| ==> g.groups[i].base in lines)
    && (|lines| == 0 <==> g.cursor.Idle?)
    && (|lines| == 0 ==> g.groups == [])
    && (g.cursor.At? ==>
          && g.cursor.previous == lines[|lines| - 1]
          && exists i :: 0 <= i < |g.groups| && g.groups[i].base == g.cursor.base
                         && g.groups[i].base + g.groups[i].length == g.cursor.previous)
  }

  lemma WalkShape(lines: seq<int>)
    ensures |lines| == 0 ==> Walk(lines).groups == []
    ensures |lines| > 0 ==> |Walk(lines).groups| > 0
  {
    if |lines| > 0 {
      CursorIsTracked(lines);
    }
  }

  /** For every input, the entry of the run being extended always records
      `base + length == previous`: the closing bound written for a run is its
      last line, not a count. */
  lemma {:induction false} CursorIsTracked(lines: seq<int>)
    ensures Tracked(lines, Walk(lines))
    decreases |lines|
  {
    if |lines| > 0 {
      var n := |lines| - 1;
      var prefix, ln := lines[..n], lines[n];
      CursorIsTracked(prefix);
      StepIsTracked(prefix, Walk(prefix), ln);
      SnocLast(lines);
      assert Walk(lines) == Step(Walk(prefix), ln);
    }
  }

  lemma StepIsTracked(prefix: seq<int>, g: Grouping, ln: int)
    requires Tracked(prefix, g)
    ensures Tracked(prefix + [ln], Step(g, ln))
  {
    var lines := prefix + [ln];
    assert forall x :: x in prefix ==> x in lines;
    assert ln in lines;
    if g.cursor.At? && ln - 1 == g.cursor.previous {
      ExtendIsTracked(prefix, g, ln);
    } else {
      ShowAssigned(g.groups, ln, lines);
    }
  }

  lemma ExtendIsTracked(prefix: seq<int>, g: Grouping, ln: int)
    requires Tracked(prefix, g)
    requires g.cursor.At? && ln - 1 == g.cursor.previous
    ensures Tracked(prefix + [ln], Step(g, ln))
  {
    var gs := g.groups;
    var i :| 0 <= i < |gs| && gs[i].base == g.cursor.base && gs[i].base + gs[i].length == g.cursor.previous;
    var h := Grouping(gs[i := Group(gs[i].base, gs[i].length + 1)], At(gs[i].base, ln));
    UpdateIsTracked(prefix, ln, gs, i);
    assert Step(g, ln) == h by {
      DistinctBefore(gs, i);
      AssignAt(gs, i, gs[i].length + 1);
      StepExtends(g, ln);
    }
  }

  lemma DistinctBefore(gs: seq<Group>, i: nat)
    requires i < |gs|
    requires forall a, b :: 0 <= a < b < |gs| ==> gs[a].base != gs[b].base
    ensures forall j :: 0 <= j < i ==> gs[j].base != gs[i].base
  {
  }

  /** Lengthening entry `i` to end at `ln` keeps the walk tracked. */
  lemma UpdateIsTracked(prefix: seq<int>, ln: int, gs: seq<Group>, i: nat)
    requires i < |gs| && |prefix| > 0
    requires forall a, b :: 0 <= a < b < |gs| ==> gs[a].base != gs[b].base
    requires forall a :: 0 <= a < |gs| ==> gs[a].base in prefix
    requires gs[i].base + gs[i].length + 1 == ln
    ensures Tracked(prefix + [ln], Grouping(gs[i := Group(gs[i].base, gs[i].length + 1)], At(gs[i].base, ln)))
  {
    var lines := prefix + [ln];
    var gs' := gs[i := Group(gs[i].base, gs[i].length + 1)];
    assert forall a :: 0 <= a < |gs| ==> gs'[a].base == gs[a].base;
    assert forall x :: x in prefix ==> x in lines;
    assert lines[|lines| - 1] == ln;
    assert gs'[i].base + gs'[i].length == ln;
  }

  lemma ShowAssigned(groups: seq<Group>, ln: int, lines: seq<int>)
    requires forall i, j :: 0 <= i < j < |groups| ==> groups[i].base != groups[j].base
    requires forall i :: 0 <= i < |groups| ==> groups[i].base in lines
    requires ln in lines
    ensures var r := Assign(groups, ln, 0);
      && (forall i, j :: 0 <= i < j < |r| ==> r[i].base != r[j].base)
      && (forall i :: 0 <= i < |r| ==> r[i].base in lines)
      && (exists i :: 0 <= i < |r| && r[i] == Group(ln, 0))
  {
    match KeyIndex(groups, ln)
    case Some(i) =>
      assert Assign(groups, ln, 0)[i] == Group(ln, 0);
    case None =>
      var r := groups + [Group(ln, 0)];
      assert r[|groups|] == Group(ln, 0);
  }

  /** For every input, the tokens start at the lines where runs start, each such
      line once, in the order it is first met; hence there are at most as many
      tokens as run starts. */
  lemma {:induction false} TokensFollowFirstEncounter(lines: seq<int>)
    ensures Keys(Walk(lines).groups) == FirstOccurrences(BreakValues(lines))
    decreases |lines|
  {
    if |lines| > 0 {
      var prefix := lines[..|lines| - 1];
      var ln := lines[|lines| - 1];
      TokensFollowFirstEncounter(prefix);
      CursorIsTracked(prefix);
      assert lines == prefix + [ln];
      KeysStep(prefix, Walk(prefix), ln);
    }
  }

  /** There are never more ranges than run starts. */
  lemma MissedAtMostBreaks(lines: seq<int>)
    ensures |Missed(lines)| <= Breaks(lines)
  {
    TokensFollowFirstEncounter(lines);
    FirstOccurrencesShorter(BreakValues(lines));
    BreakValuesCount(lines);
  }

  lemma KeysStep(prefix: seq<int>, g: Grouping, ln: int)
    requires Tracked(prefix, g)
    requires Keys(g.groups) == FirstOccurrences(BreakValues(prefix))
    ensures Keys(Step(g, ln).groups) == FirstOccurrences(BreakValues(prefix + [ln]))
  {
    var lines := prefix + [ln];
    assert lines[..|lines| - 1] == prefix;
    var bv := BreakValues(lines);
    if g.cursor.At? && ln - 1 == g.cursor.previous {
      KeysStepExtend(prefix, g, ln);
      assert !IsBreak(lines, |lines| - 1);
      assert bv == BreakValues(prefix);
    } else {
      KeysStepStart(g, ln);
      assert IsBreak(lines, |lines| - 1);
      assert bv == BreakValues(prefix) + [ln];
      assert bv[..|bv| - 1] == BreakValues(prefix);
    }
  }

  lemma KeysStepStart(g: Grouping, ln: int)
    requires !(g.cursor.At? && ln - 1 == g.cursor.previous)
    ensures Keys(Step(g, ln).groups) ==
      if ln in Keys(g.groups) then Keys(g.groups) else Keys(g.groups) + [ln]
  {
    assert Step(g, ln).groups == Assign(g.groups, ln, 0);
    if ln !in Keys(g.groups) {
      assert Keys(g.groups + [Group(ln, 0)]) == Keys(g.groups) + [ln];
    }
  }

  lemma KeysStepExtend(prefix: seq<int>, g: Grouping, ln: int)
    requires Tracked(prefix, g)
    requires g.cursor.At? && ln - 1 == g.cursor.previous
    ensures Keys(Step(g, ln).groups) == Keys(g.groups)
  {
    var i :| 0 <= i < |g.groups| && g.groups[i].base == g.cursor.base
             && g.groups[i].base + g.groups[i].length == g.cursor.previous;
    assert Keys(g.groups)[i] == g.cursor.base;
  }

  lemma {:induction false} FirstOccurrencesShorter(xs: seq<int>)
    ensures |FirstOccurrences(xs)| <= |xs|
    decreases |xs|
  {
    if |xs| > 0 {
      FirstOccurrencesShorter(xs[..|xs| - 1]);
    }
  }

  lemma {:induction false} BreakValuesCount(xs: seq<int>)
    ensures |BreakValues(xs)| == Breaks(xs)
    decreases |xs|
  {
    if |xs| > 0 {
      BreakValuesCount(xs[..|xs| - 1]);
    }
  }

  // ---------------------------------------------------------------------------
  // Properties of the walk for strictly ascending input (the order SimpleCov
  // lists missed lines in)

  function Last<T>(xs: seq<T>): T
    requires |xs| > 0
  {
    xs[|xs| - 1]
  }

  /** The last entry is the current run and reaches the last line read, every
      entry ends at or before that line, and every earlier entry ends at least
      two below the current run's first line. */
  ghost predicate RunShape(lines: seq<int>, g: Grouping) {
    var gs := g.groups;
    && (|lines| == 0 ==> gs == [] && g.cursor.Idle?)
    && (|lines| > 0 ==>
          && |gs| > 0
          && g.cursor == At(Last(gs).base, Last(lines))
          && Last(gs).base + Last(gs).length == Last(lines)
          && (forall i :: 0 <= i < |gs| ==> gs[i].base + gs[i].length <= Last(lines))
          && (forall i :: 0 <= i < |gs| - 1 ==> gs[i].base + gs[i].length + 1 < Last(gs).base))
  }

  /** Each entry ends at least two below the next entry's first line. */
  ghost predicate Gaps(gs: seq<Group>) {
    forall i :: 0 <= i < |gs| - 1 ==> gs[i].base + gs[i].length + 1 < gs[i + 1].base
  }

  /** What holds after every iteration over strictly ascending lines. */
  ghost predicate AscendingWalk(lines: seq<int>, g: Grouping) {
    && RunShape(lines, g)
    && ExpandAll(Tokens(g.groups)) == lines
    && Gaps(g.groups)
    && |g.groups| == Breaks(lines)
  }

  lemma RangeExtend(lo: int, hi: int)
    requires lo <= hi
    ensures Range(lo, hi + 1) == Range(lo, hi) + [hi + 1]
  {
  }

  lemma TokensAppend(gs: seq<Group>, g: Group)
    ensures Tokens(gs + [g]) == Tokens(gs) + [TokenOf(g)]
  {
  }

  lemma ExpandAllAppend(ts: seq<Token>, t: Token)
    ensures ExpandAll(ts + [t]) == ExpandAll(ts) + Expand(t)
  {
    assert (ts + [t])[..|ts|] == ts;
  }

  lemma GapsSeparate(gs: seq<Group>)
    requires Gaps(gs)
    ensures Separated(Tokens(gs))
  {
  }

  lemma {:induction false} AscendingWalkHolds(lines: seq<int>)
    requires StrictlyAscending(lines)
    ensures AscendingWalk(lines, Walk(lines))
    decreases |lines|
  {
    if |lines| > 0 {
      var prefix := lines[..|lines| - 1];
      var x := Last(lines);
      assert StrictlyAscending(prefix);
      AscendingWalkHolds(prefix);
      assert lines == prefix + [x];
      assert |prefix| > 0 ==> x > Last(prefix);
      AscendingStep(prefix, Walk(prefix), x);
    }
  }

  lemma AscendingStep(prefix: seq<int>, g: Grouping, x: int)
    requires AscendingWalk(prefix, g)
    requires |prefix| > 0 ==> x > Last(prefix)
    ensures AscendingWalk(prefix + [x], Step(g, x))
  {
    if |prefix| == 0 {
      assert prefix + [x] == [x] && g == Grouping([], Idle);
      FirstRun(x);
    } else if x == Last(prefix) + 1 {
      ExtendRun(prefix, g, x);
    } else {
      StartRun(prefix, g, x);
    }
  }

  lemma FirstRun(x: int)
    ensures AscendingWalk([x], Step(Grouping([], Idle), x))
  {
    var h := Grouping([Group(x, 0)], At(x, x));
    assert Step(Grouping([], Idle), x) == h by {
      assert KeyIndex([], x) == None;
      assert Assign([], x, 0) == [Group(x, 0)];
    }
    FirstRunShape(x);
  }

  lemma FirstRunShape(x: int)
    ensures AscendingWalk([x], Grouping([Group(x, 0)], At(x, x)))
  {
    var gs := [Group(x, 0)];
    var h := Grouping(gs, At(x, x));
    assert RunShape([x], h);
    assert ExpandAll(Tokens(gs)) == [x] by {
      assert Tokens(gs) == [Single(x)];
      ExpandAllAppend([], Single(x));
    }
    assert Gaps(gs);
    assert Breaks([x]) == 1 by {
      assert [x][..0] == [];
    }
  }

  /** The step that extends the current run updates the last entry in place. */
  lemma ExtendStep(prefix: seq<int>, g: Grouping, x: int)
    requires |prefix| > 0 && RunShape(prefix, g)
    requires x == Last(prefix) + 1
    ensures var n := |g.groups| - 1;
      Step(g, x) == Grouping(g.groups[..n] + [Group(g.groups[n].base, g.groups[n].length + 1)], At(g.groups[n].base, x))
  {
    var gs := g.groups;
    var n := |gs| - 1;
    assert forall i :: 0 <= i < n ==> gs[i].base != gs[n].base;
    ExtendLastEntry(g, x);
  }

  lemma ExtendLastEntry(g: Grouping, x: int)
    requires |g.groups| > 0
    requires g.cursor == At(g.groups[|g.groups| - 1].base, x - 1)
    requires forall i :: 0 <= i < |g.groups| - 1 ==> g.groups[i].base != g.groups[|g.groups| - 1].base
    ensures var n := |g.groups| - 1;
      Step(g, x) == Grouping(g.groups[..n] + [Group(g.groups[n].base, g.groups[n].length + 1)], At(g.groups[n].base, x))
  {
    StepExtends(g, x);
    AssignLast(g.groups);
  }

  lemma StepExtends(g: Grouping, x: int)
    requires g.cursor.At? && x - 1 == g.cursor.previous
    ensures Step(g, x) == Grouping(Assign(g.groups, g.cursor.base, LengthOf(g.groups, g.cursor.base) + 1), At(g.cursor.base, x))
  {
  }

  /** Bumping the length of the last entry, when no earlier entry has its
      key, rewrites that entry in place. */
  lemma AssignLast(gs: seq<Group>)
    requires |gs| > 0
    requires forall i :: 0 <= i < |gs| - 1 ==> gs[i].base != gs[|gs| - 1].base
    ensures var n := |gs| - 1;
      Assign(gs, gs[n].base, LengthOf(gs, gs[n].base) + 1) == gs[..n] + [Group(gs[n].base, gs[n].length + 1)]
  {
    var n := |gs| - 1;
    AssignAt(gs, n, gs[n].length + 1);
    UpdateLast(gs, Group(gs[n].base, gs[n].length + 1));
  }

  /** Assigning to a key that no earlier entry has rewrites its entry in
      place, and its current length is the entry's. */
  lemma AssignAt(gs: seq<Group>, i: nat, v: nat)
    requires i < |gs|
    requires forall j :: 0 <= j < i ==> gs[j].base != gs[i].base
    ensures Assign(gs, gs[i].base, v) == gs[i := Group(gs[i].base, v)]
    ensures LengthOf(gs, gs[i].base) == gs[i].length
  {
    KeyIndexAt(gs, i);
  }

  /** A key that no earlier entry has is found at its own position. */
  lemma KeyIndexAt(gs: seq<Group>, n: nat)
    requires n < |gs|
    requires forall i :: 0 <= i < n ==> gs[i].base != gs[n].base
    ensures KeyIndex(gs, gs[n].base) == Some(n)
  {
    assert Keys(gs)[n] == gs[n].base;
  }

  lemma ExtendRun(prefix: seq<int>, g: Grouping, x: int)
    requires |prefix| > 0 && AscendingWalk(prefix, g)
    requires x == Last(prefix) + 1
    ensures AscendingWalk(prefix + [x], Step(g, x))
  {
    var lines := prefix + [x];
    var gs := g.groups;
    var n := |gs| - 1;
    var gs' := gs[..n] + [Group(gs[n].base, gs[n].length + 1)];
    var h := Grouping(gs', At(gs[n].base, x));
    assert Step(g, x) == h by {
      ExtendStep(prefix, g, x);
    }
    ExtendExpands(gs, x);
    ExtendKeepsGaps(gs, gs');
    SnocPrefix(prefix, x);
    assert !IsBreak(lines, |lines| - 1);
    assert |gs'| == Breaks(lines);
    assert RunShape(lines, h);
  }

  lemma ExtendExpands(gs: seq<Group>, x: int)
    requires |gs| > 0
    requires x == Last(gs).base + Last(gs).length + 1
    ensures var n := |gs| - 1;
      ExpandAll(Tokens(gs[..n] + [Group(gs[n].base, gs[n].length + 1)])) == ExpandAll(Tokens(gs)) + [x]
  {
    var n := |gs| - 1;
    var b := gs[n].base;
    assert gs == gs[..n] + [gs[n]];
    TokensAppend(gs[..n], gs[n]);
    TokensAppend(gs[..n], Group(b, gs[n].length + 1));
    ExpandAllAppend(Tokens(gs[..n]), TokenOf(gs[n]));
    ExpandAllAppend(Tokens(gs[..n]), TokenOf(Group(b, gs[n].length + 1)));
    RangeExtend(b, b + gs[n].length);
  }

  lemma ExtendKeepsGaps(gs: seq<Group>, gs': seq<Group>)
    requires Gaps(gs) && |gs| > 0
    requires gs' == gs[..|gs| - 1] + [Group(gs[|gs| - 1].base, gs[|gs| - 1].length + 1)]
    ensures Gaps(gs')
  {
    forall i | 0 <= i < |gs'| - 1 ensures gs'[i].base + gs'[i].length + 1 < gs'[i + 1].base {
      assert gs'[i] == gs[i] && gs'[i + 1].base == gs[i + 1].base;
    }
  }

  /** The step that starts a new run appends an entry. */
  lemma StartStep(prefix: seq<int>, g: Grouping, x: int)
    requires |prefix| > 0 && RunShape(prefix, g)
    requires x > Last(prefix) + 1
    ensures Step(g, x) == Grouping(g.groups + [Group(x, 0)], At(x, x))
  {
    var gs := g.groups;
    assert x !in Keys(gs) by {
      forall i | 0 <= i < |gs| ensures Keys(gs)[i] != x {
        assert gs[i].base + gs[i].length <= Last(prefix);
      }
    }
  }

  lemma StartRun(prefix: seq<int>, g: Grouping, x: int)
    requires |prefix| > 0 && AscendingWalk(prefix, g)
    requires x > Last(prefix) + 1
    ensures AscendingWalk(prefix + [x], Step(g, x))
  {
    StartStep(prefix, g, x);
    var lines := prefix + [x];
    var gs := g.groups;
    var gs' := gs + [Group(x, 0)];
    TokensAppend(gs, Group(x, 0));
    ExpandAllAppend(Tokens(gs), Single(x));
    assert ExpandAll(Tokens(gs')) == lines;
    SnocPrefix(prefix, x);
    assert IsBreak(lines, |lines| - 1);
    assert Gaps(gs') by {
      assert gs[|gs| - 1].base + gs[|gs| - 1].length <= Last(prefix);
    }
    assert RunShape(lines, Step(g, x));
  }

  /** Round trip: for strictly ascending lines, expanding every token back into
      its lines gives the input again; every span covers at least two lines;
      neighbouring tokens cannot be merged (so each token is a maximal run); and
      there is exactly one token per position where a new run starts. */
  lemma MissedRoundTrip(lines: seq<int>)
    requires StrictlyAscending(lines)
    ensures ExpandAll(Missed(lines)) == lines
    ensures WellFormed(Missed(lines))
    ensures Separated(Missed(lines))
    ensures |Missed(lines)| == Breaks(lines)
  {
    AscendingWalkHolds(lines);
    GapsSeparate(Walk(lines).groups);
  }

  /** The run 5, 6, 7 and the isolated line 10 give "5-7" and "10". */
  lemma ExampleRuns()
    ensures Missed([5, 6, 7, 10]) == [Span(5, 7), Single(10)]
  {
    var xs := [5, 6, 7, 10];
    assert Walk(xs) == Grouping([Group(5, 2), Group(10, 0)], At(10, 10)) by {
      ExampleRunOfThree();
      assert xs[..3] == [5, 6, 7];
      assert KeyIndex([Group(5, 2)], 10) == None;
    }
  }

  lemma ExampleRunOfThree()
    ensures Walk([5, 6, 7]) == Grouping([Group(5, 2)], At(5, 7))
  {
    var xs := [5, 6, 7];
    assert xs[..2] == [5, 6] && xs[..2][..1] == [5];
    assert Walk([5]) == Grouping([Group(5, 0)], At(5, 5));
    assert KeyIndex([Group(5, 0)], 5) == Some(0);
    assert Walk([5, 6]) == Grouping([Group(5, 1)], At(5, 6));
    assert KeyIndex([Group(5, 1)], 5) == Some(0);
  }

  /** Unordered input: the run starting again at 5 overwrites the first run's
      entry (length back to 0) but keeps its place, as a Ruby Hash does, so
      line 6 no longer appears in any token. */
  lemma ExampleRestartedKey()
    ensures Missed([5, 6, 3, 5]) == [Single(5), Single(3)]
  {
    var xs := [5, 6, 3, 5];
    assert xs[..3] == [5, 6, 3] && xs[..3][..2] == [5, 6] && xs[..3][..2][..1] == [5];
    assert Walk([5]) == Grouping([Group(5, 0)], At(5, 5));
    assert Walk([5, 6]) == Grouping([Group(5, 1)], At(5, 6));
    assert Walk([5, 6, 3]) == Grouping([Group(5, 1), Group(3, 0)], At(3, 3));
    assert KeyIndex([Group(5, 1), Group(3, 0)], 5) == Some(0);
    assert Walk(xs) == Grouping([Group(5, 0), Group(3, 0)], At(5, 5));
  }

  lemma WalkSnoc(lines: seq<int>, i: nat)
    requires i < |lines|
    ensures Walk(lines[..i + 1]) == Step(Walk(lines[..i]), lines[i])
  {
    assert lines[..i + 1][..i] == lines[..i];
  }

  /** The `each` loop, as written: one pass over the lines updating the Hash
      and the cursor. */
  method WalkLines(lines: seq<int>) returns (groups: seq<Group>, cursor: Cursor)
    ensures Grouping(groups, cursor) == Walk(lines)
  {
    groups, cursor := [], Idle;
    var i := 0;
    while i < |lines|
      invariant 0 <= i <= |lines|
      invariant Grouping(groups, cursor) == Walk(lines[..i])
    {
      groups, cursor := StepLine(groups, cursor, lines[i]);
      WalkSnoc(lines, i);
      i := i + 1;
    }
    assert lines[..i] == lines;
  }

  /** The body of the `each` loop for line number `ln`. */
  method StepLine(groups: seq<Group>, cursor: Cursor, ln: int) returns (groups': seq<Group>, cursor': Cursor)
    ensures Grouping(groups', cursor') == Step(Grouping(groups, cursor), ln)
  {
    if cursor.At? && ln - 1 == cursor.previous {
      groups' := Assign(groups, cursor.base, LengthOf(groups, cursor.base) + 1);
      cursor' := At(cursor.base, ln);
    } else {
      groups' := Assign(groups, ln, 0);
      cursor' := At(ln, ln);
    }
  }

  /** The `map` over the Hash: one token per entry, in insertion order. */
  method TokensOf(groups: seq<Group>) returns (tokens: seq<Token>)
    ensures tokens == Tokens(groups)
  {
    tokens := [];
    var j := 0;
    while j < |groups|
      invariant 0 <= j <= |groups|
      invariant tokens == Tokens(groups[..j])
    {
      TokensAppend(groups[..j], groups[j]);
      assert groups[..j + 1] == groups[..j] + [groups[j]];
      tokens := tokens + [TokenOf(groups[j])];
      j := j + 1;
    }
    assert groups[..j] == groups;
  }

  /** `missed`: the walk, then the tokens. */
  method GroupMissed(lines: seq<int>) returns (tokens: seq<Token>)
    ensures tokens == Missed(lines)
    ensures StrictlyAscending(lines) ==> ExpandAll(tokens) == lines && Separated(tokens)
  {
    var groups, cursor := WalkLines(lines);
    tokens := TokensOf(groups);
    if StrictlyAscending(lines) {
      MissedRoundTrip(lines);
    }
  }
}
