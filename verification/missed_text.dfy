/**
 The "missing" column: each token written as `"n"` or `"lo-hi"` and the tokens
 joined with `", "`, together with a reader that takes the text apart again.
 */
module MissedText {
  import opened Wrappers
  import opened Decimal
  import opened MissedLines
  import opened Seqs

  /** String interpolation of one token. It never holds the `,` or the
      space the tokens are joined with. */
  function TokenText(t: Token): (s: string)
    ensures |s| > 0 && ',' !in s && ' ' !in s
  {
    match t
    case Single(n) => IntText(n)
    case Span(lo, hi) => IntText(lo) + "-" + IntText(hi)
  }

  /** `join(", ")`: empty for no tokens, otherwise one comma between each
      two neighbours and none anywhere else. */
  function Join(ts: seq<Token>): (s: string)
    ensures |ts| == 0 <==> s == ""
    ensures |ts| > 0 ==> multiset(s)[','] == |ts| - 1
    decreases |ts|
  {
    if |ts| == 0 then ""
    else if |ts| == 1 then TokenText(ts[0])
    else Join(ts[..|ts| - 1]) + ", " + TokenText(ts[|ts| - 1])
  }

  /** The "missing" cell of a file: `missed(f.missed_lines).join(", ")`. */
  function MissingText(lines: seq<int>): string {
    Join(Missed(lines))
  }

  // ---------------------------------------------------------------------------
  // Reading the text back

  /** Position of the first `c` in `s`. */
  function FindFirst(s: string, c: char): (r: Option<nat>)
    ensures r.None? <==> c !in s
    ensures r.Some? ==> r.value < |s| && s[r.value] == c && c !in s[..r.value]
    decreases |s|
  {
    if |s| == 0 then None
    else if s[0] == c then Some(0)
    else match FindFirst(s[1..], c)
      case None => None
      case Some(i) => Some(i + 1)
  }

  /** Position of the last `c` in `s`. */
  function FindLast(s: string, c: char): (r: Option<nat>)
    ensures r.None? <==> c !in s
    ensures r.Some? ==> r.value < |s| && s[r.value] == c && c !in s[r.value + 1..]
    decreases |s|
  {
    if |s| == 0 then None
    else if s[|s| - 1] == c then Some(|s| - 1)
    else FindLast(s[..|s| - 1], c)
  }

  function ReadToken(s: string): Option<Token> {
    match FindFirst(s, '-')
    case None =>
      (match ReadNat(s)
       case Some(n) => Some(Single(n))
       case None => None)
    case Some(i) =>
      (match (ReadNat(s[..i]), ReadNat(s[i + 1..]))
       case (Some(lo), Some(hi)) => Some(Span(lo, hi))
       case _ => None)
  }

  function ReadTokens(s: string): Option<seq<Token>>
    decreases |s|
  {
    if |s| == 0 then Some([])
    else match FindLast(s, ',')
      case None =>
        (match ReadToken(s)
         case Some(t) => Some([t])
         case None => None)
      case Some(i) =>
        if i + 1 < |s| && s[i + 1] == ' ' then
          (match (ReadTokens(s[..i]), ReadToken(s[i + 2..]))
           case (Some(ts), Some(t)) => Some(ts + [t])
           case _ => None)
        else None
  }

  /** The missed lines a "missing" cell stands for. */
  function ReadMissing(s: string): Option<seq<int>> {
    match ReadTokens(s)
    case Some(ts) => Some(ExpandAll(ts))
    case None => None
  }

  // ---------------------------------------------------------------------------
  // Round trip

  predicate NonNegative(t: Token) {
    Lo(t) >= 0 && Hi(t) >= 0
  }

  lemma ReadTokenText(t: Token)
    requires NonNegative(t)
    ensures ReadToken(TokenText(t)) == Some(t)
  {
    match t
    case Single(n) =>
      DigitsHaveNoSeparators(IntText(n));
      ReadNatText(n);
    case Span(lo, hi) =>
      var a := IntText(lo);
      var s := a + "-" + IntText(hi);
      DigitsHaveNoSeparators(a);
      DigitsHaveNoSeparators(IntText(hi));
      assert s[|a|] == '-' && s[..|a|] == a && s[|a| + 1..] == IntText(hi);
      assert FindFirst(s, '-') == Some(|a|);
      ReadNatText(lo);
      ReadNatText(hi);
  }

  lemma {:induction false} FindLastSkips(p: string, u: string, c: char)
    requires c !in u
    ensures FindLast(p + u, c) == FindLast(p, c)
    decreases |u|
  {
    if |u| == 0 {
      assert p + u == p;
    } else {
      DropLastOfConcat(p, u);
      assert u[|u| - 1] in u;
      FindLastSkips(p, u[..|u| - 1], c);
    }
  }

  lemma SplitAfterComma(j: string, u: string)
    ensures j + ", " + u == (j + ",") + (" " + u)
  {
  }

  lemma NoCommaAfterSpace(u: string)
    requires ',' !in u
    ensures ',' !in " " + u
  {
    var q := " " + u;
    forall i | 0 <= i < |q| ensures q[i] != ',' {
      if i > 0 { assert q[i] == u[i - 1]; }
    }
  }

  lemma LastComma(j: string, u: string)
    requires ',' !in u
    ensures FindLast(j + ", " + u, ',') == Some(|j|)
  {
    SplitAfterComma(j, u);
    NoCommaAfterSpace(u);
    FindLastSkips(j + ",", " " + u, ',');
  }

  /** Reading `j + ", " + u` splits at the comma before `u`. */
  lemma ReadTokensSplit(j: string, u: string, ts: seq<Token>, t: Token)
    requires ',' !in u
    requires ReadTokens(j) == Some(ts) && ReadToken(u) == Some(t)
    ensures ReadTokens(j + ", " + u) == Some(ts + [t])
  {
    var s := j + ", " + u;
    LastComma(j, u);
    assert s[|j| + 1] == ' ';
    assert s[..|j|] == j && s[|j| + 2..] == u;
    ReadAtComma(s, |j|, ts, t);
  }

  /** One unfolding of `ReadTokens` at its last comma. */
  lemma ReadAtComma(s: string, i: nat, ts: seq<Token>, t: Token)
    requires i + 1 < |s| && FindLast(s, ',') == Some(i) && s[i + 1] == ' '
    requires ReadTokens(s[..i]) == Some(ts) && ReadToken(s[i + 2..]) == Some(t)
    ensures ReadTokens(s) == Some(ts + [t])
  {
  }

  lemma ReadJoinOne(ts: seq<Token>)
    requires |ts| == 1 && NonNegative(ts[0])
    ensures ReadTokens(Join(ts)) == Some(ts)
  {
    var t := ts[0];
    assert Join(ts) == TokenText(t);
    ReadTokenText(t);
    assert FindLast(TokenText(t), ',') == None;
    assert [t] == ts;
  }

  lemma ReadJoinStep(prefix: seq<Token>, t: Token)
    requires |prefix| > 0 && NonNegative(t)
    requires ReadTokens(Join(prefix)) == Some(prefix)
    ensures ReadTokens(Join(prefix + [t])) == Some(prefix + [t])
  {
    var ts := prefix + [t];
    assert ts[..|ts| - 1] == prefix;
    assert Join(ts) == Join(prefix) + ", " + TokenText(t);
    ReadTokenText(t);
    ReadTokensSplit(Join(prefix), TokenText(t), prefix, t);
  }

  lemma {:induction false} ReadJoin(ts: seq<Token>)
    requires forall i :: 0 <= i < |ts| ==> NonNegative(ts[i])
    ensures ReadTokens(Join(ts)) == Some(ts)
    decreases |ts|
  {
    if |ts| == 0 {
      assert Join(ts) == "";
    } else if |ts| == 1 {
      ReadJoinOne(ts);
    } else {
      var n := |ts| - 1;
      ReadJoin(ts[..n]);
      SnocLast(ts);
      ReadJoinStep(ts[..n], ts[n]);
    }
  }

  lemma {:induction false} ExpandedTokensNonNegative(ts: seq<Token>)
    requires WellFormed(ts)
    requires forall i :: 0 <= i < |ExpandAll(ts)| ==> ExpandAll(ts)[i] >= 0
    ensures forall i :: 0 <= i < |ts| ==> NonNegative(ts[i])
    decreases |ts|
  {
    if |ts| > 0 {
      var n := |ts| - 1;
      SnocLast(ts);
      NonNegativeStep(ts[..n], ts[n]);
      ExpandedTokensNonNegative(ts[..n]);
    }
  }

  lemma NonNegativeStep(prefix: seq<Token>, t: Token)
    requires WellFormed(prefix + [t])
    requires forall i :: 0 <= i < |ExpandAll(prefix + [t])| ==> ExpandAll(prefix + [t])[i] >= 0
    ensures WellFormed(prefix) && NonNegative(t)
    ensures forall i :: 0 <= i < |ExpandAll(prefix)| ==> ExpandAll(prefix)[i] >= 0
  {
    var ts := prefix + [t];
    assert ts[..|ts| - 1] == prefix;
    assert WellFormed(prefix);
    var e := Expand(t);
    assert ExpandAll(ts) == ExpandAll(prefix) + e;
    assert forall i :: 0 <= i < |ExpandAll(prefix)| ==> ExpandAll(prefix)[i] == ExpandAll(ts)[i];
    assert e[0] == Lo(t) && e[|e| - 1] == Hi(t);
    assert ExpandAll(ts)[|ExpandAll(prefix)|] == Lo(t);
    assert ExpandAll(ts)[|ExpandAll(ts)| - 1] == Hi(t);
  }

  /** Round trip through the text: for strictly ascending, non-negative line
      numbers, reading the "missing" cell back gives the missed lines. */
  lemma MissingTextRoundTrip(lines: seq<int>)
    requires StrictlyAscending(lines)
    requires forall i :: 0 <= i < |lines| ==> lines[i] >= 0
    ensures ReadMissing(MissingText(lines)) == Some(lines)
  {
    MissedRoundTrip(lines);
    ExpandedTokensNonNegative(Missed(lines));
    ReadJoin(Missed(lines));
  }

  /** Missed lines 3, 4 and 8 are written "3-4, 8". */
  lemma ExampleMissingText()
    ensures MissingText([3, 4, 8]) == "3-4, 8"
  {
    ExampleTokens();
    ExampleJoin();
  }

  lemma ExampleJoin()
    ensures Join([Span(3, 4), Single(8)]) == "3-4, 8"
  {
    JoinTwo(Span(3, 4), Single(8));
    ExampleTokenTexts();
  }

  lemma ExampleTokenTexts()
    ensures TokenText(Span(3, 4)) == "3-4" && TokenText(Single(8)) == "8"
  {
    assert IntText(3) == "3" && IntText(4) == "4" && IntText(8) == "8";
  }

  lemma JoinTwo(a: Token, b: Token)
    ensures Join([a, b]) == TokenText(a) + ", " + TokenText(b)
  {
    assert [a, b][..1] == [a];
  }

  lemma ExampleTokens()
    ensures Missed([3, 4, 8]) == [Span(3, 4), Single(8)]
  {
    var xs := [3, 4, 8];
    assert xs[..2] == [3, 4] && xs[..2][..1] == [3];
    assert Walk([3]) == Grouping([Group(3, 0)], At(3, 3));
    assert KeyIndex([Group(3, 0)], 3) == Some(0);
    assert Walk([3, 4]) == Grouping([Group(3, 1)], At(3, 4));
    assert KeyIndex([Group(3, 1)], 8) == None;
    assert Walk(xs) == Grouping([Group(3, 1), Group(8, 0)], At(8, 8));
  }
}
