/**
 The `sort == 'coverage'` ordering: files ascending by covered percentage,
 worst first. Ruby's `sort` is not stable, so the model promises only what
 any correct sort gives: a permutation in non-decreasing order. The concrete
 order chosen here (an insertion sort) is one of the orders Ruby may produce.
 */
module Ordering {
  import opened Coverage

  predicate SortedByPercent(fs: seq<FileCov>) {
    forall i, j :: 0 <= i < j < |fs| ==> fs[i].percent <= fs[j].percent
  }

  /** The coverage column of a list of files. */
  function Percents(fs: seq<FileCov>): (ps: seq<real>)
    ensures |ps| == |fs|
    ensures forall i :: 0 <= i < |fs| ==> ps[i] == fs[i].percent
  {
    seq(|fs|, i requires 0 <= i < |fs| => fs[i].percent)
  }

  function Insert(f: FileCov, fs: seq<FileCov>): (r: seq<FileCov>)
    requires SortedByPercent(fs)
    ensures SortedByPercent(r)
    ensures multiset(r) == multiset(fs) + multiset{f}
    ensures r[0] == f || (|fs| > 0 && r[0] == fs[0])
    decreases |fs|
  {
    if |fs| == 0 then [f]
    else if f.percent <= fs[0].percent then [f] + fs
    else
      var rest := Insert(f, fs[1..]);
      assert fs == [fs[0]] + fs[1..];
      SortedAfter(fs[0], rest);
      [fs[0]] + rest
  }

  lemma SortedAfter(f: FileCov, fs: seq<FileCov>)
    requires SortedByPercent(fs)
    requires |fs| > 0 ==> f.percent <= fs[0].percent
    ensures SortedByPercent([f] + fs)
  {
    var r := [f] + fs;
    forall i, j | 0 <= i < j < |r| ensures r[i].percent <= r[j].percent {
      if i > 0 {
        assert r[i] == fs[i - 1] && r[j] == fs[j - 1];
      } else {
        assert r[j] == fs[j - 1];
        assert fs[0].percent <= fs[j - 1].percent;
      }
    }
  }

  /** `files.sort { |a, b| a.covered_percent <=> b.covered_percent }`. */
  function SortByCoverage(fs: seq<FileCov>): (r: seq<FileCov>)
    ensures SortedByPercent(r)
    ensures multiset(r) == multiset(fs)
    decreases |fs|
  {
    if |fs| == 0 then []
    else
      assert fs == [fs[0]] + fs[1..];
      Insert(fs[0], SortByCoverage(fs[1..]))
  }

  /** A list already in order is left as it is. */
  lemma {:induction false} SortKeepsSorted(fs: seq<FileCov>)
    requires SortedByPercent(fs)
    ensures SortByCoverage(fs) == fs
    decreases |fs|
  {
    if |fs| > 0 {
      SortKeepsSorted(fs[1..]);
      assert fs == [fs[0]] + fs[1..];
    }
  }

  lemma MinimumFirst(fs: seq<FileCov>, g: FileCov)
    requires SortedByPercent(fs) && g in multiset(fs)
    ensures fs[0].percent <= g.percent
  {
    var k :| 0 <= k < |fs| && fs[k] == g;
  }

  /** Any two orders a correct sort may produce differ only in how files of
      equal percentage are arranged: the coverage column reads the same. */
  lemma {:induction false} SortedPermutationsAgree(a: seq<FileCov>, b: seq<FileCov>)
    requires SortedByPercent(a) && SortedByPercent(b)
    requires multiset(a) == multiset(b)
    ensures Percents(a) == Percents(b)
    decreases |a|
  {
    assert |a| == |multiset(a)| == |multiset(b)| == |b|;
    if |a| > 0 {
      assert a[0] in multiset(b);
      assert b[0] in multiset(a);
      MinimumFirst(b, a[0]);
      MinimumFirst(a, b[0]);
      var k :| 0 <= k < |b| && b[k] == a[0];
      var b' := b[..k] + b[k + 1..];
      RemoveKeepsSorted(b, k);
      RemoveFromBoth(a, b, k);
      SortedPermutationsAgree(a[1..], b');
      RestoreHead(a, b, k);
    }
  }

  lemma RemoveKeepsSorted(b: seq<FileCov>, k: nat)
    requires SortedByPercent(b) && k < |b|
    ensures SortedByPercent(b[..k] + b[k + 1..])
  {
    var b' := b[..k] + b[k + 1..];
    forall i, j | 0 <= i < j < |b'| ensures b'[i].percent <= b'[j].percent {
      var i' := if i < k then i else i + 1;
      var j' := if j < k then j else j + 1;
      assert b'[i] == b[i'] && b'[j] == b[j'];
    }
  }

  lemma RemoveFromBoth(a: seq<FileCov>, b: seq<FileCov>, k: nat)
    requires multiset(a) == multiset(b) && 0 < |a| && k < |b| && b[k] == a[0]
    ensures multiset(a[1..]) == multiset(b[..k] + b[k + 1..])
  {
    assert b == b[..k] + [b[k]] + b[k + 1..];
    assert multiset(b) == multiset(b[..k]) + multiset{b[k]} + multiset(b[k + 1..]);
    assert multiset(b[..k] + b[k + 1..]) == multiset(b[..k]) + multiset(b[k + 1..]);
    assert a == [a[0]] + a[1..];
    assert multiset(a) == multiset{a[0]} + multiset(a[1..]);
    assert multiset(a[1..]) == multiset(a) - multiset{a[0]};
    assert multiset(b[..k]) + multiset(b[k + 1..]) == multiset(b) - multiset{b[k]};
  }

  /** Putting the first file back in front of both tails. */
  lemma RestoreHead(a: seq<FileCov>, b: seq<FileCov>, k: nat)
    requires SortedByPercent(b) && 0 < |a| == |b| && k < |b|
    requires a[0].percent == b[0].percent == b[k].percent
    requires Percents(a[1..]) == Percents(b[..k] + b[k + 1..])
    ensures Percents(a) == Percents(b)
  {
    var b' := b[..k] + b[k + 1..];
    forall i | 0 <= i < |a| ensures a[i].percent == b[i].percent {
      if i > 0 {
        assert a[i] == a[1..][i - 1];
        assert Percents(a[1..])[i - 1] == Percents(b')[i - 1];
        if i - 1 < k {
          assert b'[i - 1] == b[i - 1];
          assert b[0].percent <= b[i - 1].percent <= b[i].percent <= b[k].percent;
        } else {
          assert b'[i - 1] == b[i];
        }
      }
    }
  }
}
