/**
 The file column: the file name with the project root taken off.
 The source writes this as `filename.gsub(root + "/", '')`, which removes
 EVERY occurrence of `root + "/"`, not only the leading one. The report
 uses that behaviour, `StripAllAsWritten`; `StripRoot` is the prefix-only
 column it was evidently meant to be.
 */
module Paths {

  /** Does `pat` occur in `s`? */
  predicate Contains(s: string, pat: string)
    decreases |s|
  {
    pat <= s || (|s| > 0 && Contains(s[1..], pat))
  }

  /** Ruby's `gsub` with a literal string pattern and an empty replacement:
      scan left to right, drop each match, resume after it. A text without
      the pattern comes back unchanged; one that starts with it loses at
      least that much. */
  function RemoveAll(s: string, pat: string): (r: string)
    requires |pat| > 0
    ensures |r| <= |s|
    ensures !Contains(s, pat) ==> r == s
    ensures pat <= s ==> |r| <= |s| - |pat|
    decreases |s|
  {
    if |s| == 0 then ""
    else if pat <= s then RemoveAll(s[|pat|..], pat)
    else [s[0]] + RemoveAll(s[1..], pat)
  }

  /** `f.filename.gsub(root + "/", '')`, as written: a name that does not
      mention `root + "/"` is shown unchanged, and a name under the root
      is shown at least the root and its slash shorter. */
  function StripAllAsWritten(filename: string, root: string): (r: string)
    ensures |r| <= |filename|
    ensures !Contains(filename, root + "/") ==> r == filename
    ensures root + "/" <= filename ==> |r| <= |filename| - |root| - 1
  {
    RemoveAll(filename, root + "/")
  }

  /** The root prefix taken off the front only, as the column is meant to
      show the path relative to the project root. */
  function StripRoot(filename: string, root: string): (r: string)
    ensures root + "/" <= filename ==> root + "/" + r == filename
    ensures !(root + "/" <= filename) ==> r == filename
  {
    if root + "/" <= filename then filename[|root| + 1..] else filename
  }

  /** A text shorter than the pattern cannot contain it. */
  lemma {:induction false} ShortNotContains(s: string, pat: string)
    requires |s| < |pat|
    ensures !Contains(s, pat)
    decreases |s|
  {
    if |s| > 0 {
      ShortNotContains(s[1..], pat);
    }
  }

  /** A file name that does not contain `root + "/"` is shown unchanged. */
  lemma GsubLeavesOtherPaths(filename: string, root: string)
    requires !Contains(filename, root + "/")
    ensures StripAllAsWritten(filename, root) == filename
  {
  }

  /** `root + "/" + rel` is shown as `rel` when `rel` itself does not contain
      `root + "/"`. */
  lemma GsubStripsRoot(root: string, rel: string)
    requires !Contains(rel, root + "/")
    ensures StripAllAsWritten(root + "/" + rel, root) == rel
  {
    var pat := root + "/";
    var s := pat + rel;
    assert pat <= s;
    assert s[|pat|..] == rel;
  }

  /** The discrepancy: with root "/a", the file "/a/b/a/c" (a directory
      named like the root's last component, nested inside the project)
      is shown as "bc" instead of "b/a/c". */
  lemma GsubNestedRootCounterexample()
    ensures StripAllAsWritten("/a/b/a/c", "/a") == "bc"
    ensures StripRoot("/a/b/a/c", "/a") == "b/a/c"
  {
    var pat := "/a/";
    assert "/a" + "/" == pat;
    assert pat <= "/a/b/a/c";
    assert "/a/b/a/c"[3..] == "b/a/c";
    assert "b/a/c"[0] != pat[0];
    assert "b/a/c"[1..] == "/a/c";
    assert pat <= "/a/c";
    assert "/a/c"[3..] == "c";
    assert |"c"| < |pat|;
    assert "c"[1..] == "";
    assert RemoveAll("c", pat) == "c";
    assert RemoveAll("/a/c", pat) == "c";
    assert RemoveAll("b/a/c", pat) == "bc";
  }

  /** The corrected column: `root + "/" + rel` is shown as `rel` for every
      `rel`, and a file outside the root is shown unchanged. */
  lemma StripRootRelative(root: string, rel: string)
    ensures StripRoot(root + "/" + rel, root) == rel
  {
    var s := root + "/" + rel;
    assert s[|root| + 1..] == rel;
  }

  /** Where the source's `gsub` finds only the leading root (or no root at
      all), it agrees with the corrected column. */
  lemma StripRootAgreesWithGsub(filename: string, root: string)
    requires !Contains(StripRoot(filename, root), root + "/")
    requires !Contains(filename, root + "/") || root + "/" <= filename
    ensures StripAllAsWritten(filename, root) == StripRoot(filename, root)
  {
    if root + "/" <= filename {
      var rel := filename[|root| + 1..];
      assert filename == root + "/" + rel;
      GsubStripsRoot(root, rel);
    } else {
      GsubLeavesOtherPaths(filename, root);
    }
  }
}
