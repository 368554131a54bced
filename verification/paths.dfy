/**
 The string operations the pipeline builds file names with: POSIX
 `os.path.join` of two parts and `str.replace`.
 */
module Paths {
  import opened Basics

  const Sep: char := '/'

  /**
   `os.path.join(a, b)` on POSIX: an absolute `b` replaces `a`; otherwise
   `b` is appended, with a separator unless `a` is empty or already ends
   in one.
   */
  function PathJoin(a: string, b: string): (p: string)
    ensures |b| > 0 && b[0] == Sep ==> p == b
    ensures !(|b| > 0 && b[0] == Sep) ==> |p| >= |b| && p[|p| - |b|..] == b
    ensures !(|b| > 0 && b[0] == Sep) ==> |p| >= |a| && p[..|a|] == a
    ensures !(|b| > 0 && b[0] == Sep) && |a| > 0 && a[|a| - 1] != Sep ==> |p| == |a| + 1 + |b| && p[|a|] == Sep
    ensures !(|b| > 0 && b[0] == Sep) && (|a| == 0 || a[|a| - 1] == Sep) ==> |p| == |a| + |b|
  {
    if |b| > 0 && b[0] == Sep then b
    else if |a| == 0 || a[|a| - 1] == Sep then a + b
    else a + [Sep] + b
  }

  /**
   `s.replace(target, replacement)`: every occurrence of `target`, found from left
   to right without overlap, is replaced by `replacement`.
   */
  function ReplaceAll(s: string, target: string, replacement: string): string
    requires |target| > 0
    decreases |s|
  {
    if |s| < |target| then s
    else if s[..|target|] == target then replacement + ReplaceAll(s[|target|..], target, replacement)
    else [s[0]] + ReplaceAll(s[1..], target, replacement)
  }

  /** Text without an occurrence of `target` is left as it is. */
  lemma {:induction false} ReplaceAbsent(s: string, target: string, replacement: string)
    requires |target| > 0 && !Contains(s, target)
    ensures ReplaceAll(s, target, replacement) == s
    decreases |s|
  {
    if |s| >= |target| {
      ReplaceAbsent(s[1..], target, replacement);
      assert [s[0]] + s[1..] == s;
    }
  }

  /**
   When the only occurrence of `target` in `stem + target` is the final one, the
   replacement swaps that suffix and keeps the stem.
   */
  lemma {:induction false} ReplaceSuffix(stem: string, target: string, replacement: string)
    requires |target| > 0
    requires forall i :: 0 <= i < |stem| ==> !OccursAt(stem + target, i, target)
    ensures ReplaceAll(stem + target, target, replacement) == stem + replacement
    decreases |stem|
  {
    var s := stem + target;
    if |stem| == 0 {
      assert s == target && s[|target|..] == [];
    } else {
      assert !OccursAt(s, 0, target);
      assert s[1..] == stem[1..] + target;
      forall i | 0 <= i < |stem[1..]|
        ensures !OccursAt(stem[1..] + target, i, target)
      {
        assert !OccursAt(s, i + 1, target);
        assert s[i + 1..i + 1 + |target|] == (stem[1..] + target)[i..i + |target|];
      }
      ReplaceSuffix(stem[1..], target, replacement);
      assert [s[0]] + (stem[1..] + replacement) == stem + replacement;
    }
  }

  /** The file-name suffix the figure is looked for under. */
  const Jpg: string := ".jpg"

  /** The suffix of the saved figure. */
  const GraphJpg: string := "_graph.jpg"

  /**
   A name `stem + ".jpg"` whose stem holds no `.jpg` becomes
   `stem + "_graph.jpg"`: `.jpg` cannot straddle the stem's end, since no
   proper prefix of it is also a suffix of it.
   */
  lemma GraphName(stem: string)
    requires !Contains(stem, Jpg)
    ensures ReplaceAll(stem + Jpg, Jpg, GraphJpg) == stem + GraphJpg
  {
    var s := stem + Jpg;
    ContainsIffOccurs(stem, Jpg);
    forall i | 0 <= i < |stem|
      ensures !OccursAt(s, i, Jpg)
    {
      if i + |Jpg| <= |stem| {
        assert stem[i..i + |Jpg|] == s[i..i + |Jpg|];
        assert !OccursAt(stem, i, Jpg);
      } else {
        // the '.' that starts the suffix would sit inside "jpg"
        assert s[|stem|] == '.';
        assert i + |Jpg| <= |s| ==> s[i..i + |Jpg|][|stem| - i] == '.';
      }
    }
    ReplaceSuffix(stem, Jpg, GraphJpg);
  }
}
