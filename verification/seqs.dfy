/**
 Order-preserving sequence operations that the dashboard's pandas calls
 reduce to: boolean-mask selection (`df[mask]`) and `Series.unique()`.
 */
module Seqs {

  /** The elements of `s` that satisfy `p`, in their original order. */
  function Filter<T>(s: seq<T>, p: T -> bool): (r: seq<T>)
    ensures |r| <= |s|
    ensures forall i :: 0 <= i < |r| ==> r[i] in s && p(r[i])
    ensures forall i :: 0 <= i < |s| && p(s[i]) ==> s[i] in r
    decreases |s|
  {
    if |s| == 0 then []
    else if p(s[0]) then [s[0]] + Filter(s[1..], p)
    else Filter(s[1..], p)
  }

  /** Selection keeps relative order: it distributes over concatenation. */
  lemma {:induction false} FilterConcat<T>(a: seq<T>, b: seq<T>, p: T -> bool)
    ensures Filter(a + b, p) == Filter(a, p) + Filter(b, p)
    decreases |a|
  {
    if |a| > 0 {
      assert (a + b)[1..] == a[1..] + b;
      FilterConcat(a[1..], b, p);
    } else {
      assert a + b == b;
    }
  }

  /** Selecting with a predicate every element meets changes nothing. */
  lemma {:induction false} FilterAll<T>(s: seq<T>, p: T -> bool)
    requires forall i :: 0 <= i < |s| ==> p(s[i])
    ensures Filter(s, p) == s
    decreases |s|
  {
    if |s| > 0 {
      FilterAll(s[1..], p);
    }
  }

  /** Position of the first occurrence of `x` in `s`, or `|s|` when there is none. */
  function FirstIndex<T(==)>(s: seq<T>, x: T): (i: nat)
    ensures i <= |s|
    ensures i < |s| ==> s[i] == x
    ensures forall j :: 0 <= j < i ==> s[j] != x
    decreases |s|
  {
    if |s| == 0 || s[0] == x then 0 else 1 + FirstIndex(s[1..], x)
  }

  predicate NoDuplicates<T(==)>(s: seq<T>) {
    forall i, j :: 0 <= i < j < |s| ==> s[i] != s[j]
  }

  /** The distinct elements of `s`, each kept at its first appearance. */
  function Dedup<T(==)>(s: seq<T>): (r: seq<T>)
    decreases |s|
  {
    if |s| == 0 then []
    else
      var r := Dedup(s[..|s| - 1]);
      if s[|s| - 1] in r then r else r + [s[|s| - 1]]
  }

  /** Dedup keeps exactly the elements of its input, each once. */
  lemma {:induction false} DedupElements<T>(s: seq<T>)
    ensures NoDuplicates(Dedup(s))
    ensures forall x :: x in Dedup(s) <==> x in s
    decreases |s|
  {
    if |s| > 0 {
      var init := s[..|s| - 1];
      DedupElements(init);
      assert s == init + [s[|s| - 1]];
    }
  }

  /** An element survives Dedup exactly when it occurs in the input. */
  lemma {:induction false} DedupMember<T>(s: seq<T>, x: T)
    ensures x in Dedup(s) <==> x in s
    decreases |s|
  {
    if |s| > 0 {
      DedupMember(s[..|s| - 1], x);
      assert s == s[..|s| - 1] + [s[|s| - 1]];
    }
  }

  /** Dedup lists elements in the order of their first appearance in `s`. */
  lemma {:induction false} DedupFirstAppearance<T>(s: seq<T>)
    ensures forall i, j :: 0 <= i < j < |Dedup(s)| ==>
      FirstIndex(s, Dedup(s)[i]) < FirstIndex(s, Dedup(s)[j])
    decreases |s|
  {
    DedupElements(s);
    if |s| > 0 {
      var init := s[..|s| - 1];
      DedupFirstAppearance(init);
      assert s == init + [s[|s| - 1]];
      forall i, j | 0 <= i < j < |Dedup(s)|
        ensures FirstIndex(s, Dedup(s)[i]) < FirstIndex(s, Dedup(s)[j])
      {
        DedupStep(s, init, i, j);
      }
    }
  }

  /** The inductive step of DedupFirstAppearance for one pair of positions. */
  lemma DedupStep<T>(s: seq<T>, init: seq<T>, i: nat, j: nat)
    requires |s| > 0 && s == init + [s[|s| - 1]] && i < j < |Dedup(s)|
    requires j < |Dedup(init)| ==> FirstIndex(init, Dedup(init)[i]) < FirstIndex(init, Dedup(init)[j])
    ensures FirstIndex(s, Dedup(s)[i]) < FirstIndex(s, Dedup(s)[j])
  {
    var last := s[|s| - 1];
    var r := Dedup(s);
    var ri := Dedup(init);
    assert r == (if last in ri then ri else ri + [last]);
    assert r[i] == ri[i];
    var a := ri[i];
    DedupMember(init, a);
    FirstIndexPrefix(init, s, a);
    if j < |ri| {
      var b := ri[j];
      assert r[j] == b;
      DedupMember(init, b);
      FirstIndexPrefix(init, s, b);
      assert FirstIndex(init, a) < FirstIndex(init, b);
    } else {
      // r[j] is the last element of `s`, which does not occur in `init`
      DedupMember(init, last);
      assert r[j] == last && last !in init;
      FirstIndexPrefix(init, s, last);
    }
  }

  /** A first occurrence inside a prefix is the first occurrence in the whole. */
  lemma FirstIndexPrefix<T>(init: seq<T>, s: seq<T>, x: T)
    requires |init| <= |s| && init == s[..|init|] && x in s
    ensures x in init ==> FirstIndex(s, x) == FirstIndex(init, x)
    ensures x !in init ==> FirstIndex(s, x) >= |init|
  {
    var i := FirstIndex(s, x);
    if x in init {
      var k := FirstIndex(init, x);
      assert s[k] == x;
    }
  }

  /**
   The distinct elements of `s` in first-appearance order, computed the
   way a hash-based `unique` does: one pass with a set of values seen.
   */
  method UniqueInOrder<T(==)>(s: seq<T>) returns (r: seq<T>)
    ensures r == Dedup(s)
    ensures NoDuplicates(r)
    ensures forall x :: x in r <==> x in s
  {
    r := [];
    var seen: set<T> := {};
    var k := 0;
    while k < |s|
      invariant 0 <= k <= |s|
      invariant r == Dedup(s[..k])
      invariant seen == set x | x in r
    {
      assert s[..k + 1][..k] == s[..k];
      if s[k] !in seen {
        r := r + [s[k]];
        seen := seen + {s[k]};
      }
      k := k + 1;
    }
    assert s[..k] == s;
    DedupElements(s);
  }
}
