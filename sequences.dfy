/** The Swift standard-library sequence queries the tool relies on:
    `firstIndex(where:)` / `first(where:)`, `allSatisfy`, `contains(where:)`
    and `filter`, each with its meaning stated in terms of indices. */
module Sequences {
  import opened Wrappers

  /** The index of the first element satisfying `p`, or None. */
  function FirstIndex<T>(s: seq<T>, p: T -> bool): (r: Option<nat>)
    ensures r.Some? ==> r.value < |s| && p(s[r.value])
    ensures r.Some? ==> forall j :: 0 <= j < r.value ==> !p(s[j])
    ensures r.None? <==> forall j :: 0 <= j < |s| ==> !p(s[j])
    decreases |s|
  {
    if s == [] then None
    else if p(s[0]) then Some(0)
    else match FirstIndex(s[1..], p)
      case None => None
      case Some(i) => Some(i + 1)
  }

  /** The least index satisfying `p` is what FirstIndex finds. */
  lemma FirstIndexIs<T>(s: seq<T>, p: T -> bool, i: nat)
    requires i < |s| && p(s[i])
    requires forall j :: 0 <= j < i ==> !p(s[j])
    ensures FirstIndex(s, p) == Some(i)
  {
  }

  /** Swift's `allSatisfy`: true of the empty sequence. */
  function AllSatisfy<T>(s: seq<T>, p: T -> bool): (r: bool)
    ensures r <==> forall i :: 0 <= i < |s| ==> p(s[i])
    decreases |s|
  {
    s == [] || (p(s[0]) && AllSatisfy(s[1..], p))
  }

  /** Swift's `contains(where:)`: false of the empty sequence. */
  function Contains<T>(s: seq<T>, p: T -> bool): (r: bool)
    ensures r <==> exists i :: 0 <= i < |s| && p(s[i])
    decreases |s|
  {
    s != [] && (p(s[0]) || Contains(s[1..], p))
  }

  /** Whether some element satisfies `p` does not depend on the order. */
  lemma ContainsIgnoresOrder<T>(a: seq<T>, b: seq<T>, p: T -> bool)
    requires multiset(a) == multiset(b)
    ensures Contains(a, p) == Contains(b, p)
  {
    if Contains(a, p) {
      var i :| 0 <= i < |a| && p(a[i]);
      assert a[i] in multiset(b);
      var j :| 0 <= j < |b| && b[j] == a[i];
    }
    if Contains(b, p) {
      var j :| 0 <= j < |b| && p(b[j]);
      assert b[j] in multiset(a);
      var i :| 0 <= i < |a| && a[i] == b[j];
    }
  }

  /** Whether every element satisfies `p` does not depend on the order. */
  lemma AllSatisfyIgnoresOrder<T>(a: seq<T>, b: seq<T>, p: T -> bool)
    requires multiset(a) == multiset(b)
    ensures AllSatisfy(a, p) == AllSatisfy(b, p)
  {
    if !AllSatisfy(a, p) {
      var i :| 0 <= i < |a| && !p(a[i]);
      assert a[i] in multiset(b);
      var j :| 0 <= j < |b| && b[j] == a[i];
    }
    if !AllSatisfy(b, p) {
      var j :| 0 <= j < |b| && !p(b[j]);
      assert b[j] in multiset(a);
      var i :| 0 <= i < |a| && a[i] == b[j];
    }
  }

  /** Swift's `filter`: the elements satisfying `p`, in their original order. */
  function Filter<T>(s: seq<T>, p: T -> bool): (r: seq<T>)
    ensures |r| <= |s|
    ensures forall k :: 0 <= k < |r| ==> p(r[k]) && r[k] in s
    ensures forall i :: 0 <= i < |s| && p(s[i]) ==> s[i] in r
    ensures (forall i :: 0 <= i < |s| ==> p(s[i])) ==> r == s
    decreases |s|
  {
    if s == [] then []
    else if p(s[0]) then [s[0]] + Filter(s[1..], p)
    else Filter(s[1..], p)
  }

  /** Filtering works piecewise, so the kept elements stay in their order. */
  lemma {:induction false} FilterConcat<T>(a: seq<T>, b: seq<T>, p: T -> bool)
    ensures Filter(a + b, p) == Filter(a, p) + Filter(b, p)
    decreases |a|
  {
    if a == [] {
      assert a + b == b;
    } else {
      assert (a + b)[0] == a[0];
      assert (a + b)[1..] == a[1..] + b;
      FilterConcat(a[1..], b, p);
    }
  }
}
