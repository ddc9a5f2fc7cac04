/** The two pieces of a MongoDB `find(filter).limit(n)` that the engine
    relies on: the documents that pass the filter, in store order, and the
    first `n` of them. */
module Query {

  /** The elements of `s` that satisfy `p`, in their order. */
  function Filter<T>(s: seq<T>, p: T -> bool): (r: seq<T>)
    ensures |r| <= |s|
    ensures forall x :: x in r ==> x in s && p(x)
    ensures forall i :: 0 <= i < |s| && p(s[i]) ==> s[i] in r
  {
    if s == [] then []
    else
      var init := s[..|s| - 1];
      assert forall i :: 0 <= i < |init| ==> init[i] == s[i];
      Filter(init, p) + (if p(s[|s| - 1]) then [s[|s| - 1]] else [])
  }

  /** `.limit(n)`: the first `n` results, or all of them when there are fewer. */
  function Limit<T>(s: seq<T>, n: nat): (r: seq<T>)
    ensures |r| == if |s| < n then |s| else n
    ensures r <= s
  {
    if |s| < n then s else s[..n]
  }

  /** Filtering a concatenation filters each part: the filter keeps the
      store order of the elements it lets through. */
  lemma {:induction false} FilterAppend<T>(s: seq<T>, t: seq<T>, p: T -> bool)
    ensures Filter(s + t, p) == Filter(s, p) + Filter(t, p)
  {
    if t != [] {
      var u := t[..|t| - 1];
      FilterAppend(s, u, p);
      assert (s + t)[..|s + t| - 1] == s + u;
      assert (s + t)[|s + t| - 1] == t[|t| - 1];
    } else {
      assert s + t == s;
    }
  }

  /** An element that passes the filter is the result at the index given by
      the number of passing elements before it. */
  lemma {:induction false} FilterAt<T>(s: seq<T>, p: T -> bool, i: int)
    requires 0 <= i < |s| && p(s[i])
    ensures |Filter(s[..i], p)| < |Filter(s, p)|
    ensures Filter(s, p)[|Filter(s[..i], p)|] == s[i]
  {
    assert s == (s[..i] + [s[i]]) + s[i + 1..];
    FilterAppend(s[..i] + [s[i]], s[i + 1..], p);
    FilterAppend(s[..i], [s[i]], p);
    assert [s[i]][..0] == [];
    assert Filter([s[i]], p) == [s[i]];
  }

  /** Every result comes from a passing element of `s`, and the result at
      index `k` is the passing element with exactly `k` passing elements
      before it. */
  lemma {:induction false} FilterOrigin<T>(s: seq<T>, p: T -> bool, k: int)
    requires 0 <= k < |Filter(s, p)|
    ensures exists i :: 0 <= i < |s| && p(s[i]) && |Filter(s[..i], p)| == k && Filter(s, p)[k] == s[i]
  {
    var init := s[..|s| - 1];
    assert forall i :: 0 <= i < |init| ==> init[i] == s[i];
    if k < |Filter(init, p)| {
      FilterOrigin(init, p, k);
      var i :| 0 <= i < |init| && p(init[i]) && |Filter(init[..i], p)| == k && Filter(init, p)[k] == init[i];
      assert init[..i] == s[..i];
    } else {
      assert s[..|s| - 1] == init;
    }
  }

  /** `find(filter).limit(n)` keeps every passing element that has fewer
      than `n` passing elements before it, at that index. */
  lemma {:induction false} LimitFilterAt<T>(s: seq<T>, p: T -> bool, n: nat, i: int)
    requires 0 <= i < |s| && p(s[i]) && |Filter(s[..i], p)| < n
    ensures |Filter(s[..i], p)| < |Limit(Filter(s, p), n)|
    ensures Limit(Filter(s, p), n)[|Filter(s[..i], p)|] == s[i]
  {
    FilterAt(s, p, i);
  }

  /** `find(filter).limit(n)` in store order: the `k`-th result is the
      passing element with `k` passing elements before it. */
  lemma {:induction false} LimitFilterOrigin<T>(s: seq<T>, p: T -> bool, n: nat, k: int)
    requires 0 <= k < |Limit(Filter(s, p), n)|
    ensures exists i :: 0 <= i < |s| && p(s[i]) && |Filter(s[..i], p)| == k && Limit(Filter(s, p), n)[k] == s[i]
  {
    FilterOrigin(s, p, k);
  }

  /** A filter that no element passes returns nothing. */
  lemma {:induction false} FilterNone<T>(s: seq<T>, p: T -> bool)
    requires forall i :: 0 <= i < |s| ==> !p(s[i])
    ensures Filter(s, p) == []
  {
    if s != [] {
      FilterNone(s[..|s| - 1], p);
    }
  }
}
