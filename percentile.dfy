/** `calculatePercentile` (backend/routes/users.js): where a user's figure
    falls among every user's figures, as the index of the first figure at least
    as large in the ascending sort, over the number of figures, times 100. */
module Percentiles {
  import opened Sorting

  /** A JavaScript number as this helper can produce it: a finite value, or
      `-Infinity` for `-1 / 0 * 100` when there are no figures at all. */
  datatype Percent = Finite(value: real) | MinusInfinity

  /** The sort key of the ascending sort `(a, b) => a - b`. */
  function AscKey(x: int): real {
    -(x as real)
  }

  /** How many figures of `s` are strictly below `v`. */
  function CountBelow(s: seq<int>, v: int): (r: nat)
    ensures r <= |s|
    ensures r == |s| <==> forall k :: 0 <= k < |s| ==> s[k] < v
  {
    if s == [] then 0
    else
      var init := s[..|s| - 1];
      assert forall k :: 0 <= k < |init| ==> init[k] == s[k];
      CountBelow(init, v) + (if s[|s| - 1] < v then 1 else 0)
  }

  /** The percentile of `v` among `s`: the share of figures strictly below it;
      `-100 / |s|` when every figure is below it (no index is found), and
      `-Infinity` when there are no figures. */
  function Percentile(s: seq<int>, v: int): Percent {
    if |s| == 0 then MinusInfinity
    else if CountBelow(s, v) == |s| then Finite(Share(-1, |s|))
    else Finite(Share(CountBelow(s, v), |s|))
  }

  /** `(index / length) * 100`. */
  function Share(index: int, length: nat): real
    requires length > 0
  {
    (index as real) / (length as real) * 100.0
  }

  lemma {:induction false} CountBelowAppend(a: seq<int>, b: seq<int>, v: int)
    ensures CountBelow(a + b, v) == CountBelow(a, v) + CountBelow(b, v)
  {
    if b == [] {
      assert a + b == a;
    } else {
      assert (a + b)[..|a + b| - 1] == a + b[..|b| - 1];
      CountBelowAppend(a, b[..|b| - 1], v);
    }
  }

  /** The count depends only on which figures there are, not on their order. */
  lemma {:induction false} CountBelowPermutation(a: seq<int>, b: seq<int>, v: int)
    requires multiset(a) == multiset(b)
    ensures CountBelow(a, v) == CountBelow(b, v)
  {
    if a != [] {
      var init, x := a[..|a| - 1], a[|a| - 1];
      assert a == init + [x];
      assert x in multiset(b);
      var j :| 0 <= j < |b| && b[j] == x;
      var rest := b[..j] + b[j + 1..];
      assert b == b[..j] + [x] + b[j + 1..];
      assert multiset(b) == multiset(b[..j]) + multiset{x} + multiset(b[j + 1..]);
      assert multiset(rest) == multiset(b[..j]) + multiset(b[j + 1..]);
      assert multiset(a) == multiset(init) + multiset{x};
      assert multiset(init) == multiset(a) - multiset{x};
      assert multiset(rest) == multiset(b) - multiset{x};
      CountBelowPermutation(init, rest, v);
      CountBelowAppend(b[..j] + [x], b[j + 1..], v);
      CountBelowAppend(b[..j], [x], v);
      CountBelowAppend(b[..j], b[j + 1..], v);
      assert CountBelow([x], v) == CountBelow([], v) + (if x < v then 1 else 0);
    }
  }

  /** In a sequence whose figures below `v` all come first, their count is
      where the first figure at least `v` sits. */
  lemma {:induction false} CountBelowSplit(s: seq<int>, v: int, i: nat)
    requires i <= |s|
    requires forall k :: 0 <= k < i ==> s[k] < v
    requires forall k :: i <= k < |s| ==> s[k] >= v
    ensures CountBelow(s, v) == i
  {
    if |s| > i {
      CountBelowSplit(s[..|s| - 1], v, i);
    }
  }

  /** A larger figure has at least as many figures below it. */
  lemma {:induction false} CountBelowMonotone(s: seq<int>, v: int, w: int)
    requires v <= w
    ensures CountBelow(s, v) <= CountBelow(s, w)
  {
    if s != [] {
      CountBelowMonotone(s[..|s| - 1], v, w);
    }
  }

  lemma ShareBounds(c: nat, n: nat)
    requires c < n
    ensures 0.0 <= Share(c, n) < 100.0
    ensures Share(c, n) * (n as real) == 100.0 * (c as real)
  {
    assert (c as real) / (n as real) < 1.0;
  }

  lemma ShareMonotone(c: nat, d: nat, n: nat)
    requires c <= d && 0 < n
    ensures Share(c, n) <= Share(d, n)
  {
  }

  /** When some figure is at least `v`, the percentile is the share of figures below it. */
  lemma PercentileIsShare(s: seq<int>, v: int)
    requires exists k :: 0 <= k < |s| && s[k] >= v
    ensures CountBelow(s, v) < |s|
    ensures Percentile(s, v) == Finite(Share(CountBelow(s, v), |s|))
  {
    var k :| 0 <= k < |s| && s[k] >= v;
  }

  /** For a figure that some figure reaches (the user is among all users),
      the percentile is finite, in [0, 100), and is the share of figures below it. */
  lemma PercentileInRange(s: seq<int>, v: int)
    requires exists k :: 0 <= k < |s| && s[k] >= v
    ensures Percentile(s, v).Finite?
    ensures 0.0 <= Percentile(s, v).value < 100.0
    ensures Percentile(s, v).value * (|s| as real) == 100.0 * (CountBelow(s, v) as real)
  {
    PercentileIsShare(s, v);
    ShareBounds(CountBelow(s, v), |s|);
  }

  /** Among the figures, a larger figure never has a smaller percentile. */
  lemma PercentileMonotone(s: seq<int>, v: int, w: int)
    requires v in s && w in s && v <= w
    ensures Percentile(s, v).Finite? && Percentile(s, w).Finite?
    ensures Percentile(s, v).value <= Percentile(s, w).value
  {
    var i :| 0 <= i < |s| && s[i] == v;
    var j :| 0 <= j < |s| && s[j] == w;
    PercentileIsShare(s, v);
    PercentileIsShare(s, w);
    CountBelowMonotone(s, v, w);
    ShareMonotone(CountBelow(s, v), CountBelow(s, w), |s|);
  }

  /** In the ascending order, the first figure at least `v` sits at the index
      that counts the figures below `v`. */
  lemma FirstAtLeast(s: seq<int>, v: int, i: nat)
    requires SortedDesc(s, AscKey)
    requires i <= |s|
    requires forall k :: 0 <= k < i ==> s[k] < v
    requires i < |s| ==> s[i] >= v
    ensures CountBelow(s, v) == i
  {
    forall k | i <= k < |s|
      ensures s[k] >= v
    {
      assert AscKey(s[i]) >= AscKey(s[k]);
    }
    CountBelowSplit(s, v, i);
  }

  /** What the search finds in the sorted figures determines the percentile of
      the original ones. */
  lemma PercentileFromIndex(orig: seq<int>, sorted: seq<int>, value: int, index: int)
    requires sorted == Sort(orig, AscKey)
    requires -1 <= index < |sorted|
    requires index == -1 <==> forall k :: 0 <= k < |sorted| ==> sorted[k] < value
    requires index >= 0 ==> sorted[index] >= value && forall k :: 0 <= k < index ==> sorted[k] < value
    ensures Percentile(orig, value) == if |orig| == 0 then MinusInfinity else Finite(Share(index, |orig|))
  {
    var i := if index == -1 then |sorted| else index;
    FirstAtLeast(sorted, value, i);
    CountBelowPermutation(sorted, orig, value);
  }

  /** `calculatePercentile(array, value)`: sorts `array` ascending in place,
      finds the first figure at least `value`, and divides its index by the
      number of figures. */
  method CalculatePercentile(values: array<int>, value: int) returns (p: Percent)
    modifies values
    ensures values[..] == Sort(old(values[..]), AscKey)
    ensures p == Percentile(old(values[..]), value)
  {
    ghost var orig := values[..];
    SortInPlace(values, AscKey);
    var index := FindIndex(values, value);
    PercentileFromIndex(orig, values[..], value, index);
    if values.Length == 0 {
      p := MinusInfinity;
    } else {
      p := Finite(Share(index, values.Length));
    }
  }

  /** `array.findIndex(item => item >= value)`: the first index holding a
      figure at least `value`, or -1. */
  method FindIndex(a: array<int>, value: int) returns (index: int)
    ensures -1 <= index < a.Length
    ensures index == -1 <==> forall k :: 0 <= k < a.Length ==> a[k] < value
    ensures index >= 0 ==> a[index] >= value && forall k :: 0 <= k < index ==> a[k] < value
  {
    var i := 0;
    while i < a.Length && a[i] < value
      invariant 0 <= i <= a.Length
      invariant forall k :: 0 <= k < i ==> a[k] < value
    {
      i := i + 1;
    }
    index := if i < a.Length then i else -1;
  }
}
