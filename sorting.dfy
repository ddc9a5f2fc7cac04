/** The stable sort that the engine relies on (`Array.prototype.sort` with a
    comparator `(a, b) => key(b) - key(a)`): elements in non-increasing order of
    their key, equal keys kept in their original order.  `Sort` is the reference
    definition (insertion from the left); `SortInPlace` is the in-place array
    algorithm proved equal to it. */
module Sorting {

  /** `s` is in non-increasing order of `key`. */
  predicate SortedDesc<T>(s: seq<T>, key: T -> real) {
    forall i, j :: 0 <= i < j < |s| ==> key(s[i]) >= key(s[j])
  }

  /** The elements of `s` whose key is exactly `v`, in their order in `s`. */
  function Ties<T>(s: seq<T>, key: T -> real, v: real): seq<T> {
    if s == [] then []
    else (if key(s[0]) == v then [s[0]] else []) + Ties(s[1..], key, v)
  }

  /** Places `x` after every element of `t` whose key is at least its own. */
  function Insert<T>(t: seq<T>, x: T, key: T -> real): (r: seq<T>)
    ensures |r| == |t| + 1
  {
    if t == [] then [x]
    else if key(t[0]) >= key(x) then [t[0]] + Insert(t[1..], x, key)
    else [x] + t
  }

  /** `Insert` adds `x` and loses nothing. */
  lemma {:induction false} InsertPermutes<T>(t: seq<T>, x: T, key: T -> real)
    ensures multiset(Insert(t, x, key)) == multiset(t) + multiset{x}
  {
    if t != [] && key(t[0]) >= key(x) {
      InsertPermutes(t[1..], x, key);
      assert t == [t[0]] + t[1..];
    }
  }

  /** The stable descending sort of `s`: its elements inserted one by one, left to right. */
  function Sort<T>(s: seq<T>, key: T -> real): (r: seq<T>)
    ensures |r| == |s|
    ensures multiset(r) == multiset(s)
    ensures SortedDesc(r, key)
  {
    if s == [] then []
    else
      var init := s[..|s| - 1];
      assert s == init + [s[|s| - 1]];
      InsertKeepsOrder(Sort(init, key), s[|s| - 1], key);
      InsertPermutes(Sort(init, key), s[|s| - 1], key);
      Insert(Sort(init, key), s[|s| - 1], key)
  }

  /** Inserting below a bound keeps every key below it. */
  lemma {:induction false} InsertBounded<T>(t: seq<T>, x: T, key: T -> real, k: real)
    requires forall i :: 0 <= i < |t| ==> key(t[i]) <= k
    requires key(x) <= k
    ensures forall i :: 0 <= i < |Insert(t, x, key)| ==> key(Insert(t, x, key)[i]) <= k
  {
    if t != [] && key(t[0]) >= key(x) {
      InsertBounded(t[1..], x, key, k);
      assert Insert(t, x, key) == [t[0]] + Insert(t[1..], x, key);
    }
  }

  /** An element at least as large as every key of a sorted sequence can head it. */
  lemma SortedCons<T>(y: T, s: seq<T>, key: T -> real)
    requires SortedDesc(s, key)
    requires forall i :: 0 <= i < |s| ==> key(s[i]) <= key(y)
    ensures SortedDesc([y] + s, key)
  {
    var r := [y] + s;
    forall i, j | 0 <= i < j < |r|
      ensures key(r[i]) >= key(r[j])
    {
      assert r[j] == s[j - 1];
      if i > 0 {
        assert r[i] == s[i - 1];
      }
    }
  }

  lemma {:induction false} InsertKeepsOrder<T>(t: seq<T>, x: T, key: T -> real)
    requires SortedDesc(t, key)
    ensures SortedDesc(Insert(t, x, key), key)
  {
    if t != [] && key(t[0]) >= key(x) {
      InsertKeepsOrder(t[1..], x, key);
      InsertBounded(t[1..], x, key, key(t[0]));
      SortedCons(t[0], Insert(t[1..], x, key), key);
    }
  }

  lemma {:induction false} TiesAppend<T>(a: seq<T>, b: seq<T>, key: T -> real, v: real)
    ensures Ties(a + b, key, v) == Ties(a, key, v) + Ties(b, key, v)
  {
    if a != [] {
      assert (a + b)[1..] == a[1..] + b;
      TiesAppend(a[1..], b, key, v);
    } else {
      assert a + b == b;
    }
  }

  lemma {:induction false} TiesNone<T>(s: seq<T>, key: T -> real, v: real)
    requires forall i :: 0 <= i < |s| ==> key(s[i]) != v
    ensures Ties(s, key, v) == []
  {
    if s != [] {
      TiesNone(s[1..], key, v);
    }
  }

  lemma {:induction false} TiesCons<T>(y: T, s: seq<T>, key: T -> real, v: real)
    ensures Ties([y] + s, key, v) == (if key(y) == v then [y] else []) + Ties(s, key, v)
  {
    assert ([y] + s)[1..] == s;
  }

  lemma {:induction false} SortedTail<T>(t: seq<T>, key: T -> real)
    requires t != [] && SortedDesc(t, key)
    ensures SortedDesc(t[1..], key)
    ensures forall i :: 0 <= i < |t| ==> key(t[i]) <= key(t[0])
  {
    var rest := t[1..];
    forall i, j | 0 <= i < j < |rest| ensures key(rest[i]) >= key(rest[j]) {
      assert rest[i] == t[i + 1] && rest[j] == t[j + 1];
    }
  }

  /** The step of `TiesInsert` where `x` goes after the head `y`. */
  lemma {:induction false} TiesInsertBehind<T>(y: T, rest: seq<T>, x: T, key: T -> real, v: real, e: seq<T>)
    requires key(y) >= key(x)
    requires Ties(Insert(rest, x, key), key, v) == Ties(rest, key, v) + e
    ensures Ties(Insert([y] + rest, x, key), key, v) == Ties([y] + rest, key, v) + e
  {
    var t := [y] + rest;
    assert t[0] == y && t[1..] == rest;
    var ins := Insert(rest, x, key);
    assert Insert(t, x, key) == [y] + ins;
    var h := if key(y) == v then [y] else [];
    TiesCons(y, ins, key, v);
    TiesCons(y, rest, key, v);
    assert h + (Ties(rest, key, v) + e) == (h + Ties(rest, key, v)) + e;
  }

  /** Inserting into a sorted sequence appends `x` to the run of its key. */
  lemma {:induction false} TiesInsert<T>(t: seq<T>, x: T, key: T -> real, v: real)
    requires SortedDesc(t, key)
    ensures Ties(Insert(t, x, key), key, v)
         == Ties(t, key, v) + (if key(x) == v then [x] else [])
  {
    if t == [] {
      TiesCons(x, [], key, v);
    } else if key(t[0]) >= key(x) {
      SortedTail(t, key);
      TiesInsert(t[1..], x, key, v);
      TiesInsertBehind(t[0], t[1..], x, key, v, if key(x) == v then [x] else []);
      assert [t[0]] + t[1..] == t;
    } else {
      assert Insert(t, x, key) == [x] + t;
      TiesCons(x, t, key, v);
      if key(x) == v {
        SortedTail(t, key);
        TiesNone(t, key, v);
      }
    }
  }

  /** Stability: for every key value, the elements carrying it keep their order. */
  lemma {:induction false} SortIsStable<T>(s: seq<T>, key: T -> real, v: real)
    ensures Ties(Sort(s, key), key, v) == Ties(s, key, v)
  {
    if s != [] {
      var init, x := s[..|s| - 1], s[|s| - 1];
      assert s == init + [x];
      SortIsStable(init, key, v);
      TiesInsert(Sort(init, key), x, key, v);
      TiesAppend(init, [x], key, v);
      assert Ties([x], key, v) == (if key(x) == v then [x] else []) + Ties([], key, v);
    }
  }

  /** The first element of `s` whose key is `v` heads `Ties(s, key, v)`. */
  lemma {:induction false} TiesHead<T>(s: seq<T>, key: T -> real, v: real, p: nat)
    requires p < |s| && key(s[p]) == v
    requires forall q :: 0 <= q < p ==> key(s[q]) != v
    ensures Ties(s, key, v) != [] && Ties(s, key, v)[0] == s[p]
  {
    if p > 0 {
      TiesHead(s[1..], key, v, p - 1);
    }
  }

  /** The head of the sort carries the largest key of `s`. */
  lemma SortHeadIsMax<T>(s: seq<T>, key: T -> real)
    requires |s| > 0
    ensures Sort(s, key)[0] in s
    ensures forall q :: 0 <= q < |s| ==> key(s[q]) <= key(Sort(s, key)[0])
  {
    var r := Sort(s, key);
    forall q | 0 <= q < |s|
      ensures key(s[q]) <= key(r[0])
    {
      assert s[q] in multiset(r);
      var j :| 0 <= j < |r| && r[j] == s[q];
    }
    assert r[0] in multiset(s);
  }

  /** The least index of `s` whose key is `v`. */
  lemma {:induction false} FirstWithKey<T>(s: seq<T>, key: T -> real, v: real) returns (p: nat)
    requires exists q :: 0 <= q < |s| && key(s[q]) == v
    ensures p < |s| && key(s[p]) == v
    ensures forall q :: 0 <= q < p ==> key(s[q]) != v
  {
    if key(s[0]) == v {
      p := 0;
    } else {
      var q :| 0 <= q < |s| && key(s[q]) == v;
      assert key(s[1..][q - 1]) == v;
      var p' := FirstWithKey(s[1..], key, v);
      p := p' + 1;
      assert forall q :: 1 <= q < p ==> s[q] == s[1..][q - 1];
    }
  }

  /** The head of the sort is the FIRST element of `s` with the largest key:
      every element's key is at most its key, and every element before it has a
      strictly smaller key. */
  lemma SortHead<T>(s: seq<T>, key: T -> real) returns (p: nat)
    requires |s| > 0
    ensures p < |s| && Sort(s, key)[0] == s[p]
    ensures forall q :: 0 <= q < |s| ==> key(s[q]) <= key(s[p])
    ensures forall q :: 0 <= q < p ==> key(s[q]) < key(s[p])
  {
    var r := Sort(s, key);
    var v := key(r[0]);
    SortHeadIsMax(s, key);
    p := FirstWithKey(s, key, v);
    TiesHead(s, key, v, p);
    SortIsStable(s, key, v);
    assert r == [r[0]] + r[1..];
    assert Ties(r, key, v)[0] == r[0];
  }

  lemma {:induction false} TiesAll<T>(s: seq<T>, key: T -> real, v: real)
    requires forall i :: 0 <= i < |s| ==> key(s[i]) == v
    ensures Ties(s, key, v) == s
  {
    if s != [] {
      TiesAll(s[1..], key, v);
    }
  }

  /** When every key is the same (every comparison answers 0), the sort
      leaves the order as it is. */
  lemma SortOfEqualKeys<T>(s: seq<T>, key: T -> real, v: real)
    requires forall i :: 0 <= i < |s| ==> key(s[i]) == v
    ensures Sort(s, key) == s
  {
    var r := Sort(s, key);
    forall i | 0 <= i < |r|
      ensures key(r[i]) == v
    {
      assert r[i] in multiset(s);
    }
    TiesAll(s, key, v);
    TiesAll(r, key, v);
    SortIsStable(s, key, v);
  }

  /** Nothing left out of the first `m` places of the sort has a larger key
      than anything taken. */
  lemma SortTopDominates<T>(s: seq<T>, key: T -> real, m: nat)
    requires m <= |s|
    ensures forall j, i :: 0 <= j < |s| && s[j] !in Sort(s, key)[..m] && 0 <= i < m ==>
      key(s[j]) <= key(Sort(s, key)[i])
  {
    var r := Sort(s, key);
    forall j, i | 0 <= j < |s| && s[j] !in r[..m] && 0 <= i < m
      ensures key(s[j]) <= key(r[i])
    {
      assert s[j] in multiset(r);
      var q :| 0 <= q < |r| && r[q] == s[j];
      assert forall k :: 0 <= k < m ==> r[..m][k] == r[k];
    }
  }

  /** Stability of a cut sort: among elements with equal keys, the ones in
      the first `m` places are the first ones of `s`, in the order of `s`. */
  lemma SortTopTies<T>(s: seq<T>, key: T -> real, m: nat, v: real)
    requires m <= |s|
    ensures Ties(Sort(s, key)[..m], key, v) <= Ties(s, key, v)
  {
    var r := Sort(s, key);
    assert r == r[..m] + r[m..];
    TiesAppend(r[..m], r[m..], key, v);
    SortIsStable(s, key, v);
  }

  lemma SortSnoc<T>(s: seq<T>, x: T, key: T -> real)
    ensures Sort(s + [x], key) == Insert(Sort(s, key), x, key)
  {
    assert (s + [x])[..|s|] == s;
  }

  /** After the inner loop has moved `t[j..]` one place right, writing `x`
      into the gap yields `t[..j] + [x] + t[j..]`. */
  lemma ShiftedIsInsert<T>(shifted: seq<T>, t: seq<T>, x: T, j: nat)
    requires j <= |t| < |shifted|
    requires forall k :: 0 <= k < j ==> shifted[k] == t[k]
    requires forall k :: j < k <= |t| ==> shifted[k] == t[k - 1]
    ensures shifted[j := x][..|t| + 1] == t[..j] + [x] + t[j..]
  {
    var ins := t[..j] + [x] + t[j..];
    forall k | 0 <= k <= |t|
      ensures shifted[j := x][k] == ins[k]
    {
      if k < j {
        assert ins[k] == t[k];
      } else if k > j {
        assert ins[k] == t[k - 1];
      }
    }
  }

  /** Where `Insert` puts `x`: after the `j` leading elements whose key is at
      least its own, before the rest. */
  lemma {:induction false} InsertAt<T>(t: seq<T>, x: T, key: T -> real, j: nat)
    requires SortedDesc(t, key)
    requires j <= |t|
    requires j > 0 ==> key(t[j - 1]) >= key(x)
    requires forall k :: j <= k < |t| ==> key(t[k]) < key(x)
    ensures Insert(t, x, key) == t[..j] + [x] + t[j..]
  {
    if j > 0 {
      assert key(t[0]) >= key(x);
      InsertAt(t[1..], x, key, j - 1);
      assert t[..j] == [t[0]] + t[1..][..j - 1];
      assert t[j..] == t[1..][j - 1..];
    } else if t != [] {
      assert key(t[0]) < key(x);
    }
  }

  /** Stable in-place insertion sort of `a`, as the engine's `sort` calls do. */
  method SortInPlace<T>(a: array<T>, key: T -> real)
    modifies a
    ensures a[..] == Sort(old(a[..]), key)
  {
    ghost var orig := a[..];
    var i := 0;
    while i < a.Length
      invariant 0 <= i <= a.Length
      invariant a[..i] == Sort(orig[..i], key)
      invariant a[i..] == orig[i..]
    {
      ghost var before := a[..];
      assert before[i] == orig[i] by { assert before[i..][0] == orig[i..][0]; }
      InsertNext(a, i, key);
      assert a[..i + 1] == Insert(Sort(orig[..i], key), orig[i], key);
      SortSnoc(orig[..i], orig[i], key);
      assert orig[..i + 1] == orig[..i] + [orig[i]];
      assert a[i + 1..] == orig[i + 1..] by {
        assert a[i + 1..] == before[i + 1..];
        assert before[i + 1..] == before[i..][1..];
        assert orig[i + 1..] == orig[i..][1..];
      }
      i := i + 1;
    }
    assert orig[..a.Length] == orig;
    assert a[..a.Length] == a[..];
  }

  /** One step of the insertion sort: moves `a[i]` into the sorted prefix `a[..i]`. */
  method InsertNext<T>(a: array<T>, i: nat, key: T -> real)
    requires i < a.Length
    requires SortedDesc(a[..i], key)
    modifies a
    ensures a[..i + 1] == Insert(old(a[..i]), old(a[i]), key)
    ensures a[i + 1..] == old(a[i + 1..])
  {
    var x := a[i];
    ghost var t := a[..i];
    var j := i;
    while j > 0 && key(a[j - 1]) < key(x)
      invariant 0 <= j <= i
      invariant forall k :: 0 <= k < j ==> a[k] == t[k]
      invariant forall k :: j < k <= i ==> a[k] == t[k - 1]
      invariant forall k :: j <= k < i ==> key(t[k]) < key(x)
      invariant forall k :: i < k < a.Length ==> a[k] == old(a[k])
    {
      a[j] := a[j - 1];
      j := j - 1;
    }
    InsertAt(t, x, key, j);
    ghost var shifted := a[..];
    a[j] := x;
    ShiftedIsInsert(shifted, t, x, j);
    assert a[..] == shifted[j := x];
    assert a[i + 1..] == old(a[i + 1..]);
  }
}
