/** A JavaScript object used as a dictionary from names to numbers, as the
    engine's `genrePreferences`, `authorStats`, `narratorStats` and their
    siblings are.  `keys` lists the keys in first-insertion order, which is the
    order `Object.keys` and `Object.entries` report for keys that are not
    integer-like; `value` holds the numbers. */
module Tally {
  import opened Sorting

  datatype Tally = Tally(keys: seq<string>, value: map<string, real>)

  predicate Distinct<T(==)>(s: seq<T>) {
    forall i, j :: 0 <= i < j < |s| ==> s[i] != s[j]
  }

  /** The keys are listed once each, and exactly the keys of the map are listed. */
  predicate Valid(t: Tally) {
    && Distinct(t.keys)
    && (forall k :: k in t.keys ==> k in t.value)
    && (forall k :: k in t.value ==> k in t.keys)
  }

  predicate NonNegative(t: Tally) {
    forall k :: k in t.value ==> t.value[k] >= 0.0
  }

  function Empty(): (t: Tally)
    ensures Valid(t) && t.keys == []
  {
    Tally([], map[])
  }

  /** `d[k] || 0`: the number stored under `k`, or 0 when `k` is absent. */
  function Get(t: Tally, k: string): real {
    if k in t.value then t.value[k] else 0.0
  }

  /** `d[k] = (d[k] || 0) + x`: a new key goes to the end of the key order. */
  function Add(t: Tally, k: string, x: real): (r: Tally)
    requires Valid(t)
    ensures Valid(r)
    ensures k in r.value
    ensures Get(r, k) == Get(t, k) + x
    ensures forall j :: j != k ==> Get(r, j) == Get(t, j)
    ensures forall j :: j in r.value <==> j in t.value || j == k
    ensures k in t.value ==> r.keys == t.keys
    ensures k !in t.value ==> r.keys == t.keys + [k]
  {
    Tally(if k in t.value then t.keys else t.keys + [k], t.value[k := Get(t, k) + x])
  }

  /** The tally that a sequence of `d[k] = (d[k] || 0) + x` updates builds from an empty object. */
  function FromPairs(ps: seq<(string, real)>): (t: Tally)
    ensures Valid(t)
  {
    if ps == [] then Empty()
    else Add(FromPairs(ps[..|ps| - 1]), ps[|ps| - 1].0, ps[|ps| - 1].1)
  }

  lemma FromPairsSnoc(ps: seq<(string, real)>, p: (string, real))
    ensures FromPairs(ps + [p]) == Add(FromPairs(ps), p.0, p.1)
  {
    assert (ps + [p])[..|ps|] == ps;
  }

  /** The total of the amounts paired with `k`. */
  function SumFor(ps: seq<(string, real)>, k: string): real {
    if ps == [] then 0.0
    else SumFor(ps[..|ps| - 1], k) + (if ps[|ps| - 1].0 == k then ps[|ps| - 1].1 else 0.0)
  }

  /** The total of all amounts. */
  function SumAll(ps: seq<(string, real)>): real {
    if ps == [] then 0.0 else SumAll(ps[..|ps| - 1]) + ps[|ps| - 1].1
  }

  function Firsts<A, B>(ps: seq<(A, B)>): (r: seq<A>)
    ensures |r| == |ps|
    ensures forall i :: 0 <= i < |ps| ==> r[i] == ps[i].0
  {
    seq(|ps|, i requires 0 <= i < |ps| => ps[i].0)
  }

  /** Each key holds the sum of the amounts paired with it, and the keys are
      exactly the names that occur in the pairs. */
  lemma {:induction false} FromPairsMeaning(ps: seq<(string, real)>)
    ensures forall k :: Get(FromPairs(ps), k) == SumFor(ps, k)
    ensures forall k :: k in FromPairs(ps).value <==> k in Firsts(ps)
  {
    if ps != [] {
      var init := ps[..|ps| - 1];
      FromPairsMeaning(init);
      assert Firsts(ps) == Firsts(init) + [ps[|ps| - 1].0];
    }
  }

  lemma {:induction false} FromPairsNonNegative(ps: seq<(string, real)>)
    requires forall i :: 0 <= i < |ps| ==> ps[i].1 >= 0.0
    ensures NonNegative(FromPairs(ps))
  {
    if ps != [] {
      FromPairsNonNegative(ps[..|ps| - 1]);
      var t := FromPairs(ps[..|ps| - 1]);
      forall k | k in FromPairs(ps).value
        ensures FromPairs(ps).value[k] >= 0.0
      {
        assert FromPairs(ps).value[k] == Get(FromPairs(ps), k);
        if k != ps[|ps| - 1].0 {
          assert k in t.value;
        }
      }
    }
  }

  /** The sum of the numbers stored under `ks`. */
  function SumOver(ks: seq<string>, m: map<string, real>): real
    requires forall k :: k in ks ==> k in m
  {
    if ks == [] then 0.0 else SumOver(ks[..|ks| - 1], m) + m[ks[|ks| - 1]]
  }

  /** `Object.values(d)` summed. */
  function SumValues(t: Tally): real
    requires Valid(t)
  {
    SumOver(t.keys, t.value)
  }

  lemma {:induction false} SumOverAgree(ks: seq<string>, m1: map<string, real>, m2: map<string, real>)
    requires forall k :: k in ks ==> k in m1 && k in m2 && m1[k] == m2[k]
    ensures SumOver(ks, m1) == SumOver(ks, m2)
  {
    if ks != [] {
      SumOverAgree(ks[..|ks| - 1], m1, m2);
    }
  }

  lemma {:induction false} SumOverBump(ks: seq<string>, m: map<string, real>, k: string, x: real)
    requires Distinct(ks) && k in ks && k in m
    requires forall j :: j in ks ==> j in m
    ensures SumOver(ks, m[k := m[k] + x]) == SumOver(ks, m) + x
  {
    var init, last := ks[..|ks| - 1], ks[|ks| - 1];
    if last == k {
      assert k !in init by {
        forall i | 0 <= i < |init| ensures init[i] != k { assert ks[i] != ks[|ks| - 1]; }
      }
      SumOverAgree(init, m, m[k := m[k] + x]);
    } else {
      assert k in init by {
        var i :| 0 <= i < |ks| && ks[i] == k;
        assert init[i] == k;
      }
      assert Distinct(init) by {
        forall i, j | 0 <= i < j < |init| ensures init[i] != init[j] { assert ks[i] != ks[j]; }
      }
      SumOverBump(init, m, k, x);
    }
  }

  /** Adding `x` under one key adds `x` to the sum of all values. */
  lemma AddSum(t: Tally, k: string, x: real)
    requires Valid(t)
    ensures SumValues(Add(t, k, x)) == SumValues(t) + x
  {
    var r := Add(t, k, x);
    if k in t.value {
      assert t.value[k := Get(t, k) + x] == t.value[k := t.value[k] + x];
      SumOverBump(t.keys, t.value, k, x);
    } else {
      assert r.keys[..|r.keys| - 1] == t.keys;
      SumOverAgree(t.keys, t.value, r.value);
    }
  }

  /** The values of the tally built from `ps` add up to the total of its amounts. */
  lemma {:induction false} FromPairsSum(ps: seq<(string, real)>)
    ensures SumValues(FromPairs(ps)) == SumAll(ps)
  {
    if ps != [] {
      FromPairsSum(ps[..|ps| - 1]);
      AddSum(FromPairs(ps[..|ps| - 1]), ps[|ps| - 1].0, ps[|ps| - 1].1);
    }
  }

  /** `Object.keys(d).forEach(k => { d[k] /= d0; })`: every value divided by the same number. */
  function Scaled(t: Tally, d: real): (r: Tally)
    requires Valid(t) && d != 0.0
    ensures Valid(r) && r.keys == t.keys
    ensures forall k :: Get(r, k) == Get(t, k) / d
  {
    Tally(t.keys, map k | k in t.value :: t.value[k] / d)
  }

  lemma {:induction false} SumOverScaled(ks: seq<string>, m: map<string, real>, d: real)
    requires forall k :: k in ks ==> k in m
    requires d != 0.0
    ensures SumOver(ks, map k | k in m :: m[k] / d) == SumOver(ks, m) / d
  {
    if ks != [] {
      var init, last := ks[..|ks| - 1], ks[|ks| - 1];
      SumOverScaled(init, m, d);
      var a, b := SumOver(init, m), m[last];
      assert a / d + b / d == (a + b) / d;
    }
  }

  /** Dividing every value by the sum of all values leaves values that sum to 1. */
  lemma ScaledSumsToOne(t: Tally, d: real)
    requires Valid(t) && d != 0.0 && SumValues(t) == d
    ensures SumValues(Scaled(t, d)) == 1.0
  {
    SumOverScaled(t.keys, t.value, d);
  }

  /** `Object.entries(d)`: the (key, value) pairs in key order. */
  function Entries(t: Tally): (es: seq<(string, real)>)
    requires Valid(t)
    ensures |es| == |t.keys|
    ensures forall i :: 0 <= i < |es| ==> es[i] == (t.keys[i], t.value[t.keys[i]])
  {
    seq(|t.keys|, i requires 0 <= i < |t.keys| => (t.keys[i], t.value[t.keys[i]]))
  }

  function Weight(e: (string, real)): real {
    e.1
  }

  function Min(a: int, b: int): int {
    if a < b then a else b
  }

  /** `Object.entries(d).sort((a, b) => b[1] - a[1]).slice(0, n)`. */
  function TopEntries(t: Tally, n: nat): seq<(string, real)>
    requires Valid(t)
  {
    Sort(Entries(t), Weight)[..Min(n, |t.keys|)]
  }

  /** The keys of `TopEntries`: `...slice(0, n).map(([k]) => k)`. */
  function TopKeys(t: Tally, n: nat): seq<string>
    requires Valid(t)
  {
    Firsts(TopEntries(t, n))
  }

  lemma {:induction false} MultisetDistinct<T>(s: seq<T>, x: T)
    requires Distinct(s)
    ensures multiset(s)[x] <= 1
  {
    if s != [] {
      var init := s[..|s| - 1];
      assert s == init + [s[|s| - 1]];
      assert Distinct(init) by {
        forall i, j | 0 <= i < j < |init| ensures init[i] != init[j] { assert s[i] != s[j]; }
      }
      MultisetDistinct(init, x);
      if x == s[|s| - 1] {
        assert x !in init by {
          forall i | 0 <= i < |init| ensures init[i] != x { assert s[i] != s[|s| - 1]; }
        }
      }
    }
  }

  lemma MultisetTwice<T>(s: seq<T>, i: nat, j: nat)
    requires i < j < |s| && s[i] == s[j]
    ensures multiset(s)[s[i]] >= 2
  {
    assert s == s[..i] + [s[i]] + s[i + 1..j] + [s[j]] + s[j + 1..];
  }

  /** Every sorted entry is a key of the tally paired with its own value. */
  lemma SortedEntriesAreEntries(t: Tally)
    requires Valid(t)
    ensures forall i :: 0 <= i < |Sort(Entries(t), Weight)| ==>
      Sort(Entries(t), Weight)[i].0 in t.value
      && Sort(Entries(t), Weight)[i].1 == t.value[Sort(Entries(t), Weight)[i].0]
  {
    var es := Entries(t);
    var s := Sort(es, Weight);
    forall i | 0 <= i < |s|
      ensures s[i].0 in t.value && s[i].1 == t.value[s[i].0]
    {
      assert s[i] in multiset(es);
    }
  }

  /** No key is taken twice. */
  lemma TopKeysDistinct(t: Tally, n: nat)
    requires Valid(t)
    ensures Distinct(TopKeys(t, n))
  {
    var es := Entries(t);
    var s := Sort(es, Weight);
    var m := Min(n, |t.keys|);
    var top := TopKeys(t, n);
    assert Distinct(es) by {
      forall i, j | 0 <= i < j < |es| ensures es[i] != es[j] {
        assert t.keys[i] != t.keys[j];
      }
    }
    SortedEntriesAreEntries(t);
    forall i, j | 0 <= i < j < m
      ensures top[i] != top[j]
    {
      if top[i] == top[j] {
        assert s[i] == s[j];
        MultisetTwice(s, i, j);
        MultisetDistinct(es, s[i]);
        assert false;
      }
    }
  }

  /** No key left out outweighs a key taken. */
  lemma TopKeysOutweigh(t: Tally, n: nat)
    requires Valid(t)
    ensures forall i, k :: 0 <= i < |TopEntries(t, n)| && k in t.value && k !in TopKeys(t, n) ==>
      t.value[k] <= TopEntries(t, n)[i].1
  {
    var es := Entries(t);
    var s := Sort(es, Weight);
    var m := Min(n, |t.keys|);
    var top := TopEntries(t, n);
    forall i, k | 0 <= i < m && k in t.value && k !in TopKeys(t, n)
      ensures t.value[k] <= top[i].1
    {
      var p :| 0 <= p < |t.keys| && t.keys[p] == k;
      assert es[p] == (k, t.value[k]);
      assert (k, t.value[k]) in multiset(s);
      var q :| 0 <= q < |s| && s[q] == (k, t.value[k]);
      assert forall j :: 0 <= j < m ==> s[j].0 == TopKeys(t, n)[j] != k;
      assert Weight(s[i]) >= Weight(s[q]);
    }
  }

  /** The top `n` entries of the tally: at most `n` of them, each a key with
      its own value, no key twice, in non-increasing order of value, and no key
      left out outweighs one taken. */
  lemma TopEntriesAreTop(t: Tally, n: nat)
    requires Valid(t)
    ensures |TopEntries(t, n)| == Min(n, |t.keys|)
    ensures forall i :: 0 <= i < |TopEntries(t, n)| ==>
      TopEntries(t, n)[i].0 in t.value && TopEntries(t, n)[i].1 == t.value[TopEntries(t, n)[i].0]
    ensures Distinct(TopKeys(t, n))
    ensures SortedDesc(TopEntries(t, n), Weight)
    ensures forall i, k :: 0 <= i < |TopEntries(t, n)| && k in t.value && k !in TopKeys(t, n) ==>
      t.value[k] <= TopEntries(t, n)[i].1
  {
    SortedEntriesAreEntries(t);
    TopKeysDistinct(t, n);
    TopKeysOutweigh(t, n);
  }

  /** The sort-and-slice of `Object.entries(d)`, on an array as the source does it. */
  method TopOf(t: Tally, n: nat) returns (top: seq<(string, real)>)
    requires Valid(t)
    ensures top == TopEntries(t, n)
  {
    var es := Entries(t);
    var a := new (string, real)[|es|](i requires 0 <= i < |es| => es[i]);
    assert a[..] == es;
    SortInPlace(a, Weight);
    top := a[..Min(n, a.Length)];
  }

  /** Dividing by a positive number keeps the order of two values. */
  lemma ScaledKeepsOrder(t: Tally, d: real, j: string, k: string)
    requires Valid(t) && d > 0.0
    requires Get(Scaled(t, d), j) <= Get(Scaled(t, d), k)
    ensures Get(t, j) <= Get(t, k)
  {
    assert Get(t, j) / d <= Get(t, k) / d;
  }

  /** The top keys of a tally in terms of `Get`: how many, no key twice, each
      a key, and no key left out has a larger value than a key taken. */
  lemma TopKeysByGet(t: Tally, n: nat)
    requires Valid(t)
    ensures var top := TopKeys(t, n);
      && |top| == Min(n, |t.keys|)
      && Distinct(top)
      && (forall i :: 0 <= i < |top| ==> top[i] in t.value)
      && forall i, k :: 0 <= i < |top| && k in t.value && k !in top ==> Get(t, k) <= Get(t, top[i])
  {
    var es := TopEntries(t, n);
    var top := TopKeys(t, n);
    TopEntriesAreTop(t, n);
    forall i, k | 0 <= i < |top| && k in t.value && k !in top
      ensures Get(t, k) <= Get(t, top[i])
    {
      assert top[i] == es[i].0;
    }
  }

  /** Dividing every value by the same positive number does not change which
      keys come out on top: no key left out has a larger value than a key
      taken, before the division as after it. */
  lemma ScaledTopKeys(t: Tally, d: real, n: nat)
    requires Valid(t) && d > 0.0
    ensures var top := TopKeys(Scaled(t, d), n);
      && |top| == Min(n, |t.keys|)
      && Distinct(top)
      && (forall i :: 0 <= i < |top| ==> top[i] in t.value)
      && forall i, k :: 0 <= i < |top| && k in t.value && k !in top ==> Get(t, k) <= Get(t, top[i])
  {
    var u := Scaled(t, d);
    var top := TopKeys(u, n);
    TopKeysByGet(u, n);
    forall i, k | 0 <= i < |top| && k in t.value && k !in top
      ensures Get(t, k) <= Get(t, top[i])
    {
      ScaledKeepsOrder(t, d, k, top[i]);
    }
  }

  /** When every value is the same, the top keys are the first keys in
      insertion order. */
  lemma TopKeysOfEqualValues(t: Tally, n: nat, v: real)
    requires Valid(t)
    requires forall k :: k in t.value ==> t.value[k] == v
    ensures TopKeys(t, n) == t.keys[..Min(n, |t.keys|)]
  {
    var es := Entries(t);
    var m := Min(n, |t.keys|);
    assert forall i :: 0 <= i < |es| ==> Weight(es[i]) == v;
    SortOfEqualKeys(es, Weight, v);
    var top := TopKeys(t, n);
    assert |top| == m;
    forall i | 0 <= i < m
      ensures top[i] == t.keys[i]
    {
      assert TopEntries(t, n)[i] == es[i];
    }
  }

  /** Dividing non-negative values by a positive number keeps them non-negative. */
  lemma ScaledNonNegative(t: Tally, d: real)
    requires Valid(t) && NonNegative(t) && d > 0.0
    ensures NonNegative(Scaled(t, d))
  {
    forall k | k in Scaled(t, d).value
      ensures Scaled(t, d).value[k] >= 0.0
    {
      assert t.value[k] >= 0.0;
    }
  }
}
