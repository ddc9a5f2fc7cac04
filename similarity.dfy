/** The string-similarity helpers of backend/routes/audiobooks.js: the
    Levenshtein distance of two lower-cased strings, computed with one row of
    costs, and the similarity score derived from it. */
module Similarity {

  /** `toLowerCase` on the ASCII letters. */
  function LowerChar(c: char): char {
    if 'A' <= c <= 'Z' then (c as int + 32) as char else c
  }

  function Lower(s: string): (r: string)
    ensures |r| == |s| && forall i :: 0 <= i < |s| ==> r[i] == LowerChar(s[i])
  {
    seq(|s|, i requires 0 <= i < |s| => LowerChar(s[i]))
  }

  function Min3(x: nat, y: nat, z: nat): nat {
    if x <= y && x <= z then x else if y <= z then y else z
  }

  function Max(x: nat, y: nat): nat {
    if x < y then y else x
  }

  /** The edit distance between the first `i` characters of `a` and the first
      `j` characters of `b`: equal last characters cost nothing, otherwise one
      substitution, insertion or deletion is added to the cheapest of the
      three shorter problems. */
  function Dist(a: string, b: string, i: nat, j: nat): nat
    requires i <= |a| && j <= |b|
    decreases i + j
  {
    if i == 0 then j
    else if j == 0 then i
    else if a[i - 1] == b[j - 1] then Dist(a, b, i - 1, j - 1)
    else 1 + Min3(Dist(a, b, i - 1, j - 1), Dist(a, b, i, j - 1), Dist(a, b, i - 1, j))
  }

  /** `editDistance(s1, s2)`: the Levenshtein distance of the lower-cased strings. */
  function Distance(s1: string, s2: string): nat {
    Dist(Lower(s1), Lower(s2), |s1|, |s2|)
  }

  /** One cell of the table from its three neighbours. */
  lemma DistStep(a: string, b: string, i: nat, j: nat)
    requires 0 < i <= |a| && 0 < j <= |b|
    ensures Dist(a, b, i, j) ==
      if a[i - 1] == b[j - 1] then Dist(a, b, i - 1, j - 1)
      else Min3(Dist(a, b, i - 1, j - 1), Dist(a, b, i, j - 1), Dist(a, b, i - 1, j)) + 1
  {
  }

  /** `editDistance`: row `i` of the table overwrites the row `i - 1` kept in
      `costs`, with `lastValue` carrying the entry to the left of the one being
      computed. */
  method EditDistance(s1: string, s2: string) returns (d: nat)
    ensures d == Distance(s1, s2)
  {
    var a := Lower(s1);
    var b := Lower(s2);
    var costs := new nat[|b| + 1];
    for i := 0 to |a| + 1
      invariant i > 0 ==> forall k {:trigger costs[k]} :: 0 <= k <= |b| ==> costs[k] == Dist(a, b, i - 1, k)
    {
      if i == 0 {
        for j := 0 to |b| + 1
          invariant forall k :: 0 <= k < j ==> costs[k] == k
        {
          costs[j] := j;
        }
      } else {
        NextRow(a, b, i, costs);
      }
    }
    d := costs[|b|];
  }

  /** The body of the outer loop for `i > 0`: `costs` goes from row `i - 1` to
      row `i` (the pass with `j == 0` changes nothing there and is left out). */
  method NextRow(a: string, b: string, i: nat, costs: array<nat>)
    requires 0 < i <= |a| && costs.Length == |b| + 1
    requires forall k {:trigger costs[k]} :: 0 <= k <= |b| ==> costs[k] == Dist(a, b, i - 1, k)
    modifies costs
    ensures forall k {:trigger costs[k]} :: 0 <= k <= |b| ==> costs[k] == Dist(a, b, i, k)
  {
    var lastValue: nat := i;
    for j := 1 to |b| + 1
      invariant lastValue == Dist(a, b, i, j - 1)
      invariant forall k {:trigger costs[k]} :: 0 <= k < j - 1 ==> costs[k] == Dist(a, b, i, k)
      invariant forall k {:trigger costs[k]} :: j - 1 <= k <= |b| ==> costs[k] == Dist(a, b, i - 1, k)
    {
      var newValue := costs[j - 1];
      if a[i - 1] != b[j - 1] {
        newValue := Min3(newValue, lastValue, costs[j]) + 1;
      }
      assert newValue == Dist(a, b, i, j) by {
        DistStep(a, b, i, j);
      }
      costs[j - 1] := lastValue;
      lastValue := newValue;
    }
    costs[|b|] := lastValue;
  }

  /** Turning a string into the empty one, or back, takes one edit per character. */
  lemma DistanceToEmpty(s: string)
    ensures Distance(s, "") == |s| && Distance("", s) == |s|
  {
  }

  lemma {:induction false} DistSelf(a: string, i: nat)
    requires i <= |a|
    ensures Dist(a, a, i, i) == 0
  {
    if i > 0 {
      DistSelf(a, i - 1);
    }
  }

  /** A string is at distance 0 from itself. */
  lemma DistanceSelf(s: string)
    ensures Distance(s, s) == 0
  {
    DistSelf(Lower(s), |s|);
  }

  lemma {:induction false} DistSymmetric(a: string, b: string, i: nat, j: nat)
    requires i <= |a| && j <= |b|
    ensures Dist(a, b, i, j) == Dist(b, a, j, i)
    decreases i + j
  {
    if i > 0 && j > 0 {
      DistSymmetric(a, b, i - 1, j - 1);
      if a[i - 1] != b[j - 1] {
        DistSymmetric(a, b, i, j - 1);
        DistSymmetric(a, b, i - 1, j);
      }
    }
  }

  /** The distance does not depend on the order of the arguments. */
  lemma DistanceSymmetric(s1: string, s2: string)
    ensures Distance(s1, s2) == Distance(s2, s1)
  {
    DistSymmetric(Lower(s1), Lower(s2), |s1|, |s2|);
  }

  lemma {:induction false} DistUpper(a: string, b: string, i: nat, j: nat)
    requires i <= |a| && j <= |b|
    ensures Dist(a, b, i, j) <= Max(i, j)
    decreases i + j
  {
    if i > 0 && j > 0 {
      DistUpper(a, b, i - 1, j - 1);
      if a[i - 1] != b[j - 1] {
        DistStep(a, b, i, j);
      }
    }
  }

  lemma {:induction false} DistLower(a: string, b: string, i: nat, j: nat)
    requires i <= |a| && j <= |b|
    ensures Dist(a, b, i, j) >= i - j
    decreases i + j
  {
    if i > 0 && j > 0 {
      DistLower(a, b, i - 1, j - 1);
      if a[i - 1] != b[j - 1] {
        DistLower(a, b, i, j - 1);
        DistLower(a, b, i - 1, j);
        DistStep(a, b, i, j);
      }
    }
  }

  lemma DistBounds(a: string, b: string, i: nat, j: nat)
    requires i <= |a| && j <= |b|
    ensures Dist(a, b, i, j) <= Max(i, j)
    ensures Dist(a, b, i, j) >= i - j && Dist(a, b, i, j) >= j - i
  {
    DistUpper(a, b, i, j);
    DistLower(a, b, i, j);
    DistLower(b, a, j, i);
    DistSymmetric(a, b, i, j);
  }

  /** The distance is at least the difference of the lengths and at most the
      longer length. */
  lemma DistanceBounds(s1: string, s2: string)
    ensures Distance(s1, s2) <= Max(|s1|, |s2|)
    ensures Distance(s1, s2) >= |s1| - |s2| && Distance(s1, s2) >= |s2| - |s1|
  {
    DistBounds(Lower(s1), Lower(s2), |s1|, |s2|);
  }

  lemma {:induction false} DistZero(a: string, b: string, i: nat, j: nat)
    requires i <= |a| && j <= |b|
    ensures Dist(a, b, i, j) == 0 <==> i == j && a[..i] == b[..j]
    decreases i + j
  {
    DistBounds(a, b, i, j);
    if i > 0 && j > 0 {
      DistZero(a, b, i - 1, j - 1);
      assert a[..i] == a[..i - 1] + [a[i - 1]];
      assert b[..j] == b[..j - 1] + [b[j - 1]];
      if a[..i] == b[..j] {
        assert a[i - 1] == a[..i][i - 1];
        assert a[..i - 1] == a[..i][..i - 1];
        assert b[..j - 1] == b[..j][..j - 1];
      }
    }
  }

  /** The distance is 0 exactly when the lower-cased strings are equal. */
  lemma DistanceZero(s1: string, s2: string)
    ensures Distance(s1, s2) == 0 <==> Lower(s1) == Lower(s2)
  {
    var a, b := Lower(s1), Lower(s2);
    DistZero(a, b, |s1|, |s2|);
    assert a[..|s1|] == a && b[..|s2|] == b;
  }

  /** `similarity(s1, s2)`: one minus the distance over the longer length, and
      1.0 when both strings are empty. */
  function Similarity(s1: string, s2: string): real {
    var longer := if |s1| < |s2| then s2 else s1;
    var shorter := if |s1| < |s2| then s1 else s2;
    if |longer| == 0 then 1.0
    else ((|longer| - Distance(longer, shorter)) as real) / (|longer| as real)
  }

  /** `(L - e) / L` for `0 <= e <= L` and `L > 0`. */
  lemma ShareOfLength(l: nat, e: nat)
    requires 0 < l && e <= l
    ensures 0.0 <= ((l - e) as real) / (l as real) <= 1.0
    ensures ((l - e) as real) / (l as real) == 1.0 <==> e == 0
  {
    var q := ((l - e) as real) / (l as real);
    assert q * (l as real) == (l - e) as real;
  }

  /** The score lies between 0 and 1 and is 1 exactly when the lower-cased
      strings are equal. */
  lemma SimilarityMeaning(s1: string, s2: string)
    ensures 0.0 <= Similarity(s1, s2) <= 1.0
    ensures Similarity(s1, s2) == 1.0 <==> Lower(s1) == Lower(s2)
  {
    var longer := if |s1| < |s2| then s2 else s1;
    var shorter := if |s1| < |s2| then s1 else s2;
    DistanceZero(longer, shorter);
    if |longer| > 0 {
      DistanceBounds(longer, shorter);
      ShareOfLength(|longer|, Distance(longer, shorter));
    }
    assert Lower(longer) == Lower(shorter) <==> Lower(s1) == Lower(s2);
  }

  /** The score does not depend on the order of the arguments. */
  lemma SimilaritySymmetric(s1: string, s2: string)
    ensures Similarity(s1, s2) == Similarity(s2, s1)
  {
    DistanceSymmetric(s1, s2);
  }

  /** The helper as the source runs it: the edit distance comes from the
      one-row computation. */
  method ComputeSimilarity(s1: string, s2: string) returns (r: real)
    ensures r == Similarity(s1, s2)
  {
    var longer, shorter := s1, s2;
    if |s1| < |s2| {
      longer, shorter := s2, s1;
    }
    if |longer| == 0 {
      return 1.0;
    }
    var d := EditDistance(longer, shorter);
    r := ((|longer| - d) as real) / (|longer| as real);
  }
}
