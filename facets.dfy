/** How much a user has listened to each genre, author and narrator: the
    `forEach` accumulations of the recommendation route
    (backend/routes/audiobooks.js, preference building) and of the statistics
    route (backend/routes/users.js, `genreStats`, `authorStats`,
    `narratorStats`), and the normalisation of the preferences. */
module Facets {
  import opened Records
  import opened Tally

  /** One (genre, progress) contribution per listen. */
  function GenrePairs(ls: seq<Listen>): (ps: seq<(string, real)>)
    ensures |ps| == |ls|
    ensures forall i :: 0 <= i < |ls| ==> ps[i] == (ls[i].book.genre, ls[i].progress as real)
  {
    seq(|ls|, i requires 0 <= i < |ls| => (ls[i].book.genre, ls[i].progress as real))
  }

  /** One (narrator, progress) contribution per listen. */
  function NarratorPairs(ls: seq<Listen>): (ps: seq<(string, real)>)
    ensures |ps| == |ls|
    ensures forall i :: 0 <= i < |ls| ==> ps[i] == (ls[i].book.narrator, ls[i].progress as real)
  {
    seq(|ls|, i requires 0 <= i < |ls| => (ls[i].book.narrator, ls[i].progress as real))
  }

  /** The full amount `x` for every listed author: fan-out, not split. */
  function Fan(authors: seq<string>, x: real): (ps: seq<(string, real)>)
    ensures |ps| == |authors|
    ensures forall i :: 0 <= i < |authors| ==> ps[i] == (authors[i], x)
  {
    seq(|authors|, i requires 0 <= i < |authors| => (authors[i], x))
  }

  /** The (author, progress) contributions of all listens, in listening order. */
  function AuthorPairs(ls: seq<Listen>): seq<(string, real)> {
    if ls == [] then []
    else
      var l := ls[|ls| - 1];
      AuthorPairs(ls[..|ls| - 1]) + Fan(l.book.authors, l.progress as real)
  }

  /** `listeningHistory.reduce((total, entry) => total + entry.progress, 0)`. */
  function TotalProgress(ls: seq<Listen>): nat {
    if ls == [] then 0 else TotalProgress(ls[..|ls| - 1]) + ls[|ls| - 1].progress
  }

  function GenreTally(ls: seq<Listen>): Tally {
    FromPairs(GenrePairs(ls))
  }

  function AuthorTally(ls: seq<Listen>): Tally {
    FromPairs(AuthorPairs(ls))
  }

  function NarratorTally(ls: seq<Listen>): Tally {
    FromPairs(NarratorPairs(ls))
  }

  /** Seconds spent on books of genre `g`. */
  function GenreTime(ls: seq<Listen>, g: string): real {
    if ls == [] then 0.0
    else GenreTime(ls[..|ls| - 1], g) + (if ls[|ls| - 1].book.genre == g then ls[|ls| - 1].progress as real else 0.0)
  }

  /** Seconds spent on books read by narrator `n`. */
  function NarratorTime(ls: seq<Listen>, n: string): real {
    if ls == [] then 0.0
    else NarratorTime(ls[..|ls| - 1], n) + (if ls[|ls| - 1].book.narrator == n then ls[|ls| - 1].progress as real else 0.0)
  }

  /** The amount `x` once for every listing of `a` in `authors`. */
  function Credit(authors: seq<string>, a: string, x: real): real {
    if authors == [] then 0.0
    else Credit(authors[..|authors| - 1], a, x) + (if authors[|authors| - 1] == a then x else 0.0)
  }

  /** Seconds credited to author `a`: each listen's full progress once per listing of `a`. */
  function AuthorTime(ls: seq<Listen>, a: string): real {
    if ls == [] then 0.0
    else
      var l := ls[|ls| - 1];
      AuthorTime(ls[..|ls| - 1], a) + Credit(l.book.authors, a, l.progress as real)
  }

  lemma {:induction false} SumForAppend(ps: seq<(string, real)>, qs: seq<(string, real)>, k: string)
    ensures SumFor(ps + qs, k) == SumFor(ps, k) + SumFor(qs, k)
  {
    if qs == [] {
      assert ps + qs == ps;
    } else {
      assert (ps + qs)[..|ps + qs| - 1] == ps + qs[..|qs| - 1];
      SumForAppend(ps, qs[..|qs| - 1], k);
    }
  }

  lemma {:induction false} SumAllAppend(ps: seq<(string, real)>, qs: seq<(string, real)>)
    ensures SumAll(ps + qs) == SumAll(ps) + SumAll(qs)
  {
    if qs == [] {
      assert ps + qs == ps;
    } else {
      assert (ps + qs)[..|ps + qs| - 1] == ps + qs[..|qs| - 1];
      SumAllAppend(ps, qs[..|qs| - 1]);
    }
  }

  lemma {:induction false} FanSumFor(authors: seq<string>, x: real, a: string)
    ensures SumFor(Fan(authors, x), a) == Credit(authors, a, x)
  {
    if authors != [] {
      var init := authors[..|authors| - 1];
      assert Fan(authors, x)[..|authors| - 1] == Fan(init, x);
      FanSumFor(init, x, a);
    }
  }

  lemma {:induction false} CreditOfNothing(authors: seq<string>)
    ensures forall a :: Credit(authors, a, 0.0) == 0.0
  {
    if authors != [] {
      CreditOfNothing(authors[..|authors| - 1]);
    }
  }

  /** Every genre key holds the seconds spent on that genre, and the genre
      values add up to the total listening time. */
  lemma {:induction false} GenreTallyMeaning(ls: seq<Listen>)
    ensures forall g :: Get(GenreTally(ls), g) == GenreTime(ls, g)
    ensures SumValues(GenreTally(ls)) == TotalProgress(ls) as real
  {
    FromPairsMeaning(GenrePairs(ls));
    FromPairsSum(GenrePairs(ls));
    GenrePairsSums(ls);
  }

  lemma {:induction false} GenrePairsSums(ls: seq<Listen>)
    ensures forall g :: SumFor(GenrePairs(ls), g) == GenreTime(ls, g)
    ensures SumAll(GenrePairs(ls)) == TotalProgress(ls) as real
  {
    if ls != [] {
      var init := ls[..|ls| - 1];
      GenrePairsSums(init);
      assert GenrePairs(ls)[..|ls| - 1] == GenrePairs(init);
    }
  }

  /** Every narrator key holds the seconds spent on that narrator's books, and
      the narrator values add up to the total listening time. */
  lemma {:induction false} NarratorTallyMeaning(ls: seq<Listen>)
    ensures forall n :: Get(NarratorTally(ls), n) == NarratorTime(ls, n)
    ensures SumValues(NarratorTally(ls)) == TotalProgress(ls) as real
  {
    FromPairsMeaning(NarratorPairs(ls));
    FromPairsSum(NarratorPairs(ls));
    NarratorPairsSums(ls);
  }

  lemma {:induction false} NarratorPairsSums(ls: seq<Listen>)
    ensures forall n :: SumFor(NarratorPairs(ls), n) == NarratorTime(ls, n)
    ensures SumAll(NarratorPairs(ls)) == TotalProgress(ls) as real
  {
    if ls != [] {
      var init := ls[..|ls| - 1];
      NarratorPairsSums(init);
      assert NarratorPairs(ls)[..|ls| - 1] == NarratorPairs(init);
    }
  }

  /** Fan-out: every author key holds each listen's full progress once per
      listing of that author, so a book with several authors credits each of
      them with all of its time. */
  lemma {:induction false} AuthorTallyMeaning(ls: seq<Listen>, a: string)
    ensures Get(AuthorTally(ls), a) == AuthorTime(ls, a)
  {
    FromPairsMeaning(AuthorPairs(ls));
    AuthorPairsSumFor(ls, a);
  }

  lemma {:induction false} AuthorPairsSumFor(ls: seq<Listen>, a: string)
    ensures SumFor(AuthorPairs(ls), a) == AuthorTime(ls, a)
  {
    if ls != [] {
      var init, l := ls[..|ls| - 1], ls[|ls| - 1];
      var fan := Fan(l.book.authors, l.progress as real);
      FanSumFor(l.book.authors, l.progress as real, a);
      AuthorPairsSumFor(init, a);
      SumForAppend(AuthorPairs(init), fan, a);
    }
  }

  /** The genre keys are exactly the genres of the listened books. */
  lemma GenreKeys(ls: seq<Listen>)
    ensures forall g :: g in GenreTally(ls).value <==> exists i :: 0 <= i < |ls| && ls[i].book.genre == g
  {
    FromPairsMeaning(GenrePairs(ls));
    var fs := Firsts(GenrePairs(ls));
    assert forall i :: 0 <= i < |ls| ==> fs[i] == ls[i].book.genre;
  }

  /** The narrator keys are exactly the narrators of the listened books. */
  lemma NarratorKeys(ls: seq<Listen>)
    ensures forall n :: n in NarratorTally(ls).value <==> exists i :: 0 <= i < |ls| && ls[i].book.narrator == n
  {
    FromPairsMeaning(NarratorPairs(ls));
    var fs := Firsts(NarratorPairs(ls));
    assert forall i :: 0 <= i < |ls| ==> fs[i] == ls[i].book.narrator;
  }

  /** The author keys are exactly the authors listed by the listened books. */
  lemma AuthorKeys(ls: seq<Listen>)
    ensures forall a :: a in AuthorTally(ls).value <==> exists i :: 0 <= i < |ls| && a in ls[i].book.authors
  {
    FromPairsMeaning(AuthorPairs(ls));
    AuthorNames(ls);
  }

  lemma {:induction false} AuthorNames(ls: seq<Listen>)
    ensures forall a :: a in Firsts(AuthorPairs(ls)) <==> exists i :: 0 <= i < |ls| && a in ls[i].book.authors
  {
    if ls != [] {
      var init, l := ls[..|ls| - 1], ls[|ls| - 1];
      var fan := Fan(l.book.authors, l.progress as real);
      AuthorNames(init);
      assert Firsts(AuthorPairs(ls)) == Firsts(AuthorPairs(init)) + Firsts(fan);
      assert Firsts(fan) == l.book.authors;
      assert forall i :: 0 <= i < |init| ==> init[i] == ls[i];
    }
  }

  /** Every tally built from progress values is non-negative. */
  lemma TalliesNonNegative(ls: seq<Listen>)
    ensures NonNegative(GenreTally(ls))
    ensures NonNegative(AuthorTally(ls))
    ensures NonNegative(NarratorTally(ls))
  {
    FromPairsNonNegative(GenrePairs(ls));
    FromPairsNonNegative(NarratorPairs(ls));
    AuthorPairsNonNegative(ls);
    FromPairsNonNegative(AuthorPairs(ls));
  }

  lemma {:induction false} AuthorPairsNonNegative(ls: seq<Listen>)
    ensures forall i :: 0 <= i < |AuthorPairs(ls)| ==> AuthorPairs(ls)[i].1 >= 0.0
  {
    if ls != [] {
      var l := ls[|ls| - 1];
      AuthorPairsNonNegative(ls[..|ls| - 1]);
      var ps: seq<(string, real)> := AuthorPairs(ls[..|ls| - 1]);
      var qs: seq<(string, real)> := Fan(l.book.authors, l.progress as real);
      var all: seq<(string, real)> := ps + qs;
      assert AuthorPairs(ls) == all;
      forall i | 0 <= i < |all| ensures all[i].1 >= 0.0 {
        if i >= |ps| {
          assert all[i] == qs[i - |ps|];
        }
      }
    }
  }

  /** An empty history has no genre, author or narrator keys. */
  lemma EmptyHistoryNoKeys(ls: seq<Listen>)
    requires ls == []
    ensures GenreTally(ls).keys == [] && AuthorTally(ls).keys == [] && NarratorTally(ls).keys == []
  {
  }

  /** One more listen: what each tally and the total become. */
  lemma PreferencesSnoc(ls: seq<Listen>, i: nat)
    requires i < |ls|
    ensures GenreTally(ls[..i + 1]) == Add(GenreTally(ls[..i]), ls[i].book.genre, ls[i].progress as real)
    ensures NarratorTally(ls[..i + 1]) == Add(NarratorTally(ls[..i]), ls[i].book.narrator, ls[i].progress as real)
    ensures AuthorPairs(ls[..i + 1]) == AuthorPairs(ls[..i]) + Fan(ls[i].book.authors, ls[i].progress as real)
    ensures TotalProgress(ls[..i + 1]) == TotalProgress(ls[..i]) + ls[i].progress
  {
    var l := ls[i];
    assert ls[..i + 1][..i] == ls[..i];
    assert GenrePairs(ls[..i + 1]) == GenrePairs(ls[..i]) + [(l.book.genre, l.progress as real)];
    assert NarratorPairs(ls[..i + 1]) == NarratorPairs(ls[..i]) + [(l.book.narrator, l.progress as real)];
    FromPairsSnoc(GenrePairs(ls[..i]), (l.book.genre, l.progress as real));
    FromPairsSnoc(NarratorPairs(ls[..i]), (l.book.narrator, l.progress as real));
  }

  /** The loop over the history that fills the three preference objects and
      the total listening time (the genre and author loop of the statistics
      route is the same loop without narrators). */
  method AccumulatePreferences(ls: seq<Listen>) returns (genre: Tally, author: Tally, narrator: Tally, total: nat)
    ensures genre == GenreTally(ls)
    ensures author == AuthorTally(ls)
    ensures narrator == NarratorTally(ls)
    ensures total == TotalProgress(ls)
  {
    genre, author, narrator, total := Empty(), Empty(), Empty(), 0;
    for i := 0 to |ls|
      invariant genre == GenreTally(ls[..i])
      invariant author == AuthorTally(ls[..i])
      invariant narrator == NarratorTally(ls[..i])
      invariant total == TotalProgress(ls[..i])
    {
      var l := ls[i];
      var time := l.progress;
      PreferencesSnoc(ls, i);
      total := total + time;
      genre := Add(genre, l.book.genre, time as real);
      author := CreditAuthors(author, AuthorPairs(ls[..i]), l.book.authors, time as real);
      narrator := Add(narrator, l.book.narrator, time as real);
    }
    assert ls[..|ls|] == ls;
  }

  lemma FanSnoc(ps: seq<(string, real)>, authors: seq<string>, j: nat, x: real)
    requires j < |authors|
    ensures ps + Fan(authors[..j + 1], x) == (ps + Fan(authors[..j], x)) + [(authors[j], x)]
  {
    assert Fan(authors[..j + 1], x) == Fan(authors[..j], x) + [(authors[j], x)];
  }

  /** `authors.forEach(author => { d[author] = (d[author] || 0) + x; })`. */
  method CreditAuthors(t: Tally, ghost ps: seq<(string, real)>, authors: seq<string>, x: real) returns (r: Tally)
    requires t == FromPairs(ps)
    ensures r == FromPairs(ps + Fan(authors, x))
  {
    r := t;
    assert ps + Fan(authors[..0], x) == ps;
    for j := 0 to |authors|
      invariant r == FromPairs(ps + Fan(authors[..j], x))
    {
      var a := authors[j];
      FanSnoc(ps, authors, j, x);
      FromPairsSnoc(ps + Fan(authors[..j], x), (a, x));
      r := Add(r, a, x);
    }
    assert authors[..|authors|] == authors;
  }

  /** The normalisation loop: every value divided, in place, by the total. */
  method Normalise(t: Tally, total: real) returns (r: Tally)
    requires Valid(t) && total > 0.0
    ensures r == Scaled(t, total)
  {
    r := t;
    for i := 0 to |t.keys|
      invariant r.keys == t.keys
      invariant forall k :: k in r.value <==> k in t.value
      invariant forall k :: k in r.value ==>
        r.value[k] == if k in t.keys[..i] then t.value[k] / total else t.value[k]
    {
      var k := t.keys[i];
      assert k !in t.keys[..i] by {
        forall j | 0 <= j < i ensures t.keys[j] != k { assert t.keys[j] != t.keys[i]; }
      }
      assert t.keys[..i + 1] == t.keys[..i] + [k];
      r := r.(value := r.value[k := r.value[k] / total]);
    }
    assert t.keys[..|t.keys|] == t.keys;
    assert r.value == Scaled(t, total).value;
  }

  /** With some listening time, the normalised genre weights and the
      normalised narrator weights each add up to 1, and every weight lies in
      [0, 1] for genres and narrators. */
  lemma NormalisedWeightsSumToOne(ls: seq<Listen>)
    requires TotalProgress(ls) > 0
    ensures SumValues(Scaled(GenreTally(ls), TotalProgress(ls) as real)) == 1.0
    ensures SumValues(Scaled(NarratorTally(ls), TotalProgress(ls) as real)) == 1.0
  {
    GenreTallyMeaning(ls);
    NarratorTallyMeaning(ls);
    ScaledSumsToOne(GenreTally(ls), TotalProgress(ls) as real);
    ScaledSumsToOne(NarratorTally(ls), TotalProgress(ls) as real);
  }

  /** Without any listening time, no genre, author or narrator has any. */
  lemma {:induction false} TimesVanish(ls: seq<Listen>)
    requires forall i :: 0 <= i < |ls| ==> ls[i].progress == 0
    ensures forall g :: GenreTime(ls, g) == 0.0 && AuthorTime(ls, g) == 0.0 && NarratorTime(ls, g) == 0.0
  {
    if ls != [] {
      TimesVanish(ls[..|ls| - 1]);
      CreditOfNothing(ls[|ls| - 1].book.authors);
    }
  }

  /** A listening time of 0 with a non-empty history means every progress is 0. */
  lemma {:induction false} ZeroTotal(ls: seq<Listen>)
    ensures TotalProgress(ls) == 0 <==> forall i :: 0 <= i < |ls| ==> ls[i].progress == 0
  {
    if ls != [] {
      ZeroTotal(ls[..|ls| - 1]);
    }
  }
}
