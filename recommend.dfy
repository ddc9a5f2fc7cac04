/** GET /recommendations (backend/routes/audiobooks.js): the listening-time
    preferences of the user, normalised; the top genres, authors and
    narrators; the catalogue books that match one of them, scored and ranked;
    and the books of users with overlapping taste. */
module Recommend {
  import opened Wrappers
  import opened Records
  import opened Sorting
  import opened Tally
  import opened Facets
  import opened Milestones
  import opened Query

  /** The three preference objects, normalised. */
  datatype Preferences = Preferences(genre: Tally, author: Tally, narrator: Tally)

  /** `topGenres`, `topAuthors`, `topNarrators`. */
  datatype Tops = Tops(genres: seq<string>, authors: seq<string>, narrators: seq<string>)

  /** The JSON body of a successful answer. */
  datatype Recommendations = Recommendations(personalized: seq<Book>, collaborative: seq<Book>)

  /** The preferences after `d[k] /= totalListeningTime`.  Without listens
      there is no key to divide.  With listens but no listening time every
      division is 0 / 0, which is NaN in the source; the tallies are kept at 0
      here, and the two places where NaN weights make a difference (sorting
      them, and sorting the scores built from them) are handled by
      `TopsOf` and `Rank`, which the NaN comparisons leave in their order. */
  function PreferencesOf(ls: seq<Listen>): (w: Preferences)
    ensures Valid(w.genre) && Valid(w.author) && Valid(w.narrator)
  {
    var total := TotalProgress(ls);
    if total > 0 then
      Preferences(Scaled(GenreTally(ls), total as real), Scaled(AuthorTally(ls), total as real),
                  Scaled(NarratorTally(ls), total as real))
    else Preferences(GenreTally(ls), AuthorTally(ls), NarratorTally(ls))
  }

  /** The top three genres, five authors and three narrators by weight. */
  function TopsOf(w: Preferences): Tops
    requires Valid(w.genre) && Valid(w.author) && Valid(w.narrator)
  {
    Tops(TopKeys(w.genre, 3), TopKeys(w.author, 5), TopKeys(w.narrator, 3))
  }

  /** The ids of books, as `books.map(book => book._id)`. */
  function Ids(bs: seq<Book>): (r: seq<BookId>)
    ensures |r| == |bs| && forall i :: 0 <= i < |bs| ==> r[i] == bs[i].id
  {
    seq(|bs|, i requires 0 <= i < |bs| => bs[i].id)
  }

  /** The `$or` of the query: the genre is a top genre, one of the authors
      (an array field) is a top author, or the narrator is a top narrator. */
  predicate MatchesTops(b: Book, tops: Tops) {
    || b.genre in tops.genres
    || (exists a :: a in b.authors && a in tops.authors)
    || b.narrator in tops.narrators
  }

  predicate IsCandidate(b: Book, tops: Tops, completed: seq<BookId>) {
    MatchesTops(b, tops) && b.id !in completed
  }

  /** `Audiobook.find({ $or: ..., _id: { $nin: completed } }).limit(50)`. */
  function Candidates(catalog: seq<Book>, tops: Tops, completed: seq<BookId>): seq<Book> {
    Limit(Filter(catalog, b => IsCandidate(b, tops, completed)), 50)
  }

  /** The weight of every listed author that is a top author, once per listing. */
  function AuthorScore(authors: seq<string>, w: Tally, topAuthors: seq<string>): real {
    if authors == [] then 0.0
    else
      var a := authors[|authors| - 1];
      AuthorScore(authors[..|authors| - 1], w, topAuthors) + (if a in topAuthors then Get(w, a) else 0.0)
  }

  /** The milestone boost: half a point for a book that would add a new genre
      when the next milestone is a genre milestone, or a new author when it is
      an author milestone. */
  function ExplorationBonus(b: Book, w: Preferences, next: Option<Milestone>): real {
    match next
    case None => 0.0
    case Some(m) =>
      if m.name == FiveGenres || m.name == "10 Different Genres Explored" then
        if b.genre !in w.genre.keys then 0.5 else 0.0
      else if m.name == TenAuthors || m.name == "20 Different Authors Explored" then
        if exists a :: a in b.authors && a !in w.author.keys then 0.5 else 0.0
      else 0.0
  }

  /** The score of a candidate: three times its genre's weight when that is a
      top genre, the weight of each listed top author, twice its narrator's
      weight when that is a top narrator, and the milestone boost. */
  function Score(b: Book, w: Preferences, tops: Tops, next: Option<Milestone>): real {
    (if b.genre in tops.genres then Get(w.genre, b.genre) * 3.0 else 0.0)
    + AuthorScore(b.authors, w.author, tops.authors)
    + (if b.narrator in tops.narrators then Get(w.narrator, b.narrator) * 2.0 else 0.0)
    + ExplorationBonus(b, w, next)
  }

  /** `recommendations.map(book => ({ book, score }))`. */
  function Scored(cands: seq<Book>, w: Preferences, tops: Tops, next: Option<Milestone>): (r: seq<(Book, real)>)
    ensures |r| == |cands| && forall i :: 0 <= i < |cands| ==> r[i] == (cands[i], Score(cands[i], w, tops, next))
  {
    seq(|cands|, i requires 0 <= i < |cands| => (cands[i], Score(cands[i], w, tops, next)))
  }

  function ScoreKey(p: (Book, real)): real {
    p.1
  }

  function BooksOf(ps: seq<(Book, real)>): (r: seq<Book>)
    ensures |r| == |ps| && forall i :: 0 <= i < |ps| ==> r[i] == ps[i].0
  {
    seq(|ps|, i requires 0 <= i < |ps| => ps[i].0)
  }

  /** Sort by score, descending, and keep ten books.  When the scores are NaN
      (`undetermined`) every comparison answers NaN, which the sort reads as
      "equal": the candidates stay in store order. */
  function Rank(scored: seq<(Book, real)>, undetermined: bool): seq<Book> {
    var order := if undetermined then scored else Sort(scored, ScoreKey);
    BooksOf(Limit(order, 10))
  }

  /** `user.milestones.find(m => !m.achieved)`. */
  function NextMilestone(ms: seq<Milestone>): Option<Milestone> {
    match FirstUnachieved(ms)
    case None => None
    case Some(i) => Some(ms[i])
  }

  /** The `$or` of the similar-user query: a shared favourite or a shared
      completed book (`$in` on an array field matches any element). */
  predicate SharesTaste(u: Profile, favorites: seq<BookId>, completed: seq<BookId>) {
    || (exists x :: x in u.favorites && x in favorites)
    || (exists x :: x in u.completed && x in completed)
  }

  predicate IsPeer(u: Profile, me: UserId, favorites: seq<BookId>, completed: seq<BookId>) {
    u.id != me && SharesTaste(u, favorites, completed)
  }

  /** `User.find({ _id: { $ne: me }, $or: [...] }).limit(10)`. */
  function Peers(users: seq<Profile>, me: UserId, favorites: seq<BookId>, completed: seq<BookId>): seq<Profile> {
    Limit(Filter(users, u => IsPeer(u, me, favorites, completed)), 10)
  }

  /** `similarUsers.flatMap(u => [...u.favoriteAudiobooks, ...u.completedBooks])`. */
  function PeerBooks(peers: seq<Profile>): (r: seq<BookId>)
    ensures forall x :: x in r <==> exists i :: 0 <= i < |peers| && (x in peers[i].favorites || x in peers[i].completed)
  {
    if peers == [] then []
    else
      var init := peers[..|peers| - 1];
      assert forall i :: 0 <= i < |init| ==> init[i] == peers[i];
      PeerBooks(init) + peers[|peers| - 1].favorites + peers[|peers| - 1].completed
  }

  predicate IsCollaborative(b: Book, peerBooks: seq<BookId>, mine: seq<BookId>) {
    b.id in peerBooks && b.id !in mine
  }

  /** `Audiobook.find({ _id: { $in: peer books, $nin: my books } }).limit(5)`. */
  function Collaborative(catalog: seq<Book>, peerBooks: seq<BookId>, mine: seq<BookId>): seq<Book> {
    Limit(Filter(catalog, b => IsCollaborative(b, peerBooks, mine)), 5)
  }

  /** The answer of GET /recommendations when the next milestone is taken
      from `milestones`, the list the statistics route computes. */
  function RecommendOf(user: Profile, catalog: seq<Book>, users: seq<Profile>, milestones: seq<Milestone>): Result<Recommendations, Error> {
    var ls :- Populate(user.history, catalog);
    var w := PreferencesOf(ls);
    var tops := TopsOf(w);
    var completed := Ids(PopulateIds(user.completed, catalog));
    var favorites := Ids(PopulateIds(user.favorites, catalog));
    var cands := Candidates(catalog, tops, completed);
    var personal := Rank(Scored(cands, w, tops, NextMilestone(milestones)), ls != [] && TotalProgress(ls) == 0);
    var peers := Peers(users, user.id, favorites, completed);
    Success(Recommendations(personal, Collaborative(catalog, PeerBooks(peers), favorites + completed)))
  }

  /** The route as written: the scoring callback reads `user.milestones`,
      which the user schema does not define, so the first candidate it scores
      throws; only a user with no candidate at all gets an answer. */
  function RecommendAsWritten(user: Profile, catalog: seq<Book>, users: seq<Profile>): Result<Recommendations, Error> {
    var ls :- Populate(user.history, catalog);
    var w := PreferencesOf(ls);
    var tops := TopsOf(w);
    var completed := Ids(PopulateIds(user.completed, catalog));
    var favorites := Ids(PopulateIds(user.favorites, catalog));
    var cands := Candidates(catalog, tops, completed);
    if cands != [] then Failure(MissingMilestones)
    else
      var peers := Peers(users, user.id, favorites, completed);
      Success(Recommendations([], Collaborative(catalog, PeerBooks(peers), favorites + completed)))
  }

  /** The ranking step on an array, as the source sorts `scoredRecommendations` in place. */
  method RankTop(scored: seq<(Book, real)>, undetermined: bool) returns (top: seq<Book>)
    ensures top == Rank(scored, undetermined)
  {
    var a := new (Book, real)[|scored|](i requires 0 <= i < |scored| => scored[i]);
    assert a[..] == scored;
    if !undetermined {
      SortInPlace(a, ScoreKey);
    }
    assert a[..] == if undetermined then scored else Sort(scored, ScoreKey);
    top := FirstBooks(a, 10);
  }

  /** `.slice(0, n).map(item => item.book)` on an array. */
  method FirstBooks(a: array<(Book, real)>, n: nat) returns (top: seq<Book>)
    ensures top == BooksOf(Limit(a[..], n))
  {
    var m := if a.Length < n then a.Length else n;
    top := [];
    for i := 0 to m
      invariant |top| == i
      invariant forall k :: 0 <= k < i ==> top[k] == a[k].0
    {
      top := top + [a[i].0];
    }
    assert a[..m] == Limit(a[..], n);
  }

  /** The handler, with the next milestone taken from `milestones`. */
  method Recommend(user: Profile, catalog: seq<Book>, users: seq<Profile>, milestones: seq<Milestone>)
    returns (r: Result<Recommendations, Error>)
    ensures r == RecommendOf(user, catalog, users, milestones)
  {
    var ls :- Populate(user.history, catalog);
    var genre, author, narrator, total := AccumulatePreferences(ls);
    if total > 0 {
      genre := Normalise(genre, total as real);
      author := Normalise(author, total as real);
      narrator := Normalise(narrator, total as real);
    }
    var w := Preferences(genre, author, narrator);
    var topGenres := TopOf(genre, 3);
    var topAuthors := TopOf(author, 5);
    var topNarrators := TopOf(narrator, 3);
    var tops := Tops(Firsts(topGenres), Firsts(topAuthors), Firsts(topNarrators));
    var completed := Ids(PopulateIds(user.completed, catalog));
    var favorites := Ids(PopulateIds(user.favorites, catalog));
    var cands := Candidates(catalog, tops, completed);
    var scored := Scored(cands, w, tops, NextMilestone(milestones));
    var personal := RankTop(scored, ls != [] && total == 0);
    var peers := Peers(users, user.id, favorites, completed);
    r := Success(Recommendations(personal, Collaborative(catalog, PeerBooks(peers), favorites + completed)));
  }

  /** Every candidate is a catalogue book that matches a top list and is not
      excluded; there are at most 50; and when there are fewer than 50, every
      such catalogue book is one. */
  lemma CandidatesMeaning(catalog: seq<Book>, tops: Tops, completed: seq<BookId>)
    ensures var c := Candidates(catalog, tops, completed);
      && |c| <= 50
      && (forall b :: b in c ==> b in catalog && MatchesTops(b, tops) && b.id !in completed)
      && (|c| < 50 ==> forall b :: b in catalog && MatchesTops(b, tops) && b.id !in completed ==> b in c)
  {
    var p := b => IsCandidate(b, tops, completed);
    var f := Filter(catalog, p);
    forall b | b in Limit(f, 50)
      ensures b in f
    {
      var i :| 0 <= i < |Limit(f, 50)| && Limit(f, 50)[i] == b;
      assert f[i] == b;
    }
    forall b | b in catalog && MatchesTops(b, tops) && b.id !in completed
      ensures b in f
    {
      var i :| 0 <= i < |catalog| && catalog[i] == b;
      assert p(catalog[i]);
    }
  }

  /** The number of catalogue books before index `i` that the candidate
      query matches. */
  function MatchesBefore(catalog: seq<Book>, tops: Tops, completed: seq<BookId>, i: nat): nat
    requires i <= |catalog|
  {
    |Filter(catalog[..i], b => IsCandidate(b, tops, completed))|
  }

  /** The candidates are the first 50 matching books in store order: a
      matching book with fewer than 50 matches before it is the candidate at
      that index. */
  lemma {:induction false} CandidateAt(catalog: seq<Book>, tops: Tops, completed: seq<BookId>, i: nat)
    requires i < |catalog| && IsCandidate(catalog[i], tops, completed)
    requires MatchesBefore(catalog, tops, completed, i) < 50
    ensures var c := Candidates(catalog, tops, completed);
      MatchesBefore(catalog, tops, completed, i) < |c| && c[MatchesBefore(catalog, tops, completed, i)] == catalog[i]
  {
    LimitFilterAt(catalog, b => IsCandidate(b, tops, completed), 50, i);
  }

  /** The candidate at index `k` is the matching book with exactly `k`
      matches before it, so the candidates keep store order. */
  lemma {:induction false} CandidateOrigin(catalog: seq<Book>, tops: Tops, completed: seq<BookId>, k: nat)
    requires k < |Candidates(catalog, tops, completed)|
    ensures exists i ::
              && 0 <= i < |catalog| && IsCandidate(catalog[i], tops, completed)
              && MatchesBefore(catalog, tops, completed, i) == k
              && Candidates(catalog, tops, completed)[k] == catalog[i]
  {
    var p := b => IsCandidate(b, tops, completed);
    LimitFilterOrigin(catalog, p, 50, k);
    var i :| 0 <= i < |catalog| && p(catalog[i]) && |Filter(catalog[..i], p)| == k
      && Limit(Filter(catalog, p), 50)[k] == catalog[i];
    assert MatchesBefore(catalog, tops, completed, i) == k;
  }

  /** A catalogue book whose id is listed is excluded by the id list the
      route builds from the populated books. */
  lemma ListedIdsCover(ids: seq<BookId>, catalog: seq<Book>, b: Book)
    requires b in catalog && b.id in ids
    ensures b.id in Ids(PopulateIds(ids, catalog))
  {
    var i :| 0 <= i < |ids| && ids[i] == b.id;
    var j :| 0 <= j < |catalog| && catalog[j] == b;
    var found := Lookup(catalog, b.id).value;
    var bs := PopulateIds(ids, catalog);
    var k :| 0 <= k < |bs| && bs[k] == found;
    assert Ids(bs)[k] == b.id;
  }

  /** The ranking only drops and reorders candidates. */
  lemma RankedAreCandidates(cands: seq<Book>, w: Preferences, tops: Tops, next: Option<Milestone>, undetermined: bool)
    ensures forall b :: b in Rank(Scored(cands, w, tops, next), undetermined) ==> b in cands
  {
    var scored := Scored(cands, w, tops, next);
    var order := if undetermined then scored else Sort(scored, ScoreKey);
    var top := Limit(order, 10);
    forall b | b in Rank(scored, undetermined)
      ensures b in cands
    {
      var i :| 0 <= i < |BooksOf(top)| && BooksOf(top)[i] == b;
      assert top[i] == order[i];
      assert order[i] in multiset(scored);
      var j :| 0 <= j < |scored| && scored[j] == order[i];
    }
  }

  /** The personalised list of the route, for a history that populates. */
  lemma PersonalizedIs(user: Profile, catalog: seq<Book>, users: seq<Profile>, milestones: seq<Milestone>)
    requires Populate(user.history, catalog).Success?
    ensures var ls := Populate(user.history, catalog).value;
      var w := PreferencesOf(ls);
      var tops := TopsOf(w);
      var cands := Candidates(catalog, tops, Ids(PopulateIds(user.completed, catalog)));
      && RecommendOf(user, catalog, users, milestones).Success?
      && RecommendOf(user, catalog, users, milestones).value.personalized
         == Rank(Scored(cands, w, tops, NextMilestone(milestones)), ls != [] && TotalProgress(ls) == 0)
  {
  }

  /** No personalised recommendation is a book the user has completed, and
      each one is a catalogue book that matches a top genre, author or
      narrator. */
  lemma PersonalizedAreNew(user: Profile, catalog: seq<Book>, users: seq<Profile>, milestones: seq<Milestone>)
    requires RecommendOf(user, catalog, users, milestones).Success?
    ensures var ls := Populate(user.history, catalog).value;
      forall b :: b in RecommendOf(user, catalog, users, milestones).value.personalized ==>
        b in catalog && b.id !in user.completed && MatchesTops(b, TopsOf(PreferencesOf(ls)))
  {
    var ls := Populate(user.history, catalog).value;
    var w := PreferencesOf(ls);
    var tops := TopsOf(w);
    var completed := Ids(PopulateIds(user.completed, catalog));
    var cands := Candidates(catalog, tops, completed);
    PersonalizedIs(user, catalog, users, milestones);
    RankedAreCandidates(cands, w, tops, NextMilestone(milestones), ls != [] && TotalProgress(ls) == 0);
    CandidatesMeaning(catalog, tops, completed);
    forall b | b in cands
      ensures b.id !in user.completed
    {
      if b.id in user.completed {
        ListedIdsCover(user.completed, catalog, b);
      }
    }
  }

  /** A user without listening history gets no personalised recommendation:
      every top list is empty, so nothing matches. */
  lemma NoHistoryNoPersonalized(user: Profile, catalog: seq<Book>, users: seq<Profile>, milestones: seq<Milestone>)
    requires user.history == []
    ensures RecommendOf(user, catalog, users, milestones).Success?
    ensures RecommendOf(user, catalog, users, milestones).value.personalized == []
  {
    var ls := Populate(user.history, catalog).value;
    assert ls == [];
    EmptyHistoryNoKeys(ls);
    var w := PreferencesOf(ls);
    var tops := TopsOf(w);
    assert tops.genres == [] && tops.authors == [] && tops.narrators == [];
    var completed := Ids(PopulateIds(user.completed, catalog));
    FilterNone(catalog, b => IsCandidate(b, tops, completed));
    PersonalizedIs(user, catalog, users, milestones);
    assert Scored([], w, tops, NextMilestone(milestones)) == [];
  }

  lemma GenreTops(ls: seq<Listen>)
    requires TotalProgress(ls) > 0
    ensures var top := TopKeys(Scaled(GenreTally(ls), TotalProgress(ls) as real), 3);
      && |top| == Min(3, |GenreTally(ls).keys|)
      && (forall g :: g in top ==> exists i :: 0 <= i < |ls| && ls[i].book.genre == g)
      && forall g, t :: g in GenreTally(ls).value && g !in top && t in top ==> GenreTime(ls, g) <= GenreTime(ls, t)
  {
    ScaledTopKeys(GenreTally(ls), TotalProgress(ls) as real, 3);
    GenreTallyMeaning(ls);
    GenreKeys(ls);
  }

  lemma AuthorTops(ls: seq<Listen>)
    requires TotalProgress(ls) > 0
    ensures var top := TopKeys(Scaled(AuthorTally(ls), TotalProgress(ls) as real), 5);
      && |top| == Min(5, |AuthorTally(ls).keys|)
      && (forall a :: a in top ==> exists i :: 0 <= i < |ls| && a in ls[i].book.authors)
      && forall a, t :: a in AuthorTally(ls).value && a !in top && t in top ==> AuthorTime(ls, a) <= AuthorTime(ls, t)
  {
    ScaledTopKeys(AuthorTally(ls), TotalProgress(ls) as real, 5);
    AuthorKeys(ls);
    forall a | true
      ensures Get(AuthorTally(ls), a) == AuthorTime(ls, a)
    {
      AuthorTallyMeaning(ls, a);
    }
  }

  lemma NarratorTops(ls: seq<Listen>)
    requires TotalProgress(ls) > 0
    ensures var top := TopKeys(Scaled(NarratorTally(ls), TotalProgress(ls) as real), 3);
      && |top| == Min(3, |NarratorTally(ls).keys|)
      && (forall n :: n in top ==> exists i :: 0 <= i < |ls| && ls[i].book.narrator == n)
      && forall n, t :: n in NarratorTally(ls).value && n !in top && t in top ==> NarratorTime(ls, n) <= NarratorTime(ls, t)
  {
    ScaledTopKeys(NarratorTally(ls), TotalProgress(ls) as real, 3);
    NarratorTallyMeaning(ls);
    NarratorKeys(ls);
  }

  /** With listening time, the top lists are the heaviest facets: each is a
      genre, author or narrator listened to; no facet left out has more
      listening time than one taken; and there are three genres, five authors
      and three narrators, or all of them when fewer were heard. */
  lemma TopsMeaning(ls: seq<Listen>)
    requires TotalProgress(ls) > 0
    ensures |TopsOf(PreferencesOf(ls)).genres| == Min(3, |GenreTally(ls).keys|)
    ensures |TopsOf(PreferencesOf(ls)).authors| == Min(5, |AuthorTally(ls).keys|)
    ensures |TopsOf(PreferencesOf(ls)).narrators| == Min(3, |NarratorTally(ls).keys|)
    ensures forall g :: g in TopsOf(PreferencesOf(ls)).genres ==> exists i :: 0 <= i < |ls| && ls[i].book.genre == g
    ensures forall a :: a in TopsOf(PreferencesOf(ls)).authors ==> exists i :: 0 <= i < |ls| && a in ls[i].book.authors
    ensures forall n :: n in TopsOf(PreferencesOf(ls)).narrators ==> exists i :: 0 <= i < |ls| && ls[i].book.narrator == n
    ensures forall g, t :: g in GenreTally(ls).value && g !in TopsOf(PreferencesOf(ls)).genres && t in TopsOf(PreferencesOf(ls)).genres ==>
      GenreTime(ls, g) <= GenreTime(ls, t)
    ensures forall a, t :: a in AuthorTally(ls).value && a !in TopsOf(PreferencesOf(ls)).authors && t in TopsOf(PreferencesOf(ls)).authors ==>
      AuthorTime(ls, a) <= AuthorTime(ls, t)
    ensures forall n, t :: n in NarratorTally(ls).value && n !in TopsOf(PreferencesOf(ls)).narrators && t in TopsOf(PreferencesOf(ls)).narrators ==>
      NarratorTime(ls, n) <= NarratorTime(ls, t)
  {
    var d := TotalProgress(ls) as real;
    assert TopsOf(PreferencesOf(ls)) == Tops(TopKeys(Scaled(GenreTally(ls), d), 3), TopKeys(Scaled(AuthorTally(ls), d), 5),
                                             TopKeys(Scaled(NarratorTally(ls), d), 3));
    GenreTops(ls);
    AuthorTops(ls);
    NarratorTops(ls);
  }

  /** With listens but no listening time every tally holds zeros. */
  lemma ZeroTallies(ls: seq<Listen>)
    requires TotalProgress(ls) == 0
    ensures forall g :: g in GenreTally(ls).value ==> GenreTally(ls).value[g] == 0.0
    ensures forall a :: a in AuthorTally(ls).value ==> AuthorTally(ls).value[a] == 0.0
    ensures forall n :: n in NarratorTally(ls).value ==> NarratorTally(ls).value[n] == 0.0
  {
    ZeroTotal(ls);
    TimesVanish(ls);
    GenreTallyMeaning(ls);
    NarratorTallyMeaning(ls);
    forall a | a in AuthorTally(ls).value
      ensures AuthorTally(ls).value[a] == 0.0
    {
      AuthorTallyMeaning(ls, a);
      assert Get(AuthorTally(ls), a) == AuthorTally(ls).value[a];
    }
    forall g | g in GenreTally(ls).value
      ensures GenreTally(ls).value[g] == 0.0
    {
      assert Get(GenreTally(ls), g) == GenreTally(ls).value[g];
    }
    forall n | n in NarratorTally(ls).value
      ensures NarratorTally(ls).value[n] == 0.0
    {
      assert Get(NarratorTally(ls), n) == NarratorTally(ls).value[n];
    }
  }

  /** With no listening time every weight is NaN in the source and every
      comparison of weights is "equal": the top lists are the first genres,
      authors and narrators in order of first listen. */
  lemma ZeroTimeTops(ls: seq<Listen>)
    requires TotalProgress(ls) == 0
    ensures TopsOf(PreferencesOf(ls)).genres == GenreTally(ls).keys[..Min(3, |GenreTally(ls).keys|)]
    ensures TopsOf(PreferencesOf(ls)).authors == AuthorTally(ls).keys[..Min(5, |AuthorTally(ls).keys|)]
    ensures TopsOf(PreferencesOf(ls)).narrators == NarratorTally(ls).keys[..Min(3, |NarratorTally(ls).keys|)]
  {
    ZeroTallies(ls);
    TopKeysOfEqualValues(GenreTally(ls), 3, 0.0);
    TopKeysOfEqualValues(AuthorTally(ls), 5, 0.0);
    TopKeysOfEqualValues(NarratorTally(ls), 3, 0.0);
  }

  /** Ranking with undetermined scores keeps the first ten candidates in store order. */
  lemma RankUndetermined(cands: seq<Book>, w: Preferences, tops: Tops, next: Option<Milestone>)
    ensures Rank(Scored(cands, w, tops, next), true) == Limit(cands, 10)
  {
    var scored := Scored(cands, w, tops, next);
    assert BooksOf(Limit(scored, 10)) == Limit(cands, 10);
  }

  /** With listens but no listening time, the personalised list is the first
      ten candidates in store order. */
  lemma ZeroTimeKeepsOrder(user: Profile, catalog: seq<Book>, users: seq<Profile>, milestones: seq<Milestone>)
    requires Populate(user.history, catalog).Success?
    requires var ls := Populate(user.history, catalog).value; ls != [] && TotalProgress(ls) == 0
    ensures var ls := Populate(user.history, catalog).value;
      && RecommendOf(user, catalog, users, milestones).Success?
      && RecommendOf(user, catalog, users, milestones).value.personalized
         == Limit(Candidates(catalog, TopsOf(PreferencesOf(ls)), Ids(PopulateIds(user.completed, catalog))), 10)
  {
    var ls := Populate(user.history, catalog).value;
    var w := PreferencesOf(ls);
    var tops := TopsOf(w);
    var cands := Candidates(catalog, tops, Ids(PopulateIds(user.completed, catalog)));
    PersonalizedIs(user, catalog, users, milestones);
    RankUndetermined(cands, w, tops, NextMilestone(milestones));
  }

  /** The personalised ranking (with determined scores): the ten best-scored
      candidates, in non-increasing order of score; no candidate left out
      scores more than one taken; and candidates with equal scores keep their
      store order. */
  lemma RankMeaning(scored: seq<(Book, real)>)
    ensures var top := Limit(Sort(scored, ScoreKey), 10);
      && Rank(scored, false) == BooksOf(top)
      && |top| == Min(10, |scored|)
      && SortedDesc(top, ScoreKey)
      && multiset(top) <= multiset(scored)
      && (forall j, i :: 0 <= j < |scored| && scored[j] !in top && 0 <= i < |top| ==> scored[j].1 <= top[i].1)
      && (forall v :: Ties(top, ScoreKey, v) <= Ties(scored, ScoreKey, v))
  {
    var r := Sort(scored, ScoreKey);
    var m := Min(10, |scored|);
    assert Limit(r, 10) == r[..m];
    assert r == r[..m] + r[m..];
    assert multiset(r) == multiset(r[..m]) + multiset(r[m..]);
    SortTopDominates(scored, ScoreKey, m);
    forall v | true
      ensures Ties(r[..m], ScoreKey, v) <= Ties(scored, ScoreKey, v)
    {
      SortTopTies(scored, ScoreKey, m, v);
    }
  }

  lemma {:induction false} AuthorScoreNonNegative(authors: seq<string>, w: Tally, topAuthors: seq<string>)
    requires NonNegative(w)
    ensures AuthorScore(authors, w, topAuthors) >= 0.0
  {
    if authors != [] {
      AuthorScoreNonNegative(authors[..|authors| - 1], w, topAuthors);
    }
  }

  /** The weights are shares of non-negative listening times. */
  lemma PreferencesNonNegative(ls: seq<Listen>)
    ensures var w := PreferencesOf(ls); NonNegative(w.genre) && NonNegative(w.author) && NonNegative(w.narrator)
  {
    TalliesNonNegative(ls);
    if TotalProgress(ls) > 0 {
      var d := TotalProgress(ls) as real;
      ScaledNonNegative(GenreTally(ls), d);
      ScaledNonNegative(AuthorTally(ls), d);
      ScaledNonNegative(NarratorTally(ls), d);
    }
  }

  /** Every score is non-negative. */
  lemma ScoreNonNegative(ls: seq<Listen>, b: Book, tops: Tops, next: Option<Milestone>)
    ensures Score(b, PreferencesOf(ls), tops, next) >= 0.0
  {
    PreferencesNonNegative(ls);
    ScoreOfNonNegative(b, PreferencesOf(ls), tops, next);
  }

  lemma ScoreOfNonNegative(b: Book, w: Preferences, tops: Tops, next: Option<Milestone>)
    requires NonNegative(w.genre) && NonNegative(w.author) && NonNegative(w.narrator)
    ensures Score(b, w, tops, next) >= 0.0
  {
    AuthorScoreNonNegative(b.authors, w.author, tops.authors);
  }

  /** A genre is missing from the genre weights exactly when no listened book has it. */
  lemma NewGenre(ls: seq<Listen>, g: string)
    ensures g !in PreferencesOf(ls).genre.keys <==> forall i :: 0 <= i < |ls| ==> ls[i].book.genre != g
  {
    GenreKeys(ls);
    var t := GenreTally(ls);
    assert g in PreferencesOf(ls).genre.keys <==> g in t.value;
  }

  /** Some author of `b` is missing from the author weights exactly when some
      author of `b` wrote no listened book. */
  lemma NewAuthor(ls: seq<Listen>, b: Book)
    ensures (exists a :: a in b.authors && a !in PreferencesOf(ls).author.keys)
        <==> exists a :: a in b.authors && forall i :: 0 <= i < |ls| ==> a !in ls[i].book.authors
  {
    AuthorKeys(ls);
    var t := AuthorTally(ls);
    assert forall a :: a in PreferencesOf(ls).author.keys <==> a in t.value;
  }

  /** The milestone boost, in terms of the history: half a point exactly when
      the next milestone is a genre milestone and no listened book has the
      candidate's genre, or an author milestone and one of the candidate's
      authors wrote no listened book. */
  lemma ExplorationBonusMeaning(ls: seq<Listen>, b: Book, m: Milestone)
    ensures var bonus := ExplorationBonus(b, PreferencesOf(ls), Some(m));
      var genreGoal := m.name == FiveGenres || m.name == "10 Different Genres Explored";
      var authorGoal := m.name == TenAuthors || m.name == "20 Different Authors Explored";
      && (bonus == 0.5 || bonus == 0.0)
      && (bonus == 0.5 <==>
            || (genreGoal && forall i :: 0 <= i < |ls| ==> ls[i].book.genre != b.genre)
            || (!genreGoal && authorGoal &&
                  exists a :: a in b.authors && forall i :: 0 <= i < |ls| ==> a !in ls[i].book.authors))
  {
    NewGenre(ls, b.genre);
    NewAuthor(ls, b);
  }

  /** Every peer is another user who shares a favourite or a completed book,
      and there are at most ten; when there are fewer than ten, every such
      user is one. */
  lemma PeersMeaning(users: seq<Profile>, me: UserId, favorites: seq<BookId>, completed: seq<BookId>)
    ensures var ps := Peers(users, me, favorites, completed);
      && |ps| <= 10
      && (forall u :: u in ps ==> u in users && u.id != me && SharesTaste(u, favorites, completed))
      && (|ps| < 10 ==> forall u :: u in users && u.id != me && SharesTaste(u, favorites, completed) ==> u in ps)
  {
    var p := u => IsPeer(u, me, favorites, completed);
    var f := Filter(users, p);
    forall u | u in Limit(f, 10)
      ensures u in f
    {
      var i :| 0 <= i < |Limit(f, 10)| && Limit(f, 10)[i] == u;
      assert f[i] == u;
    }
    forall u | u in users && u.id != me && SharesTaste(u, favorites, completed)
      ensures u in f
    {
      var i :| 0 <= i < |users| && users[i] == u;
      assert p(users[i]);
    }
  }

  /** The number of users before index `i` that the similar-user query matches. */
  function PeersBefore(users: seq<Profile>, me: UserId, favorites: seq<BookId>, completed: seq<BookId>, i: nat): nat
    requires i <= |users|
  {
    |Filter(users[..i], u => IsPeer(u, me, favorites, completed))|
  }

  /** The peers are the first ten matching users in store order: a matching
      user with fewer than ten matches before them is the peer at that index. */
  lemma {:induction false} PeerAt(users: seq<Profile>, me: UserId, favorites: seq<BookId>, completed: seq<BookId>, i: nat)
    requires i < |users| && IsPeer(users[i], me, favorites, completed)
    requires PeersBefore(users, me, favorites, completed, i) < 10
    ensures var ps := Peers(users, me, favorites, completed);
      PeersBefore(users, me, favorites, completed, i) < |ps| && ps[PeersBefore(users, me, favorites, completed, i)] == users[i]
  {
    LimitFilterAt(users, u => IsPeer(u, me, favorites, completed), 10, i);
  }

  /** The peer at index `k` is the matching user with exactly `k` matches
      before them, so the peers keep store order. */
  lemma {:induction false} PeerOrigin(users: seq<Profile>, me: UserId, favorites: seq<BookId>, completed: seq<BookId>, k: nat)
    requires k < |Peers(users, me, favorites, completed)|
    ensures exists j ::
              && 0 <= j < |users| && IsPeer(users[j], me, favorites, completed)
              && PeersBefore(users, me, favorites, completed, j) == k
              && Peers(users, me, favorites, completed)[k] == users[j]
  {
    var p := u => IsPeer(u, me, favorites, completed);
    LimitFilterOrigin(users, p, 10, k);
    var j :| 0 <= j < |users| && p(users[j]) && |Filter(users[..j], p)| == k
      && Limit(Filter(users, p), 10)[k] == users[j];
    assert PeersBefore(users, me, favorites, completed, j) == k;
  }

  /** The collaborative query returns at most five catalogue books, each a
      peer book that is not one of the user's own; when it returns fewer than
      five, every such catalogue book is one. */
  lemma CollaborativeMeaning(catalog: seq<Book>, peerBooks: seq<BookId>, mine: seq<BookId>)
    ensures var c := Collaborative(catalog, peerBooks, mine);
      && |c| <= 5
      && (forall b :: b in c ==> b in catalog && b.id in peerBooks && b.id !in mine)
      && (|c| < 5 ==> forall b :: b in catalog && b.id in peerBooks && b.id !in mine ==> b in c)
  {
    var p := b => IsCollaborative(b, peerBooks, mine);
    var f := Filter(catalog, p);
    forall b | b in Limit(f, 5)
      ensures b in f
    {
      var i :| 0 <= i < |Limit(f, 5)| && Limit(f, 5)[i] == b;
      assert f[i] == b;
    }
    forall b | b in catalog && b.id in peerBooks && b.id !in mine
      ensures b in f
    {
      var i :| 0 <= i < |catalog| && catalog[i] == b;
      assert p(catalog[i]);
    }
  }

  /** The number of catalogue books before index `i` that the collaborative
      query matches. */
  function CollaborativeBefore(catalog: seq<Book>, peerBooks: seq<BookId>, mine: seq<BookId>, i: nat): nat
    requires i <= |catalog|
  {
    |Filter(catalog[..i], b => IsCollaborative(b, peerBooks, mine))|
  }

  /** The collaborative books are the first five matching books in store
      order: a matching book with fewer than five matches before it is the
      result at that index. */
  lemma {:induction false} CollaborativeAt(catalog: seq<Book>, peerBooks: seq<BookId>, mine: seq<BookId>, i: nat)
    requires i < |catalog| && IsCollaborative(catalog[i], peerBooks, mine)
    requires CollaborativeBefore(catalog, peerBooks, mine, i) < 5
    ensures var c := Collaborative(catalog, peerBooks, mine);
      CollaborativeBefore(catalog, peerBooks, mine, i) < |c| && c[CollaborativeBefore(catalog, peerBooks, mine, i)] == catalog[i]
  {
    LimitFilterAt(catalog, b => IsCollaborative(b, peerBooks, mine), 5, i);
  }

  /** The collaborative book at index `k` is the matching book with exactly
      `k` matches before it, so the results keep store order. */
  lemma {:induction false} CollaborativeOrigin(catalog: seq<Book>, peerBooks: seq<BookId>, mine: seq<BookId>, k: nat)
    requires k < |Collaborative(catalog, peerBooks, mine)|
    ensures exists j ::
              && 0 <= j < |catalog| && IsCollaborative(catalog[j], peerBooks, mine)
              && CollaborativeBefore(catalog, peerBooks, mine, j) == k
              && Collaborative(catalog, peerBooks, mine)[k] == catalog[j]
  {
    var p := b => IsCollaborative(b, peerBooks, mine);
    LimitFilterOrigin(catalog, p, 5, k);
    var j :| 0 <= j < |catalog| && p(catalog[j]) && |Filter(catalog[..j], p)| == k
      && Limit(Filter(catalog, p), 5)[k] == catalog[j];
    assert CollaborativeBefore(catalog, peerBooks, mine, j) == k;
  }

  /** The collaborative list of the route, for a history that populates. */
  lemma CollaborativeIs(user: Profile, catalog: seq<Book>, users: seq<Profile>, milestones: seq<Milestone>)
    requires Populate(user.history, catalog).Success?
    ensures var favorites := Ids(PopulateIds(user.favorites, catalog));
      var completed := Ids(PopulateIds(user.completed, catalog));
      var peers := Peers(users, user.id, favorites, completed);
      && RecommendOf(user, catalog, users, milestones).Success?
      && RecommendOf(user, catalog, users, milestones).value.collaborative
         == Collaborative(catalog, PeerBooks(peers), favorites + completed)
  {
  }

  /** Every collaborative recommendation is a catalogue book that some peer
      favourited or completed and that the user has neither favourited nor
      completed; there are at most five. */
  lemma CollaborativeAreNew(user: Profile, catalog: seq<Book>, users: seq<Profile>, milestones: seq<Milestone>)
    requires RecommendOf(user, catalog, users, milestones).Success?
    ensures var favorites := Ids(PopulateIds(user.favorites, catalog));
      var completed := Ids(PopulateIds(user.completed, catalog));
      var peers := Peers(users, user.id, favorites, completed);
      var c := RecommendOf(user, catalog, users, milestones).value.collaborative;
      && |c| <= 5
      && forall b :: b in c ==>
        && b in catalog
        && b.id !in user.favorites && b.id !in user.completed
        && exists i :: 0 <= i < |peers| && (b.id in peers[i].favorites || b.id in peers[i].completed)
  {
    var favorites := Ids(PopulateIds(user.favorites, catalog));
    var completed := Ids(PopulateIds(user.completed, catalog));
    var peers := Peers(users, user.id, favorites, completed);
    var c := Collaborative(catalog, PeerBooks(peers), favorites + completed);
    CollaborativeIs(user, catalog, users, milestones);
    CollaborativeMeaning(catalog, PeerBooks(peers), favorites + completed);
    forall b | b in c
      ensures b.id !in user.favorites && b.id !in user.completed
    {
      if b.id in user.completed {
        ListedIdsCover(user.completed, catalog, b);
      }
      if b.id in user.favorites {
        ListedIdsCover(user.favorites, catalog, b);
      }
    }
  }

  /** The corrected route answers for every user whose history names only
      existing books. */
  lemma RecommendSucceeds(user: Profile, catalog: seq<Book>, users: seq<Profile>, milestones: seq<Milestone>)
    ensures RecommendOf(user, catalog, users, milestones).Success? <==>
      forall i :: 0 <= i < |user.history| ==> Lookup(catalog, user.history[i].audiobook).Some?
  {
  }

  /** As written, the route fails for every user who has a candidate, that
      is, for every user it could recommend something to; it agrees with the
      corrected route only when there is no candidate. */
  lemma AsWrittenFailsWithCandidates(user: Profile, catalog: seq<Book>, users: seq<Profile>, milestones: seq<Milestone>)
    requires Populate(user.history, catalog).Success?
    ensures var ls := Populate(user.history, catalog).value;
      var cands := Candidates(catalog, TopsOf(PreferencesOf(ls)), Ids(PopulateIds(user.completed, catalog)));
      && (cands != [] ==> RecommendAsWritten(user, catalog, users) == Failure(MissingMilestones))
      && (cands == [] ==> RecommendAsWritten(user, catalog, users) == RecommendOf(user, catalog, users, milestones))
  {
    var ls := Populate(user.history, catalog).value;
    var w := PreferencesOf(ls);
    var tops := TopsOf(w);
    var cands := Candidates(catalog, tops, Ids(PopulateIds(user.completed, catalog)));
    PersonalizedIs(user, catalog, users, milestones);
    if cands == [] {
      assert Scored(cands, w, tops, NextMilestone(milestones)) == [];
      assert Rank([], ls != [] && TotalProgress(ls) == 0) == [] by {
        SortOfEqualKeys<(Book, real)>([], ScoreKey, 0.0);
      }
    }
  }

  /** After a single listen with some progress, the book's genre is the one top genre. */
  lemma SingleListenTopGenre(b: Book, t: int, p: nat)
    requires p > 0
    ensures TopsOf(PreferencesOf([Listen(b, t, p)])).genres == [b.genre]
  {
    var ls := [Listen(b, t, p)];
    assert TotalProgress(ls) == p by {
      assert ls[..0] == [];
    }
    var ps := GenrePairs(ls);
    assert ps == [] + [(b.genre, p as real)];
    FromPairsSnoc([], (b.genre, p as real));
    assert GenreTally(ls).keys == [b.genre];
    TopsMeaning(ls);
  }

  /** After a single listen with some progress, every catalogue book of
      that genre that is not excluded is a candidate (in a catalogue of fewer
      than 50 books). */
  lemma SameGenreIsCandidate(catalog: seq<Book>, b: Book, t: int, p: nat, other: Book, completed: seq<BookId>)
    requires p > 0 && |catalog| < 50
    requires other in catalog && other.genre == b.genre && other.id !in completed
    ensures other in Candidates(catalog, TopsOf(PreferencesOf([Listen(b, t, p)])), completed)
  {
    SingleListenTopGenre(b, t, p);
    CandidatesMeaning(catalog, TopsOf(PreferencesOf([Listen(b, t, p)])), completed);
  }

  /** A concrete user the route as written turns away: one listen to a book
      makes the other catalogue book of its genre a candidate, and scoring it
      reads the missing field. */
  lemma AsWrittenCounterexample()
    ensures var b := Book(1, "Dune", ["Frank Herbert"], "Scott Brick", "Science Fiction", 3600);
      var other := Book(2, "Hyperion", ["Dan Simmons"], "Victor Bevine", "Science Fiction", 3600);
      var user := Profile(7, [], [HistoryEntry(1, 0, 60)], [1]);
      && RecommendAsWritten(user, [b, other], []) == Failure(MissingMilestones)
      && RecommendOf(user, [b, other], [], []).Success?
  {
    var b := Book(1, "Dune", ["Frank Herbert"], "Scott Brick", "Science Fiction", 3600);
    var other := Book(2, "Hyperion", ["Dan Simmons"], "Victor Bevine", "Science Fiction", 3600);
    var catalog := [b, other];
    var user := Profile(7, [], [HistoryEntry(1, 0, 60)], [1]);
    assert Lookup(catalog, 1) == Some(b);
    assert Populate(user.history, catalog).Success?;
    var ls := Populate(user.history, catalog).value;
    assert |ls| == 1 && ls[0] == Listen(b, 0, 60);
    assert ls == [Listen(b, 0, 60)];
    var completed := Ids(PopulateIds(user.completed, catalog));
    assert completed == [1];
    SameGenreIsCandidate(catalog, b, 0, 60, other, completed);
    AsWrittenFailsWithCandidates(user, catalog, [], []);
  }
}
