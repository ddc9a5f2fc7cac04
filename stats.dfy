/** GET /stats (backend/routes/users.js): the whole statistics report of one
    user, built from the populated listening history, the user's completed
    books and the listening totals and completed counts of every user. */
module Stats {
  import opened Wrappers
  import opened Records
  import opened Sorting
  import opened Tally
  import opened Facets
  import opened Analytics
  import opened Streaks
  import opened Percentiles
  import opened Milestones

  /** The JSON body of a successful answer, without `inProgressBooks`.
      `favoriteListeningHour` is held as a number; the source answers with the
      `Object.entries` key of that hour, the same number as a string such as "14". */
  datatype Report = Report(
    totalListeningTime: nat,
    completedBooksCount: nat,
    lastWeekListeningTime: nat,
    lastMonthListeningTime: nat,
    topGenres: seq<(string, real)>,
    topAuthors: seq<(string, real)>,
    currentStreak: nat,
    favoriteListeningHour: int,
    totalTimePercentile: Percent,
    completedBooksPercentile: Percent,
    topNarrators: seq<NarratorStat>,
    favoriteNarrator: Option<NarratorStat>,
    milestones: seq<Milestone>,
    longestListenedBook: Option<string>,
    nextMilestone: Option<(string, Option<real>)>,
    mostRelistenedBook: Option<(string, nat)>)

  /** A user's listening total from the unpopulated history, as `User.find({})` returns it. */
  function HistoryTotal(h: seq<HistoryEntry>): nat {
    if h == [] then 0 else HistoryTotal(h[..|h| - 1]) + h[|h| - 1].progress
  }

  /** Every user's listening total, in store order. */
  function TotalsOf(population: seq<Profile>): (r: seq<int>)
    ensures |r| == |population| && forall i :: 0 <= i < |population| ==> r[i] == HistoryTotal(population[i].history)
  {
    seq(|population|, i requires 0 <= i < |population| => HistoryTotal(population[i].history))
  }

  /** Every user's number of completed-book references, in store order. */
  function CompletedOf(population: seq<Profile>): (r: seq<int>)
    ensures |r| == |population| && forall i :: 0 <= i < |population| ==> r[i] == |population[i].completed|
  {
    seq(|population|, i requires 0 <= i < |population| => |population[i].completed|)
  }

  /** `nextMilestone`: the name and progress of the first milestone not achieved. */
  function NextOf(ms: seq<Milestone>, completed: nat, total: nat, genres: nat, authors: nat): Option<(string, Option<real>)> {
    match FirstUnachieved(ms)
    case None => None
    case Some(i) => Some((ms[i].name, Progress(ms[i].name, completed, total, genres, authors)))
  }

  /** The answer of GET /stats: the report, or the error that makes the
      handler answer 400. */
  function StatsOf(user: Profile, catalog: seq<Book>, population: seq<Profile>, now: int): Result<Report, Error> {
    var ls :- Populate(user.history, catalog);
    var total := TotalProgress(ls);
    var completed := |PopulateIds(user.completed, catalog)|;
    var genre, author := GenreTally(ls), AuthorTally(ls);
    match FavoriteHour(ls)
    case None => Failure(EmptyHistory)
    case Some(hour) =>
      var ms := Ladder(completed, total, |genre.keys|, |author.keys|);
      Success(Report(
        total, completed, WindowTime(ls, now, 7), WindowTime(ls, now, 30),
        TopEntries(genre, 5), TopEntries(author, 5),
        Streak(Sort(ListeningDays(ls), DayKey)), hour,
        Percentile(TotalsOf(population), total), Percentile(CompletedOf(population), completed),
        TopNarrators(ls), FavoriteNarrator(ls), ms, LongestListened(ls),
        NextOf(ms, completed, total, |genre.keys|, |author.keys|), MostRelistened(ls)))
  }

  method ToArray(s: seq<int>) returns (a: array<int>)
    ensures fresh(a) && a[..] == s
  {
    a := new int[|s|](i requires 0 <= i < |s| => s[i]);
  }

  /** The handler: one pass over the history for the preference tallies, the
      streak and percentile helpers on fresh arrays, and the folds for the
      rest.  The shared accumulation loop also builds a narrator tally, which
      this route does not use: its narrator figures come from `TopNarrators`
      and `FavoriteNarrator`. */
  method Stats(user: Profile, catalog: seq<Book>, population: seq<Profile>, now: int) returns (r: Result<Report, Error>)
    ensures r == StatsOf(user, catalog, population, now)
  {
    var ls :- Populate(user.history, catalog);
    var genre, author, _, total := AccumulatePreferences(ls);
    var completed := |PopulateIds(user.completed, catalog)|;
    var week := WindowTime(ls, now, 7);
    var month := WindowTime(ls, now, 30);
    var topGenres := TopOf(genre, 5);
    var topAuthors := TopOf(author, 5);
    var days := ToArray(ListeningDays(ls));
    var streak := CalculateStreak(days);
    var hour := FavoriteHour(ls);
    if hour.None? {
      return Failure(EmptyHistory);
    }
    var totals := ToArray(TotalsOf(population));
    var totalPercentile := CalculatePercentile(totals, total);
    var counts := ToArray(CompletedOf(population));
    var completedPercentile := CalculatePercentile(counts, completed);
    var ms := Ladder(completed, total, |genre.keys|, |author.keys|);
    r := Success(Report(
      total, completed, week, month, topGenres, topAuthors, streak, hour.value,
      totalPercentile, completedPercentile, TopNarrators(ls), FavoriteNarrator(ls), ms,
      LongestListened(ls), NextOf(ms, completed, total, |genre.keys|, |author.keys|), MostRelistened(ls)));
  }

  /** The populated history holds the same listening total as the stored one. */
  lemma {:induction false} PopulatedTotal(h: seq<HistoryEntry>, catalog: seq<Book>)
    requires Populate(h, catalog).Success?
    ensures TotalProgress(Populate(h, catalog).value) == HistoryTotal(h)
  {
    if h != [] {
      var init := h[..|h| - 1];
      var ls := Populate(h, catalog).value;
      assert Populate(init, catalog).Success?;
      assert ls[..|ls| - 1] == Populate(init, catalog).value;
      PopulatedTotal(init, catalog);
    }
  }

  /** The handler answers 400 exactly when the history is empty (no entry to
      take the favourite hour from) or names a book that does not exist. */
  lemma StatsOutcome(user: Profile, catalog: seq<Book>, population: seq<Profile>, now: int)
    ensures StatsOf(user, catalog, population, now).Success? <==>
      user.history != [] && forall i :: 0 <= i < |user.history| ==> Lookup(catalog, user.history[i].audiobook).Some?
    ensures user.history == [] ==> StatsOf(user, catalog, population, now) == Failure(EmptyHistory)
  {
    var p := Populate(user.history, catalog);
    if p.Success? {
      FavoriteHourMeaning(p.value);
    }
  }

  /** The fields of a successful report, read off once for the lemmas below. */
  lemma StatsReport(user: Profile, catalog: seq<Book>, population: seq<Profile>, now: int)
    requires StatsOf(user, catalog, population, now).Success?
    ensures Populate(user.history, catalog).Success?
    ensures var ls := Populate(user.history, catalog).value;
      var rep := StatsOf(user, catalog, population, now).value;
      var total, completed := TotalProgress(ls), |PopulateIds(user.completed, catalog)|;
      var genres, authors := |GenreTally(ls).keys|, |AuthorTally(ls).keys|;
      && ls != []
      && rep.totalListeningTime == total
      && rep.completedBooksCount == completed
      && rep.lastWeekListeningTime == WindowTime(ls, now, 7)
      && rep.lastMonthListeningTime == WindowTime(ls, now, 30)
      && rep.currentStreak == Streak(Sort(ListeningDays(ls), DayKey))
      && FavoriteHour(ls) == Some(rep.favoriteListeningHour)
      && rep.totalTimePercentile == Percentile(TotalsOf(population), total)
      && rep.completedBooksPercentile == Percentile(CompletedOf(population), completed)
      && rep.favoriteNarrator == FavoriteNarrator(ls)
      && rep.mostRelistenedBook == MostRelistened(ls)
      && rep.nextMilestone == NextOf(Ladder(completed, total, genres, authors), completed, total, genres, authors)
  {
    FavoriteHourMeaning(Populate(user.history, catalog).value);
  }

  /** The figures of a report agree with one another: the week's time is
      within the month's, which is within the total; the streak counts at
      least the latest day and at most the distinct listening days; there is
      a most re-listened book and a favourite narrator; and the next
      milestone's progress is below 100 percent. */
  lemma StatsFigures(user: Profile, catalog: seq<Book>, population: seq<Profile>, now: int)
    requires StatsOf(user, catalog, population, now).Success?
    ensures var rep := StatsOf(user, catalog, population, now).value;
      && rep.lastWeekListeningTime <= rep.lastMonthListeningTime <= rep.totalListeningTime
      && rep.totalListeningTime == HistoryTotal(user.history)
      && rep.completedBooksCount == |ExistingIds(user.completed, catalog)| <= |user.completed|
      && 1 <= rep.currentStreak <= |user.history|
      && 0 <= rep.favoriteListeningHour < 24
      && rep.mostRelistenedBook.Some? && rep.favoriteNarrator.Some?
      && (rep.nextMilestone.Some? && rep.nextMilestone.value.1.Some? ==>
            0.0 <= rep.nextMilestone.value.1.value < 100.0)
  {
    StatsReport(user, catalog, population, now);
    var ls := Populate(user.history, catalog).value;
    var total := TotalProgress(ls);
    var completed := |PopulateIds(user.completed, catalog)|;
    FavoriteHourMeaning(ls);
    WindowNested(ls, now, 7, 30);
    PopulatedTotal(user.history, catalog);
    MostRelistenedMeaning(ls);
    FavoriteNarratorMeaning(ls);
    NextMilestoneProgress(completed, total, |GenreTally(ls).keys|, |AuthorTally(ls).keys|);
    var days := ListeningDays(ls);
    assert |Sort(days, DayKey)| == |days| > 0 by {
      assert DayOf(ls[0].lastListenedAt) in days;
    }
  }

  /** `streak` counts a run of calendar days going back one at a time from
      the latest listening day of `ls`, every one of them a listening day. */
  predicate RunFromLatest(ls: seq<Listen>, streak: nat) {
    var days := Sort(ListeningDays(ls), DayKey);
    && 0 < streak <= |days|
    && days[0] in ListeningDays(ls)
    && (forall d :: d in ListeningDays(ls) ==> d <= days[0])
    && forall k :: 0 <= k < streak ==> days[k] == days[0] - k && days[k] in ListeningDays(ls)
  }

  /** Sorting distinct days keeps them distinct and puts the latest first. */
  lemma SortedDays(d: seq<int>)
    requires d != []
    requires forall i, j :: 0 <= i < j < |d| ==> d[i] != d[j]
    ensures var days := Sort(d, DayKey);
      && days[0] in d
      && (forall x :: x in d ==> x <= days[0])
      && (forall i, j :: 0 <= i < j < |days| ==> days[i] != days[j])
      && forall k :: 0 <= k < |days| ==> days[k] in d
  {
    var days := Sort(d, DayKey);
    SortHeadIsMax(d, DayKey);
    forall x | x in d
      ensures x <= days[0]
    {
      var q :| 0 <= q < |d| && d[q] == x;
      assert DayKey(d[q]) <= DayKey(days[0]);
    }
    forall i, j | 0 <= i < j < |days|
      ensures days[i] != days[j]
    {
      if days[i] == days[j] {
        MultisetTwice(days, i, j);
        MultisetDistinct(d, days[i]);
      }
    }
    forall k | 0 <= k < |days|
      ensures days[k] in d
    {
      assert days[k] in multiset(d);
    }
  }

  /** The sorted listening days of a non-empty history: the first is the
      latest, and the streak is the run of calendar days back from it. */
  lemma LatestRun(ls: seq<Listen>)
    requires ls != []
    ensures RunFromLatest(ls, Streak(Sort(ListeningDays(ls), DayKey)))
  {
    var d := ListeningDays(ls);
    assert DayOf(ls[0].lastListenedAt) in d;
    SortedDays(d);
    StreakIsRunFromLatest(Sort(d, DayKey));
  }

  /** The streak is the run of consecutive days that ends on the user's latest
      listening day (the most recent day of listening, not today), and every
      day of it is a day the user listened. */
  lemma StatsStreak(user: Profile, catalog: seq<Book>, population: seq<Profile>, now: int)
    requires StatsOf(user, catalog, population, now).Success?
    ensures Populate(user.history, catalog).Success?
    ensures RunFromLatest(Populate(user.history, catalog).value, StatsOf(user, catalog, population, now).value.currentStreak)
  {
    StreakField(user, catalog, population, now);
    LatestRun(Populate(user.history, catalog).value);
  }

  lemma StreakField(user: Profile, catalog: seq<Book>, population: seq<Profile>, now: int)
    requires StatsOf(user, catalog, population, now).Success?
    ensures Populate(user.history, catalog).Success? && Populate(user.history, catalog).value != []
    ensures StatsOf(user, catalog, population, now).value.currentStreak
         == Streak(Sort(ListeningDays(Populate(user.history, catalog).value), DayKey))
  {
    StatsReport(user, catalog, population, now);
  }

  /** A user who is among all users gets finite percentiles below 100: some
      user (this one) reaches the user's own total and completed count. */
  lemma StatsPercentiles(user: Profile, catalog: seq<Book>, population: seq<Profile>, now: int)
    requires user in population
    requires StatsOf(user, catalog, population, now).Success?
    ensures var rep := StatsOf(user, catalog, population, now).value;
      && rep.totalTimePercentile.Finite? && 0.0 <= rep.totalTimePercentile.value < 100.0
      && rep.completedBooksPercentile.Finite? && 0.0 <= rep.completedBooksPercentile.value < 100.0
  {
    StatsReport(user, catalog, population, now);
    var ls := Populate(user.history, catalog).value;
    var completed := |PopulateIds(user.completed, catalog)|;
    PopulatedTotal(user.history, catalog);
    var u :| 0 <= u < |population| && population[u] == user;
    assert TotalsOf(population)[u] >= TotalProgress(ls);
    assert CompletedOf(population)[u] >= completed;
    PercentileInRange(TotalsOf(population), TotalProgress(ls));
    PercentileInRange(CompletedOf(population), completed);
  }
}
