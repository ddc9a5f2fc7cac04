/** The figures of GET /stats (backend/routes/users.js) that are folds over the
    populated listening history: time in the last week and month, the distinct
    listening days, the favourite hour, the longest-listened and most
    re-listened book, and the narrator table. */
module Analytics {
  import opened Wrappers
  import opened Records
  import opened Sorting
  import opened Tally
  import opened Facets

  /** `(now - entry.lastListenedAt) / (1000 * 60 * 60 * 24) <= days`: at most
      `days` days old, boundary included; a listen dated after `now` counts. */
  predicate InWindow(now: int, t: int, days: nat) {
    ((now - t) as real) / (MsPerDay as real) <= days as real
  }

  lemma InWindowMeans(now: int, t: int, days: nat)
    ensures InWindow(now, t, days) <==> now - t <= days * MsPerDay
  {
    var x, d := (now - t) as real, MsPerDay as real;
    assert x / d * d == x;
    assert (days * MsPerDay) as real == (days as real) * d;
  }

  /** The listening time of the listens inside the window. */
  function WindowTime(ls: seq<Listen>, now: int, days: nat): nat {
    if ls == [] then 0
    else
      var l := ls[|ls| - 1];
      WindowTime(ls[..|ls| - 1], now, days) + (if InWindow(now, l.lastListenedAt, days) then l.progress else 0)
  }

  /** A wider window holds at least as much time, and no window holds more
      than the whole history: last week <= last month <= total. */
  lemma {:induction false} WindowNested(ls: seq<Listen>, now: int, d1: nat, d2: nat)
    requires d1 <= d2
    ensures WindowTime(ls, now, d1) <= WindowTime(ls, now, d2) <= TotalProgress(ls)
  {
    if ls != [] {
      var t := ls[|ls| - 1].lastListenedAt;
      InWindowMeans(now, t, d1);
      InWindowMeans(now, t, d2);
      assert d1 * MsPerDay <= d2 * MsPerDay;
      WindowNested(ls[..|ls| - 1], now, d1, d2);
    }
  }

  /** When every listen is inside the window, the window holds the total. */
  lemma {:induction false} WindowWhole(ls: seq<Listen>, now: int, days: nat)
    requires forall i :: 0 <= i < |ls| ==> InWindow(now, ls[i].lastListenedAt, days)
    ensures WindowTime(ls, now, days) == TotalProgress(ls)
  {
    if ls != [] {
      WindowWhole(ls[..|ls| - 1], now, days);
    }
  }

  /** `new Set(history.map(e => day of e))`: each listening day once, in the
      order of its first listen. */
  function ListeningDays(ls: seq<Listen>): (r: seq<int>)
    ensures forall i, j :: 0 <= i < j < |r| ==> r[i] != r[j]
    ensures forall d :: d in r <==> exists i :: 0 <= i < |ls| && DayOf(ls[i].lastListenedAt) == d
    ensures |r| <= |ls|
  {
    if ls == [] then []
    else
      var init := ls[..|ls| - 1];
      var d := DayOf(ls[|ls| - 1].lastListenedAt);
      var r := ListeningDays(init);
      assert forall i :: 0 <= i < |init| ==> init[i] == ls[i];
      if d in r then r else r + [d]
  }

  /** The hour of day of every listen. */
  function HoursOf(ls: seq<Listen>): (r: seq<int>)
    ensures |r| == |ls| && forall i :: 0 <= i < |ls| ==> r[i] == HourOf(ls[i].lastListenedAt)
  {
    seq(|ls|, i requires 0 <= i < |ls| => HourOf(ls[i].lastListenedAt))
  }

  /** Whether some listen falls in hour `h` of the day. */
  predicate Heard(ls: seq<Listen>, h: int) {
    h in HoursOf(ls)
  }

  /** The listening time of the listens in hour `h` of the day. */
  function HourTime(ls: seq<Listen>, h: int): nat {
    if ls == [] then 0
    else
      var l := ls[|ls| - 1];
      HourTime(ls[..|ls| - 1], h) + (if HourOf(l.lastListenedAt) == h then l.progress else 0)
  }

  function HourWeight(e: (int, real)): real {
    e.1
  }

  /** `Object.entries(listeningHours)` from hour `from` on: the keys are
      integer-like, so they come out in ascending numeric order, each hour
      heard with its listening time. */
  function HourEntries(ls: seq<Listen>, from: nat): (es: seq<(int, real)>)
    requires from <= 24
    ensures forall i :: 0 <= i < |es| ==>
      from <= es[i].0 < 24 && Heard(ls, es[i].0) && es[i].1 == HourTime(ls, es[i].0) as real
    ensures forall h :: from <= h < 24 && Heard(ls, h) ==> h in Firsts(es)
    ensures forall i, j :: 0 <= i < j < |es| ==> es[i].0 < es[j].0
    decreases 24 - from
  {
    if from == 24 then []
    else
      var rest := HourEntries(ls, from + 1);
      if Heard(ls, from) then
        var es := [(from, HourTime(ls, from) as real)] + rest;
        assert Firsts(es) == [from] + Firsts(rest);
        es
      else rest
  }

  /** `Object.entries(listeningHours).sort(by time, descending)[0][0]`, or
      `None` where indexing the empty list throws. */
  function FavoriteHour(ls: seq<Listen>): Option<int> {
    var es := HourEntries(ls, 0);
    if es == [] then None else Some(Sort(es, HourWeight)[0].0)
  }

  /** The head of the descending sort of entries listed in ascending key
      order: an entry with the largest time, and the smallest key among the
      entries with that time. */
  lemma HeadOfAscending(es: seq<(int, real)>)
    requires |es| > 0
    requires forall i, j :: 0 <= i < j < |es| ==> es[i].0 < es[j].0
    ensures Sort(es, HourWeight)[0] in es
    ensures forall q :: 0 <= q < |es| ==> es[q].1 <= Sort(es, HourWeight)[0].1
    ensures forall q :: 0 <= q < |es| && es[q].1 == Sort(es, HourWeight)[0].1 ==> Sort(es, HourWeight)[0].0 <= es[q].0
  {
    var p := SortHead(es, HourWeight);
    forall q | 0 <= q < |es|
      ensures es[q].1 <= es[p].1
      ensures es[q].1 == es[p].1 ==> es[p].0 <= es[q].0
    {
      assert HourWeight(es[q]) <= HourWeight(es[p]);
      if q < p {
        assert HourWeight(es[q]) < HourWeight(es[p]);
      }
    }
  }

  /** The favourite hour exists exactly when there is a listen; it is an hour
      heard with the most listening time, and the earliest such hour of the
      day when several tie. */
  lemma FavoriteHourMeaning(ls: seq<Listen>)
    ensures FavoriteHour(ls).None? <==> ls == []
    ensures FavoriteHour(ls).Some? ==>
      var h := FavoriteHour(ls).value;
      && 0 <= h < 24 && Heard(ls, h)
      && (forall g :: 0 <= g < 24 && Heard(ls, g) ==> HourTime(ls, g) <= HourTime(ls, h))
      && (forall g :: 0 <= g < 24 && Heard(ls, g) && HourTime(ls, g) == HourTime(ls, h) ==> h <= g)
  {
    var es := HourEntries(ls, 0);
    if ls != [] {
      assert Heard(ls, HoursOf(ls)[0]);
      assert HoursOf(ls)[0] in Firsts(es);
    }
    if es != [] {
      HeadOfAscending(es);
      var e := Sort(es, HourWeight)[0];
      var h := e.0;
      assert e.1 == HourTime(ls, h) as real;
      forall g | 0 <= g < 24 && Heard(ls, g)
        ensures HourTime(ls, g) <= HourTime(ls, h)
        ensures HourTime(ls, g) == HourTime(ls, h) ==> h <= g
      {
        assert g in Firsts(es);
        var q :| 0 <= q < |es| && Firsts(es)[q] == g;
        assert es[q].1 == HourTime(ls, g) as real;
      }
    }
  }

  /** `reduce((best, x) => x > best.score ? x : best, { score: 0 })` over
      scores, as the index of the winner: the first index with the largest
      score, provided that score is above 0. */
  function ReduceMax(xs: seq<int>): (r: Option<nat>)
    ensures r.None? <==> forall i :: 0 <= i < |xs| ==> xs[i] <= 0
    ensures r.Some? ==> r.value < |xs| && xs[r.value] > 0
    ensures r.Some? ==> forall i :: 0 <= i < |xs| ==> xs[i] <= xs[r.value]
    ensures r.Some? ==> forall i :: 0 <= i < r.value ==> xs[i] < xs[r.value]
  {
    if xs == [] then None
    else
      var init := xs[..|xs| - 1];
      var x := xs[|xs| - 1];
      var best := ReduceMax(init);
      assert forall i :: 0 <= i < |init| ==> init[i] == xs[i];
      if x > (if best.None? then 0 else init[best.value]) then Some(|xs| - 1) else best
  }

  function Progresses(ls: seq<Listen>): (r: seq<int>)
    ensures |r| == |ls| && forall i :: 0 <= i < |ls| ==> r[i] == ls[i].progress
  {
    seq(|ls|, i requires 0 <= i < |ls| => ls[i].progress)
  }

  /** The title of `longestListenedBook`, or `None` (`null`) when no listen
      has progress above 0. */
  function LongestListened(ls: seq<Listen>): Option<string> {
    match ReduceMax(Progresses(ls))
    case None => None
    case Some(i) => Some(ls[i].book.title)
  }

  /** `null` exactly when no listen has progress above 0; otherwise the title
      of the first listen with the largest progress. */
  lemma LongestListenedMeaning(ls: seq<Listen>)
    ensures LongestListened(ls).None? <==> forall i :: 0 <= i < |ls| ==> ls[i].progress == 0
    ensures LongestListened(ls).Some? ==> exists i :: (
      && 0 <= i < |ls| && ls[i].progress > 0
      && LongestListened(ls).value == ls[i].book.title
      && (forall j :: 0 <= j < |ls| ==> ls[j].progress <= ls[i].progress)
      && (forall j :: 0 <= j < i ==> ls[j].progress < ls[i].progress))
  {
    var ps := Progresses(ls);
    match ReduceMax(ps)
    case None =>
    case Some(i) =>
      assert forall j :: 0 <= j < |ls| ==> ps[j] <= ps[i];
  }

  /** How many history entries are for the book with this id. */
  function Occurrences(ls: seq<Listen>, id: BookId): nat {
    if ls == [] then 0
    else Occurrences(ls[..|ls| - 1], id) + (if ls[|ls| - 1].book.id == id then 1 else 0)
  }

  lemma {:induction false} OccurrencesOfMember(ls: seq<Listen>, i: nat)
    requires i < |ls|
    ensures Occurrences(ls, ls[i].book.id) >= 1
  {
    if i < |ls| - 1 {
      OccurrencesOfMember(ls[..|ls| - 1], i);
    }
  }

  function Counts(ls: seq<Listen>): (r: seq<int>)
    ensures |r| == |ls| && forall i :: 0 <= i < |ls| ==> r[i] == Occurrences(ls, ls[i].book.id)
  {
    seq(|ls|, i requires 0 <= i < |ls| => Occurrences(ls, ls[i].book.id))
  }

  /** `mostRelistenedBook`: the title and entry count of the first listen whose
      book has the most entries, or `None` for an empty history. */
  function MostRelistened(ls: seq<Listen>): Option<(string, nat)> {
    match ReduceMax(Counts(ls))
    case None => None
    case Some(i) => Some((ls[i].book.title, Occurrences(ls, ls[i].book.id)))
  }

  /** A non-empty history always has a most re-listened book: the book of the
      first listen whose book has the most entries. */
  lemma MostRelistenedMeaning(ls: seq<Listen>)
    ensures MostRelistened(ls).None? <==> ls == []
    ensures MostRelistened(ls).Some? ==> exists i :: (
      && 0 <= i < |ls|
      && MostRelistened(ls).value == (ls[i].book.title, Occurrences(ls, ls[i].book.id))
      && (forall j :: 0 <= j < |ls| ==> Occurrences(ls, ls[j].book.id) <= Occurrences(ls, ls[i].book.id))
      && (forall j :: 0 <= j < i ==> Occurrences(ls, ls[j].book.id) < Occurrences(ls, ls[i].book.id)))
  {
    var cs := Counts(ls);
    if ls != [] {
      OccurrencesOfMember(ls, 0);
      assert cs[0] > 0;
    }
    match ReduceMax(cs)
    case None =>
    case Some(i) =>
      assert forall j :: 0 <= j < |ls| ==> cs[j] <= cs[i];
  }

  /** A row of `topNarrators`. */
  datatype NarratorStat = NarratorStat(narrator: string, totalTime: real, bookCount: nat)

  /** The distinct books this narrator read among the listens
      (`bookCount`, a set of id strings). */
  function NarratedBooks(ls: seq<Listen>, n: string): set<BookId> {
    set i | 0 <= i < |ls| && ls[i].book.narrator == n :: ls[i].book.id
  }

  function StatOf(ls: seq<Listen>, e: (string, real)): NarratorStat {
    NarratorStat(e.0, e.1, |NarratedBooks(ls, e.0)|)
  }

  /** `topNarrators`: the narrator table sorted by total time and cut to five.
      The source builds the rows before sorting them by `totalTime`; sorting
      the (narrator, time) entries first and building the rows afterwards
      gives the same rows in the same order, since the sort key is the same. */
  function TopNarrators(ls: seq<Listen>): (r: seq<NarratorStat>)
    ensures |r| == |TopEntries(NarratorTally(ls), 5)|
    ensures forall i :: 0 <= i < |r| ==> r[i] == StatOf(ls, TopEntries(NarratorTally(ls), 5)[i])
  {
    var top := TopEntries(NarratorTally(ls), 5);
    seq(|top|, i requires 0 <= i < |top| => StatOf(ls, top[i]))
  }

  /** At most five rows, one per narrator heard, each with that narrator's
      listening time and number of distinct books. */
  lemma TopNarratorsRows(ls: seq<Listen>)
    ensures var r := TopNarrators(ls);
      && |r| == Min(5, |NarratorTally(ls).keys|)
      && forall i :: 0 <= i < |r| ==>
        && r[i].narrator in NarratorTally(ls).value
        && r[i].totalTime == NarratorTime(ls, r[i].narrator)
        && r[i].bookCount == |NarratedBooks(ls, r[i].narrator)|
  {
    var t := NarratorTally(ls);
    NarratorTallyMeaning(ls);
    TopEntriesAreTop(t, 5);
    RowsOfEntries(ls, t, TopEntries(t, 5));
  }

  lemma RowsOfEntries(ls: seq<Listen>, t: Tally, top: seq<(string, real)>)
    requires forall i :: 0 <= i < |top| ==> top[i].0 in t.value && top[i].1 == t.value[top[i].0]
    requires forall n :: Get(t, n) == NarratorTime(ls, n)
    ensures forall i :: 0 <= i < |top| ==>
      && StatOf(ls, top[i]).narrator in t.value
      && StatOf(ls, top[i]).totalTime == NarratorTime(ls, top[i].0)
      && StatOf(ls, top[i]).bookCount == |NarratedBooks(ls, top[i].0)|
  {
    forall i | 0 <= i < |top|
      ensures top[i].1 == NarratorTime(ls, top[i].0)
    {
      assert Get(t, top[i].0) == t.value[top[i].0];
    }
  }

  /** The rows name different narrators, in non-increasing order of time, and
      no narrator left out has more time than one listed. */
  lemma TopNarratorsOrder(ls: seq<Listen>)
    ensures var r := TopNarrators(ls);
      && (forall i, j :: 0 <= i < j < |r| ==> r[i].narrator != r[j].narrator && r[i].totalTime >= r[j].totalTime)
      && (forall i, n :: 0 <= i < |r| && n in NarratorTally(ls).value && n !in TopKeys(NarratorTally(ls), 5) ==>
            NarratorTime(ls, n) <= r[i].totalTime)
  {
    var t := NarratorTally(ls);
    TopNarratorEntries(ls);
    OrderOfEntries(ls, t, TopEntries(t, 5), TopKeys(t, 5));
  }

  /** What `OrderOfEntries` needs of the narrator tally and its top five. */
  lemma TopNarratorEntries(ls: seq<Listen>)
    ensures var t, top, keys := NarratorTally(ls), TopEntries(NarratorTally(ls), 5), TopKeys(NarratorTally(ls), 5);
      && |keys| == |top| && (forall i :: 0 <= i < |top| ==> keys[i] == top[i].0)
      && Distinct(keys) && SortedDesc(top, Weight)
      && (forall i, k :: 0 <= i < |top| && k in t.value && k !in keys ==> t.value[k] <= top[i].1)
      && forall n :: Get(t, n) == NarratorTime(ls, n)
  {
    NarratorTallyMeaning(ls);
    TopEntriesAreTop(NarratorTally(ls), 5);
  }

  lemma OrderOfEntries(ls: seq<Listen>, t: Tally, top: seq<(string, real)>, keys: seq<string>)
    requires |keys| == |top| && forall i :: 0 <= i < |top| ==> keys[i] == top[i].0
    requires Distinct(keys) && SortedDesc(top, Weight)
    requires forall i, k :: 0 <= i < |top| && k in t.value && k !in keys ==> t.value[k] <= top[i].1
    requires forall n :: Get(t, n) == NarratorTime(ls, n)
    ensures forall i, j :: 0 <= i < j < |top| ==>
      StatOf(ls, top[i]).narrator != StatOf(ls, top[j]).narrator
      && StatOf(ls, top[i]).totalTime >= StatOf(ls, top[j]).totalTime
    ensures forall i, n :: 0 <= i < |top| && n in t.value && n !in keys ==>
      NarratorTime(ls, n) <= StatOf(ls, top[i]).totalTime
  {
    forall i, j | 0 <= i < j < |top|
      ensures top[i].0 != top[j].0 && top[i].1 >= top[j].1
    {
      assert Weight(top[i]) >= Weight(top[j]);
    }
    forall i, n | 0 <= i < |top| && n in t.value && n !in keys
      ensures NarratorTime(ls, n) <= top[i].1
    {
      assert Get(t, n) == t.value[n];
    }
  }

  /** `favoriteNarrator`: the first row of the table. */
  function FavoriteNarrator(ls: seq<Listen>): Option<NarratorStat> {
    var top := TopNarrators(ls);
    if top == [] then None else Some(top[0])
  }

  lemma FirstRowIsMax(t: Tally, top: seq<(string, real)>, keys: seq<string>)
    requires |top| > 0
    requires |keys| == |top| && forall i :: 0 <= i < |top| ==> keys[i] == top[i].0
    requires forall i :: 0 <= i < |top| ==> top[i].0 in t.value && top[i].1 == t.value[top[i].0]
    requires SortedDesc(top, Weight)
    requires forall i, k :: 0 <= i < |top| && k in t.value && k !in keys ==> t.value[k] <= top[i].1
    ensures forall n :: n in t.value ==> t.value[n] <= top[0].1
  {
    forall n | n in t.value
      ensures t.value[n] <= top[0].1
    {
      if n in keys {
        var i :| 0 <= i < |keys| && keys[i] == n;
        assert Weight(top[0]) >= Weight(top[i]);
      }
    }
  }

  /** The first of the top entries holds the largest value of the tally. */
  lemma TopEntryIsMax(t: Tally)
    requires Valid(t) && TopEntries(t, 5) != []
    ensures forall n :: n in t.value ==> t.value[n] <= TopEntries(t, 5)[0].1
  {
    TopEntriesAreTop(t, 5);
    FirstRowIsMax(t, TopEntries(t, 5), TopKeys(t, 5));
  }

  /** The narrator of a listened book is a key holding that narrator's time. */
  lemma NarratorHeard(ls: seq<Listen>, j: nat)
    requires j < |ls|
    ensures ls[j].book.narrator in NarratorTally(ls).value
    ensures NarratorTally(ls).value[ls[j].book.narrator] == NarratorTime(ls, ls[j].book.narrator)
  {
    var n := ls[j].book.narrator;
    NarratorKeys(ls);
    assert n in NarratorTally(ls).value;
    NarratorTallyMeaning(ls);
    assert Get(NarratorTally(ls), n) == NarratorTally(ls).value[n];
  }

  /** No listens, no narrator keys; some listens, some narrator keys. */
  lemma NarratorKeysEmpty(ls: seq<Listen>)
    ensures NarratorTally(ls).keys == [] <==> ls == []
  {
    var t := NarratorTally(ls);
    NarratorKeys(ls);
    if ls != [] {
      assert ls[0].book.narrator in t.value;
    } else {
      EmptyHistoryNoKeys(ls);
    }
  }

  /** The favourite narrator exists exactly when there is a listen, and no
      narrator has more listening time. */
  lemma FavoriteNarratorMeaning(ls: seq<Listen>)
    ensures FavoriteNarrator(ls).None? <==> ls == []
    ensures FavoriteNarrator(ls).Some? ==>
      forall j :: 0 <= j < |ls| ==> NarratorTime(ls, ls[j].book.narrator) <= FavoriteNarrator(ls).value.totalTime
  {
    var t := NarratorTally(ls);
    var top := TopEntries(t, 5);
    NarratorKeysEmpty(ls);
    assert |top| == Min(5, |t.keys|);
    if top != [] {
      TopEntryIsMax(t);
      assert FavoriteNarrator(ls).value.totalTime == top[0].1;
      forall j | 0 <= j < |ls|
        ensures NarratorTime(ls, ls[j].book.narrator) <= top[0].1
      {
        NarratorHeard(ls, j);
      }
    }
  }
}
