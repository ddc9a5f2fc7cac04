/** The milestone ladder of GET /stats (backend/routes/users.js): seven fixed
    milestones with thresholds on completed books, listening time, genres and
    authors; the next milestone is the first one not yet achieved, and its
    progress is computed from the number that leads its name. */
module Milestones {
  import opened Wrappers

  datatype Milestone = Milestone(name: string, achieved: bool)

  const FirstBook := "First Book Completed"
  const FiveBooks := "5 Books Completed"
  const TenBooks := "10 Books Completed"
  const DayListened := "24 Hours Listened"
  const HundredHours := "100 Hours Listened"
  const FiveGenres := "5 Different Genres Explored"
  const TenAuthors := "10 Different Authors Explored"

  /** Seconds in an hour: listening time is kept in seconds. */
  const SecondsPerHour := 60 * 60

  /** The ladder for a user with `completed` completed books, `total` seconds
      of listening, `genres` distinct genres and `authors` distinct authors. */
  function Ladder(completed: nat, total: nat, genres: nat, authors: nat): seq<Milestone> {
    [ Milestone(FirstBook, completed > 0),
      Milestone(FiveBooks, completed >= 5),
      Milestone(TenBooks, completed >= 10),
      Milestone(DayListened, total >= 24 * SecondsPerHour),
      Milestone(HundredHours, total >= 100 * SecondsPerHour),
      Milestone(FiveGenres, genres >= 5),
      Milestone(TenAuthors, authors >= 10) ]
  }

  /** `milestones.find(m => !m.achieved)`, as an index. */
  function FirstUnachieved(ms: seq<Milestone>): (r: Option<nat>)
    ensures r.None? <==> forall i :: 0 <= i < |ms| ==> ms[i].achieved
    ensures r.Some? ==> r.value < |ms| && !ms[r.value].achieved
    ensures r.Some? ==> forall i :: 0 <= i < r.value ==> ms[i].achieved
  {
    if ms == [] then None
    else if !ms[0].achieved then Some(0)
    else match FirstUnachieved(ms[1..])
      case None => None
      case Some(i) => Some(i + 1)
  }

  predicate IsDigit(c: char) {
    '0' <= c <= '9'
  }

  /** `parseInt(name)` on a name that starts with a digit: the value of its
      leading run of decimal digits, `acc` holding the digits read so far. */
  function LeadingNumber(s: string, acc: nat): nat {
    if |s| > 0 && IsDigit(s[0]) then LeadingNumber(s[1..], acc * 10 + (s[0] as int - '0' as int))
    else acc
  }

  function Target(name: string): nat {
    LeadingNumber(name, 0)
  }

  lemma BookTargets()
    ensures Target(FiveBooks) == 5 && Target(TenBooks) == 10
  {
    assert LeadingNumber(FiveBooks[1..], 5) == 5;
    assert LeadingNumber(TenBooks[2..], 10) == 10;
  }

  lemma HourTargets()
    ensures Target(DayListened) == 24 && Target(HundredHours) == 100
  {
    assert LeadingNumber(DayListened[2..], 24) == 24;
    assert LeadingNumber(HundredHours[3..], 100) == 100;
  }

  /** The thresholds read from the names that carry one. */
  lemma Targets()
    ensures Target(FiveBooks) == 5 && Target(TenBooks) == 10
    ensures Target(DayListened) == 24 && Target(HundredHours) == 100
  {
    BookTargets();
    HourTargets();
  }

  /** The `switch` on the next milestone's name: percent of the way to its
      threshold, or `null` (`None`) for a name without a case. */
  function Progress(name: string, completed: nat, total: nat, genres: nat, authors: nat): Option<real> {
    Targets();
    if name == FiveBooks || name == TenBooks then
      Some((completed as real) / (Target(name) as real) * 100.0)
    else if name == DayListened || name == HundredHours then
      Some((total as real) / ((Target(name) * SecondsPerHour) as real) * 100.0)
    else if name == FiveGenres then
      Some((genres as real) / 5.0 * 100.0)
    else if name == TenAuthors then
      Some((authors as real) / 10.0 * 100.0)
    else None
  }

  lemma ShareBelow(x: nat, d: nat)
    requires 0 <= x < d
    ensures 0.0 <= (x as real) / (d as real) * 100.0 < 100.0
  {
    assert (x as real) / (d as real) < 1.0;
  }

  /** A ladder's flags are nested: ten books imply five imply one, a hundred
      hours imply twenty-four. */
  lemma LadderNested(completed: nat, total: nat, genres: nat, authors: nat)
    ensures var ms := Ladder(completed, total, genres, authors);
      && |ms| == 7
      && (ms[2].achieved ==> ms[1].achieved)
      && (ms[1].achieved ==> ms[0].achieved)
      && (ms[4].achieved ==> ms[3].achieved)
  {
  }

  lemma BookProgress(completed: nat, total: nat, genres: nat, authors: nat)
    ensures Progress(FiveBooks, completed, total, genres, authors) == Some((completed as real) / 5.0 * 100.0)
    ensures Progress(TenBooks, completed, total, genres, authors) == Some((completed as real) / 10.0 * 100.0)
  {
    BookTargets();
  }

  lemma DayProgress(completed: nat, total: nat, genres: nat, authors: nat)
    ensures Progress(DayListened, completed, total, genres, authors) == Some((total as real) / (24.0 * 3600.0) * 100.0)
  {
    HourTargets();
    assert DayListened[0] != FiveBooks[0] && DayListened[0] != TenBooks[0];
  }

  lemma HundredHoursProgress(completed: nat, total: nat, genres: nat, authors: nat)
    ensures Progress(HundredHours, completed, total, genres, authors) == Some((total as real) / (100.0 * 3600.0) * 100.0)
  {
    HourTargets();
    assert HundredHours[2] != TenBooks[2] && HundredHours[0] != FiveBooks[0];
  }

  lemma ExploredProgress(completed: nat, total: nat, genres: nat, authors: nat)
    ensures Progress(FiveGenres, completed, total, genres, authors) == Some((genres as real) / 5.0 * 100.0)
    ensures Progress(TenAuthors, completed, total, genres, authors) == Some((authors as real) / 10.0 * 100.0)
  {
    assert FiveGenres[2] != FiveBooks[2] && FiveGenres[0] != TenBooks[0];
    assert FiveGenres[0] != DayListened[0] && FiveGenres[0] != HundredHours[0];
    assert TenAuthors[3] != TenBooks[3] && TenAuthors[0] != FiveBooks[0];
    assert TenAuthors[0] != DayListened[0] && TenAuthors[2] != HundredHours[2];
  }

  lemma FirstBookProgress(completed: nat, total: nat, genres: nat, authors: nat)
    ensures Progress(FirstBook, completed, total, genres, authors) == None
  {
    assert FirstBook[0] != FiveBooks[0] && FirstBook[0] != TenBooks[0];
    assert FirstBook[0] != DayListened[0] && FirstBook[0] != HundredHours[0];
    assert FirstBook[0] != FiveGenres[0] && FirstBook[0] != TenAuthors[0];
  }

  /** What the `switch` gives for each name of the ladder. */
  lemma ProgressByName(completed: nat, total: nat, genres: nat, authors: nat)
    ensures Progress(FirstBook, completed, total, genres, authors) == None
    ensures Progress(FiveBooks, completed, total, genres, authors) == Some((completed as real) / 5.0 * 100.0)
    ensures Progress(TenBooks, completed, total, genres, authors) == Some((completed as real) / 10.0 * 100.0)
    ensures Progress(DayListened, completed, total, genres, authors) == Some((total as real) / (24.0 * 3600.0) * 100.0)
    ensures Progress(HundredHours, completed, total, genres, authors) == Some((total as real) / (100.0 * 3600.0) * 100.0)
    ensures Progress(FiveGenres, completed, total, genres, authors) == Some((genres as real) / 5.0 * 100.0)
    ensures Progress(TenAuthors, completed, total, genres, authors) == Some((authors as real) / 10.0 * 100.0)
  {
    FirstBookProgress(completed, total, genres, authors);
    BookProgress(completed, total, genres, authors);
    DayProgress(completed, total, genres, authors);
    HundredHoursProgress(completed, total, genres, authors);
    ExploredProgress(completed, total, genres, authors);
  }

  /** The `Progress` of each rung of the ladder, by position. */
  lemma LadderProgress(completed: nat, total: nat, genres: nat, authors: nat)
    ensures var ms := Ladder(completed, total, genres, authors);
      && Progress(ms[0].name, completed, total, genres, authors) == None
      && Progress(ms[1].name, completed, total, genres, authors) == Some((completed as real) / 5.0 * 100.0)
      && Progress(ms[2].name, completed, total, genres, authors) == Some((completed as real) / 10.0 * 100.0)
      && Progress(ms[3].name, completed, total, genres, authors) == Some((total as real) / (24.0 * 3600.0) * 100.0)
      && Progress(ms[4].name, completed, total, genres, authors) == Some((total as real) / (100.0 * 3600.0) * 100.0)
      && Progress(ms[5].name, completed, total, genres, authors) == Some((genres as real) / 5.0 * 100.0)
      && Progress(ms[6].name, completed, total, genres, authors) == Some((authors as real) / 10.0 * 100.0)
  {
    var ms := Ladder(completed, total, genres, authors);
    assert ms[0].name == FirstBook && ms[1].name == FiveBooks && ms[2].name == TenBooks;
    assert ms[3].name == DayListened && ms[4].name == HundredHours;
    assert ms[5].name == FiveGenres && ms[6].name == TenAuthors;
    ProgressByName(completed, total, genres, authors);
  }

  /** The progress of a rung that is not yet achieved, other than the first. */
  lemma UnachievedProgress(i: nat, completed: nat, total: nat, genres: nat, authors: nat)
    requires 0 < i < 7
    requires !Ladder(completed, total, genres, authors)[i].achieved
    ensures var p := Progress(Ladder(completed, total, genres, authors)[i].name, completed, total, genres, authors);
      p.Some? && 0.0 <= p.value < 100.0
  {
    LadderProgress(completed, total, genres, authors);
    if i == 1 {
      ShareBelow(completed, 5);
    } else if i == 2 {
      ShareBelow(completed, 10);
    } else if i == 3 {
      ShareBelow(total, 24 * 3600);
    } else if i == 4 {
      ShareBelow(total, 100 * 3600);
    } else if i == 5 {
      ShareBelow(genres, 5);
    } else {
      ShareBelow(authors, 10);
    }
  }

  /** The next milestone of a ladder: it is "First Book Completed", and has no
      progress figure, exactly when no book is completed; every other next
      milestone has a progress in [0, 100), since it is not yet achieved. */
  lemma NextMilestoneProgress(completed: nat, total: nat, genres: nat, authors: nat)
    ensures var ms := Ladder(completed, total, genres, authors);
      match FirstUnachieved(ms)
      case None =>
        completed >= 10 && total >= 100 * SecondsPerHour && genres >= 5 && authors >= 10
      case Some(i) =>
        var p := Progress(ms[i].name, completed, total, genres, authors);
        && (i == 0 <==> completed == 0)
        && (p.None? <==> i == 0)
        && (p.Some? ==> 0.0 <= p.value < 100.0)
  {
    var ms := Ladder(completed, total, genres, authors);
    match FirstUnachieved(ms)
    case None =>
      assert ms[2].achieved && ms[4].achieved && ms[5].achieved && ms[6].achieved;
    case Some(i) =>
      assert ms[0].achieved <==> completed > 0;
      if i == 0 {
        LadderProgress(completed, total, genres, authors);
      } else {
        UnachievedProgress(i, completed, total, genres, authors);
      }
  }
}
