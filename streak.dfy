/** `calculateStreak` and `isConsecutiveDay` (backend/routes/users.js): the
    number of consecutive calendar days of listening, counted back from the most
    recent day on which the user listened. */
module Streaks {
  import opened Records
  import opened Sorting

  /** `new Date('YYYY-MM-DD')`: midnight UTC of a day number, in milliseconds. */
  function Midnight(day: int): int {
    day * MsPerDay
  }

  function Abs(x: int): nat {
    if x < 0 then -x else x
  }

  /** `Math.ceil(n / d)` for a non-negative integer `n` and a positive `d`. */
  function CeilDiv(n: nat, d: int): nat
    requires d > 0
  {
    (n + d - 1) / d
  }

  /** `Math.ceil(Math.abs(date2 - date1) / day) === 1`. */
  predicate IsConsecutiveDay(t1: int, t2: int) {
    CeilDiv(Abs(t2 - t1), MsPerDay) == 1
  }

  /** Two timestamps are "consecutive days" exactly when they differ by more
      than nothing and by at most one day. */
  lemma ConsecutiveMeans(t1: int, t2: int)
    ensures IsConsecutiveDay(t1, t2) <==> 0 < Abs(t2 - t1) <= MsPerDay
  {
    var n := Abs(t2 - t1);
    if 0 < n <= MsPerDay {
      assert MsPerDay <= n + MsPerDay - 1 < 2 * MsPerDay;
    } else if n == 0 {
      assert (MsPerDay - 1) / MsPerDay == 0;
    } else {
      assert n + MsPerDay - 1 >= 2 * MsPerDay;
    }
  }

  /** For the midnights of two calendar days, "consecutive" means one day apart. */
  lemma ConsecutiveDays(a: int, b: int)
    ensures IsConsecutiveDay(Midnight(a), Midnight(b)) <==> Abs(a - b) == 1
  {
    ConsecutiveMeans(Midnight(a), Midnight(b));
    assert Midnight(b) - Midnight(a) == (b - a) * MsPerDay;
    if Abs(a - b) >= 2 {
      assert Abs((b - a) * MsPerDay) == Abs(b - a) * MsPerDay;
      assert Abs(b - a) * MsPerDay >= 2 * MsPerDay;
    } else if Abs(a - b) == 1 {
      assert Abs((b - a) * MsPerDay) == MsPerDay;
    }
  }

  /** The sort key of the descending sort `(a, b) => new Date(b) - new Date(a)`. */
  function DayKey(day: int): real {
    day as real
  }

  /** What the counting loop returns for the sorted days: the length of the
      leading run in which each day is consecutive with the one before it. */
  function Streak(days: seq<int>): (r: nat)
    ensures r <= |days|
    ensures r == 0 <==> days == []
    ensures forall k :: 0 < k < r ==> IsConsecutiveDay(Midnight(days[k - 1]), Midnight(days[k]))
    ensures r < |days| ==> r > 0 && !IsConsecutiveDay(Midnight(days[r - 1]), Midnight(days[r]))
  {
    if days == [] then 0
    else if |days| == 1 then 1
    else if IsConsecutiveDay(Midnight(days[0]), Midnight(days[1])) then
      assert forall k :: 0 < k < |days| - 1 ==> days[1..][k - 1] == days[k] && days[1..][k] == days[k + 1];
      1 + Streak(days[1..])
    else 1
  }

  /** The contract of `Streak` determines it: a count with those four
      properties is the streak. */
  lemma {:induction false} StreakUnique(days: seq<int>, r: nat)
    requires r <= |days|
    requires r == 0 <==> days == []
    requires forall k :: 0 < k < r ==> IsConsecutiveDay(Midnight(days[k - 1]), Midnight(days[k]))
    requires r < |days| ==> r > 0 && !IsConsecutiveDay(Midnight(days[r - 1]), Midnight(days[r]))
    ensures Streak(days) == r
  {
    if |days| > 1 && r > 1 {
      assert IsConsecutiveDay(Midnight(days[0]), Midnight(days[1]));
      StreakUnique(days[1..], r - 1);
    }
  }

  /** For distinct days sorted most recent first, the streak is a run of
      calendar days going back one at a time from the most recent day (not from
      today): day `k` of the run is exactly `k` days before the first. */
  lemma {:induction false} StreakIsRunFromLatest(days: seq<int>)
    requires SortedDesc(days, DayKey)
    requires forall i, j :: 0 <= i < j < |days| ==> days[i] != days[j]
    ensures forall k :: 0 <= k < Streak(days) ==> days[k] == days[0] - k
  {
    var r := Streak(days);
    if r > 0 {
      var k := 1;
      while k < r
        invariant 1 <= k <= r
        invariant forall m :: 0 <= m < k ==> days[m] == days[0] - m
      {
        ConsecutiveDays(days[k - 1], days[k]);
        assert DayKey(days[k - 1]) >= DayKey(days[k]);
        k := k + 1;
      }
    }
  }

  /** `calculateStreak(dates)`: sorts its argument in place, most recent day
      first, then counts while the days stay consecutive. */
  method CalculateStreak(dates: array<int>) returns (streak: nat)
    modifies dates
    ensures dates[..] == Sort(old(dates[..]), DayKey)
    ensures streak == Streak(dates[..])
  {
    SortInPlace(dates, DayKey);
    streak := 0;
    var i := 0;
    while i < dates.Length
      invariant 0 <= i <= dates.Length
      invariant streak == i
      invariant forall k :: 0 < k < i ==> IsConsecutiveDay(Midnight(dates[k - 1]), Midnight(dates[k]))
    {
      if i == 0 || IsConsecutiveDay(Midnight(dates[i - 1]), Midnight(dates[i])) {
        streak := streak + 1;
      } else {
        break;
      }
      i := i + 1;
    }
    StreakUnique(dates[..], streak);
  }
}
