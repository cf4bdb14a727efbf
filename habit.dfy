/** The streak calculators of the `Habit` class: `current_streak`, which walks
    backward from a reference day, and `highest_streak`, which tiles the whole
    history into fixed windows. A date is a whole day number, so that adding
    `timedelta(days=k)` is adding `k`; a cadence (`equal_days`) is an `int`,
    which nothing forces to be positive. */
module Habit {
  import opened Wrappers
  import opened CheckDates

  /** The check dates that `_to_date` turns into dates: a missing date
      (`None`) is dropped and every other date is kept, in order. */
  function Present(checkDates: seq<Option<int>>): seq<int> {
    if checkDates == [] then
      []
    else
      (if checkDates[0].Some? then [checkDates[0].value] else []) + Present(checkDates[1..])
  }

  /** Each date is kept exactly as often as it was recorded, and `None` never
      becomes a date. */
  lemma {:induction false} PresentKeepsDates(checkDates: seq<Option<int>>)
    ensures forall d :: multiset(Present(checkDates))[d] == multiset(checkDates)[Some(d)]
    ensures |Present(checkDates)| == |checkDates| - multiset(checkDates)[None]
  {
    if checkDates != [] {
      assert checkDates == [checkDates[0]] + checkDates[1..];
      PresentKeepsDates(checkDates[1..]);
    }
  }

  // ---------------------------------------------------------------------------
  // current_streak

  /** The distinct check dates on or before `end`. */
  ghost function UpTo(dates: seq<int>, end: int): set<int> {
    set d | d in dates && d <= end
  }

  /** What `current_streak` computes, stated without its loop: list the
      distinct check dates up to `today`, newest first. If there are none, or
      the newest lies before the current window of `k` days ending on `today`,
      the streak is 0; otherwise it is the number of leading dates in that
      list each of which is at most `k` days before the previous one. */
  ghost function CurrentStreakOf(dates: seq<int>, k: int, today: int): nat {
    StreakOfSet(UpTo(dates, today), k, today)
  }

  /** The same, for a set of dates none of which is after `today`. */
  ghost function StreakOfSet(s: set<int>, k: int, today: int): nat {
    var recent := NewestFirst(s);
    if recent == [] || recent[0] < today - (k - 1) then 0 else RunLength(recent, k)
  }

  /** Taking the newest date `x` of a set, when it lies in the window ending on
      `today`, leaves the streak of the other dates as of the day before `x`. */
  lemma StreakOfSetSplits(s: set<int>, x: int, k: int, today: int)
    requires x in s && Latest(s) == x
    requires today - (k - 1) <= x <= today
    ensures StreakOfSet(s, k, today) == 1 + StreakOfSet(s - {x}, k, x - 1)
  {
    var rest := NewestFirst(s - {x});
    assert NewestFirst(s) == [x] + rest;
    RunLengthCons(x, rest, k);
  }

  /** The loop of `current_streak` as a recursive function: `i` is the index
      of the newest check date not yet looked at in the ascending list `days`,
      `end` the last day of the current window. */
  ghost function Walk(days: seq<int>, i: int, end: int, k: int): nat
    requires -1 <= i < |days|
    decreases i + 1
  {
    if i < 0 then 0
    else if days[i] > end then Walk(days, i - 1, end, k)
    else if days[i] < end - (k - 1) then 0
    else 1 + Walk(days, i - 1, days[i] - 1, k)
  }

  /** The early `return 0` taken when the newest check is more than `k` days
      old never changes the result: the loop, started from any date no later
      than one before its first window, returns 0 too. */
  lemma {:induction false} EarlyReturnIsRedundant(days: seq<int>, i: int, end: int, k: int)
    requires Ascending(days)
    requires 0 <= i < |days|
    requires end - days[i] > k
    ensures Walk(days, i, end, k) == 0
    decreases i
  {
    if days[i] > end && i > 0 {
      EarlyReturnIsRedundant(days, i - 1, end, k);
    }
  }

  /** A check date after `end` does not change the dates up to `end`. */
  lemma UpToSkipsLater(days: seq<int>, i: int, end: int)
    requires 0 <= i < |days|
    requires days[i] > end
    ensures UpTo(days[..i + 1], end) == UpTo(days[..i], end)
  {
    assert days[..i + 1] == days[..i] + [days[i]];
  }

  /** In an ascending list, the newest date up to `end` among the first `i + 1`
      is `days[i]` when that is not after `end`, and the others are the dates
      of the first `i` that lie before it. */
  lemma UpToNewest(days: seq<int>, i: int, end: int)
    requires Ascending(days)
    requires 0 <= i < |days|
    requires days[i] <= end
    ensures days[i] in UpTo(days[..i + 1], end)
    ensures Latest(UpTo(days[..i + 1], end)) == days[i]
    ensures UpTo(days[..i + 1], end) - {days[i]} == UpTo(days[..i], days[i] - 1)
  {
    var x := days[i];
    var s := UpTo(days[..i + 1], end);
    assert days[..i + 1][i] == x;
    assert x in s;
    forall d | d in s ensures d <= x {
      var j :| 0 <= j < i + 1 && days[..i + 1][j] == d;
    }
    var s' := UpTo(days[..i], x - 1);
    forall d | d in s - {x} ensures d in s' {
      var j :| 0 <= j < i + 1 && days[..i + 1][j] == d;
      assert days[..i][j] == d;
    }
    forall d | d in s' ensures d in s - {x} {
      var j :| 0 <= j < i && days[..i][j] == d;
      assert days[..i + 1][j] == d;
    }
  }

  /** So the newest-first list of those dates is `days[i]` followed by the
      newest-first list of the earlier ones. */
  lemma UpToSplitsNewest(days: seq<int>, i: int, end: int)
    requires Ascending(days)
    requires 0 <= i < |days|
    requires days[i] <= end
    ensures NewestFirst(UpTo(days[..i + 1], end)) == [days[i]] + NewestFirst(UpTo(days[..i], days[i] - 1))
  {
    UpToNewest(days, i, end);
    assert days[..i + 1][i] == days[i];
  }

  /** The run of a list that starts with `x` counts `x` and continues into
      the rest exactly when the rest starts at most `k` days before `x`. */
  lemma RunLengthCons(x: int, rest: seq<int>, k: int)
    ensures RunLength([x] + rest, k) ==
      if rest == [] || rest[0] < x - k then 1 else 1 + RunLength(rest, k)
  {
    assert ([x] + rest)[1..] == rest;
  }

  /** Counting `days[i]` as the newest check inside the window ending on
      `end` leaves the streak of the earlier dates, evaluated on the day
      before `days[i]`. */
  lemma CurrentStreakSplits(days: seq<int>, i: int, end: int, k: int)
    requires Ascending(days)
    requires 0 <= i < |days|
    requires end - (k - 1) <= days[i] <= end
    ensures CurrentStreakOf(days[..i + 1], k, end) == 1 + CurrentStreakOf(days[..i], k, days[i] - 1)
  {
    UpToNewest(days, i, end);
    StreakOfSetSplits(UpTo(days[..i + 1], end), days[i], k, end);
  }

  /** The loop computes the newest-first run described by `CurrentStreakOf`. */
  lemma {:induction false} WalkIsRun(days: seq<int>, i: int, end: int, k: int)
    requires Ascending(days)
    requires -1 <= i < |days|
    ensures Walk(days, i, end, k) == CurrentStreakOf(days[..i + 1], k, end)
    decreases i + 1
  {
    if i < 0 {
      assert UpTo(days[..0], end) == {};
    } else if days[i] > end {
      UpToSkipsLater(days, i, end);
      WalkIsRun(days, i - 1, end, k);
    } else if days[i] < end - (k - 1) {
      UpToSplitsNewest(days, i, end);
    } else {
      assert Walk(days, i, end, k) == 1 + Walk(days, i - 1, days[i] - 1, k);
      assert days[..i - 1 + 1] == days[..i];
      WalkIsRun(days, i - 1, days[i] - 1, k);
      CurrentStreakSplits(days, i, end, k);
    }
  }

  /** Walking the sorted dates from `today` computes `CurrentStreakOf`. */
  lemma SortedWalkIsCurrentStreak(dates: seq<int>, days: seq<int>, k: int, today: int)
    requires Ascending(days)
    requires multiset(days) == multiset(dates)
    ensures Walk(days, |days| - 1, today, k) == CurrentStreakOf(dates, k, today)
  {
    WalkIsRun(days, |days| - 1, today, k);
    assert days[..|days|] == days;
    forall d ensures d in days <==> d in dates {
      assert d in days <==> d in multiset(days);
      assert d in dates <==> d in multiset(dates);
    }
    assert UpTo(days, today) == UpTo(dates, today);
  }

  /** `Habit.current_streak`. The creation date is a parameter of the source
      that its body never reads. */
  method CurrentStreak(checkDates: seq<Option<int>>, equalDays: int, today: int, createdDate: Option<int>)
    returns (streak: nat)
    ensures streak == CurrentStreakOf(Present(checkDates), equalDays, today)
  {
    var days := SortDates(Present(checkDates));
    ghost var n := |days|;
    if |days| == 0 {
      SortedWalkIsCurrentStreak(Present(checkDates), days, equalDays, today);
      return 0;
    }
    if today - days[|days| - 1] > equalDays {
      EarlyReturnIsRedundant(days, n - 1, today, equalDays);
      assert Walk(days, n - 1, today, equalDays) == 0;
      SortedWalkIsCurrentStreak(Present(checkDates), days, equalDays, today);
      return 0;
    }
    streak := 0;
    var end := today;
    var i := |days| - 1;
    while i >= 0
      invariant -1 <= i < |days|
      invariant streak + Walk(days, i, end, equalDays) == Walk(days, n - 1, today, equalDays)
    {
      while i >= 0 && days[i] > end
        invariant -1 <= i < |days|
        invariant streak + Walk(days, i, end, equalDays) == Walk(days, n - 1, today, equalDays)
      {
        i := i - 1;
      }
      if i < 0 {
        break;
      }
      var windowStart := end - (equalDays - 1);
      if days[i] < windowStart {
        break;
      }
      streak := streak + 1;
      end := days[i] - 1;
      i := i - 1;
    }
    assert streak == Walk(days, n - 1, today, equalDays);
    SortedWalkIsCurrentStreak(Present(checkDates), days, equalDays, today);
  }

  // ---------------------------------------------------------------------------
  // Properties of current_streak

  /** The checks `current_streak` counts: listing the distinct checks up to
      `today` newest first, the first one counted lies in the window of `k`
      days ending on `today`, each further one is at most `k` days before the
      one before it, and the count stops at the first larger gap; it never
      exceeds the number of distinct checks up to `today`. */
  lemma CurrentStreakCounts(dates: seq<int>, k: int, today: int)
    ensures var recent := NewestFirst(UpTo(dates, today));
      StrictlyDescending(recent) &&
      (forall d :: d in recent <==> d in dates && d <= today) &&
      |recent| == |UpTo(dates, today)|
    ensures var recent := NewestFirst(UpTo(dates, today));
      var n := CurrentStreakOf(dates, k, today);
      n <= |recent| &&
      (n > 0 ==> today - (k - 1) <= recent[0] <= today) &&
      (forall j :: 0 < j < n ==> Gap(recent, j) <= k) &&
      (0 < n < |recent| ==> Gap(recent, n) > k)
  {
    NewestFirstLists(UpTo(dates, today));
    var recent := NewestFirst(UpTo(dates, today));
    if recent != [] {
      var d := recent[0];
      assert d in recent;
    }
  }

  /** `current_streak` is 0 exactly when no check lies in the window of `k`
      days ending on `today`; in particular when the newest check is more
      than `k` days old, as the early return says. */
  lemma CurrentStreakZeroIff(dates: seq<int>, k: int, today: int)
    ensures CurrentStreakOf(dates, k, today) == 0 <==>
      !exists d :: d in dates && today - (k - 1) <= d <= today
  {
    var s := UpTo(dates, today);
    var recent := NewestFirst(s);
    NewestFirstLists(s);
    if d :| d in dates && today - (k - 1) <= d <= today {
      assert d in s;
      assert recent[0] == Latest(s);
    }
  }

  /** A check after `today`, or a second check on a day already checked,
      does not change `current_streak`. */
  lemma CurrentStreakIgnores(dates: seq<int>, d: int, k: int, today: int)
    requires d > today || d in dates
    ensures CurrentStreakOf(dates + [d], k, today) == CurrentStreakOf(dates, k, today)
  {
    assert UpTo(dates + [d], today) == UpTo(dates, today);
  }

  /** Given a newest-first listing of the distinct checks up to `today`,
      `current_streak` is 0 when it is empty or starts before the current
      window, and otherwise the leading run of gaps at most `k`. */
  lemma StreakOfListing(dates: seq<int>, k: int, today: int, recent: seq<int>)
    requires StrictlyDescending(recent)
    requires forall d :: d in recent <==> d in dates && d <= today
    ensures CurrentStreakOf(dates, k, today) ==
      if recent == [] || recent[0] < today - (k - 1) then 0 else RunLength(recent, k)
  {
    NewestFirstUnique(recent, UpTo(dates, today));
  }

  /** No checks give 0. */
  lemma NoChecksNoStreak(k: int, today: int)
    ensures CurrentStreakOf([], k, today) == 0
  {
    assert UpTo([], today) == {};
  }

  /** A single check on the reference day gives 1 for every cadence of at
      least one day. */
  lemma SingleCheckToday(k: int, today: int)
    requires k >= 1
    ensures CurrentStreakOf([today], k, today) == 1
  {
    StreakOfListing([today], k, today, [today]);
  }

  /** With a daily cadence, checks on the last three days give 3, and a
      missed day in between breaks the run. */
  lemma DailyRuns(d: int)
    ensures CurrentStreakOf([d - 2, d - 1, d], 1, d) == 3
    ensures CurrentStreakOf([d - 2, d], 1, d) == 1
  {
    StreakOfListing([d - 2, d - 1, d], 1, d, [d, d - 1, d - 2]);
    RunLengthCons(d, [d - 1, d - 2], 1);
    RunLengthCons(d - 1, [d - 2], 1);
    RunLengthCons(d - 2, [], 1);
    assert [d] + [d - 1, d - 2] == [d, d - 1, d - 2];
    assert [d - 1] + [d - 2] == [d - 1, d - 2];
    StreakOfListing([d - 2, d], 1, d, [d, d - 2]);
    RunLengthCons(d, [d - 2], 1);
    assert [d] + [d - 2] == [d, d - 2];
  }

  /** A single check today with a daily cadence gives 1. */
  lemma CheckedTodayDaily()
    ensures CurrentStreakOf([16], 1, 16) == 1
  {
    SingleCheckToday(1, 16);
  }

  /** Checks yesterday and today with a daily cadence give 2. */
  lemma CheckedTwoDaysDaily()
    ensures CurrentStreakOf([15, 16], 1, 16) == 2
  {
    assert UpTo([15, 16], 16) == {15, 16};
    NewestFirstUnique([16, 15], {15, 16});
    RunLengthCons(16, [15], 1);
    RunLengthCons(15, [], 1);
    assert [16] + [15] == [16, 15];
  }

  /** Checks on days 1, 8 and 15 with a weekly cadence give 3 on day 16. */
  lemma CheckedThreeWeeks()
    ensures CurrentStreakOf([1, 8, 15], 7, 16) == 3
  {
    StreakOfListing([1, 8, 15], 7, 16, [15, 8, 1]);
    RunLengthCons(15, [8, 1], 7);
    RunLengthCons(8, [1], 7);
    RunLengthCons(1, [], 7);
    assert [15] + [8, 1] == [15, 8, 1];
    assert [8] + [1] == [8, 1];
  }

  /** Checks on days 1 and 12 with a weekly cadence give 0 on day 20: the
      newest is 8 days old. */
  lemma WeeklyCheckTooOld()
    ensures CurrentStreakOf([1, 12], 7, 20) == 0
  {
    CurrentStreakZeroIff([1, 12], 7, 20);
  }

  /** With a weekly cadence and checks on days 1, 7 and 14, the current
      streak on day 14 is 3: each check is at most 7 days before the next. */
  lemma CurrentOfDays1And7And14()
    ensures CurrentStreakOf([1, 7, 14], 7, 14) == 3
  {
    StreakOfListing([1, 7, 14], 7, 14, [14, 7, 1]);
    RunLengthCons(14, [7, 1], 7);
    RunLengthCons(7, [1], 7);
    RunLengthCons(1, [], 7);
    assert [14] + [7, 1] == [14, 7, 1];
    assert [7] + [1] == [7, 1];
  }

  // ---------------------------------------------------------------------------
  // highest_streak

  /** The distinct check dates. */
  ghost function Dates(dates: seq<int>): set<int> {
    set d | d in dates
  }

  /** Whether one of the dates lies in the window from `lo` to `hi`, both
      days included. */
  ghost predicate HasCheck(dates: seq<int>, lo: int, hi: int) {
    exists d :: d in dates && lo <= d <= hi
  }

  /** The windows of `highest_streak`, newest first, each marked with whether
      it holds a check: the window ending on `end` covers the `k` days up to
      and including `end`, the next one ends on the day before it starts, and
      windows are produced while their end is not before `first`. */
  ghost function WindowHits(dates: seq<int>, end: int, first: int, k: int): seq<bool>
    requires k >= 1
    decreases end - first
  {
    if end < first then [] else [HasCheck(dates, end - (k - 1), end)] + WindowHits(dates, end - k, first, k)
  }

  /** The `j`-th window covers the days `end - j * k - (k - 1)` to `end - j * k`,
      so the windows are disjoint, contiguous and `k` days long; the last
      one still ends on or after `first` and the next would end before it. */
  lemma {:induction false} WindowsTile(dates: seq<int>, end: int, first: int, k: int)
    requires k >= 1
    ensures var w := WindowHits(dates, end, first, k);
      forall j :: 0 <= j < |w| ==> w[j] == HasCheck(dates, end - j * k - (k - 1), end - j * k)
    ensures var w := WindowHits(dates, end, first, k);
      (end < first ==> w == []) &&
      (end >= first ==> w != [] && end - (|w| - 1) * k >= first && end - |w| * k < first)
    decreases end - first
  {
    if end >= first {
      var w := WindowHits(dates, end, first, k);
      var rest := WindowHits(dates, end - k, first, k);
      WindowsTile(dates, end - k, first, k);
      assert w == [HasCheck(dates, end - (k - 1), end)] + rest;
      forall j | 0 < j < |w| ensures w[j] == HasCheck(dates, end - j * k - (k - 1), end - j * k) {
        assert w[j] == rest[j - 1];
        assert (end - k) - (j - 1) * k == end - j * k;
      }
      if rest != [] {
        assert (end - k) - (|rest| - 1) * k == end - (|w| - 1) * k;
        assert (end - k) - |rest| * k == end - |w| * k;
      }
    }
  }

  /** The windows depend only on which dates were checked, not on their
      order or repetition. */
  lemma {:induction false} WindowHitsSameDates(a: seq<int>, b: seq<int>, end: int, first: int, k: int)
    requires k >= 1
    requires forall d :: d in a <==> d in b
    ensures WindowHits(a, end, first, k) == WindowHits(b, end, first, k)
    decreases end - first
  {
    if end >= first {
      assert HasCheck(a, end - (k - 1), end) == HasCheck(b, end - (k - 1), end);
      WindowHitsSameDates(a, b, end - k, first, k);
    }
  }

  /** The number of windows in a row at the end of `hits` that hold a check. */
  function TrailingRun(hits: seq<bool>): (n: nat)
    ensures n <= |hits|
  {
    if hits == [] || !hits[|hits| - 1] then 0 else 1 + TrailingRun(hits[..|hits| - 1])
  }

  /** The trailing run is a run, and the window before it holds no check. */
  lemma {:induction false} TrailingRunIsRun(hits: seq<bool>)
    ensures IsRun(hits, |hits| - TrailingRun(hits), TrailingRun(hits))
    ensures TrailingRun(hits) < |hits| ==> !hits[|hits| - 1 - TrailingRun(hits)]
  {
    if hits != [] && hits[|hits| - 1] {
      var init := hits[..|hits| - 1];
      TrailingRunIsRun(init);
      forall m | |hits| - TrailingRun(hits) <= m < |hits| ensures hits[m] {
        if m < |hits| - 1 {
          assert init[m] == hits[m];
        }
      }
      if TrailingRun(hits) < |hits| {
        assert init[|hits| - 1 - TrailingRun(hits)] == hits[|hits| - 1 - TrailingRun(hits)];
      }
    }
  }

  function Max(a: int, b: int): int {
    if a < b then b else a
  }

  /** The longest run of consecutive windows holding a check: it either lies
      before the last window or ends with it. */
  function LongestRun(hits: seq<bool>): (n: nat)
    ensures n <= |hits|
  {
    if hits == [] then 0 else Max(LongestRun(hits[..|hits| - 1]), TrailingRun(hits))
  }

  /** The `len` windows from index `i` on all hold a check. */
  predicate IsRun(hits: seq<bool>, i: int, len: int) {
    0 <= i && 0 <= len && i + len <= |hits| && forall m :: i <= m < i + len ==> hits[m]
  }

  /** `LongestRun` is the length of the longest run: no run of windows that
      all hold a check is longer, and one run is that long. */
  lemma {:induction false} LongestRunIsLongest(hits: seq<bool>)
    ensures forall i, len :: IsRun(hits, i, len) ==> len <= LongestRun(hits)
    ensures exists i :: IsRun(hits, i, LongestRun(hits))
  {
    if hits == [] {
      assert IsRun(hits, 0, 0);
    } else {
      var n := |hits|;
      var init := hits[..n - 1];
      var t := TrailingRun(hits);
      LongestRunIsLongest(init);
      TrailingRunIsRun(hits);
      forall i, len | IsRun(hits, i, len) ensures len <= LongestRun(hits) {
        if i + len < n {
          assert IsRun(init, i, len) by {
            forall m | i <= m < i + len ensures init[m] {
              assert init[m] == hits[m];
            }
          }
        }
      }
      if LongestRun(init) < t {
        assert IsRun(hits, n - t, t);
      } else {
        var i :| IsRun(init, i, LongestRun(init));
        assert IsRun(hits, i, LongestRun(hits)) by {
          forall m | i <= m < i + LongestRun(init) ensures hits[m] {
            assert init[m] == hits[m];
          }
        }
      }
    }
  }

  /** What `highest_streak` computes, stated without its loop: tile the days
      from the newest check back past the oldest into windows of `k` days
      and take the longest run of consecutive windows that hold a check; no
      checks give 0. */
  ghost function HighestStreakOf(dates: seq<int>, k: int): nat
    requires dates != [] ==> k >= 1
  {
    if dates == [] then
      0
    else
      var s := Dates(dates);
      assert dates[0] in s;
      LongestRun(WindowHits(dates, Latest(s), Earliest(s), k))
  }

  /** The windows of the sorted, deduplicated dates are those of the dates. */
  lemma HighestOfSorted(dates: seq<int>, days: seq<int>, k: int)
    requires StrictlyAscending(days) && days != [] && k >= 1
    requires forall d :: d in days <==> d in dates
    ensures dates != []
    ensures HighestStreakOf(dates, k) == LongestRun(WindowHits(days, days[|days| - 1], days[0], k))
  {
    assert days[0] in days;
    assert forall d :: d in days <==> d in Dates(dates);
    AscendingEnds(days, Dates(dates));
    WindowHitsSameDates(dates, days, days[|days| - 1], days[0], k);
  }

  /** The loop of `highest_streak` as a recursive function: `cur` is the
      run of windows holding a check that ends with the last window seen,
      `best` the longest run so far, and `end` the end of the next window. */
  ghost function ScanWindows(days: seq<int>, end: int, first: int, k: int, cur: int, best: int): int
    requires k >= 1
    decreases end - first
  {
    if end < first then
      best
    else if HasCheck(days, end - (k - 1), end) then
      ScanWindows(days, end - (k - 1) - 1, first, k, cur + 1, Max(best, cur + 1))
    else
      ScanWindows(days, end - (k - 1) - 1, first, k, 0, best)
  }

  /** Scanning the windows still to come, starting from the runs of the
      windows already seen, gives the longest run of all of them. */
  lemma {:induction false} ScanIsLongestRun(seen: seq<bool>, days: seq<int>, end: int, first: int, k: int)
    requires k >= 1
    ensures ScanWindows(days, end, first, k, TrailingRun(seen), LongestRun(seen)) ==
      LongestRun(seen + WindowHits(days, end, first, k))
    decreases end - first
  {
    if end < first {
      assert seen + WindowHits(days, end, first, k) == seen;
    } else {
      var h := HasCheck(days, end - (k - 1), end);
      NextWindow(seen, days, end, first, k);
      if h {
        RunsAfterHit(seen);
      } else {
        RunsAfterMiss(seen);
      }
      ScanIsLongestRun(seen + [h], days, end - (k - 1) - 1, first, k);
    }
  }

  /** Looking at the window ending on `end` moves it from the windows still
      to come to the windows seen. */
  lemma NextWindow(seen: seq<bool>, dates: seq<int>, end: int, first: int, k: int)
    requires k >= 1 && end >= first
    ensures seen + WindowHits(dates, end, first, k) ==
      (seen + [HasCheck(dates, end - (k - 1), end)]) + WindowHits(dates, end - (k - 1) - 1, first, k)
  {
    assert end - (k - 1) - 1 == end - k;
    var rest := WindowHits(dates, end - k, first, k);
    var h := HasCheck(dates, end - (k - 1), end);
    assert WindowHits(dates, end, first, k) == [h] + rest;
    assert seen + ([h] + rest) == (seen + [h]) + rest;
  }

  /** Scanning the windows of the sorted, deduplicated dates from the newest
      one gives `HighestStreakOf` the dates. */
  lemma HighestScansSorted(dates: seq<int>, days: seq<int>, k: int)
    requires StrictlyAscending(days) && days != [] && k >= 1
    requires forall d :: d in days <==> d in dates
    ensures ScanWindows(days, days[|days| - 1], days[0], k, 0, 0) == HighestStreakOf(dates, k)
  {
    HighestOfSorted(dates, days, k);
    var w := WindowHits(days, days[|days| - 1], days[0], k);
    ScanIsLongestRun([], days, days[|days| - 1], days[0], k);
    assert [] + w == w;
  }

  /** Two lists of the same dates are empty together. */
  lemma SameDatesBothEmpty(a: seq<int>, b: seq<int>)
    requires forall d :: d in a <==> d in b
    ensures a == [] <==> b == []
  {
    if a != [] {
      var d := a[0];
      assert d in a;
    }
    if b != [] {
      var d := b[0];
      assert d in b;
    }
  }

  /** Python's `any` over the sorted dates: whether one of them lies in the
      window from `lo` to `hi`. */
  method AnyInWindow(days: seq<int>, lo: int, hi: int) returns (found: bool)
    ensures found <==> exists d :: d in days && lo <= d <= hi
  {
    found := false;
    var i := 0;
    while i < |days| && !found
      invariant 0 <= i <= |days|
      invariant found <==> exists d :: d in days[..i] && lo <= d <= hi
    {
      assert days[..i + 1] == days[..i] + [days[i]];
      found := lo <= days[i] <= hi;
      if found {
        assert days[i] in days[..i + 1];
      }
      i := i + 1;
    }
    if found {
      var d :| d in days[..i] && lo <= d <= hi;
      assert d in days;
    } else {
      assert days[..i] == days;
    }
  }

  /** Appending a window that holds a check extends the trailing run by one. */
  lemma RunsAfterHit(hits: seq<bool>)
    ensures TrailingRun(hits + [true]) == TrailingRun(hits) + 1
    ensures LongestRun(hits + [true]) == Max(LongestRun(hits), TrailingRun(hits) + 1)
  {
    assert (hits + [true])[..|hits|] == hits;
  }

  /** Appending a window without a check ends the trailing run. */
  lemma RunsAfterMiss(hits: seq<bool>)
    ensures TrailingRun(hits + [false]) == 0
    ensures LongestRun(hits + [false]) == LongestRun(hits)
  {
    assert (hits + [false])[..|hits|] == hits;
  }

  /** `Habit.highest_streak`. The source loops forever when a habit with
      checks has a cadence below 1, so such a call is excluded. */
  method HighestStreak(checkDates: seq<Option<int>>, equalDays: int) returns (best: nat)
    requires Present(checkDates) != [] ==> equalDays >= 1
    ensures best == HighestStreakOf(Present(checkDates), equalDays)
  {
    var days := SortDistinctDates(Present(checkDates));
    SameDatesBothEmpty(days, Present(checkDates));
    if |days| == 0 {
      return 0;
    }
    var minDay := days[0];
    var windowEnd := days[|days| - 1];
    ghost var result := ScanWindows(days, windowEnd, minDay, equalDays, 0, 0);
    best := 0;
    var cur := 0;
    while windowEnd >= minDay
      invariant ScanWindows(days, windowEnd, minDay, equalDays, cur, best) == result
      decreases windowEnd - minDay
    {
      var windowStart := windowEnd - (equalDays - 1);
      var hasCheck := AnyInWindow(days, windowStart, windowEnd);
      assert hasCheck == HasCheck(days, windowStart, windowEnd);
      if hasCheck {
        cur := cur + 1;
        if cur > best {
          best := cur;
        }
      } else {
        cur := 0;
      }
      windowEnd := windowStart - 1;
    }
    HighestScansSorted(Present(checkDates), days, equalDays);
  }

  // ---------------------------------------------------------------------------
  // Properties of highest_streak

  lemma SubsetNoLarger(a: set<int>, b: set<int>)
    requires a <= b
    ensures |a| <= |b|
  {
    assert b == a + (b - a);
  }

  lemma ProperSubsetSmaller(a: set<int>, b: set<int>, x: int)
    requires a <= b && x in b && x !in a
    ensures |a| < |b|
  {
    assert b == a + (b - a);
    assert x in b - a;
  }

  /** No run is longer than the number of windows that hold a check. */
  lemma {:induction false} RunsBelowHits(hits: seq<bool>)
    ensures TrailingRun(hits) <= multiset(hits)[true]
    ensures LongestRun(hits) <= multiset(hits)[true]
  {
    if hits != [] {
      var init := hits[..|hits| - 1];
      RunsBelowHits(init);
      assert hits == init + [hits[|hits| - 1]];
    }
  }

  /** Since the windows are disjoint, each window holding a check holds a
      date of its own: there are no more such windows than distinct dates up
      to the end of the first window. */
  lemma {:induction false} HitsBelowDates(dates: seq<int>, end: int, first: int, k: int)
    requires k >= 1
    ensures multiset(WindowHits(dates, end, first, k))[true] <= |UpTo(dates, end)|
    decreases end - first
  {
    if end >= first {
      var h := HasCheck(dates, end - (k - 1), end);
      var rest := WindowHits(dates, end - k, first, k);
      assert WindowHits(dates, end, first, k) == [h] + rest;
      HitsBelowDates(dates, end - k, first, k);
      assert UpTo(dates, end - k) <= UpTo(dates, end);
      if h {
        var d :| d in dates && end - (k - 1) <= d <= end;
        ProperSubsetSmaller(UpTo(dates, end - k), UpTo(dates, end), d);
      } else {
        SubsetNoLarger(UpTo(dates, end - k), UpTo(dates, end));
      }
    }
  }

  /** `highest_streak` is 0 without checks; with checks it is at least 1,
      because the first window ends on the newest check, and at most both
      the number of windows and the number of distinct check dates. */
  lemma HighestStreakBounds(dates: seq<int>, k: int)
    requires dates != [] ==> k >= 1
    ensures dates == [] ==> HighestStreakOf(dates, k) == 0
    ensures dates != [] ==> 1 <= HighestStreakOf(dates, k) <= |Dates(dates)|
    ensures dates != [] ==>
      HighestStreakOf(dates, k) <= |WindowHits(dates, Latest(Dates(dates)), Earliest(Dates(dates)), k)|
  {
    if dates != [] {
      var s := Dates(dates);
      var d0 := dates[0];
      assert d0 in s;
      var m := Latest(s);
      var w := WindowHits(dates, m, Earliest(s), k);
      assert m in dates;
      assert HasCheck(dates, m - (k - 1), m);
      assert w[0];
      LongestRunIsLongest(w);
      assert IsRun(w, 0, 1);
      RunsBelowHits(w);
      HitsBelowDates(dates, m, Earliest(s), k);
      assert UpTo(dates, m) == s;
    }
  }

  /** Checks on days 1 and 4 with a cadence of 2 days fill both windows. */
  lemma HighestOfDays1And4()
    ensures HighestStreakOf([1, 4], 2) == 2
  {
    assert Dates([1, 4]) == {1, 4};
    assert Latest({1, 4}) == 4 && Earliest({1, 4}) == 1;
    assert HasCheck([1, 4], 3, 4) by {
      assert 4 in [1, 4];
    }
    assert HasCheck([1, 4], 1, 2) by {
      assert 1 in [1, 4];
    }
    assert WindowHits([1, 4], 0, 1, 2) == [];
    assert WindowHits([1, 4], 2, 1, 2) == [true];
    assert WindowHits([1, 4], 4, 1, 2) == [true, true];
    assert [true, true][..1] == [true];
    assert [true][..0] == [];
    assert LongestRun([true]) == 1;
  }

  /** A further check on day 5 moves the windows so that the one covering
      days 2 and 3 is empty. */
  lemma HighestOfDays1And4And5()
    ensures HighestStreakOf([1, 4, 5], 2) == 1
  {
    assert Dates([1, 4, 5]) == {1, 4, 5};
    assert Latest({1, 4, 5}) == 5 && Earliest({1, 4, 5}) == 1;
    assert HasCheck([1, 4, 5], 4, 5) by {
      assert 5 in [1, 4, 5];
    }
    assert !HasCheck([1, 4, 5], 2, 3);
    assert HasCheck([1, 4, 5], 0, 1) by {
      assert 1 in [1, 4, 5];
    }
    assert WindowHits([1, 4, 5], -1, 1, 2) == [];
    assert WindowHits([1, 4, 5], 1, 1, 2) == [true];
    assert WindowHits([1, 4, 5], 3, 1, 2) == [false, true];
    assert WindowHits([1, 4, 5], 5, 1, 2) == [true, false, true];
    assert [true, false, true][..2] == [true, false];
    assert [true, false][..1] == [true];
    assert [true][..0] == [];
    assert LongestRun([true]) == 1;
    assert LongestRun([true, false]) == 1;
  }

  /** The same checks tiled from day 14 fill the windows ending on days 14
      and 7, which gives 2. */
  lemma HighestOfDays1And7And14()
    ensures HighestStreakOf([1, 7, 14], 7) == 2
  {
    assert Dates([1, 7, 14]) == {1, 7, 14};
    assert Latest({1, 7, 14}) == 14 && Earliest({1, 7, 14}) == 1;
    assert HasCheck([1, 7, 14], 8, 14) by {
      assert 14 in [1, 7, 14];
    }
    assert HasCheck([1, 7, 14], 1, 7) by {
      assert 7 in [1, 7, 14];
    }
    assert WindowHits([1, 7, 14], 0, 1, 7) == [];
    assert WindowHits([1, 7, 14], 7, 1, 7) == [true];
    assert WindowHits([1, 7, 14], 14, 1, 7) == [true, true];
    assert [true, true][..1] == [true];
    assert [true][..0] == [];
    assert LongestRun([true]) == 1;
  }

  /** The two calculators anchor their windows differently, so the highest
      streak can be below the current one. */
  lemma HighestMayTrailCurrent()
    ensures exists dates: seq<int>, k: int, today: int ::
      k >= 1 && HighestStreakOf(dates, k) < CurrentStreakOf(dates, k, today)
  {
    CurrentOfDays1And7And14();
    HighestOfDays1And7And14();
    assert HighestStreakOf([1, 7, 14], 7) < CurrentStreakOf([1, 7, 14], 7, 14);
  }

  /** Adding a check can lower `highest_streak`. */
  lemma HighestStreakNotMonotone()
    ensures exists a: seq<int>, b: seq<int> ::
      (forall d :: d in a ==> d in b) && HighestStreakOf(b, 2) < HighestStreakOf(a, 2)
  {
    HighestOfDays1And4();
    HighestOfDays1And4And5();
    assert forall d :: d in [1, 4] ==> d in [1, 4, 5];
    assert HighestStreakOf([1, 4, 5], 2) < HighestStreakOf([1, 4], 2);
  }
}
