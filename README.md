# Habit tracker streak engine, in Dafny

This project models the cadence and streak engine of a small Python habit
tracker. A habit has a cadence, `equal_days` or `EqualsToDays`: the number of
days one period lasts. The engine reads a habit's check dates and its cadence
and computes two things:

- the **current streak**, with `Habit.current_streak`, which walks backwards
  from a reference day;
- the **highest streak ever**, with `Habit.highest_streak`, which tiles the
  whole history into fixed windows.

The database layer adds two more pieces:

- a normaliser, `_normalize_period`, that turns a period typed by the user
  into a label and a cadence;
- the SQL view `streaks`, which computes its own current streak per habit
  from the newest-first list of check rows.

A date is a whole day number, so `date - timedelta(days=k)` is `d - k`. A
cadence is an `int`, and nothing in the code forces it to be positive.

Files:

- `wrappers.dfy` (module `Wrappers`): `Option`, standing for Python's `None`.
- `check_dates.dfy` (module `CheckDates`) holds the orderings the calculators
  put dates in:
  - Python's `sorted` on a list and on a set, as methods;
  - the newest-first listing of a set of dates;
  - `RunLength`, the leading run of a newest-first list in which each date is
    at most `k` days before the one listed just before it.
- `habit.dfy` (module `Habit`) holds the two calculators of
  `models/habit.py`:
  - each is written as a method with the source's loops;
  - each is proved equal to a specification function stated without loops:
    `CurrentStreakOf` and `HighestStreakOf`;
  - the properties of those functions are proved as lemmas.
- `database.dfy` (module `Database`) holds the pure logic of
  `services/database.py`:
  - `NormalizePeriod` over a decimal parser `ParseInt`;
  - the `streaks` view as recursive functions over the ordered check rows,
    with `InStreak` for `in_streak`, `StreakGroup` for `streak_group` and
    `CountGroupZero` for `COUNT(*)`;
  - a lemma that the view agrees with `current_streak` when the checks are
    distinct, none lies after today, and the newest lies in the current
    window.

How the specifications read:

- **Current streak.** List the distinct checks up to `today`, newest first.
  The streak is 0 when the list is empty, or when its first date lies before
  the window `today - (k - 1) .. today`. Otherwise the streak is the length
  of the leading run of the list.
- **Highest streak.** Tile the days into windows of `k` days, from the newest
  check back past the oldest. Mark each window by whether it holds a check.
  The highest streak is the longest run of marked windows in a row.
- **Streaks view.** The view's count equals `RunLength` of the check rows
  ordered newest first, duplicates included. It never depends on the current
  date.

## Model

| member | source | states |
|---|---|---|
| `Habit.PresentKeepsDates` | models/habit.py:216 | `_to_date` drops each missing date (`None`) and keeps every other date exactly as often as it was recorded |
| `CheckDates.SortDates` | models/habit.py:216 | `sorted` of a list returns the same dates, duplicates kept, in ascending order |
| `CheckDates.SortDistinctDates` | models/habit.py:254 | `sorted` of a set returns each check date once, strictly ascending, and no other date |
| `CheckDates.RunLength` | models/habit.py:233-238 | the leading run of a newest-first list: every gap in it is at most `k`, it stops at the first gap larger than `k`, and it is at least 1 for a non-empty list |
| `Habit.CurrentStreak` | models/habit.py:205-241 | the method with the source's nested loops and early return returns exactly `CurrentStreakOf` the present dates; the creation date is never read |
| `Habit.WalkIsRun` | models/habit.py:223-241 | the loop (skip later checks, count the newest one if it is inside the window, then move the window end to the day before it) computes the leading run of the newest-first distinct checks |
| `Habit.EarlyReturnIsRedundant` | models/habit.py:220-221 | when the newest check is more than `equal_days` days old, the loop alone would also return 0, so the early return never changes the result |
| `Habit.CurrentStreakCounts` | models/habit.py:227-239 | the counted checks are distinct checks up to today, newest first; the first lies in the last `k` days up to today; each further one is at most `k` days before the previous one; counting stops at the first larger gap; the result is at most the number of distinct checks up to today |
| `Habit.CurrentStreakZeroIff` | models/habit.py:217-235 | the current streak is 0 exactly when no check lies in the window of `k` days ending on today, so a newest check more than `k` days old gives 0 |
| `Habit.CurrentStreakIgnores` | models/habit.py:228-238 | adding a check after today, or a second check on a day already checked, leaves the current streak unchanged |
| `Habit.NoChecksNoStreak` | models/habit.py:217-218 | no checks give a current streak of 0 for every cadence and day |
| `Habit.SingleCheckToday` | models/habit.py:205-241 | a single check on the reference day gives 1 for every cadence of at least one day |
| `Habit.DailyRuns` | models/habit.py:205-241 | with a daily cadence, checks on the last three days give 3, and a missed middle day leaves 1 |
| `Habit.CheckedTodayDaily` | tests/test_streaks.py:14 | a check today, daily cadence: 1 |
| `Habit.CheckedTwoDaysDaily` | tests/test_streaks.py:15 | checks yesterday and today, daily cadence: 2 |
| `Habit.CheckedThreeWeeks` | tests/test_streaks.py:16 | checks on August 1, 8 and 15, weekly cadence, on August 16: 3 |
| `Habit.WeeklyCheckTooOld` | tests/test_streaks.py:17 | checks on August 1 and 12, weekly cadence, on August 20: 0 |
| `Habit.CurrentOfDays1And7And14` | models/habit.py:205-241 | weekly cadence, checks on days 1, 7 and 14, on day 14: current streak 3 |
| `Habit.HighestStreak` | models/habit.py:244-278 | the method with the source's window loop returns exactly `HighestStreakOf` the present dates |
| `Habit.AnyInWindow` | models/habit.py:268 | `any(...)` is true exactly when some sorted date lies in the window, both ends included |
| `Habit.ScanIsLongestRun` | models/habit.py:262-276 | the running counters `cur` and `best`, carried over the windows still to come, end at the longest run of windows holding a check |
| `Habit.WindowsTile` | models/habit.py:265-276 | window `j` covers the days `end - j*k - (k-1)` to `end - j*k`, so the windows are disjoint, contiguous and exactly `k` days long; the last ends on or after the oldest check and the next would end before it |
| `Habit.LongestRunIsLongest` | models/habit.py:269-274 | `best` is the length of the longest run of consecutive windows holding a check: no such run is longer, and one is exactly that long |
| `Habit.HitsBelowDates` | models/habit.py:265-276 | the windows holding a check are no more than the distinct check dates up to the first window's end, since the windows are disjoint |
| `Habit.HighestStreakBounds` | models/habit.py:256-276 | 0 without checks; with checks, at least 1 (the first window ends on the newest check) and at most both the number of windows and the number of distinct dates |
| `Habit.HighestOfDays1And4` | models/habit.py:244-278 | cadence 2, checks on days 1 and 4: highest streak 2 |
| `Habit.HighestOfDays1And4And5` | models/habit.py:244-278 | cadence 2, checks on days 1, 4 and 5: highest streak 1 |
| `Habit.HighestStreakNotMonotone` | models/habit.py:259-276 | adding check dates can lower the highest streak, because the windows are anchored at the newest check |
| `Habit.HighestOfDays1And7And14` | models/habit.py:244-278 | weekly cadence, checks on days 1, 7 and 14: highest streak 2 |
| `Habit.HighestMayTrailCurrent` | models/habit.py:205-278 | the highest streak can be lower than the current streak for the same checks and cadence |
| `Database.ParseInt` | services/database.py:147 | `int()` succeeds exactly on an optional sign followed by one or more decimal digits |
| `Database.DecimalString` | services/database.py:149 | `str(n)` in the label is canonical: no plus sign, no leading zero unless `n` is 0, and a minus sign exactly when `n` is negative |
| `Database.DecimalRoundTrip` | services/database.py:149 | the number formatted into the label reads back as the same integer, for every integer |
| `Database.CanonicalUnique` | services/database.py:149 | two canonical numerals that `int()` reads as the same value are the same string, so each integer has exactly one label |
| `Database.NormalizePeriodCases` | services/database.py:137-163 | raises exactly on non-integer text; a value of zero falls back to ("Daily", 1); any other integer `n`, negative ones included, gives `n` days and the label "every n days", whose number is the canonical numeral of `n` and reads back as `n`; 0 days is never returned |
| `Database.NormalizePeriodByValue` | services/database.py:146-149 | the outcome depends only on the integer value of the text: "7", "+7" and "007" give the same label and days, as do "0", "00" and "-0" |
| `Database.LabelDeterminesDays` | services/database.py:137-182 | two outcomes with the same label have the same number of days, so `get_or_create_periodtype`, which looks a period type up by its label, never pairs a label with two cadences |
| `Database.NamedPeriodsRaise` | services/database.py:147-160 | "Daily", "Weekly", "Monthly" and "Yearly" raise at `int()`, and no string that parses equals a named period, so the named branches are unreachable |
| `Database.NormalizePeriodExamples` | services/database.py:147-163 | "0" gives ("Daily", 1); "-3" gives ("every -3 days", -3); "007" gives ("every 7 days", 7) |
| `Database.OrderedChecks` | services/database.py:83-90 | the rows of `ordered_checks` are the habit's checks, every one kept, ordered newest first |
| `Database.StreakGroupGrows` | services/database.py:115-116 | the running count of breaks never decreases along the rows |
| `Database.GroupZeroIsRun` | services/database.py:102-116 | a row has `streak_group = 0` exactly when it lies in the leading run: the newest row is always in it, and an older row is in it when every gap to the next newer row up to it is at most `EqualsToDays` |
| `Database.ViewCurrentStreakIsRun` | services/database.py:119-131 | the view's `current_streak` is the leading run of the newest-first rows; it is at least 1 and at most the number of check rows for a habit with checks, and there is no row for a habit without checks; the current date is never involved |
| `Database.DuplicatesCountTwice` | services/database.py:55-65 | two checks on the same day count 2 in the view and 1 in `current_streak` |
| `Database.ViewAgreesWithCurrentStreak` | services/database.py:76-131 | the view's count equals `Habit.current_streak` when each date is checked at most once, no check lies after today, and some check lies in the current window |

## Left out

- The sqlite plumbing of `services/database.py` is database I/O and is not
  modelled: table creation, users, habits, archiving and deletion, and
  `get_or_create_periodtype`. `edit_habit` is an unfinished stub returning
  `None`.
- The joins and filters of the `streaks` view are not modelled: the
  `'check'` activity type, active habits only, and the habit, user and
  period-type columns. Only the per-habit computation over one habit's check
  dates is modelled.
- `JULIANDAY` differences of timestamps can be fractional days, which is
  floating point. Only whole-day differences are modelled.
- Check rows with a `NULL` `ActivityDate` are not modelled.
- `datetime.fromisoformat` inside `_to_date` is a library call. Dates arrive
  as day numbers or as `None`.
- Python dates lie between the years 1 and 9999. The source raises
  `OverflowError` when a window bound steps outside that range, and the
  model's unbounded day numbers do not. Windows step below the range by
  walking backwards. With a negative cadence they step above it: see
  `end - timedelta(days=equal_days - 1)` at models/habit.py:233 and the
  window step at models/habit.py:266 and 276.
- `Database.ParseInt` differs from Python's `int()` at the edges:
  - It rejects surrounding whitespace, `_` between digits and non-ASCII
    digits. Python accepts these, so such inputs raise in the model and not
    in the source.
  - It accepts any number of digits. Python 3.11 and later raise
    `ValueError` on text of more than 4300 digits, the default
    `int_max_str_digits`.
  - A `None` argument, a `TypeError` in the source, is not modelled.
- `Habit.HighestStreak` requires a cadence of at least 1 when the habit has
  checks. The source behaves in two other ways:
  - With cadence 0, `window_end` never moves (models/habit.py:266 and 276),
    so the loop never ends.
  - With a negative cadence `k`, `window_end` moves forward by `-k` days at
    each step. The loop then runs until the date passes 9999-12-31 and
    raises `OverflowError`.
  Negative cadences are reachable, since `_normalize_period("-3")` returns
  -3 days (services/database.py:147-149).
- The `Habit` and `User` wrapper methods are thin database wrappers and are
  not modelled. `ongoing_streaks_by_user` also reads `date.today()` and calls
  functions that `services/database.py` does not define.
- The Shiny UI, the reactive state and the CSV loader are not modelled.
- Several tests use fixtures and modules that do not exist in the code, so
  they are not modelled.
- The home screen (modules/home_screen_module.py:24-32) only greets the
  user; it does not classify habits, so there is nothing to model there.
- The day-by-day streak history `streak_history_df` is imported by
  tests/test_analytics.py:2 from `services/analytics.py`.
  `services/analytics.py` is not part of this model.

## Behaviour of the code worth knowing

Each point below is proved about the model and anchored in the source.

- **Named periods are unreachable.** The branches for "Daily", "Weekly",
  "Monthly" and "Yearly" (services/database.py:151-160) would map them to 1,
  7, 30 and 365 days, as the comment at services/database.py:156 says.
  `int(period_str)` runs first (services/database.py:147), so those names
  raise `ValueError` (`Database.NamedPeriodsRaise`). Only text whose integer
  value is 0, such as "0", "00", "-0" or "+0", reaches the fallback
  ("Daily", 1) at services/database.py:163.
- **Negative periods are accepted.** `int()` accepts a sign, so "-3" gives
  ("every -3 days", -3) (`Database.NormalizePeriodExamples`).
- **The highest streak is not monotone.** The windows of `highest_streak`
  end on the newest check (models/habit.py:259-260). A new check therefore
  shifts every window and can lower the result: with cadence 2, days {1, 4}
  give 2 and days {1, 4, 5} give 1 (`Habit.HighestStreakNotMonotone`).
- **The highest streak can trail the current one.** `current_streak`
  (models/habit.py:223-239) moves its window to the day before each counted
  check, while `highest_streak` keeps fixed windows. With a weekly cadence,
  checks on days 1, 7 and 14 and reference day 14, the current streak is 3
  and the highest is 2 (`Habit.HighestMayTrailCurrent`). The weekly case of
  tests/test_streaks.py:16 counts 3 the same way.
- **The view counts duplicates.** The `activities` table has no uniqueness
  constraint (services/database.py:55-65). Two checks on one day count 2 in
  the `streaks` view and 1 in `current_streak`, which takes a set of dates
  (`Database.DuplicatesCountTwice`).
