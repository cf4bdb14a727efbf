/** The pure logic of `services/database.py`: the normalisation of a
    free-text period into a label and a number of days, and the per-habit
    computation of the `streaks` view. */
module Database {
  import opened Wrappers
  import opened CheckDates
  import Habit

  // ---------------------------------------------------------------------------
  // _normalize_period

  /** What `_normalize_period` returns, or the `ValueError` that `int()`
      raises out of it. */
  datatype Outcome = Normalized(name: string, days: int) | ValueError

  predicate IsDigit(c: char) {
    '0' <= c <= '9'
  }

  /** One or more decimal digits. */
  predicate IsDigits(s: string) {
    |s| >= 1 && forall i :: 0 <= i < |s| ==> IsDigit(s[i])
  }

  /** The value of a string of decimal digits; leading zeros are allowed. */
  function DigitsValue(s: string): nat
    requires forall i :: 0 <= i < |s| ==> IsDigit(s[i])
  {
    if s == [] then
      0
    else
      assert IsDigit(s[|s| - 1]);
      10 * DigitsValue(s[..|s| - 1]) + (s[|s| - 1] as int - '0' as int)
  }

  /** Python's `int()` on a string, restricted to an optional sign followed
      by decimal digits; anything else raises, which is `None` here. */
  function ParseInt(s: string): (r: Option<int>)
    ensures r.Some? <==>
      IsDigits(s) || (|s| >= 2 && (s[0] == '+' || s[0] == '-') && IsDigits(s[1..]))
  {
    if |s| >= 1 && (s[0] == '+' || s[0] == '-') then
      if IsDigits(s[1..]) then
        var v: int := DigitsValue(s[1..]);
        Some(if s[0] == '-' then -v else v)
      else
        None
    else if IsDigits(s) then
      Some(DigitsValue(s))
    else
      None
  }

  /** What `str()` writes for a natural number: digits, and no leading zero
      unless the number is zero. */
  predicate IsNumeral(s: string) {
    IsDigits(s) && (|s| > 1 ==> s[0] != '0')
  }

  /** What `str()` writes for an integer: a numeral, or a minus sign followed
      by the numeral of a positive number. There is never a plus sign. */
  predicate IsCanonical(s: string) {
    IsNumeral(s) || (|s| >= 2 && s[0] == '-' && IsNumeral(s[1..]) && s[1] != '0')
  }

  /** The decimal digits of a natural number, without leading zeros. */
  function Digits(n: nat): (s: string)
    ensures IsNumeral(s)
    ensures n > 0 ==> s[0] != '0'
    decreases n
  {
    var last := [('0' as int + n % 10) as char];
    if n < 10 then last else Digits(n / 10) + last
  }

  /** Python's `str()` of an integer, as an f-string inserts it. */
  function DecimalString(n: int): (s: string)
    ensures IsCanonical(s)
    ensures s[0] == '-' <==> n < 0
  {
    if n < 0 then "-" + Digits(-n) else Digits(n)
  }

  lemma {:induction false} DigitsRoundTrip(n: nat)
    ensures DigitsValue(Digits(n)) == n
    decreases n
  {
    var last := [('0' as int + n % 10) as char];
    if n >= 10 {
      DigitsRoundTrip(n / 10);
      var s := Digits(n / 10) + last;
      assert s[..|s| - 1] == Digits(n / 10);
    }
  }

  /** Reading back the decimal string of any integer gives that integer. */
  lemma DecimalRoundTrip(n: int)
    ensures ParseInt(DecimalString(n)) == Some(n)
  {
    if n < 0 {
      DigitsRoundTrip(-n);
      assert DecimalString(n)[1..] == Digits(-n);
    } else {
      DigitsRoundTrip(n);
    }
  }

  /** A numeral of a positive number starts with a non-zero digit and has a
      positive value. */
  lemma {:induction false} NumeralPositive(s: string)
    requires IsDigits(s) && s[0] != '0'
    ensures DigitsValue(s) > 0
    decreases |s|
  {
    var init := s[..|s| - 1];
    if |s| > 1 {
      assert init[0] == s[0];
      NumeralPositive(init);
    }
  }

  /** Two numerals with the same value are the same string. */
  lemma {:induction false} NumeralUnique(a: string, b: string)
    requires IsNumeral(a) && IsNumeral(b)
    requires DigitsValue(a) == DigitsValue(b)
    ensures a == b
    decreases |a|
  {
    if a[0] == '0' || b[0] == '0' {
      if a[0] != '0' {
        NumeralPositive(a);
      } else if b[0] != '0' {
        NumeralPositive(b);
      }
    } else {
      var ia, ib := a[..|a| - 1], b[..|b| - 1];
      assert IsDigit(a[|a| - 1]) && IsDigit(b[|b| - 1]);
      assert DigitsValue(ia) == DigitsValue(ib) && a[|a| - 1] == b[|b| - 1];
      if ia != [] && ib != [] {
        assert ia[0] == a[0] && ib[0] == b[0];
        NumeralUnique(ia, ib);
      } else if ia != [] {
        assert ia[0] == a[0];
        NumeralPositive(ia);
      } else if ib != [] {
        assert ib[0] == b[0];
        NumeralPositive(ib);
      }
      assert a == ia + [a[|a| - 1]] && b == ib + [b[|b| - 1]];
    }
  }

  /** Each integer has one canonical decimal string: two canonical strings
      that `int()` reads as the same value are equal. */
  lemma CanonicalUnique(a: string, b: string)
    requires IsCanonical(a) && IsCanonical(b)
    requires ParseInt(a) == ParseInt(b)
    ensures a == b
  {
    if IsNumeral(a) && IsNumeral(b) {
      assert IsDigit(a[0]) && IsDigit(b[0]);
      NumeralUnique(a, b);
    } else if !IsNumeral(a) && !IsNumeral(b) {
      NumeralUnique(a[1..], b[1..]);
      assert a == [a[0]] + a[1..] && b == [b[0]] + b[1..];
    } else if IsNumeral(a) {
      assert IsDigit(a[0]);
      NumeralPositive(b[1..]);
    } else {
      assert IsDigit(b[0]);
      NumeralPositive(a[1..]);
    }
  }

  /** `_normalize_period`. `int(period_str)` runs first, so a string that is
      not a number raises before any named period is compared; a non-zero
      number `n` gives "every n days"; zero is falsy and falls through the
      named comparisons to the fallback. */
  function NormalizePeriod(periodStr: string): Outcome {
    match ParseInt(periodStr)
    case None => ValueError
    case Some(n) =>
      if n != 0 then
        Normalized("every " + DecimalString(n) + " days", n)
      else if periodStr == "Daily" then
        Normalized("Daily", 1)
      else if periodStr == "Weekly" then
        Normalized("Weekly", 7)
      else if periodStr == "Monthly" then
        Normalized("Monthly", 30)
      else if periodStr == "Yearly" then
        Normalized("Yearly", 365)
      else
        Normalized("Daily", 1)
  }

  /** What `_normalize_period` promises: it raises exactly on strings that
      are not integers; zero gives ("Daily", 1); any other integer `n`,
      negative ones included, gives `n` days and the label "every n days",
      whose number reads back as `n`. It never returns 0 days. */
  lemma NormalizePeriodCases(periodStr: string)
    ensures NormalizePeriod(periodStr) == ValueError <==> ParseInt(periodStr) == None
    ensures ParseInt(periodStr) == Some(0) ==> NormalizePeriod(periodStr) == Normalized("Daily", 1)
    ensures ParseInt(periodStr).Some? && ParseInt(periodStr).value != 0 ==>
      var r := NormalizePeriod(periodStr);
      var n := ParseInt(periodStr).value;
      r.Normalized? && r.days == n &&
      |r.name| > 11 && r.name[..6] == "every " && r.name[|r.name| - 5..] == " days" &&
      ParseInt(r.name[6..|r.name| - 5]) == Some(n) &&
      IsCanonical(r.name[6..|r.name| - 5]) && (r.name[6] == '-' <==> n < 0)
    ensures NormalizePeriod(periodStr).Normalized? ==> NormalizePeriod(periodStr).days != 0
  {
    if ParseInt(periodStr).Some? && ParseInt(periodStr).value != 0 {
      var n := ParseInt(periodStr).value;
      var text := "every " + DecimalString(n) + " days";
      assert text[6..|text| - 5] == DecimalString(n);
      DecimalRoundTrip(n);
    }
  }

  /** The outcome depends only on the integer value of the text: "7", "+7"
      and "007" all give ("every 7 days", 7), and "0", "00" and "-0" all give
      the fallback. */
  lemma NormalizePeriodByValue(a: string, b: string)
    requires ParseInt(a) == ParseInt(b)
    ensures NormalizePeriod(a) == NormalizePeriod(b)
  {
    NamedPeriodsRaise();
  }

  /** A label determines its number of days, so looking a period type up by
      its label, as `get_or_create_periodtype` does, never mixes two
      cadences. */
  lemma LabelDeterminesDays(a: string, b: string)
    requires NormalizePeriod(a).Normalized? && NormalizePeriod(b).Normalized?
    requires NormalizePeriod(a).name == NormalizePeriod(b).name
    ensures NormalizePeriod(a).days == NormalizePeriod(b).days
  {
    var n, m := ParseInt(a).value, ParseInt(b).value;
    var ta, tb := NormalizePeriod(a).name, NormalizePeriod(b).name;
    if n != 0 && m != 0 {
      assert ta[6..|ta| - 5] == DecimalString(n);
      assert tb[6..|tb| - 5] == DecimalString(m);
      DecimalRoundTrip(n);
      DecimalRoundTrip(m);
    }
  }

  /** The named periods are not integers, so `int()` raises on them and the
      comparisons with them are never reached. */
  lemma NamedPeriodsRaise()
    ensures NormalizePeriod("Daily") == ValueError
    ensures NormalizePeriod("Weekly") == ValueError
    ensures NormalizePeriod("Monthly") == ValueError
    ensures NormalizePeriod("Yearly") == ValueError
    ensures forall s :: ParseInt(s).Some? ==> s != "Daily" && s != "Weekly" && s != "Monthly" && s != "Yearly"
  {
    assert !IsDigit("Daily"[0]) && !IsDigit("Weekly"[0]) && !IsDigit("Monthly"[0]) && !IsDigit("Yearly"[0]);
  }

  /** "0" gives the fallback, "-3" a negative number of days, and "007" the
      label of the parsed value rather than of the text. */
  lemma NormalizePeriodExamples()
    ensures NormalizePeriod("0") == Normalized("Daily", 1)
    ensures NormalizePeriod("-3") == Normalized("every -3 days", -3)
    ensures NormalizePeriod("007") == Normalized("every 7 days", 7)
  {
    assert "0"[..0] == [];
    assert "3"[..0] == [];
    assert "-3"[1..] == "3";
    assert "007"[..2] == "00";
    assert "00"[..1] == "0";
    assert "0"[..0] == [];
  }

  // ---------------------------------------------------------------------------
  // The `streaks` view, for one habit

  /** Puts a check into a newest-first list of checks. */
  function InsertNewestFirst(x: int, rows: seq<int>): (r: seq<int>)
    requires Descending(rows)
    ensures Descending(r)
    ensures multiset(r) == multiset(rows) + multiset{x}
    ensures r != [] && (r[0] == x || (rows != [] && r[0] == rows[0]))
  {
    if rows == [] || x >= rows[0] then
      DescendingCons(x, rows);
      [x] + rows
    else
      assert rows == [rows[0]] + rows[1..];
      assert Descending(rows[1..]) by {
        forall i, j | 0 <= i < j < |rows[1..]| ensures rows[1..][i] >= rows[1..][j] {
          assert rows[1..][i] == rows[i + 1] && rows[1..][j] == rows[j + 1];
        }
      }
      var t := InsertNewestFirst(x, rows[1..]);
      assert rows[0] >= t[0] by {
        if |rows| > 1 {
          assert rows[0] >= rows[1];
        }
      }
      DescendingCons(rows[0], t);
      [rows[0]] + t
  }

  lemma DescendingCons(x: int, rows: seq<int>)
    requires Descending(rows)
    requires rows != [] ==> x >= rows[0]
    ensures Descending([x] + rows)
  {
    forall i, j | 0 <= i < j < |[x] + rows| ensures ([x] + rows)[i] >= ([x] + rows)[j] {
      if i > 0 {
        assert ([x] + rows)[i] == rows[i - 1];
      } else if j > 1 {
        assert rows[0] >= rows[j - 1];
      }
    }
  }

  /** The rows of `ordered_checks`: a habit's checks ordered by
      `ActivityDate DESC`, every check kept. Row `j` has `rn = j + 1`. */
  function OrderedChecks(checks: seq<int>): (rows: seq<int>)
    ensures Descending(rows)
    ensures multiset(rows) == multiset(checks)
  {
    if checks == [] then
      []
    else
      assert checks == [checks[0]] + checks[1..];
      InsertNewestFirst(checks[0], OrderedChecks(checks[1..]))
  }

  /** `in_streak` of row `j`: the first row has no previous check and is in
      the streak; any other row is in it when the check listed before it,
      the next newer one, is at most `k` days later. */
  function InStreak(rows: seq<int>, j: int, k: int): bool
    requires 0 <= j < |rows|
  {
    j == 0 || rows[j - 1] - rows[j] <= k
  }

  /** `streak_group` of row `j`: the number of rows up to and including `j`
      that are not in the streak. */
  function StreakGroup(rows: seq<int>, j: int, k: int): nat
    requires 0 <= j < |rows|
    decreases j
  {
    (if InStreak(rows, j, k) then 0 else 1) + (if j == 0 then 0 else StreakGroup(rows, j - 1, k))
  }

  /** `COUNT(*)` over the first `n` rows with `streak_group = 0`. */
  function CountGroupZero(rows: seq<int>, k: int, n: int): nat
    requires 0 <= n <= |rows|
  {
    if n == 0 then 0 else CountGroupZero(rows, k, n - 1) + (if StreakGroup(rows, n - 1, k) == 0 then 1 else 0)
  }

  /** The `current_streak` column of the view for a habit with the given
      check dates and `EqualsToDays` cadence `k`; a habit without checks has
      no row in the view. No current date is involved. */
  function ViewCurrentStreak(checks: seq<int>, k: int): Option<nat> {
    var rows := OrderedChecks(checks);
    if rows == [] then None else Some(CountGroupZero(rows, k, |rows|))
  }

  /** The running count of breaks never decreases along the rows. */
  lemma {:induction false} StreakGroupGrows(rows: seq<int>, i: int, j: int, k: int)
    requires 0 <= i <= j < |rows|
    ensures StreakGroup(rows, i, k) <= StreakGroup(rows, j, k)
    decreases j
  {
    if i < j {
      StreakGroupGrows(rows, i, j - 1, k);
    }
  }

  /** So the rows with `streak_group = 0` are exactly the first
      `RunLength(rows, k)`: the newest row, and the rows after it up to the
      first gap larger than `k`. */
  lemma {:induction false} GroupZeroIsRun(rows: seq<int>, j: int, k: int)
    requires 0 <= j < |rows|
    ensures StreakGroup(rows, j, k) == 0 <==> j < RunLength(rows, k)
    decreases j
  {
    var n := RunLength(rows, k);
    if j > 0 {
      GroupZeroIsRun(rows, j - 1, k);
      if j < n {
        assert Gap(rows, j) <= k;
      } else if j == n {
        assert Gap(rows, j) > k;
      } else {
        StreakGroupGrows(rows, n, j - 1, k);
      }
    }
  }

  /** Counting the rows of group 0 among the first `m` counts the run. */
  lemma {:induction false} CountIsRun(rows: seq<int>, k: int, m: int)
    requires 0 <= m <= |rows|
    ensures CountGroupZero(rows, k, m) == if m < RunLength(rows, k) then m else RunLength(rows, k)
  {
    if m > 0 {
      CountIsRun(rows, k, m - 1);
      GroupZeroIsRun(rows, m - 1, k);
    }
  }

  /** The view's `current_streak` is the length of the leading run of the
      newest-first checks: at least 1 and at most the number of check rows
      for a habit with checks, and no row for one without. */
  lemma ViewCurrentStreakIsRun(checks: seq<int>, k: int)
    ensures checks == [] ==> ViewCurrentStreak(checks, k) == None
    ensures checks != [] ==>
      ViewCurrentStreak(checks, k) == Some(RunLength(OrderedChecks(checks), k)) &&
      1 <= ViewCurrentStreak(checks, k).value <= |checks|
  {
    var rows := OrderedChecks(checks);
    assert |rows| == |multiset(rows)| == |checks|;
    CountIsRun(rows, k, |rows|);
  }

  /** Duplicate checks count twice in the view but once in `current_streak`:
      two checks on the same day with a daily cadence. */
  lemma DuplicatesCountTwice()
    ensures ViewCurrentStreak([5, 5], 1) == Some(2)
    ensures Habit.CurrentStreakOf([5, 5], 1, 5) == 1
  {
    assert OrderedChecks([5]) == [5];
    assert OrderedChecks([5, 5]) == [5, 5];
    assert Habit.UpTo([5, 5], 5) == {5};
    Habit.StreakOfListing([5, 5], 1, 5, [5]);
  }

  /** A date at two positions of a list occurs in it at least twice. */
  lemma TwoPositions(rows: seq<int>, i: int, j: int)
    requires 0 <= i < j < |rows| && rows[i] == rows[j]
    ensures multiset(rows)[rows[i]] >= 2
  {
    var x := rows[i];
    assert rows == rows[..j] + rows[j..];
    assert rows[..j][i] == x;
    assert rows[j..][0] == x;
    assert x in rows[..j] && x in rows[j..];
  }

  /** Each date checked at most once keeps the ordered rows strictly
      descending. */
  lemma DistinctRows(checks: seq<int>)
    requires forall d :: multiset(checks)[d] <= 1
    ensures StrictlyDescending(OrderedChecks(checks))
  {
    var rows := OrderedChecks(checks);
    forall i, j | 0 <= i < j < |rows| ensures rows[i] > rows[j] {
      if rows[i] == rows[j] {
        TwoPositions(rows, i, j);
        assert false;
      }
    }
  }

  /** For a habit whose dates are each checked at most once, none after
      `today`, and whose newest check lies in the current window of `k` days
      ending on `today`, the view's `current_streak` equals the one
      `Habit.current_streak` computes. */
  lemma ViewAgreesWithCurrentStreak(checks: seq<int>, k: int, today: int)
    requires forall d :: multiset(checks)[d] <= 1
    requires forall d :: d in checks ==> d <= today
    requires exists d :: d in checks && today - (k - 1) <= d
    ensures ViewCurrentStreak(checks, k) == Some(Habit.CurrentStreakOf(checks, k, today))
  {
    var rows := OrderedChecks(checks);
    var d :| d in checks && today - (k - 1) <= d;
    DistinctRows(checks);
    forall x ensures x in rows <==> x in checks && x <= today {
      assert x in rows <==> x in multiset(rows);
    }
    assert d in rows;
    assert rows[0] >= d by {
      var i :| 0 <= i < |rows| && rows[i] == d;
    }
    Habit.StreakOfListing(checks, k, today, rows);
    ViewCurrentStreakIsRun(checks, k);
  }
}
