/** Check dates as whole day numbers, and the orderings the streak calculators
    put them in: oldest-first (Python's `sorted`), oldest-first without
    duplicates (`sorted` of a set) and newest-first without duplicates. */
module CheckDates {

  predicate Ascending(s: seq<int>) {
    forall i, j :: 0 <= i < j < |s| ==> s[i] <= s[j]
  }

  predicate StrictlyAscending(s: seq<int>) {
    forall i, j :: 0 <= i < j < |s| ==> s[i] < s[j]
  }

  predicate Descending(s: seq<int>) {
    forall i, j :: 0 <= i < j < |s| ==> s[i] >= s[j]
  }

  predicate StrictlyDescending(s: seq<int>) {
    forall i, j :: 0 <= i < j < |s| ==> s[i] > s[j]
  }

  /** Putting a date no later than the first in front keeps a list ascending. */
  lemma AscendingCons(x: int, s: seq<int>)
    requires Ascending(s)
    requires s != [] ==> x <= s[0]
    ensures Ascending([x] + s)
  {
    forall i, j | 0 <= i < j < |[x] + s| ensures ([x] + s)[i] <= ([x] + s)[j] {
      if i > 0 {
        assert ([x] + s)[i] == s[i - 1];
      } else if j > 1 {
        assert s[0] <= s[j - 1];
      }
    }
  }

  /** Putting a date earlier than the first in front keeps a list strictly ascending. */
  lemma StrictlyAscendingCons(x: int, s: seq<int>)
    requires StrictlyAscending(s)
    requires s != [] ==> x < s[0]
    ensures StrictlyAscending([x] + s)
  {
    forall i, j | 0 <= i < j < |[x] + s| ensures ([x] + s)[i] < ([x] + s)[j] {
      if i > 0 {
        assert ([x] + s)[i] == s[i - 1];
      } else if j > 1 {
        assert s[0] < s[j - 1];
      }
    }
  }

  /** Inserts `x` into an ascending sequence, keeping it ascending. */
  function Insert(x: int, s: seq<int>): (r: seq<int>)
    requires Ascending(s)
    ensures Ascending(r)
    ensures multiset(r) == multiset(s) + multiset{x}
    ensures r != [] && (r[0] == x || (s != [] && r[0] == s[0]))
  {
    if s == [] || x <= s[0] then
      AscendingCons(x, s);
      [x] + s
    else
      assert s == [s[0]] + s[1..];
      assert Ascending(s[1..]) by {
        forall i, j | 0 <= i < j < |s[1..]| ensures s[1..][i] <= s[1..][j] {
          assert s[1..][i] == s[i + 1] && s[1..][j] == s[j + 1];
        }
      }
      var t := Insert(x, s[1..]);
      assert s[0] <= t[0] by {
        if |s| > 1 {
          assert s[0] <= s[1];
        }
      }
      AscendingCons(s[0], t);
      [s[0]] + t
  }

  /** Python's `sorted` on a list of dates: oldest first, duplicates kept. */
  method SortDates(s: seq<int>) returns (r: seq<int>)
    ensures Ascending(r)
    ensures multiset(r) == multiset(s)
  {
    r := [];
    for i := 0 to |s|
      invariant Ascending(r)
      invariant multiset(r) == multiset(s[..i])
    {
      assert s[..i + 1] == s[..i] + [s[i]];
      r := Insert(s[i], r);
    }
    assert s[..|s|] == s;
  }

  /** Inserts `x` into a strictly ascending sequence unless it is already there. */
  function InsertNew(x: int, s: seq<int>): (r: seq<int>)
    requires StrictlyAscending(s)
    ensures StrictlyAscending(r)
    ensures forall d :: d in r <==> d == x || d in s
    ensures r != [] && (r[0] == x || (s != [] && r[0] == s[0]))
  {
    if s == [] || x < s[0] then
      StrictlyAscendingCons(x, s);
      [x] + s
    else if x == s[0] then
      s
    else
      assert s == [s[0]] + s[1..];
      assert StrictlyAscending(s[1..]) by {
        forall i, j | 0 <= i < j < |s[1..]| ensures s[1..][i] < s[1..][j] {
          assert s[1..][i] == s[i + 1] && s[1..][j] == s[j + 1];
        }
      }
      var t := InsertNew(x, s[1..]);
      assert s[0] < t[0] by {
        if |s| > 1 {
          assert s[0] < s[1];
        }
      }
      StrictlyAscendingCons(s[0], t);
      [s[0]] + t
  }

  /** Python's `sorted` on the set of dates: oldest first, each date once. */
  method SortDistinctDates(s: seq<int>) returns (r: seq<int>)
    ensures StrictlyAscending(r)
    ensures forall d :: d in r <==> d in s
  {
    r := [];
    for i := 0 to |s|
      invariant StrictlyAscending(r)
      invariant forall d :: d in r <==> d in s[..i]
    {
      assert s[..i + 1] == s[..i] + [s[i]];
      r := InsertNew(s[i], r);
    }
    assert s[..|s|] == s;
  }

  lemma HasElement(s: set<int>)
    requires s != {}
    ensures exists d :: d in s
  {
    if forall d :: d !in s {
      assert false;
    }
  }

  /** The latest date of a non-empty set. */
  ghost function Latest(s: set<int>): (m: int)
    requires s != {}
    ensures m in s
    ensures forall d :: d in s ==> d <= m
  {
    HasElement(s);
    var x :| x in s;
    if s == {x} then
      x
    else
      var m' := Latest(s - {x});
      assert forall d :: d in s ==> d == x || d in s - {x};
      if x > m' then x else m'
  }

  /** The earliest date of a non-empty set. */
  ghost function Earliest(s: set<int>): (m: int)
    requires s != {}
    ensures m in s
    ensures forall d :: d in s ==> m <= d
  {
    HasElement(s);
    var x :| x in s;
    if s == {x} then
      x
    else
      var m' := Earliest(s - {x});
      assert forall d :: d in s ==> d == x || d in s - {x};
      if x < m' then x else m'
  }

  /** The ends of a strictly ascending listing of a set are the set's
      earliest and latest dates. */
  lemma AscendingEnds(r: seq<int>, s: set<int>)
    requires StrictlyAscending(r) && r != []
    requires forall d :: d in r <==> d in s
    ensures s != {} && Earliest(s) == r[0] && Latest(s) == r[|r| - 1]
  {
    assert r[0] in r && r[|r| - 1] in r;
    var i :| 0 <= i < |r| && r[i] == Earliest(s);
    var j :| 0 <= j < |r| && r[j] == Latest(s);
    if i > 0 {
      assert r[0] < r[i];
    }
    if j < |r| - 1 {
      assert r[j] < r[|r| - 1];
    }
  }

  /** The dates of a set, newest first. */
  ghost function NewestFirst(s: set<int>): seq<int>
    decreases s
  {
    if s == {} then
      []
    else
      var m := Latest(s);
      [m] + NewestFirst(s - {m})
  }

  /** `NewestFirst` lists every date of the set once, strictly newest first. */
  lemma {:induction false} NewestFirstLists(s: set<int>)
    ensures StrictlyDescending(NewestFirst(s))
    ensures forall d :: d in NewestFirst(s) <==> d in s
    ensures |NewestFirst(s)| == |s|
    decreases s
  {
    if s != {} {
      var m := Latest(s);
      var rest := NewestFirst(s - {m});
      NewestFirstLists(s - {m});
      assert NewestFirst(s) == [m] + rest;
      forall i | 0 < i < |[m] + rest| ensures m > ([m] + rest)[i] {
        assert rest[i - 1] in s - {m};
      }
    }
  }

  /** The head of a strictly descending listing of a set is the set's latest
      date, and its tail lists the rest of the set. */
  lemma HeadIsLatest(r: seq<int>, s: set<int>)
    requires StrictlyDescending(r) && r != []
    requires forall d :: d in r <==> d in s
    ensures s != {} && Latest(s) == r[0]
    ensures StrictlyDescending(r[1..])
    ensures forall d :: d in r[1..] <==> d in s - {r[0]}
  {
    assert r[0] in r;
    var m := Latest(s);
    var i :| 0 <= i < |r| && r[i] == m;
    assert i == 0;
    forall d | d in r[1..] ensures d in s - {r[0]} {
      var j :| 0 <= j < |r[1..]| && r[1..][j] == d;
      assert r[j + 1] == d;
    }
    forall d | d in s - {r[0]} ensures d in r[1..] {
      var j :| 0 <= j < |r| && r[j] == d;
      assert r[1..][j - 1] == d;
    }
  }

  /** A strictly descending sequence is the only newest-first listing of its dates. */
  lemma {:induction false} NewestFirstUnique(r: seq<int>, s: set<int>)
    requires StrictlyDescending(r)
    requires forall d :: d in r <==> d in s
    ensures NewestFirst(s) == r
    decreases |r|
  {
    if r == [] {
      assert s == {};
    } else {
      var m, rest := r[0], r[1..];
      HeadIsLatest(r, s);
      assert NewestFirst(s) == [m] + NewestFirst(s - {m});
      NewestFirstUnique(rest, s - {m});
      assert r == [m] + rest;
    }
  }

  /** How many days `rows[j]` lies before the date listed just before it. */
  function Gap(rows: seq<int>, j: int): int
    requires 0 < j < |rows|
  {
    rows[j - 1] - rows[j]
  }

  /** The length of the leading run of a newest-first sequence in which each
      date is at most `k` days before the one listed just before it: the
      unique `n` whose first `n` entries have every gap at most `k` and that
      stops at the first gap larger than `k` (or at the end). */
  function RunLength(rows: seq<int>, k: int): (n: nat)
    ensures n <= |rows|
    ensures rows != [] ==> 1 <= n
    ensures forall j :: 0 < j < n ==> Gap(rows, j) <= k
    ensures 0 < n < |rows| ==> Gap(rows, n) > k
  {
    if |rows| <= 1 then
      |rows|
    else if rows[0] - rows[1] <= k then
      var n := 1 + RunLength(rows[1..], k);
      assert forall j :: 1 < j < |rows| ==> Gap(rows, j) == Gap(rows[1..], j - 1);
      n
    else
      1
  }
}
