/** The contribution calendar and the run-length notions both streak
    calculations are specified with. A date is a day ordinal: ISO `YYYY-MM-DD`
    strings compare in the same order as the days they name. */
module Calendar {
  import opened StableSort

  /** One entry of the calendar: a date and the number of contributions on it. */
  datatype Day = Day(date: int, count: int)

  /** The calendar as fetched: weeks of days and the reported total. */
  datatype ContributionCalendar = ContributionCalendar(weeks: seq<seq<Day>>, totalContributions: int)

  /** A day counts towards a streak when it has at least one contribution. */
  predicate Active(d: Day) {
    d.count > 0
  }

  /** The sort key of a day: its date. */
  function DateKey(d: Day): int {
    d.date
  }

  /** The days of all weeks, week after week. */
  function Flatten(weeks: seq<seq<Day>>): seq<Day> {
    if weeks == [] then [] else Flatten(weeks[..|weeks| - 1]) + weeks[|weeks| - 1]
  }

  /** The days dated on or before `today`, in their original order. */
  function UpTo(s: seq<Day>, today: int): seq<Day> {
    if s == [] then []
    else UpTo(s[..|s| - 1], today) + (if s[|s| - 1].date <= today then [s[|s| - 1]] else [])
  }

  /** The days of `s` sorted by date (a stable sort). */
  function ByDate(s: seq<Day>): seq<Day> {
    SortBy(s, DateKey)
  }

  /** The length of the run of active days that ends at the last entry. */
  function Trailing(s: seq<Day>): (n: nat)
    ensures n <= |s|
  {
    if s == [] || !Active(s[|s| - 1]) then 0 else Trailing(s[..|s| - 1]) + 1
  }

  /** The length of the longest run of adjacent active entries. */
  function Longest(s: seq<Day>): nat {
    if s == [] then 0
    else
      var before := Longest(s[..|s| - 1]);
      if Trailing(s) > before then Trailing(s) else before
  }

  /** `s[i..j]` is a run of adjacent active entries. */
  ghost predicate ActiveRun(s: seq<Day>, i: int, j: int) {
    0 <= i <= j <= |s| && forall k :: i <= k < j ==> Active(s[k])
  }

  /** Adding a day in front extends the trailing run only when the run already
      covers the whole sequence. */
  lemma {:induction false} TrailingPrepend(d: Day, s: seq<Day>)
    ensures Trailing([d] + s) == if Trailing(s) < |s| then Trailing(s) else |s| + (if Active(d) then 1 else 0)
  {
    if s != [] {
      var s' := s[..|s| - 1];
      assert ([d] + s)[..|s|] == [d] + s';
      assert ([d] + s)[|s|] == s[|s| - 1];
      TrailingPrepend(d, s');
    }
  }

  /** An idle day cuts off everything before it from the trailing run. */
  lemma {:induction false} TrailingAfterIdle(before: seq<Day>, idle: Day, after: seq<Day>)
    requires !Active(idle)
    ensures Trailing(before + [idle] + after) == Trailing(after)
  {
    var u := before + [idle] + after;
    if after != [] {
      var after' := after[..|after| - 1];
      assert u[..|u| - 1] == before + [idle] + after';
      assert u[|u| - 1] == after[|after| - 1];
      TrailingAfterIdle(before, idle, after');
    } else {
      assert u[|u| - 1] == idle;
    }
  }

  /** `Trailing(s)` is exactly the maximal active run at the end of `s`: all of
      its entries are active, and the entry before it (if any) is not. */
  lemma {:induction false} TrailingIsMaximalRun(s: seq<Day>)
    ensures ActiveRun(s, |s| - Trailing(s), |s|)
    ensures Trailing(s) < |s| ==> !Active(s[|s| - Trailing(s) - 1])
  {
    if s != [] && Active(s[|s| - 1]) {
      var s' := s[..|s| - 1];
      TrailingIsMaximalRun(s');
      assert forall k :: |s| - Trailing(s) <= k < |s| - 1 ==> s[k] == s'[k];
    }
  }

  /** Every active run that reaches the end of `s` is at most `Trailing(s)` long. */
  lemma {:induction false} EndRunBounded(s: seq<Day>, i: int)
    requires ActiveRun(s, i, |s|)
    ensures |s| - i <= Trailing(s)
  {
    if i < |s| {
      var s' := s[..|s| - 1];
      assert ActiveRun(s', i, |s'|);
      EndRunBounded(s', i);
    }
  }

  /** No active run in `s` is longer than `Longest(s)`. */
  lemma {:induction false} LongestBounds(s: seq<Day>, i: int, j: int)
    requires ActiveRun(s, i, j)
    ensures j - i <= Longest(s)
  {
    if j == |s| {
      EndRunBounded(s, i);
    } else {
      var s' := s[..|s| - 1];
      assert ActiveRun(s', i, j);
      LongestBounds(s', i, j);
    }
  }

  /** Some active run in `s` is exactly `Longest(s)` long. */
  lemma {:induction false} LongestAttained(s: seq<Day>) returns (i: int, j: int)
    ensures ActiveRun(s, i, j) && j - i == Longest(s)
  {
    if s == [] {
      i, j := 0, 0;
    } else {
      var s' := s[..|s| - 1];
      if Trailing(s) > Longest(s') {
        TrailingIsMaximalRun(s);
        i, j := |s| - Trailing(s), |s|;
      } else {
        i, j := LongestAttained(s');
        assert forall k :: i <= k < j ==> s[k] == s'[k];
      }
    }
  }

  /** The longest run is at least the trailing run. */
  lemma TrailingAtMostLongest(s: seq<Day>)
    ensures Trailing(s) <= Longest(s)
  {
  }

  /** The longest run of a prefix is at most that of the whole. */
  lemma {:induction false} LongestOfPrefix(s: seq<Day>, n: nat)
    requires n <= |s|
    ensures Longest(s[..n]) <= Longest(s)
  {
    var i, j := LongestAttained(s[..n]);
    assert forall k :: i <= k < j ==> s[..n][k] == s[k];
    LongestBounds(s, i, j);
  }

  /** With no active day there is no run at all. */
  lemma {:induction false} IdleHasNoRun(s: seq<Day>)
    requires forall k :: 0 <= k < |s| ==> !Active(s[k])
    ensures Trailing(s) == 0 && Longest(s) == 0
  {
    if s != [] {
      IdleHasNoRun(s[..|s| - 1]);
    }
  }

  /** When every day is active, the whole sequence is one run. */
  lemma {:induction false} AllActiveIsOneRun(s: seq<Day>)
    requires forall k :: 0 <= k < |s| ==> Active(s[k])
    ensures Trailing(s) == |s| && Longest(s) == |s|
  {
    if s != [] {
      AllActiveIsOneRun(s[..|s| - 1]);
    }
  }

  /** Appending idle days never changes the longest run. */
  lemma {:induction false} LongestIgnoresIdleTail(s: seq<Day>, idle: seq<Day>)
    requires forall k :: 0 <= k < |idle| ==> !Active(idle[k])
    ensures Longest(s + idle) == Longest(s)
  {
    if idle == [] {
      assert s + idle == s;
    } else {
      var idle' := idle[..|idle| - 1];
      LongestIgnoresIdleTail(s, idle');
      var u := s + idle;
      assert u[..|u| - 1] == s + idle';
      assert !Active(u[|u| - 1]);
      assert Trailing(u) == 0;
    }
  }

  lemma {:induction false} UpToAppend(s: seq<Day>, t: seq<Day>, today: int)
    ensures UpTo(s + t, today) == UpTo(s, today) + UpTo(t, today)
  {
    if t == [] {
      assert s + t == s;
    } else {
      var t' := t[..|t| - 1];
      UpToAppend(s, t', today);
      var u := s + t;
      assert u[..|u| - 1] == s + t';
      assert u[|u| - 1] == t[|t| - 1];
    }
  }

  /** `UpTo` keeps exactly the days dated on or before `today`. */
  lemma {:induction false} UpToMembers(s: seq<Day>, today: int)
    ensures forall d :: d in UpTo(s, today) <==> d in s && d.date <= today
  {
    if s != [] {
      var s' := s[..|s| - 1];
      UpToMembers(s', today);
      assert s == s' + [s[|s| - 1]];
    }
  }

  /** Nothing is kept of days that all lie after `today`. */
  lemma {:induction false} UpToNone(s: seq<Day>, today: int)
    requires forall k :: 0 <= k < |s| ==> s[k].date > today
    ensures UpTo(s, today) == []
  {
    if s != [] {
      UpToNone(s[..|s| - 1], today);
    }
  }

  /** Everything is kept of days that all lie on or before `today`. */
  lemma {:induction false} UpToAll(s: seq<Day>, today: int)
    requires forall k :: 0 <= k < |s| ==> s[k].date <= today
    ensures UpTo(s, today) == s
  {
    if s != [] {
      UpToAll(s[..|s| - 1], today);
      assert s == s[..|s| - 1] + [s[|s| - 1]];
    }
  }

  /** Filtering a date-sorted sequence keeps it sorted. */
  lemma {:induction false} UpToSorted(s: seq<Day>, today: int)
    requires SortedBy(s, DateKey)
    ensures SortedBy(UpTo(s, today), DateKey)
  {
    if s != [] {
      var s' := s[..|s| - 1];
      UpToSorted(s', today);
      UpToMembers(s', today);
      var u' := UpTo(s', today);
      forall k | 0 <= k < |u'|
        ensures u'[k].date <= s[|s| - 1].date
      {
        assert u'[k] in s';
        var m :| 0 <= m < |s'| && s'[m] == u'[k];
      }
    }
  }

  /** On date-sorted days, the days up to `today` are a prefix. */
  lemma {:induction false} UpToSortedIsPrefix(s: seq<Day>, today: int) returns (n: nat)
    requires SortedBy(s, DateKey)
    ensures n <= |s| && UpTo(s, today) == s[..n]
  {
    if s == [] {
      n := 0;
    } else if s[|s| - 1].date <= today {
      forall k | 0 <= k < |s|
        ensures s[k].date <= today
      {
        assert DateKey(s[k]) <= DateKey(s[|s| - 1]) || k == |s| - 1;
      }
      UpToAll(s, today);
      n := |s|;
    } else {
      var s' := s[..|s| - 1];
      assert SortedBy(s', DateKey);
      n := UpToSortedIsPrefix(s', today);
      assert s'[..n] == s[..n];
    }
  }

  lemma {:induction false} UpToInsert(s: seq<Day>, x: Day, today: int)
    ensures UpTo(Insert(s, x, DateKey), today) == if x.date <= today then Insert(UpTo(s, today), x, DateKey) else UpTo(s, today)
  {
    if s == [] {
      UpToAppend([], [x], today);
    } else if s[|s| - 1].date <= x.date {
      UpToAppend(s, [x], today);
      var u := UpTo(s, today);
      if x.date <= today {
        assert u == UpTo(s[..|s| - 1], today) + [s[|s| - 1]];
      }
    } else {
      var s', last := s[..|s| - 1], s[|s| - 1];
      UpToInsert(s', x, today);
      UpToAppend(Insert(s', x, DateKey), [last], today);
      assert s == s' + [last];
      UpToAppend(s', [last], today);
      if last.date <= today {
        var u := UpTo(s, today);
        assert u == UpTo(s', today) + [last];
        assert u[..|u| - 1] == UpTo(s', today);
        assert u[|u| - 1] == last;
      } else {
        assert UpTo([last], today) == [];
        assert UpTo(s, today) == UpTo(s', today);
        assert UpTo(Insert(s, x, DateKey), today) == UpTo(Insert(s', x, DateKey), today);
      }
    }
  }

  /** Sorting by date keeps exactly the days it is given. */
  lemma ByDateMembers(s: seq<Day>)
    ensures forall d :: d in ByDate(s) <==> d in s
  {
    SortByPermutes(s, DateKey);
    forall d
      ensures d in ByDate(s) <==> d in s
    {
      assert d in ByDate(s) <==> d in multiset(ByDate(s));
    }
  }

  /** Filtering by date and sorting by date commute. */
  lemma {:induction false} UpToByDate(s: seq<Day>, today: int)
    ensures UpTo(ByDate(s), today) == ByDate(UpTo(s, today))
  {
    if s != [] {
      var s', last := s[..|s| - 1], s[|s| - 1];
      UpToByDate(s', today);
      UpToInsert(ByDate(s'), last, today);
      assert ByDate(s) == Insert(ByDate(s'), last, DateKey);
      if last.date <= today {
        var u := UpTo(s, today);
        assert u == UpTo(s', today) + [last];
        assert u[..|u| - 1] == UpTo(s', today) && u[|u| - 1] == last;
        assert ByDate(u) == Insert(ByDate(UpTo(s', today)), last, DateKey);
      } else {
        assert UpTo(s, today) == UpTo(s', today);
      }
    }
  }

}
