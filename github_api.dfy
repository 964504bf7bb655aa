/** The statistics computed by the Python client, `GitHubAPI.calculate_streak`
    and `GitHubAPI.process_languages` in src/github_api.py. Neither method
    reads or writes the client's fields (token, headers, endpoint), so both are
    modelled as methods of this module. */
module GitHubApi {
  import opened StableSort
  import opened Calendar
  import opened LanguageTable

  /** The `{'currentStreak', 'longestStreak'}` dictionary. */
  datatype Streaks = Streaks(current: nat, longest: nat)

  /** The days the streaks are counted over: all calendar days, sorted by
      date, without those dated after today. */
  function ValidDays(cal: ContributionCalendar, today: int): seq<Day> {
    UpTo(ByDate(Flatten(cal.weeks)), today)
  }

  /** The current streak over the valid days `v`: zero unless the newest valid
      day is today; otherwise the active run ending today, or, when today is
      still idle, the active run ending at the entry before it. */
  function CurrentStreak(v: seq<Day>, today: int): nat {
    if v == [] || v[|v| - 1].date != today then 0
    else if Active(v[|v| - 1]) then Trailing(v)
    else Trailing(v[..|v| - 1])
  }

  /** What `calculate_streak` returns for a calendar on a given day. */
  function StreakOf(cal: ContributionCalendar, today: int): Streaks {
    var v := ValidDays(cal, today);
    Streaks(CurrentStreak(v, today), Longest(v))
  }

  /** Counts the active entries of `v[..end]` backwards from its last entry,
      stopping at the first idle one (the two `range(..., -1, -1)` loops). */
  method CountActiveBackward(v: seq<Day>, end: nat) returns (n: nat)
    requires end <= |v|
    ensures n == Trailing(v[..end])
  {
    n := 0;
    for i := end downto 0
      invariant n + Trailing(v[..i]) == Trailing(v[..end])
    {
      assert v[..i + 1][..i] == v[..i];
      if v[i].count > 0 {
        n := n + 1;
      } else {
        break;
      }
    }
  }

  /** The flattening loop: the days of all weeks, week after week. */
  method FlattenWeeks(weeks: seq<seq<Day>>) returns (days: seq<Day>)
    ensures days == Flatten(weeks)
  {
    days := [];
    for w := 0 to |weeks|
      invariant days == Flatten(weeks[..w])
    {
      assert weeks[..w + 1][..w] == weeks[..w];
      days := days + weeks[w];
    }
    assert weeks[..|weeks|] == weeks;
  }

  /** The filtering loop: keeps, in order, the days dated on or before today. */
  method KeepPastDays(days: seq<Day>, today: int) returns (validDays: seq<Day>)
    ensures validDays == UpTo(days, today)
  {
    validDays := [];
    for i := 0 to |days|
      invariant validDays == UpTo(days[..i], today)
    {
      assert days[..i + 1][..i] == days[..i];
      if days[i].date <= today {
        validDays := validDays + [days[i]];
      }
    }
    assert days[..|days|] == days;
  }

  /** The longest-streak scan: the running count is folded into the maximum
      at every idle day and once more after the scan. */
  method LongestScan(validDays: seq<Day>) returns (longest: nat)
    ensures longest == Longest(validDays)
  {
    longest := 0;
    var temp: nat := 0;
    for i := 0 to |validDays|
      invariant temp == Trailing(validDays[..i])
      invariant longest <= Longest(validDays[..i])
      invariant (if temp > longest then temp else longest) == Longest(validDays[..i])
    {
      assert validDays[..i + 1][..i] == validDays[..i];
      if validDays[i].count > 0 {
        temp := temp + 1;
      } else {
        if temp > longest {
          longest := temp;
        }
        temp := 0;
      }
    }
    if temp > longest {
      longest := temp;
    }
    assert validDays[..|validDays|] == validDays;
  }

  /** `calculate_streak`: flatten the weeks, sort by date, drop future days,
      sort again, scan for the longest run, then count the current streak. */
  method CalculateStreak(cal: ContributionCalendar, today: int) returns (r: Streaks)
    ensures r == StreakOf(cal, today)
    ensures r.current <= r.longest
  {
    var flat := FlattenWeeks(cal.weeks);
    SortBySorted(flat, DateKey);
    var days := ByDate(flat);
    var validDays := KeepPastDays(days, today);
    UpToSorted(days, today);
    SortByIdentity(validDays, DateKey);
    validDays := ByDate(validDays);

    var longest := LongestScan(validDays);

    var current: nat := 0;
    if |validDays| == 0 {
      return Streaks(0, 0);
    }
    var lastDay := validDays[|validDays| - 1];
    if lastDay.date == today {
      if lastDay.count > 0 {
        current := CountActiveBackward(validDays, |validDays|);
      } else {
        if |validDays| > 1 {
          var yesterday := validDays[|validDays| - 2];
          if yesterday.count > 0 {
            current := CountActiveBackward(validDays, |validDays| - 1);
          }
        }
      }
    }
    assert validDays[..|validDays|] == validDays;
    CurrentAtMostLongest(validDays, today);
    r := Streaks(current, longest);
  }

  /** The valid days are sorted by date and are exactly the calendar's days
      dated on or before today. */
  lemma ValidDaysAreThePast(cal: ContributionCalendar, today: int)
    ensures SortedBy(ValidDays(cal, today), DateKey)
    ensures forall d :: d in ValidDays(cal, today) <==> d in Flatten(cal.weeks) && d.date <= today
  {
    var days := Flatten(cal.weeks);
    SortBySorted(days, DateKey);
    UpToSorted(ByDate(days), today);
    UpToMembers(ByDate(days), today);
    ByDateMembers(days);
  }

  lemma {:induction false} FlattenAppend(weeks: seq<seq<Day>>, week: seq<Day>)
    ensures Flatten(weeks + [week]) == Flatten(weeks) + week
  {
    assert (weeks + [week])[..|weeks|] == weeks;
  }

  /** Days dated after today are discarded before any counting: a week of
      such days leaves both streaks unchanged. */
  lemma FutureDaysIgnored(cal: ContributionCalendar, future: seq<Day>, today: int)
    requires forall k :: 0 <= k < |future| ==> future[k].date > today
    ensures StreakOf(ContributionCalendar(cal.weeks + [future], cal.totalContributions), today) == StreakOf(cal, today)
  {
    var days := Flatten(cal.weeks);
    FlattenAppend(cal.weeks, future);
    UpToByDate(days + future, today);
    UpToByDate(days, today);
    UpToAppend(days, future, today);
    UpToNone(future, today);
    assert UpTo(days, today) + UpTo(future, today) == UpTo(days, today);
  }

  /** With no day on or before today both streaks are zero. */
  lemma NoPastDaysNoStreak(cal: ContributionCalendar, today: int)
    requires forall k :: 0 <= k < |Flatten(cal.weeks)| ==> Flatten(cal.weeks)[k].date > today
    ensures StreakOf(cal, today) == Streaks(0, 0)
  {
    var v := ValidDays(cal, today);
    ValidDaysAreThePast(cal, today);
  }

  /** The cases of the current streak, each stated through the runs of `v`.
      It is zero unless the newest day is today; when today is active it is
      the whole active run ending today; when today is idle it is the whole
      active run ending at the entry before today, which is zero when there is
      no such entry or it is idle. */
  lemma CurrentStreakCases(v: seq<Day>, today: int)
    ensures v == [] || v[|v| - 1].date != today ==> CurrentStreak(v, today) == 0
    ensures v != [] && v[|v| - 1].date == today && Active(v[|v| - 1]) ==>
      var c := CurrentStreak(v, today);
      ActiveRun(v, |v| - c, |v|) && (c < |v| ==> !Active(v[|v| - c - 1]))
    ensures v != [] && v[|v| - 1].date == today && !Active(v[|v| - 1]) ==>
      var c := CurrentStreak(v, today);
      ActiveRun(v, |v| - 1 - c, |v| - 1) && (c < |v| - 1 ==> !Active(v[|v| - c - 2]))
    ensures v != [] && v[|v| - 1].date == today && !Active(v[|v| - 1]) && (|v| == 1 || !Active(v[|v| - 2])) ==>
      CurrentStreak(v, today) == 0
  {
    if v != [] && v[|v| - 1].date == today {
      if Active(v[|v| - 1]) {
        TrailingIsMaximalRun(v);
      } else {
        var v' := v[..|v| - 1];
        TrailingIsMaximalRun(v');
        assert forall k :: 0 <= k < |v'| ==> v'[k] == v[k];
      }
    }
  }

  /** The current streak never exceeds the longest: the run it counts is one
      of the runs the longest-streak scan measures. */
  lemma CurrentAtMostLongest(v: seq<Day>, today: int)
    ensures CurrentStreak(v, today) <= Longest(v)
  {
    if v != [] {
      TrailingAtMostLongest(v);
      TrailingAtMostLongest(v[..|v| - 1]);
      LongestOfPrefix(v, |v| - 1);
    }
  }

  /** A calendar without any contribution has no streak. */
  lemma IdleCalendarNoStreak(cal: ContributionCalendar, today: int)
    requires forall k :: 0 <= k < |Flatten(cal.weeks)| ==> !Active(Flatten(cal.weeks)[k])
    ensures StreakOf(cal, today) == Streaks(0, 0)
  {
    var v := ValidDays(cal, today);
    ValidDaysAreThePast(cal, today);
    assert forall k :: 0 <= k < |v| ==> v[k] in v;
    IdleHasNoRun(v);
    if v != [] {
      IdleHasNoRun(v[..|v| - 1]);
    }
  }

  /** When every day up to today is active and today is on the calendar, both
      streaks are the number of valid days. */
  lemma ActiveCalendarOneStreak(cal: ContributionCalendar, today: int)
    requires forall k :: 0 <= k < |Flatten(cal.weeks)| ==> Active(Flatten(cal.weeks)[k])
    requires exists k :: 0 <= k < |Flatten(cal.weeks)| && Flatten(cal.weeks)[k].date == today
    ensures StreakOf(cal, today) == Streaks(|ValidDays(cal, today)|, |ValidDays(cal, today)|)
  {
    var days := Flatten(cal.weeks);
    var v := ValidDays(cal, today);
    ValidDaysAreThePast(cal, today);
    assert forall k :: 0 <= k < |v| ==> v[k] in v;
    AllActiveIsOneRun(v);
    var k :| 0 <= k < |days| && days[k].date == today;
    assert days[k] in v;
    var m :| 0 <= m < |v| && v[m] == days[k];
    assert v[|v| - 1].date <= today;
    assert v[|v| - 1].date >= today;
  }

  /** A single week of date-ordered days up to today is its own list of
      valid days. */
  lemma OneWeekValidDays(w: seq<Day>, today: int, total: int)
    requires forall i, j :: 0 <= i < j < |w| ==> w[i].date <= w[j].date
    requires forall i :: 0 <= i < |w| ==> w[i].date <= today
    ensures ValidDays(ContributionCalendar([w], total), today) == w
  {
    var weeks: seq<seq<Day>> := [w];
    assert |weeks[..0]| == 0;
    assert Flatten(weeks) == w;
    SortByIdentity(w, DateKey);
    UpToAll(w, today);
  }

  /** A single week of three days ending with an idle today: the streak is
      counted from yesterday, so it is two when yesterday is active and zero
      when it is idle, whatever the day before. */
  lemma IdleTodayWeek(a: int, b: int, today: int, total: int)
    requires a > 0
    ensures var w := [Day(today - 2, a), Day(today - 1, b), Day(today, 0)];
      StreakOf(ContributionCalendar([w], total), today)
        == if b > 0 then Streaks(2, 2) else Streaks(0, 1)
  {
    var w: seq<Day> := [Day(today - 2, a), Day(today - 1, b), Day(today, 0)];
    OneWeekValidDays(w, today, total);
    assert w[..2] == [w[0], w[1]] && w[..2][..1] == [w[0]] && |[w[0]][..0]| == 0;
    assert Trailing([w[0]]) == 1 && Longest([w[0]]) == 1;
    assert Trailing(w) == 0 && w[..|w| - 1] == w[..2];
    if b > 0 {
      assert Trailing(w[..2]) == 2 && Longest(w[..2]) == 2;
    } else {
      assert Trailing(w[..2]) == 0 && Longest(w[..2]) == 1;
    }
    assert CurrentStreak(w, today) == Trailing(w[..2]);
    var cal := ContributionCalendar([w], total);
    assert StreakOf(cal, today) == Streaks(CurrentStreak(w, today), Longest(w));
  }

  /** A calendar holding only an active today has both streaks one. */
  lemma ActiveTodayAlone(c: int, today: int, total: int)
    requires c > 0
    ensures StreakOf(ContributionCalendar([[Day(today, c)]], total), today) == Streaks(1, 1)
  {
    var w: seq<Day> := [Day(today, c)];
    OneWeekValidDays(w, today, total);
    assert |w[..0]| == 0;
    assert Trailing(w) == 1 && Longest(w) == 1;
    var cal := ContributionCalendar([w], total);
    assert StreakOf(cal, today) == Streaks(CurrentStreak(w, today), Longest(w));
  }

  /** What `process_languages` yields: the ranked rows with the total size
      their percentages are taken of, or the ZeroDivisionError raised while
      computing the first percentage when the total is zero. */
  datatype LanguagesResult =
    | Ranked(languages: seq<LangStat<Option<string>>>, totalSize: nat)
    | ZeroDivisionError

  /** The Python table records the first edge's colour as it is, null included. */
  function KeepColor(c: Option<string>): Option<string> {
    c
  }

  /** What `process_languages` returns or raises for a list of repositories. */
  function ProcessedLanguages(repos: seq<Repo>): LanguagesResult {
    var es := AllEdges(repos);
    var t := Tally(es, KeepColor);
    if t != [] && TotalSize(es) == 0 then ZeroDivisionError else Ranked(Top(Rank(t)), TotalSize(es))
  }

  /** The body of the edge loop: creates the entry for a new language with
      size zero and the edge's colour, then adds the edge's size. */
  method CountEdge(langStats: map<string, Entry<Option<string>>>, order: seq<string>, edge: Edge,
                   ghost done: seq<Edge>)
    returns (langStats': map<string, Entry<Option<string>>>, order': seq<string>)
    requires Represents(langStats, order, Tally(done, KeepColor))
    ensures Represents(langStats', order', Tally(done + [edge], KeepColor))
  {
    TallyAppend(done, edge, KeepColor);
    langStats', order' := langStats, order;
    if edge.name !in langStats' {
      NewNameRepresented(langStats, order, Tally(done, KeepColor), edge, KeepColor);
      langStats' := langStats'[edge.name := Entry(0, edge.color)];
      order' := order' + [edge.name];
    } else {
      TallyDistinct(done, KeepColor);
      KnownNameRepresented(langStats, order, Tally(done, KeepColor), edge, KeepColor);
    }
    langStats' := langStats'[edge.name := langStats'[edge.name].(size := langStats'[edge.name].size + edge.size)];
  }

  /** The inner loop of `process_languages`: every edge of one repository
      goes into `lang_stats` and `total_size`. */
  method CountRepoEdges(langStats: map<string, Entry<Option<string>>>, order: seq<string>, totalSize: nat,
                        edges: seq<Edge>, ghost seen: seq<Edge>)
    returns (langStats': map<string, Entry<Option<string>>>, order': seq<string>, totalSize': nat)
    requires Represents(langStats, order, Tally(seen, KeepColor)) && totalSize == TotalSize(seen)
    ensures Represents(langStats', order', Tally(seen + edges, KeepColor))
    ensures totalSize' == TotalSize(seen + edges)
  {
    langStats', order', totalSize' := langStats, order, totalSize;
    ghost var done := seen;
    for j := 0 to |edges|
      invariant done == seen + edges[..j]
      invariant Represents(langStats', order', Tally(done, KeepColor))
      invariant totalSize' == TotalSize(done)
    {
      var edge := edges[j];
      langStats', order' := CountEdge(langStats', order', edge, done);
      totalSize' := totalSize' + edge.size;
      TotalSizeAppend(done, edge);
      done := done + [edge];
      assert edges[..j + 1] == edges[..j] + [edge];
    }
    assert edges[..|edges|] == edges;
  }

  /** The outer loop of `process_languages`: repositories without edges are
      skipped, the others counted edge by edge. */
  method CountRepos(repos: seq<Repo>) returns (langStats: map<string, Entry<Option<string>>>, order: seq<string>, totalSize: nat)
    ensures Represents(langStats, order, Tally(AllEdges(repos), KeepColor))
    ensures totalSize == TotalSize(AllEdges(repos))
  {
    langStats, order, totalSize := map[], [], 0;
    for i := 0 to |repos|
      invariant Represents(langStats, order, Tally(AllEdges(repos[..i]), KeepColor))
      invariant totalSize == TotalSize(AllEdges(repos[..i]))
    {
      assert repos[..i + 1][..i] == repos[..i];
      var edges := repos[i].edges;
      if |edges| > 0 {
        langStats, order, totalSize := CountRepoEdges(langStats, order, totalSize, edges, AllEdges(repos[..i]));
      } else {
        assert AllEdges(repos[..i]) + edges == AllEdges(repos[..i]);
      }
    }
    assert repos[..|repos|] == repos;
  }

  /** The listing loop of `process_languages`: one row per dictionary entry,
      in insertion order. Computing a row's percentage divides by
      `total_size`, so the first row raises when the total is zero. */
  method ListStats(langStats: map<string, Entry<Option<string>>>, order: seq<string>, totalSize: nat,
                   ghost table: seq<LangStat<Option<string>>>)
    returns (result: seq<LangStat<Option<string>>>, raised: bool)
    requires Represents(langStats, order, table)
    ensures raised <==> table != [] && totalSize == 0
    ensures !raised ==> result == table
  {
    result := [];
    for k := 0 to |order|
      invariant result == table[..k]
      invariant 0 < k ==> totalSize != 0
    {
      var data := langStats[order[k]];
      if totalSize == 0 {
        return result, true;
      }
      assert table[..k + 1] == table[..k] + [table[k]];
      result := result + [LangStat(order[k], data.size, data.color)];
    }
    assert table[..|order|] == table;
    raised := false;
  }

  /** `process_languages`: fold every edge into the `lang_stats` dictionary
      and the running `total_size`, list the entries with their percentage,
      sort by size (largest first) and keep the first five. */
  method ProcessLanguages(repos: seq<Repo>) returns (r: LanguagesResult)
    ensures r == ProcessedLanguages(repos)
  {
    var langStats, order, totalSize := CountRepos(repos);
    var result, raised := ListStats(langStats, order, totalSize, Tally(AllEdges(repos), KeepColor));
    if raised {
      return ZeroDivisionError;
    }
    result := Rank(result);
    r := Ranked(Top(result), totalSize);
  }

  /** The ZeroDivisionError is raised exactly when there is at least one edge
      and every edge has size zero. */
  lemma DivisionByZeroExactly(repos: seq<Repo>)
    ensures ProcessedLanguages(repos) == ZeroDivisionError <==>
      AllEdges(repos) != [] && forall k :: 0 <= k < |AllEdges(repos)| ==> AllEdges(repos)[k].size == 0
  {
    TallyEmpty(AllEdges(repos), KeepColor);
    TotalSizeZero(AllEdges(repos));
  }

  lemma {:induction false} AllEdgesAppend(a: seq<Repo>, b: seq<Repo>)
    ensures AllEdges(a + b) == AllEdges(a) + AllEdges(b)
  {
    if b != [] {
      var b' := b[..|b| - 1];
      AllEdgesAppend(a, b');
      assert (a + b)[..|a + b| - 1] == a + b';
    } else {
      assert a + b == a;
    }
  }

  /** A repository without language edges changes nothing, wherever it
      stands in the list. */
  lemma EmptyRepoContributesNothing(pre: seq<Repo>, name: string, post: seq<Repo>)
    ensures ProcessedLanguages(pre + [Repo(name, [])] + post) == ProcessedLanguages(pre + post)
  {
    AllEdgesAppend(pre + [Repo(name, [])], post);
    AllEdgesAppend(pre, [Repo(name, [])]);
    AllEdgesAppend(pre, post);
    assert |[Repo(name, [])][..0]| == 0;
    assert AllEdges([Repo(name, [])]) == [];
    assert AllEdges(pre) + [] == AllEdges(pre);
  }

  /** The ranking `process_languages` returns: at most five rows, and fewer
      only when every language is ranked, largest first, no language twice,
      each row holding its language's summed size and first colour, and the
      total the sum of all edge sizes. */
  lemma RankedLanguages(repos: seq<Repo>)
    requires ProcessedLanguages(repos).Ranked?
    ensures var r := ProcessedLanguages(repos).languages;
      |r| <= TopCount &&
      (forall i, j :: 0 <= i < j < |r| ==> r[i].size >= r[j].size) &&
      DistinctNames(r)
    ensures var es := AllEdges(repos);
      var r := ProcessedLanguages(repos).languages;
      forall i :: 0 <= i < |r| ==>
        r[i].name in Names(es) && r[i].size == SizeOf(es, r[i].name) && r[i].color == FirstColor(es, r[i].name)
    ensures var r := ProcessedLanguages(repos).languages;
      |r| == TopCount || forall n :: n in Names(AllEdges(repos)) ==> exists i :: 0 <= i < |r| && r[i].name == n
    ensures ProcessedLanguages(repos).totalSize == TotalSize(AllEdges(repos))
  {
    var es := AllEdges(repos);
    var t := Tally(es, KeepColor);
    RankCoversAllOrTop(es, KeepColor);
    TallyDistinct(es, KeepColor);
    TallySizes(es, KeepColor);
    TallyColors(es, KeepColor);
    TopOfRankOrdered(t);
    TopOfRankRows(t);
  }

  /** Languages of equal size are ranked in the order they were first seen. */
  lemma RankedTiesFirstSeen(repos: seq<Repo>)
    requires ProcessedLanguages(repos).Ranked?
    ensures var es := AllEdges(repos);
      var r := ProcessedLanguages(repos).languages;
      forall i, j :: 0 <= i < j < |r| && r[i].size == r[j].size ==>
        r[i].name in Names(es) && r[j].name in Names(es) && FirstIndex(es, r[i].name) < FirstIndex(es, r[j].name)
  {
    RankKeepsFirstSeenOrder(AllEdges(repos), KeepColor, ProcessedLanguages(repos).languages);
  }

  /** No language left out of the ranking has a larger summed size than a
      language kept, and one left out with the same size as a language kept
      was first seen after it. */
  lemma RankedLanguagesAreTop(repos: seq<Repo>)
    requires ProcessedLanguages(repos).Ranked?
    ensures var es := AllEdges(repos);
      var r := ProcessedLanguages(repos).languages;
      forall n :: n in Names(es) && (forall i :: 0 <= i < |r| ==> r[i].name != n) ==>
        forall i :: 0 <= i < |r| ==> SizeOf(es, n) <= r[i].size
    ensures var es := AllEdges(repos);
      var r := ProcessedLanguages(repos).languages;
      forall n :: n in Names(es) && (forall i :: 0 <= i < |r| ==> r[i].name != n) ==>
        forall i :: 0 <= i < |r| && r[i].size == SizeOf(es, n) ==>
          r[i].name in Names(es) && FirstIndex(es, r[i].name) < FirstIndex(es, n)
  {
    var es := AllEdges(repos);
    var t := Tally(es, KeepColor);
    var r := Top(Rank(t));
    TallyNames(es, KeepColor);
    TallySizes(es, KeepColor);
    TopOfRankIsTop(t);
    RankCutKeepsFirstSeen(es, KeepColor, r);
    forall n, i | n in Names(es) && (forall i :: 0 <= i < |r| ==> r[i].name != n) && 0 <= i < |r|
      ensures SizeOf(es, n) <= r[i].size
    {
      var k := Find(t, n).value;
      assert t[k] in t;
      assert r[i] in r;
    }
  }
}
