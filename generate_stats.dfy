/** The statistics computed by the Node.js script generate-stats.js:
    `calculateStreak` and `calculateLanguages`. */
module GenerateStats {
  import opened StableSort
  import opened Calendar
  import opened LanguageTable
  import GitHubApi

  /** The object `calculateStreak` returns. */
  datatype Activity = Activity(totalContributions: int, currentStreak: nat, longestStreak: nat)

  /** The days the backward scan takes into account: none dated after today,
      and no idle day dated today (today's zero waits for yesterday). */
  predicate SeenByScan(d: Day, today: int) {
    d.date <= today && (Active(d) || d.date != today)
  }

  /** The entries of `s` the backward scan takes into account, in order. */
  function Scanned(s: seq<Day>, today: int): seq<Day> {
    if s == [] then []
    else (if SeenByScan(s[0], today) then [s[0]] else []) + Scanned(s[1..], today)
  }

  /** The current streak of the sorted days: the active run at the end of the
      entries the scan takes into account. */
  function CurrentStreak(days: seq<Day>, today: int): nat {
    Trailing(Scanned(days, today))
  }

  /** What `calculateStreak` returns for a calendar on a given day; unlike the
      Python client it measures the longest run over all days, future ones
      included. */
  function ActivityOf(cal: ContributionCalendar, today: int): Activity {
    var days := ByDate(Flatten(cal.weeks));
    Activity(cal.totalContributions, CurrentStreak(days, today), Longest(days))
  }

  /** `calculateStreak`: sort the flattened days, scan backwards for the
      current streak with a `streakBroken` flag, then forwards for the longest. */
  method CalculateStreak(cal: ContributionCalendar, today: int) returns (a: Activity)
    ensures a == ActivityOf(cal, today)
  {
    var days := Flatten(cal.weeks);
    var currentStreak: nat := 0;
    var longestStreak: nat := 0;
    var tempStreak: nat := 0;
    days := ByDate(days);

    var streakBroken := false;
    for i := |days| downto 0
      invariant currentStreak == Trailing(Scanned(days[i..], today))
      invariant streakBroken <==> Trailing(Scanned(days[i..], today)) < |Scanned(days[i..], today)|
    {
      assert days[i..][1..] == days[i + 1..];
      assert Scanned(days[i..], today)
          == (if SeenByScan(days[i], today) then [days[i]] else []) + Scanned(days[i + 1..], today);
      TrailingPrepend(days[i], Scanned(days[i + 1..], today));
      ghost var seen := Scanned(days[i + 1..], today);
      assert Trailing(seen) <= |seen|;
      var day := days[i];
      if day.date > today {
        assert Scanned(days[i..], today) == seen;
        continue;
      }
      if day.count > 0 {
        if !streakBroken {
          currentStreak := currentStreak + 1;
        }
      } else {
        // an idle day dated today waits for yesterday
        if day.date != today {
          streakBroken := true;
        }
      }
    }

    for i := 0 to |days|
      invariant tempStreak == Trailing(days[..i])
      invariant longestStreak == Longest(days[..i])
    {
      assert days[..i + 1][..i] == days[..i];
      if days[i].count > 0 {
        tempStreak := tempStreak + 1;
        if tempStreak > longestStreak {
          longestStreak := tempStreak;
        }
      } else {
        tempStreak := 0;
      }
    }
    assert days[..|days|] == days;

    a := Activity(cal.totalContributions, currentStreak, longestStreak);
  }

  lemma {:induction false} ScannedAppend(s: seq<Day>, t: seq<Day>, today: int)
    ensures Scanned(s + t, today) == Scanned(s, today) + Scanned(t, today)
  {
    if s == [] {
      assert s + t == t;
    } else {
      var head := if SeenByScan(s[0], today) then [s[0]] else [];
      assert (s + t)[0] == s[0];
      assert (s + t)[1..] == s[1..] + t;
      assert Scanned(s + t, today) == head + Scanned(s[1..] + t, today);
      ScannedAppend(s[1..], t, today);
      assert head + (Scanned(s[1..], today) + Scanned(t, today)) == (head + Scanned(s[1..], today)) + Scanned(t, today);
    }
  }

  /** The scan keeps exactly the days it takes into account. */
  lemma {:induction false} ScannedMembers(s: seq<Day>, today: int)
    ensures forall d :: d in Scanned(s, today) <==> d in s && SeenByScan(d, today)
  {
    if s != [] {
      ScannedMembers(s[1..], today);
      assert s == [s[0]] + s[1..];
    }
  }

  /** Days dated after today are skipped by the current-streak scan: it sees
      the same entries as it would among the days up to today. */
  lemma {:induction false} FutureDaysSkipped(s: seq<Day>, today: int)
    ensures Scanned(UpTo(s, today), today) == Scanned(s, today)
  {
    if s != [] {
      var s', last := s[..|s| - 1], s[|s| - 1];
      FutureDaysSkipped(s', today);
      assert s == s' + [last];
      ScannedAppend(s', [last], today);
      ScannedAppend(UpTo(s', today), if last.date <= today then [last] else [], today);
    }
  }

  /** An idle day dated today does not break the streak: the current streak
      is the same as without it. */
  lemma TodayIdleKeepsStreak(s: seq<Day>, d: Day, today: int)
    requires d.date == today && !Active(d)
    ensures CurrentStreak(s + [d], today) == CurrentStreak(s, today)
  {
    ScannedAppend(s, [d], today);
    assert Scanned([d], today) == [];
    assert Scanned(s, today) + [] == Scanned(s, today);
  }

  /** An idle day before today breaks the streak: no active day before it is
      counted. */
  lemma IdleDayBreaksStreak(before: seq<Day>, d: Day, after: seq<Day>, today: int)
    requires d.date < today && !Active(d)
    ensures CurrentStreak(before + [d] + after, today) == CurrentStreak(after, today)
  {
    ScannedAppend(before + [d], after, today);
    ScannedAppend(before, [d], today);
    assert Scanned([d], today) == [d];
    TrailingAfterIdle(Scanned(before, today), d, Scanned(after, today));
  }

  /** The current streak is the whole active run at the end of the scanned
      entries: every one of them is active and the entry before is idle. */
  lemma CurrentStreakIsRun(days: seq<Day>, today: int)
    ensures
      var w := Scanned(days, today);
      var c := CurrentStreak(days, today);
      ActiveRun(w, |w| - c, |w|) && (c < |w| ==> !Active(w[|w| - c - 1]))
  {
    TrailingIsMaximalRun(Scanned(days, today));
  }

  /** Adding a week of future days never changes the current streak. */
  lemma FutureWeekKeepsCurrentStreak(cal: ContributionCalendar, future: seq<Day>, today: int)
    requires forall k :: 0 <= k < |future| ==> future[k].date > today
    ensures ActivityOf(ContributionCalendar(cal.weeks + [future], cal.totalContributions), today).currentStreak
         == ActivityOf(cal, today).currentStreak
  {
    var days := Flatten(cal.weeks);
    GitHubApi.FlattenAppend(cal.weeks, future);
    FutureDaysSkipped(ByDate(days + future), today);
    FutureDaysSkipped(ByDate(days), today);
    UpToByDate(days + future, today);
    UpToByDate(days, today);
    UpToAppend(days, future, today);
    UpToNone(future, today);
    assert UpTo(days, today) + UpTo(future, today) == UpTo(days, today);
  }

  /** A calendar without any contribution has no streak, and the reported
      total is passed through. */
  lemma IdleCalendarNoStreak(cal: ContributionCalendar, today: int)
    requires forall k :: 0 <= k < |Flatten(cal.weeks)| ==> !Active(Flatten(cal.weeks)[k])
    ensures ActivityOf(cal, today) == Activity(cal.totalContributions, 0, 0)
  {
    var days := ByDate(Flatten(cal.weeks));
    assert forall k :: 0 <= k < |days| ==> days[k] in Flatten(cal.weeks);
    IdleHasNoRun(days);
    var w := Scanned(days, today);
    ScannedMembers(days, today);
    assert forall k :: 0 <= k < |w| ==> w[k] in w;
    IdleHasNoRun(w);
  }

  /** In date order, with distinct dates none after today and one of them
      today, today comes last and every other day strictly before it. */
  lemma TodayLast(days: seq<Day>, today: int)
    requires SortedBy(days, DateKey)
    requires forall i, j :: 0 <= i < j < |days| ==> DateKey(days[i]) != DateKey(days[j])
    requires forall k :: 0 <= k < |days| ==> days[k].date <= today
    requires exists k :: 0 <= k < |days| && days[k].date == today
    ensures days != [] && days[|days| - 1].date == today
    ensures forall j :: 0 <= j < |days| - 1 ==> days[j].date < today
  {
    var n := |days|;
    var m :| 0 <= m < n && days[m].date == today;
    assert DateKey(days[m]) <= DateKey(days[n - 1]);
    forall j | 0 <= j < n - 1
      ensures days[j].date < today
    {
      assert DateKey(days[j]) <= DateKey(days[n - 1]);
    }
  }

  /** Sorting keeps the facts `TodayLast` needs. */
  lemma SortedPastEndsToday(flat: seq<Day>, today: int)
    requires forall i, j :: 0 <= i < j < |flat| ==> flat[i].date != flat[j].date
    requires forall k :: 0 <= k < |flat| ==> flat[k].date <= today
    requires exists k :: 0 <= k < |flat| && flat[k].date == today
    ensures var days := ByDate(flat);
      days != [] && days[|days| - 1].date == today &&
      forall j :: 0 <= j < |days| - 1 ==> days[j].date < today
  {
    var days := ByDate(flat);
    SortBySorted(flat, DateKey);
    SortByKeepsDistinct(flat, DateKey, DateKey);
    ByDateMembers(flat);
    forall j | 0 <= j < |days|
      ensures days[j].date <= today
    {
      assert days[j] in flat;
    }
    var k :| 0 <= k < |flat| && flat[k].date == today;
    assert flat[k] in days;
    TodayLast(days, today);
  }

  /** On a calendar whose dates are distinct, none of them after today and
      one of them today, the two implementations agree on both streaks. */
  lemma AgreesWithPython(cal: ContributionCalendar, today: int)
    requires forall i, j :: 0 <= i < j < |Flatten(cal.weeks)| ==> Flatten(cal.weeks)[i].date != Flatten(cal.weeks)[j].date
    requires forall k :: 0 <= k < |Flatten(cal.weeks)| ==> Flatten(cal.weeks)[k].date <= today
    requires exists k :: 0 <= k < |Flatten(cal.weeks)| && Flatten(cal.weeks)[k].date == today
    ensures GitHubApi.StreakOf(cal, today).current == ActivityOf(cal, today).currentStreak
    ensures GitHubApi.StreakOf(cal, today).longest == ActivityOf(cal, today).longestStreak
  {
    var days := ByDate(Flatten(cal.weeks));
    SortedPastEndsToday(Flatten(cal.weeks), today);
    var n := |days|;
    var last := days[n - 1];
    var before := days[..n - 1];
    assert days == before + [last];
    UpToAll(days, today);
    BeforeTodayAllScanned(before, today);
    ScannedAppend(before, [last], today);
    if Active(last) {
      assert Scanned([last], today) == [last];
    } else {
      assert Scanned([last], today) == [];
      assert Scanned(days, today) == before;
    }
  }

  /** When every day but the last is dated before today and the last is not
      dated after it, the scan sees all of them, less the last when that one
      is idle. */
  lemma LastOnlyMaySkip(p: seq<Day>, today: int) returns (m: nat)
    requires p != [] && p[|p| - 1].date <= today
    requires forall k :: 0 <= k < |p| - 1 ==> p[k].date < today
    ensures m <= |p| && Scanned(p, today) == p[..m]
    ensures m == if SeenByScan(p[|p| - 1], today) then |p| else |p| - 1
  {
    var n := |p|;
    var last := p[n - 1];
    assert p == p[..n - 1] + [last];
    BeforeTodayAllScanned(p[..n - 1], today);
    ScannedAppend(p[..n - 1], [last], today);
    if SeenByScan(last, today) {
      assert Scanned([last], today) == [last];
      m := n;
    } else {
      assert Scanned([last], today) == [];
      m := n - 1;
    }
  }

  /** On date-sorted days with distinct dates, the scan sees a prefix of the
      days: all of those up to today, less the last of them when it is an
      idle day dated today. */
  lemma ScannedIsPrefix(days: seq<Day>, today: int) returns (m: nat)
    requires SortedBy(days, DateKey)
    requires forall i, j :: 0 <= i < j < |days| ==> days[i].date != days[j].date
    ensures m <= |days| && Scanned(days, today) == days[..m]
    ensures m == |UpTo(days, today)| ||
      (m == |UpTo(days, today)| - 1 && m < |days| && days[m].date == today && !Active(days[m]))
  {
    var n := UpToSortedIsPrefix(days, today);
    FutureDaysSkipped(days, today);
    if n == 0 {
      m := 0;
    } else {
      var p := days[..n];
      assert p[n - 1].date <= today by {
        UpToMembers(days, today);
        assert p[n - 1] in UpTo(days, today);
      }
      forall k | 0 <= k < n - 1
        ensures p[k].date < today
      {
        assert DateKey(days[k]) <= DateKey(days[n - 1]);
      }
      m := LastOnlyMaySkip(p, today);
      assert p[..m] == days[..m];
    }
  }

  /** With distinct dates the current streak never exceeds the longest: the
      run it counts is a run of the sorted days. */
  lemma CurrentAtMostLongest(cal: ContributionCalendar, today: int)
    requires forall i, j :: 0 <= i < j < |Flatten(cal.weeks)| ==> Flatten(cal.weeks)[i].date != Flatten(cal.weeks)[j].date
    ensures ActivityOf(cal, today).currentStreak <= ActivityOf(cal, today).longestStreak
  {
    var days := ByDate(Flatten(cal.weeks));
    SortBySorted(Flatten(cal.weeks), DateKey);
    SortByKeepsDistinct(Flatten(cal.weeks), DateKey, DateKey);
    var m := ScannedIsPrefix(days, today);
    TrailingAtMostLongest(days[..m]);
    LongestOfPrefix(days, m);
  }

  /** With a repeated date the scan can join two runs: an idle entry dated
      today between two active entries of the same date is skipped, so the
      current streak exceeds the longest. */
  lemma RepeatedTodayJoinsRuns(x: Day, y: Day, z: Day, today: int)
    requires x.date == y.date == z.date == today
    requires Active(x) && !Active(y) && Active(z)
    ensures CurrentStreak([x, y, z], today) == 2 && Longest([x, y, z]) == 1
  {
    var s := [x, y, z];
    assert s[1..] == [y, z] && [y, z][1..] == [z] && [z][1..] == [];
    assert Scanned([z], today) == [z];
    assert Scanned([y, z], today) == [z];
    assert Scanned(s, today) == [x, z];
    assert [x, z][..1] == [x] && [x][..0] == [];
    assert Trailing([x, z]) == 2;
    assert s[..2] == [x, y] && [x, y][..1] == [x];
    assert Trailing([x]) == 1 && Longest([x]) == 1;
    assert Trailing([x, y]) == 0 && Longest([x, y]) == 1;
    assert Trailing(s) == 1;
  }

  /** The scan takes every day dated before today into account. */
  lemma {:induction false} BeforeTodayAllScanned(s: seq<Day>, today: int)
    requires forall k :: 0 <= k < |s| ==> s[k].date < today
    ensures Scanned(s, today) == s
  {
    if s != [] {
      BeforeTodayAllScanned(s[1..], today);
      assert s == [s[0]] + s[1..];
    }
  }

  /** Where the two implementations part: when no day is dated today (the
      calendar ends yesterday or earlier), the Python client reports no
      current streak, while this scan still counts the active run at the end. */
  lemma NoDayTodayDiffers(cal: ContributionCalendar, today: int)
    requires forall k :: 0 <= k < |Flatten(cal.weeks)| ==> Flatten(cal.weeks)[k].date < today
    ensures GitHubApi.StreakOf(cal, today).current == 0
    ensures ActivityOf(cal, today).currentStreak == Trailing(ByDate(Flatten(cal.weeks)))
  {
    var days := ByDate(Flatten(cal.weeks));
    ByDateMembers(Flatten(cal.weeks));
    forall k | 0 <= k < |days|
      ensures days[k].date < today
    {
      assert days[k] in Flatten(cal.weeks);
    }
    UpToAll(days, today);
    BeforeTodayAllScanned(days, today);
  }

  /** The two-day calendar of `FutureDaysLengthenLongest`, evaluated. */
  lemma TwoActiveDays(a: Day, b: Day)
    requires a.date < b.date && Active(a) && Active(b)
    ensures ByDate([a, b]) == [a, b]
    ensures UpTo([a, b], a.date) == [a]
    ensures Longest([a, b]) == 2 && Longest([a]) == 1
  {
    var s := [a, b];
    SortByIdentity(s, DateKey);
    assert s[..|s| - 1] == [a] && s[|s| - 1] == b;
    assert UpTo(s, a.date) == UpTo([a], a.date);
    assert [a][..0] == [];
    assert UpTo([a], a.date) == UpTo([], a.date) + [a];
    AllActiveIsOneRun(s);
    AllActiveIsOneRun([a]);
  }

  /** Where the two implementations part: active days dated after today count
      towards this longest streak but not towards the Python client's. */
  lemma FutureDaysLengthenLongest(a: Day, b: Day, total: int)
    requires a.date < b.date && Active(a) && Active(b)
    ensures GitHubApi.StreakOf(ContributionCalendar([[a, b]], total), a.date).longest == 1
    ensures ActivityOf(ContributionCalendar([[a, b]], total), a.date).longestStreak == 2
  {
    var cal := ContributionCalendar([[a, b]], total);
    assert Flatten(cal.weeks) == [a, b];
    TwoActiveDays(a, b);
  }

  /** The Python client's longest streak never exceeds this one: its valid
      days are a prefix of the sorted days this one scans, and the two are
      equal when no day lies after today. */
  lemma LongestAtLeastPython(cal: ContributionCalendar, today: int)
    ensures GitHubApi.StreakOf(cal, today).longest <= ActivityOf(cal, today).longestStreak
    ensures (forall k :: 0 <= k < |Flatten(cal.weeks)| ==> Flatten(cal.weeks)[k].date <= today) ==>
      GitHubApi.StreakOf(cal, today).longest == ActivityOf(cal, today).longestStreak
  {
    var days := ByDate(Flatten(cal.weeks));
    SortBySorted(Flatten(cal.weeks), DateKey);
    var n := UpToSortedIsPrefix(days, today);
    LongestOfPrefix(days, n);
    if forall k :: 0 <= k < |Flatten(cal.weeks)| ==> Flatten(cal.weeks)[k].date <= today {
      ByDateMembers(Flatten(cal.weeks));
      forall k | 0 <= k < |days|
        ensures days[k].date <= today
      {
        assert days[k] in Flatten(cal.weeks);
      }
      UpToAll(days, today);
    }
  }

  /** The colour a row gets when its language's first edge has none. */
  const DefaultColor: string := "#ccc"

  /** `color || '#ccc'`: a non-empty colour is kept, a missing (null) or
      empty one falls back to the default; the result is never empty. */
  function ColorOrDefault(c: Option<string>): (r: string)
    ensures r != ""
    ensures c.Some? && c.value != "" ==> r == c.value
    ensures c.None? || c.value == "" ==> r == DefaultColor
  {
    match c
    case Some(v) => if v != "" then v else DefaultColor
    case None => DefaultColor
  }

  /** What `calculateLanguages` returns: the ranked rows, with the total size
      their percentages are taken of. A zero total raises nothing here: every
      percentage is then `0 / 0`, which is NaN. */
  datatype LanguageRanking = LanguageRanking(languages: seq<LangStat<string>>, totalSize: nat)

  /** What `calculateLanguages` returns for a list of repositories. */
  function LanguagesOf(repos: seq<Repo>): LanguageRanking {
    var es := AllEdges(repos);
    LanguageRanking(Top(Rank(Tally(es, ColorOrDefault))), TotalSize(es))
  }

  /** The body of the edge callback: creates the entry for a new language with
      size zero and its colour or the default, then adds the edge's size. */
  method CountEdge(langStats: map<string, Entry<string>>, order: seq<string>, edge: Edge, ghost done: seq<Edge>)
    returns (langStats': map<string, Entry<string>>, order': seq<string>)
    requires Represents(langStats, order, Tally(done, ColorOrDefault))
    ensures Represents(langStats', order', Tally(done + [edge], ColorOrDefault))
  {
    TallyAppend(done, edge, ColorOrDefault);
    langStats', order' := langStats, order;
    if edge.name !in langStats' {
      NewNameRepresented(langStats, order, Tally(done, ColorOrDefault), edge, ColorOrDefault);
      langStats' := langStats'[edge.name := Entry(0, ColorOrDefault(edge.color))];
      order' := order' + [edge.name];
    } else {
      TallyDistinct(done, ColorOrDefault);
      KnownNameRepresented(langStats, order, Tally(done, ColorOrDefault), edge, ColorOrDefault);
    }
    langStats' := langStats'[edge.name := langStats'[edge.name].(size := langStats'[edge.name].size + edge.size)];
  }

  /** The inner `forEach`: every edge of one repository goes into `langStats`
      and `totalSize`. */
  method CountRepoEdges(langStats: map<string, Entry<string>>, order: seq<string>, totalSize: nat,
                        edges: seq<Edge>, ghost seen: seq<Edge>)
    returns (langStats': map<string, Entry<string>>, order': seq<string>, totalSize': nat)
    requires Represents(langStats, order, Tally(seen, ColorOrDefault)) && totalSize == TotalSize(seen)
    ensures Represents(langStats', order', Tally(seen + edges, ColorOrDefault))
    ensures totalSize' == TotalSize(seen + edges)
  {
    langStats', order', totalSize' := langStats, order, totalSize;
    ghost var done := seen;
    for j := 0 to |edges|
      invariant done == seen + edges[..j]
      invariant Represents(langStats', order', Tally(done, ColorOrDefault))
      invariant totalSize' == TotalSize(done)
    {
      var edge := edges[j];
      langStats', order' := CountEdge(langStats', order', edge, done);
      totalSize' := totalSize' + edge.size;
      TotalSizeAppend(done, edge);
      done := done + [edge];
      assert edges[..j + 1] == edges[..j] + [edge];
    }
    assert edges[..|edges|] == edges;
  }

  /** `Object.entries(langStats).map(...)`: one row per entry, in insertion
      order. */
  method ListEntries(langStats: map<string, Entry<string>>, order: seq<string>, ghost table: seq<LangStat<string>>)
    returns (entries: seq<LangStat<string>>)
    requires Represents(langStats, order, table)
    ensures entries == table
  {
    entries := [];
    for k := 0 to |order|
      invariant entries == table[..k]
    {
      var data := langStats[order[k]];
      assert table[..k + 1] == table[..k] + [table[k]];
      entries := entries + [LangStat(order[k], data.size, data.color)];
    }
    assert table[..|order|] == table;
  }

  /** `calculateLanguages`: fold every edge of every repository into
      `langStats` and `totalSize`, list the entries in insertion order with
      their percentage, sort by size (largest first) and keep the first five. */
  method CalculateLanguages(repos: seq<Repo>) returns (r: LanguageRanking)
    ensures r == LanguagesOf(repos)
  {
    var langStats: map<string, Entry<string>> := map[];
    var order: seq<string> := [];
    var totalSize: nat := 0;
    for i := 0 to |repos|
      invariant Represents(langStats, order, Tally(AllEdges(repos[..i]), ColorOrDefault))
      invariant totalSize == TotalSize(AllEdges(repos[..i]))
    {
      assert repos[..i + 1][..i] == repos[..i];
      langStats, order, totalSize := CountRepoEdges(langStats, order, totalSize, repos[i].edges, AllEdges(repos[..i]));
    }
    assert repos[..|repos|] == repos;

    var entries := ListEntries(langStats, order, Tally(AllEdges(repos), ColorOrDefault));
    r := LanguageRanking(Top(Rank(entries)), totalSize);
  }

  /** The ranking `calculateLanguages` returns: at most five rows, and fewer
      only when every language is ranked, largest first, no language twice,
      each row holding its language's summed size and its first edge's colour
      or the default, never an empty colour, and the total the sum of all
      edge sizes. */
  lemma RankedLanguages(repos: seq<Repo>)
    ensures var r := LanguagesOf(repos).languages;
      |r| <= TopCount &&
      (forall i, j :: 0 <= i < j < |r| ==> r[i].size >= r[j].size) &&
      DistinctNames(r)
    ensures var es := AllEdges(repos);
      var r := LanguagesOf(repos).languages;
      forall i :: 0 <= i < |r| ==>
        r[i].name in Names(es) && r[i].size == SizeOf(es, r[i].name) &&
        r[i].color == ColorOrDefault(FirstColor(es, r[i].name)) && r[i].color != ""
    ensures var r := LanguagesOf(repos).languages;
      |r| == TopCount || forall n :: n in Names(AllEdges(repos)) ==> exists i :: 0 <= i < |r| && r[i].name == n
    ensures LanguagesOf(repos).totalSize == TotalSize(AllEdges(repos))
  {
    var es := AllEdges(repos);
    var t := Tally(es, ColorOrDefault);
    RankCoversAllOrTop(es, ColorOrDefault);
    TallyDistinct(es, ColorOrDefault);
    TallySizes(es, ColorOrDefault);
    TallyColors(es, ColorOrDefault);
    TopOfRankOrdered(t);
    TopOfRankRows(t);
  }

  /** Languages of equal size are ranked in the order they were first seen. */
  lemma RankedTiesFirstSeen(repos: seq<Repo>)
    ensures var es := AllEdges(repos);
      var r := LanguagesOf(repos).languages;
      forall i, j :: 0 <= i < j < |r| && r[i].size == r[j].size ==>
        r[i].name in Names(es) && r[j].name in Names(es) && FirstIndex(es, r[i].name) < FirstIndex(es, r[j].name)
  {
    RankKeepsFirstSeenOrder(AllEdges(repos), ColorOrDefault, LanguagesOf(repos).languages);
  }

  /** No language left out of the ranking has a larger summed size than a
      language kept, and one left out with the same size as a language kept
      was first seen after it. */
  lemma RankedLanguagesAreTop(repos: seq<Repo>)
    ensures var es := AllEdges(repos);
      var r := LanguagesOf(repos).languages;
      forall n :: n in Names(es) && (forall i :: 0 <= i < |r| ==> r[i].name != n) ==>
        forall i :: 0 <= i < |r| ==> SizeOf(es, n) <= r[i].size
    ensures var es := AllEdges(repos);
      var r := LanguagesOf(repos).languages;
      forall n :: n in Names(es) && (forall i :: 0 <= i < |r| ==> r[i].name != n) ==>
        forall i :: 0 <= i < |r| && r[i].size == SizeOf(es, n) ==>
          r[i].name in Names(es) && FirstIndex(es, r[i].name) < FirstIndex(es, n)
  {
    var es := AllEdges(repos);
    var t := Tally(es, ColorOrDefault);
    var r := Top(Rank(t));
    TallyNames(es, ColorOrDefault);
    TallySizes(es, ColorOrDefault);
    TopOfRankIsTop(t);
    RankCutKeepsFirstSeen(es, ColorOrDefault, r);
    forall n, i | n in Names(es) && (forall i :: 0 <= i < |r| ==> r[i].name != n) && 0 <= i < |r|
      ensures SizeOf(es, n) <= r[i].size
    {
      var k := Find(t, n).value;
      assert t[k] in t;
      assert r[i] in r;
    }
  }

  /** Wherever the Python client returns a ranking, this one is the same
      ranking with the missing or empty colours replaced by the default. */
  lemma LanguagesAgreeWithPython(repos: seq<Repo>)
    requires GitHubApi.ProcessedLanguages(repos).Ranked?
    ensures LanguagesOf(repos).languages == Recolored(GitHubApi.ProcessedLanguages(repos).languages, ColorOrDefault)
    ensures LanguagesOf(repos).totalSize == GitHubApi.ProcessedLanguages(repos).totalSize
  {
    var es := AllEdges(repos);
    var t := Tally(es, GitHubApi.KeepColor);
    TallyRecolored(es, GitHubApi.KeepColor, ColorOrDefault, ColorOrDefault);
    RankRecolored(t, ColorOrDefault);
    TopRecolored(Rank(t), ColorOrDefault);
  }

  /** Where the Python client raises ZeroDivisionError (edges, all of size
      zero), this one still returns the languages, each of size zero, with a
      zero total. */
  lemma ZeroTotalStillRanked(repos: seq<Repo>)
    requires GitHubApi.ProcessedLanguages(repos).ZeroDivisionError?
    ensures LanguagesOf(repos).totalSize == 0
    ensures LanguagesOf(repos).languages != []
    ensures forall i :: 0 <= i < |LanguagesOf(repos).languages| ==> LanguagesOf(repos).languages[i].size == 0
  {
    var es := AllEdges(repos);
    var t := Tally(es, ColorOrDefault);
    GitHubApi.DivisionByZeroExactly(repos);
    TallyEmpty(es, ColorOrDefault);
    TallyTotal(es, ColorOrDefault);
    RankedLanguages(repos);
    forall n | n in Names(es)
      ensures SizeOf(es, n) == 0
    {
      SizeOfAtMostTotal(es, n);
    }
  }
}
