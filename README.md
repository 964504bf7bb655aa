# Contribution streaks and language ranking, modelled in Dafny

The repository draws two profile cards from GitHub data. One shows the
contribution streaks and the other the most used languages. The numbers are
computed twice, by two independent implementations:

- the Python client `GitHubAPI` in `src/github_api.py`, with
  `calculate_streak` and `process_languages`;
- the Node.js script `generate-stats.js`, with `calculateStreak` and
  `calculateLanguages`.

This project models those four operations and proves what they compute.

Modules:

- `Calendar` (calendar.dfy): the contribution calendar shared by both
  implementations. It holds:
  - days with an integer date and a count;
  - weeks of days;
  - the days up to today;
  - the length of the active run at the end of a sequence (`Trailing`);
  - the longest active run (`Longest`).
- `StableSort` (stable_sort.dfy): one stable insertion sort by an integer key.
  It stands for Python's `list.sort(key=...)` (also with `reverse=True`) and
  for JavaScript's comparator sort, which are both stable. It is proved:
  - sorted;
  - a permutation;
  - stable per key;
  - the identity on sorted input;
  - to keep equal-key elements in their input order.
- `LanguageTable` (language_table.dfy): the per-language tally that both
  implementations build.
  - `Tally` is a specification function over the sequence of language edges.
  - A dictionary (Python `dict`, JavaScript object) is modelled as a `map`
    plus its insertion order. The `Represents` predicate ties the pair to
    the tally.
  - `Rank` sorts by size, largest first, and `Top` keeps the first five.
  - `Recolored` maps the colour of every row. It relates the Python table,
    which keeps the colour as given, to the JavaScript table, which falls
    back to `#ccc`.
- `GitHubApi` (github_api.dfy): `calculate_streak` and `process_languages`.
  Each loop is a method proved against a specification function
  (`StreakOf`, `ProcessedLanguages`). Lemmas about those functions follow.
- `GenerateStats` (generate_stats.dfy): `calculateStreak` and
  `calculateLanguages`, also proved against specification functions
  (`ActivityOf`, `LanguagesOf`). Lemmas relate these to the Python client:
  - where the two agree;
  - where they part, with a witness for each difference.

Dates are day numbers, and today is a parameter. ISO `YYYY-MM-DD` strings
compare in date order, so ordering and equality of dates are those of the
day numbers.

### Where the code departs from the intended design

The model follows the code. The design description of the repository
differs from it in four places:

- **Filtering before the longest streak.** The design filters out future
  days before the longest streak is measured.
  - `calculate_streak` does this.
  - `calculateStreak` measures the longest run over all days, future ones
    included (generate-stats.js:128-135).
  - See `GenerateStats.FutureDaysLengthenLongest` and
    `GenerateStats.LongestAtLeastPython`.
- **Where the current streak may end.** The design counts a current streak
  that ends today, or yesterday when today is idle.
  - `calculate_streak` reports 0 whenever the newest day up to today is not
    dated today (src/github_api.py:103-105).
  - `calculateStreak` counts the active run at the end whatever its last
    date.
  - See `GenerateStats.NoDayTodayDiffers`.
- **Zero total size.** The design asks for a guarded percentage when the
  total size is zero.
  - `process_languages` raises `ZeroDivisionError` whenever at least one
    edge exists and all sizes are zero (src/github_api.py:147). See
    `GitHubApi.DivisionByZeroExactly`.
  - `calculateLanguages` returns rows whose percentage is `0 / 0`, which is
    NaN. See `GenerateStats.ZeroTotalStillRanked`.
- **Current streak never above the longest.** For `calculateStreak` this
  holds only when the calendar's dates are distinct
  (`GenerateStats.CurrentAtMostLongest`). With a repeated date equal to
  today, the backward scan skips the idle entry between two active ones.
  That joins them into a current streak of 2 while the longest is 1
  (`GenerateStats.RepeatedTodayJoinsRuns`). GitHub's calendar never repeats
  a date.

## Model

| member | source | states |
|---|---|---|
| StableSort.SortBySorted | src/github_api.py:72 | the sort returns its input with keys non-decreasing |
| StableSort.SortByPermutes | src/github_api.py:72 | the sort only reorders: same multiset as the input |
| StableSort.SortByStable | src/github_api.py:155 | for every key, the elements with that key keep their input order (a stable sort) |
| StableSort.SortByIdentity | src/github_api.py:82 | sorting already sorted days again changes nothing |
| StableSort.SortByKeepsDistinct | generate-stats.js:90 | elements that differ in an identity still differ after sorting |
| StableSort.SortByKeepsTieOrder | generate-stats.js:90 | when a rank increases along the input, elements with equal keys leave the sort in increasing rank |
| Calendar.TrailingIsMaximalRun | src/github_api.py:108-112 | the backward count is a run of active entries ending at the last one, and the entry before it is idle |
| Calendar.EndRunBounded | src/github_api.py:108-112 | every active run reaching the end is at most the backward count |
| Calendar.LongestBounds | src/github_api.py:84-96 | every run of adjacent active entries is at most the longest streak |
| Calendar.LongestAttained | src/github_api.py:84-96 | some run of adjacent active entries has exactly the longest streak's length |
| Calendar.TrailingAtMostLongest | src/github_api.py:84-123 | the run ending at the last entry is at most the longest streak |
| Calendar.LongestOfPrefix | generate-stats.js:128-135 | the longest streak of a prefix is at most that of the whole |
| Calendar.IdleHasNoRun | src/github_api.py:84-96 | with no active day, both the trailing run and the longest streak are zero |
| Calendar.AllActiveIsOneRun | src/github_api.py:84-96 | with every day active, both the trailing run and the longest streak are the number of days |
| Calendar.LongestIgnoresIdleTail | src/github_api.py:84-96 | appending idle days leaves the longest streak unchanged |
| Calendar.TrailingAfterIdle | generate-stats.js:121-123 | an idle entry cuts off everything before it from the trailing run |
| Calendar.UpToMembers | src/github_api.py:77-80 | the kept days are exactly the days dated on or before today |
| Calendar.UpToSorted | src/github_api.py:77-82 | filtering sorted days keeps them sorted |
| Calendar.UpToSortedIsPrefix | src/github_api.py:77-80 | on sorted days, the days up to today are a prefix |
| Calendar.UpToByDate | src/github_api.py:72-82 | sorting then filtering equals filtering then sorting |
| Calendar.ByDateMembers | src/github_api.py:72 | sorting by date keeps exactly the same days |
| LanguageTable.Find | src/github_api.py:138 | a found index holds the name; when nothing is found, no row holds it |
| LanguageTable.FirstIndex | src/github_api.py:138-139 | the position of the first edge of a language: that edge has the name and no edge before it does |
| LanguageTable.TallyDistinct | src/github_api.py:138-139 | the table never holds a language twice |
| LanguageTable.TallyNames | src/github_api.py:131-142 | the table's languages are exactly the names of the edges |
| LanguageTable.TallySizes | src/github_api.py:141 | each row's size is the sum of its language's edge sizes |
| LanguageTable.TallyColors | src/github_api.py:136-139 | each row's colour comes from the first edge of its language |
| LanguageTable.TallyFirstSeenOrder | src/github_api.py:131-146 | rows are in the order their languages were first seen |
| LanguageTable.TallyTotal | src/github_api.py:141-142 | the rows' sizes add up to the total size, so the percentages over all rows add up to 100 |
| LanguageTable.TallyEmpty | src/github_api.py:145-147 | the table is empty exactly when there are no edges |
| LanguageTable.TotalSizeZero | src/github_api.py:142 | the total size is zero exactly when every edge has size zero |
| LanguageTable.NamesOfEdges | src/github_api.py:138-139 | every edge's language is among the names the table is built from |
| LanguageTable.SizeOfAtMostTotal | src/github_api.py:141-142 | a language's size never exceeds the total size |
| LanguageTable.TopOfRankOrdered | src/github_api.py:155-156 | the top rows number min(rows, 5) and their sizes do not increase |
| LanguageTable.TopOfRankRows | src/github_api.py:155-156 | the top rows are rows of the table, without repeats |
| LanguageTable.TopOfRankIsTop | src/github_api.py:155-156 | no row left out is larger than a row kept |
| LanguageTable.TieAtCutGoesToEarlier | src/github_api.py:155-156 | for any rank increasing along the table, a row left out that is as large as a row kept comes after it (stable sort, then slice) |
| LanguageTable.TallyCutBySeenRank | src/github_api.py:138-156 | a table row left out that is as large as a kept row has a later first-seen rank |
| LanguageTable.RankCutKeepsFirstSeen | src/github_api.py:155-156 | a language left out whose size equals a kept row's was first seen after that row's language |
| LanguageTable.RankCoversAllOrTop | src/github_api.py:155-156 | the ranking has five rows, or every language has a row |
| LanguageTable.RankKeepsFirstSeenOrder | src/github_api.py:155 | top rows of equal size are in first-seen order |
| LanguageTable.NewNameRepresented | src/github_api.py:138-142 | creating an entry for a new language and adding the edge size keeps the dictionary in step with the table |
| LanguageTable.KnownNameRepresented | src/github_api.py:141-142 | adding an edge size to a known language keeps the dictionary in step with the table |
| LanguageTable.Recolored | generate-stats.js:81 | recolouring keeps every row's name and size and maps its colour |
| LanguageTable.TallyRecolored | generate-stats.js:80-83 | tallying with a colour function is tallying as given and then recolouring |
| LanguageTable.RankRecolored | generate-stats.js:90 | ranking commutes with recolouring |
| LanguageTable.TopRecolored | generate-stats.js:91 | keeping the first five commutes with recolouring |
| GitHubApi.FlattenWeeks | src/github_api.py:66-69 | the flattening loop yields the days of all weeks, week after week |
| GitHubApi.KeepPastDays | src/github_api.py:75-80 | the filtering loop keeps, in order, the days dated on or before today |
| GitHubApi.LongestScan | src/github_api.py:84-96 | the longest-streak loop with its final check returns the longest active run |
| GitHubApi.CountActiveBackward | src/github_api.py:108-123 | the backward loops count the active run ending at their start index |
| GitHubApi.CalculateStreak | src/github_api.py:65-125 | returns `StreakOf`, and the current streak is at most the longest |
| GitHubApi.ValidDaysAreThePast | src/github_api.py:72-82 | the valid days are sorted and are exactly the calendar days up to today |
| GitHubApi.FutureDaysIgnored | src/github_api.py:77-80 | a week of future days leaves both streaks unchanged |
| GitHubApi.NoPastDaysNoStreak | src/github_api.py:100-101 | with no day up to today both streaks are zero |
| GitHubApi.CurrentStreakCases | src/github_api.py:103-123 | the current streak is zero unless the newest day is today; otherwise it is the maximal run ending today, or ending yesterday when today is idle (zero if yesterday is idle or missing) |
| GitHubApi.CurrentAtMostLongest | src/github_api.py:84-125 | the current streak never exceeds the longest |
| GitHubApi.IdleCalendarNoStreak | src/github_api.py:84-125 | an all-zero calendar has both streaks zero |
| GitHubApi.ActiveCalendarOneStreak | src/github_api.py:84-125 | an all-active calendar that reaches today has both streaks equal to the number of valid days |
| GitHubApi.OneWeekValidDays | src/github_api.py:72-82 | a single date-ordered week up to today is its own list of valid days |
| GitHubApi.IdleTodayWeek | src/github_api.py:113-123 | days (−2: active, −1: b, today: 0) give current 2 and longest 2 when b > 0, and current 0 and longest 1 otherwise |
| GitHubApi.ActiveTodayAlone | src/github_api.py:103-112 | a single active today gives both streaks one |
| GitHubApi.CountEdge | src/github_api.py:134-142 | one edge step keeps `lang_stats` representing the tally of the edges seen |
| GitHubApi.CountRepoEdges | src/github_api.py:133-142 | one repository's edges keep `lang_stats` and `total_size` in step with the tally |
| GitHubApi.CountRepos | src/github_api.py:131-142 | after all repositories, `lang_stats` represents the tally of all edges and `total_size` is their total |
| GitHubApi.ListStats | src/github_api.py:145-153 | the listing raises exactly when the table is non-empty and the total is zero; otherwise it lists the table in insertion order |
| GitHubApi.ProcessLanguages | src/github_api.py:127-156 | returns `ProcessedLanguages` |
| GitHubApi.DivisionByZeroExactly | src/github_api.py:147 | ZeroDivisionError exactly when some edge exists and every edge has size zero |
| GitHubApi.AllEdgesAppend | src/github_api.py:131-133 | the edges of two lists of repositories are the edges of the first, then of the second |
| GitHubApi.EmptyRepoContributesNothing | src/github_api.py:132 | a repository without edges changes nothing, wherever it stands in the list |
| GitHubApi.RankedLanguages | src/github_api.py:127-156 | at most five rows and fewer only when every language is ranked, sizes non-increasing, no language twice, each row the summed size and first colour of a language that occurs, and the total the sum of all sizes |
| GitHubApi.RankedTiesFirstSeen | src/github_api.py:155 | rows of equal size appear in first-seen order |
| GitHubApi.RankedLanguagesAreTop | src/github_api.py:155-156 | no language left out has a larger size than one kept, and one left out with an equal size was first seen after it |
| GenerateStats.CalculateStreak | generate-stats.js:96-142 | returns `ActivityOf`: the total passed through, the trailing run of the scanned days, and the longest run over all days |
| GenerateStats.ScannedAppend | generate-stats.js:111-125 | the scan of a concatenation is the concatenation of the scans |
| GenerateStats.ScannedMembers | generate-stats.js:111-125 | the scan keeps exactly the days not after today that are not an idle today |
| GenerateStats.FutureDaysSkipped | generate-stats.js:113 | the scan sees the same entries as among the days up to today |
| GenerateStats.TodayIdleKeepsStreak | generate-stats.js:118-120 | an idle day dated today leaves the current streak unchanged |
| GenerateStats.IdleDayBreaksStreak | generate-stats.js:121-123 | an idle day before today stops the count: only the days after it matter |
| GenerateStats.CurrentStreakIsRun | generate-stats.js:110-125 | the current streak is the maximal active run at the end of the scanned entries |
| GenerateStats.FutureWeekKeepsCurrentStreak | generate-stats.js:113 | a week of future days leaves the current streak unchanged |
| GenerateStats.IdleCalendarNoStreak | generate-stats.js:96-141 | an all-zero calendar has both streaks zero and the total passed through |
| GenerateStats.TodayLast | generate-stats.js:106 | sorted distinct days up to today that include today end with today, and all others are earlier |
| GenerateStats.SortedPastEndsToday | generate-stats.js:106 | the sort establishes `TodayLast`'s premises |
| GenerateStats.AgreesWithPython | generate-stats.js:96-135 | with distinct dates, none after today and one equal to today, both streaks equal the Python client's |
| GenerateStats.LastOnlyMaySkip | generate-stats.js:113-124 | when all days but the last are before today and the last is not after it, the scan sees all of them, less the last exactly when it is an idle day dated today |
| GenerateStats.ScannedIsPrefix | generate-stats.js:110-125 | with distinct sorted dates, the scanned days are the days up to today, less the last of them exactly when it is an idle day dated today |
| GenerateStats.CurrentAtMostLongest | generate-stats.js:110-135 | with distinct dates the current streak never exceeds the longest |
| GenerateStats.RepeatedTodayJoinsRuns | generate-stats.js:113-124 | three entries dated today (active, idle, active) give current 2 but longest 1 |
| GenerateStats.BeforeTodayAllScanned | generate-stats.js:113-123 | days all dated before today are all scanned |
| GenerateStats.NoDayTodayDiffers | generate-stats.js:110-125 | when every day is before today, the Python current streak is 0, while this one is the trailing run of the sorted days |
| GenerateStats.TwoActiveDays | generate-stats.js:128-135 | two active days in date order: sorting keeps them, only the first is up to its own date, and the longest runs are 2 and 1 |
| GenerateStats.FutureDaysLengthenLongest | generate-stats.js:128-135 | active days after today count towards this longest streak (2) but not towards the Python one (1) |
| GenerateStats.LongestAtLeastPython | generate-stats.js:128-135 | the Python longest streak never exceeds this one, and they are equal when no day is after today |
| GenerateStats.ColorOrDefault | generate-stats.js:81 | a non-empty colour is kept, a missing or empty one becomes `#ccc`; never empty |
| GenerateStats.CountEdge | generate-stats.js:76-84 | one edge step keeps `langStats` representing the tally with default colours |
| GenerateStats.CountRepoEdges | generate-stats.js:76-85 | one repository's edges keep `langStats` and `totalSize` in step with the tally |
| GenerateStats.ListEntries | generate-stats.js:88-89 | `Object.entries` lists the table in insertion order |
| GenerateStats.CalculateLanguages | generate-stats.js:71-94 | returns `LanguagesOf` |
| GenerateStats.RankedLanguages | generate-stats.js:71-94 | at most five rows and fewer only when every language is ranked, sizes non-increasing, no language twice, each row the summed size of a language that occurs and its first colour or the default (never empty), and the total the sum of all sizes |
| GenerateStats.RankedTiesFirstSeen | generate-stats.js:90 | rows of equal size appear in first-seen order |
| GenerateStats.RankedLanguagesAreTop | generate-stats.js:90-91 | no language left out has a larger size than one kept, and one left out with an equal size was first seen after it |
| GenerateStats.LanguagesAgreeWithPython | generate-stats.js:71-94 | wherever the Python client returns a ranking, this one is the same ranking with colours passed through `ColorOrDefault`, and the same total |
| GenerateStats.ZeroTotalStillRanked | generate-stats.js:88-89 | where the Python client raises ZeroDivisionError, this one returns a non-empty ranking of zero-size rows with total zero |

## Left out

- The GraphQL queries and the network calls (`run_query`, `get_contribution_data`, `get_repository_languages`, `fetchData`) are not modelled. Their results are the calendar and repository parameters.
- Token and username configuration, process exit codes, and SVG rendering and file writing are outside the computation. This covers `src/main.py`, `src/svg_generator.py` and the card generators of `generate-stats.js`.
- The clock is a parameter `today`. Python takes the local date (`datetime.now().date()`), while JavaScript takes the UTC date (`toISOString`); the model does not tell the two apart.
- Parsing `YYYY-MM-DD` strings into dates is not modelled: dates are day numbers.
- The fields of the `GitHubAPI` class (token, headers, endpoint) are not modelled. Neither modelled method reads or writes them.
- GitHubApi.ProcessLanguages: rows carry no floating-point `percentage`. The ranking carries the total size it is taken of, and only the zero-total failure is modelled. `LanguageTable.TallyTotal` states, in integers, that the percentages of all rows add up to 100.
- GenerateStats.CalculateLanguages: rows carry no `percentage`. The NaN that `0 / 0` yields for a zero total is not modelled, and the ranking carries the total instead.
- GenerateStats.ListEntries: keeps insertion order for every key. `Object.entries` would list integer-like keys (such as "1") first, in numeric order. No language name is such a key.
- GenerateStats.CountEdge: treats every name as absent until it is first seen. A name inherited from `Object.prototype` (such as "constructor") passes the `!langStats[name]` test as present in JavaScript, so that case is not modelled.
- Sizes and counts are unbounded integers. JavaScript number precision above 2^53 is not modelled.
- Malformed API responses are not modelled: a missing field, or a null size or count. The datatypes exclude them.
