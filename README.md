# Baseball season statistics: a Dafny model of the statistics step

`mlb_stats.py` fetches each Major League team's schedule page and reads the
played games from it. For each team it then computes two things:

* the longest winning streak and the longest losing streak, with how many
  times each maximum occurs;
* the number of "handicap" games, meaning wins and losses by more than one run.

This project models that statistics step in Dafny and proves what it computes.
The model has three parts, one module each, plus a shared module for results
and errors (`outcomes.dfy`).

* `Streaks` (`streaks.dfy`) models `get_win_loss_streaks`.
  * `GroupBy` is `itertools.groupby` over the result characters.
  * `StreakLengths` is the list comprehension that keeps the run lengths for
    the target character.
  * `SortDescending` is `sorted(..., reverse=True)` and `Count` is `list.count`.
  * `LongestStreak` combines them. When the target never occurs, `streaks[0]`
    raises IndexError, and `LongestStreak` returns `Err(IndexError)`.
* `TeamResults` (`team_results.dfy`) models the loop of `get_team_results`.
  * Each match row of the page becomes an abstract parse outcome
    (`MatchParse`):
    * the result cell is missing: IndexError, and the loop ends;
    * a score cell is missing: IndexError after the result was already
      appended;
    * a score cell has no digits: `re.search` returns None, `.group()` raises
      AttributeError, and `except IndexError` does not catch it;
    * both scores were read.
  * `GetTeamResults` is the loop. It uses a `results` sequence and two
    counters, and is proved equal to the pure specification `TallyOf`.
* `Aggregate` (`aggregate.dfy`) models `mlb_stats`.
  * The team registry is a parameter: the team names, in dictionary order.
  * Each team's parsed page comes from a map.
  * `MlbStats` goes through the teams in order and builds one entry per team,
    with the six named values. It is proved equal to the pure specification
    `StatsOf`.
  * Any exception for any team ends the whole call, so `StatsOf` returns that
    error.

A team with no wins or no losses gets no (0, 0) result, and neither does a
team with no games: `streaks[0]` raises IndexError on the empty list
(mlb_stats.py:92), and `mlb_stats` does not catch it.

* `Streaks.LongestStreakFailsIffAbsent` shows that the call fails exactly when
  the target is absent;
* `Aggregate.TeamStatsOkIff` shows that such a team's entry then fails with
  IndexError, and `Aggregate.StatsOkIffEveryTeamOk` that one failing entry
  makes the whole aggregation fail.

Two more points about the code:

* The result is any character, not just W or L.
* Every result other than `'W'` counts toward the loss handicaps.

## Model

| member | source | states |
|---|---|---|
| Streaks.LeadingRun | mlb_stats.py:90 | The first run of a non-empty list is 1 to `len(s)` items long. All its items equal the first item, and the item after it, if any, is different. |
| Streaks.GroupBy | mlb_stats.py:90 | `groupby` partitions the results into maximal runs. The runs concatenate back to the input. Every run is non-empty and constant. Neighbouring runs have different keys. The first key is the first result. |
| Streaks.RunPartitionUnique | mlb_stats.py:90 | Any split of the results with those partition properties is exactly the one `groupby` produces. |
| Streaks.GroupByCovers | mlb_stats.py:90 | The lengths of all the runs add up to `len(results)`. |
| Streaks.StreakLengthsSum | mlb_stats.py:90 | The kept streak lengths are each at least 1. They add up to the number of occurrences of the target. The list is empty exactly when the target does not occur. |
| Streaks.StreakLengths | mlb_stats.py:90 | The comprehension yields no more lengths than there are runs, and none at all exactly when no run is keyed with the target. With `StreakLengthsSum`, the lengths are each at least 1 and add up to the target's occurrences. |
| Streaks.SortDescending | mlb_stats.py:90 | `sorted(..., reverse=True)` returns a descending permutation (same multiset) of the streak lengths. |
| Streaks.Count | mlb_stats.py:92 | `streaks.count(v)` is how many times `v` occurs in the list (its multiplicity). |
| Streaks.LongestStreakFailsIffAbsent | mlb_stats.py:88-92 | `get_win_loss_streaks` raises IndexError exactly when the target does not occur in `results`, including the empty list. It never returns (0, 0). |
| Streaks.LongestStreakIsLongestRun | mlb_stats.py:88-92 | When the target occurs, the first value returned is the greatest length among the maximal runs of the target. The second is the number of runs (not games) with that length. |
| Streaks.LongestStreakBounds | mlb_stats.py:90-92 | When the target occurs, 1 <= longest <= `len(results)` and count >= 1. Also count * longest <= the number of occurrences of the target. |
| Streaks.LongestStreakIsLongestWindow | mlb_stats.py:88-92 | Stated without grouping: some stretch of `longest` consecutive target results exists, and no longer stretch does. |
| Streaks.LongestStreak | mlb_stats.py:88-92 | `get_win_loss_streaks` fails only with IndexError, and when it returns, the count is at least 1. What it returns is characterised by `LongestStreakFailsIffAbsent`, `LongestStreakIsLongestRun`, `LongestStreakBounds` and `LongestStreakIsLongestWindow`. |
| Streaks.StreakExampleLongestOnce | mlb_stats.py:88-92 | W W L W W W L with target W gives (3, 1). |
| Streaks.StreakExampleTie | mlb_stats.py:88-92 | W L W L with target W gives (1, 2): both equal streaks are counted. |
| Streaks.StreakExampleAbsent | mlb_stats.py:88-92 | L L L, and the empty list, with target W both raise IndexError. |
| TeamResults.Margin | mlb_stats.py:76 | `abs(home_score - away_score)`: one of the two differences, and at least both of them. |
| TeamResults.GameTally | mlb_stats.py:65-80 | One fully parsed game adds its own result, and exactly one handicap when the margin is more than one run: never a loss handicap for `'W'`, never a win handicap for any other result. |
| TeamResults.TallyOf | mlb_stats.py:62-85 | The only exception that leaves the loop is AttributeError, and `results` never holds more entries than there are match rows. `TallyResultsArePrefix`, `TallyAppendGame`, `HandicapsAtMostResults` and `TallyIgnoresRowsAfterStop` say what it computes. |
| TeamResults.GetTeamResults | mlb_stats.py:49-85 | The loop returns exactly `TallyOf(matches)`, or AttributeError where `TallyOf` has one. On success the two counters together are at most `len(results)`. |
| TeamResults.ParsedPrefix | mlb_stats.py:62-73 | Counts the fully parsed rows at the front: every row before that point is fully parsed, and the row at that point, if any, is not. |
| TeamResults.TallyResultsArePrefix | mlb_stats.py:62-83 | The call raises AttributeError exactly when the first row that is not fully parsed has a score cell without digits. Otherwise `results` holds, in order, the results of the fully parsed rows, plus the result of the stopping row when only its score cell was missing. |
| TeamResults.HandicapsAtMostResults | mlb_stats.py:76-80 | `win_handicaps + loss_handicaps <= len(results)`. |
| TeamResults.TallyAppendGame | mlb_stats.py:63-80 | One more row after rows that were all fully parsed has the effect `AfterRow` gives it, the loop body read as a step: A missing result cell adds nothing. A missing score cell appends the result only. A score cell without digits raises AttributeError. A played game appends its result and adds exactly 1 to exactly one counter iff `abs(home - away) > 1`; the win counter iff the result is `'W'`, otherwise the loss counter. Counters never decrease. |
| TeamResults.TallyIgnoresRowsAfterStop | mlb_stats.py:62-83 | Rows after the first row that stops the loop never affect the outcome. |
| Aggregate.TeamStatsOf | mlb_stats.py:99-105 | One team's entry: an AttributeError from `get_team_results` is passed on, and any other failure is IndexError from a streak call. `TeamStatsOkIff` and `TeamStatsFields` say when the entry exists and what its six values are. |
| Aggregate.StatsOf | mlb_stats.py:95-107 | `mlb_stats` as a function: on success, one entry per registry team. `StatsInRegistryOrder`, `StatsOkIffEveryTeamOk` and `StatsFailsAtFirstFailingTeam` say which entries and which error. |
| Aggregate.MlbStats | mlb_stats.py:95-107 | The loop over the registry returns exactly `StatsOf(registry, pages)`: the ordered entries, or the first exception raised. |
| Aggregate.TeamStatsOkIff | mlb_stats.py:99-101 | A team's entry can be computed exactly when its page gives no AttributeError and its results contain both a `'W'` and an `'L'`. Otherwise the failure is IndexError. |
| Aggregate.TeamStatsFields | mlb_stats.py:99-105 | An entry's handicap values are the loop's counters. The win values come from the `"W"` call and the loss values from the `"L"` call. All four streak values are at least 1. Both "streak × count" products together, and both handicap counts together, are each at most the number of games. |
| Aggregate.StatsInRegistryOrder | mlb_stats.py:96-105 | On success there is one entry per registry position, in registry order. Entry `i` is the one computed from team `i`'s own page. |
| Aggregate.StatsOkIffEveryTeamOk | mlb_stats.py:98-105 | `mlb_stats` succeeds exactly when every team's entry can be computed. |
| Aggregate.StatsFailsAtFirstFailingTeam | mlb_stats.py:98-101 | On failure, the exception is the one for the first team that fails, and every team before it succeeded. |
| Aggregate.StatsOneEntryPerTeam | mlb_stats.py:96-105 | With distinct team names, every registry team has exactly one entry and no other team has one. |
| Aggregate.StatsEntryIsLocal | mlb_stats.py:98-105 | A team's entry depends only on its own page: two runs that agree on that page give that team the same entry. |

## Left out

* Page fetch (mlb_stats.py:56): network I/O. Each team's page is an input of
  the model. A network failure, which the code does not handle, is not
  modelled.
* Markup slicing (mlb_stats.py:57, 60, 65, 70-73): the `split` calls on
  literal markup and the `\d+` searches. Each match row is replaced by its
  abstract parse outcome (`MatchParse`), and scores are non-negative integers,
  as `int` of a run of digits gives. Which digits `re.search` finds in a row
  is not modelled.
* The `MLB_TEAMS` constant (mlb_stats.py:15-46): static configuration. The
  registry is a parameter instead: a sequence of team names in dictionary
  order. As written, the constant passes 30 positional tuples to `dict`,
  which Python rejects; the model does not depend on it.
* The empty inner dictionaries created at mlb_stats.py:96 before the loop
  fills them. Every exception ends the whole call, so the caller never sees
  them, and the model builds each entry whole.
* The `</tbody>` split (mlb_stats.py:57) runs before the `try`. On a page
  without `</tbody>` it raises an IndexError that ends `mlb_stats`. Each
  page is modelled as its list of match rows, so `MatchParse` cannot express
  that failure.
* `StatsOf` and `MlbStats` accept a registry with repeated team names, but
  the keys of `MLB_TEAMS` are distinct. Only `StatsOneEntryPerTeam` requires
  distinct names; with repeated names the model keeps one entry per registry
  position, where the dictionary would keep one per name.
* `print_stats` (mlb_stats.py:110-117): console formatting.
* `fill_template` (mlb_stats.py:120-131): template rendering and file output.
* `main` and the command-line flag (mlb_stats.py:134-145): plumbing.
* The `stats` dictionary is modelled as the sequence of its (team, entry)
  pairs in insertion order. Lookup by team name is not modelled separately.
