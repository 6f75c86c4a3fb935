/** The per-team aggregation of `mlb_stats` in mlb_stats.py.

    For each team of the registry, in order, the Python code runs
    `get_team_results` on the team's schedule page, calls
    `get_win_loss_streaks` once with "W" and once with "L", and stores six
    named values in that team's entry. The registry is a parameter (the team
    names, in the dictionary's insertion order) and the fetched, parsed page
    of each team is given as a map. An exception raised for any team is not
    caught, so it ends the whole call; the model returns that error. */
module Aggregate {
  import opened Outcomes
  import Streaks
  import TeamResults

  type Team = string

  /** The six keys written into a team's entry. */
  datatype TeamStats = TeamStats(
    winHandicaps: nat,
    lossHandicaps: nat,
    maxWinStreak: nat,
    maxWinStreakCount: nat,
    maxLossStreak: nat,
    maxLossStreakCount: nat)

  /** One key-value pair of the `stats` dictionary. */
  datatype Entry = Entry(team: Team, stats: TeamStats)

  /** The body of the loop in `mlb_stats` for one team's parsed page. */
  function TeamStatsOf(matches: seq<TeamResults.MatchParse>): (r: Result<TeamStats>)
    ensures TeamResults.TallyOf(matches).Err? ==> r == Err(AttributeError)
    ensures TeamResults.TallyOf(matches).Ok? && r.Err? ==> r.error == IndexError
  {
    match TeamResults.TallyOf(matches)
    case Err(e) => Err(e)
    case Ok(t) =>
      match Streaks.LongestStreak(t.results, 'W')
      case Err(e) => Err(e)
      case Ok(win) =>
        match Streaks.LongestStreak(t.results, 'L')
        case Err(e) => Err(e)
        case Ok(loss) =>
          Ok(TeamStats(t.winHandicaps, t.lossHandicaps, win.longest, win.count, loss.longest, loss.count))
  }

  /** Entries of earlier teams in front of the outcome for the later ones. */
  function PrependEntries(es: seq<Entry>, r: Result<seq<Entry>>): Result<seq<Entry>>
  {
    match r
    case Err(e) => Err(e)
    case Ok(rest) => Ok(es + rest)
  }

  /** What `mlb_stats` returns, or the exception it raises. */
  function StatsOf(registry: seq<Team>, pages: map<Team, seq<TeamResults.MatchParse>>): (r: Result<seq<Entry>>)
    requires forall t :: t in registry ==> t in pages
    ensures r.Ok? ==> |r.value| == |registry|
  {
    if registry == [] then Ok([])
    else
      match TeamStatsOf(pages[registry[0]])
      case Err(e) => Err(e)
      case Ok(s) => PrependEntries([Entry(registry[0], s)], StatsOf(registry[1..], pages))
  }

  /** `mlb_stats`: processes the teams one at a time, in registry order. */
  method MlbStats(registry: seq<Team>, pages: map<Team, seq<TeamResults.MatchParse>>)
    returns (r: Result<seq<Entry>>)
    requires forall t :: t in registry ==> t in pages
    ensures r == StatsOf(registry, pages)
  {
    var stats: seq<Entry> := [];
    var i := 0;
    PrependNoEntries(StatsOf(registry, pages));
    while i < |registry|
      invariant 0 <= i <= |registry|
      invariant StatsOf(registry, pages) == PrependEntries(stats, StatsOf(registry[i..], pages))
    {
      var team := registry[i];
      StatsOfStep(registry, pages, i);
      ghost var expected := TeamStatsOf(pages[team]);
      var tally := TeamResults.GetTeamResults(pages[team]);
      if tally.Err? {
        return Err(tally.error);
      }
      var win := Streaks.LongestStreak(tally.value.results, 'W');
      if win.Err? {
        return Err(win.error);
      }
      var loss := Streaks.LongestStreak(tally.value.results, 'L');
      if loss.Err? {
        return Err(loss.error);
      }
      var entry := Entry(team, TeamStats(tally.value.winHandicaps, tally.value.lossHandicaps,
                                         win.value.longest, win.value.count,
                                         loss.value.longest, loss.value.count));
      assert expected == Ok(entry.stats);
      PrependEntriesAssoc(stats, entry, StatsOf(registry[i + 1..], pages));
      stats := stats + [entry];
      i := i + 1;
    }
    assert registry[i..] == [];
    assert stats + [] == stats;
    r := Ok(stats);
  }

  lemma PrependNoEntries(r: Result<seq<Entry>>)
    ensures PrependEntries([], r) == r
  {
    if r.Ok? {
      assert [] + r.value == r.value;
    }
  }

  lemma PrependEntriesAssoc(es: seq<Entry>, e: Entry, r: Result<seq<Entry>>)
    ensures PrependEntries(es, PrependEntries([e], r)) == PrependEntries(es + [e], r)
  {
    if r.Ok? {
      assert es + ([e] + r.value) == (es + [e]) + r.value;
    }
  }

  /** One step of `StatsOf` at position `i` of the registry. */
  lemma StatsOfStep(registry: seq<Team>, pages: map<Team, seq<TeamResults.MatchParse>>, i: nat)
    requires forall t :: t in registry ==> t in pages
    requires i < |registry|
    ensures StatsOf(registry[i..], pages) ==
              match TeamStatsOf(pages[registry[i]])
              case Err(e) => Err(e)
              case Ok(s) => PrependEntries([Entry(registry[i], s)], StatsOf(registry[i + 1..], pages))
  {
    assert registry[i..][0] == registry[i] && registry[i..][1..] == registry[i + 1..];
  }

  // ---------------------------------------------------------------------
  // One team
  // ---------------------------------------------------------------------

  /** Two different characters together occur at most once per position. */
  lemma {:induction false} TwoCharsAtMostLength(s: seq<char>, a: char, b: char)
    requires a != b
    ensures multiset(s)[a] + multiset(s)[b] <= |s|
  {
    if s != [] {
      assert s == [s[0]] + s[1..];
      TwoCharsAtMostLength(s[1..], a, b);
    }
  }

  /** A team's entry exists exactly when its page parses without
      AttributeError and its results hold both a win and a loss; otherwise
      `get_win_loss_streaks` raises IndexError (there is no (0, 0) entry). */
  lemma TeamStatsOkIff(matches: seq<TeamResults.MatchParse>)
    ensures TeamStatsOf(matches).Ok? <==>
              && TeamResults.TallyOf(matches).Ok?
              && 'W' in TeamResults.TallyOf(matches).value.results
              && 'L' in TeamResults.TallyOf(matches).value.results
    ensures TeamResults.TallyOf(matches).Ok? && TeamStatsOf(matches).Err? ==>
              TeamStatsOf(matches).error == IndexError
  {
    if TeamResults.TallyOf(matches).Ok? {
      var rs := TeamResults.TallyOf(matches).value.results;
      Streaks.LongestStreakFailsIffAbsent(rs, 'W');
      Streaks.LongestStreakFailsIffAbsent(rs, 'L');
    }
  }

  /** The fields of an entry: the handicap counts are the loop's counters,
      the win fields are the longest run of 'W' and how many runs reach it,
      the loss fields the same for 'L'; the streak lengths are at least one,
      the streaks counted use no more games than were played, and neither do
      the handicap games. */
  lemma TeamStatsFields(matches: seq<TeamResults.MatchParse>)
    ensures TeamStatsOf(matches).Ok? ==> TeamResults.TallyOf(matches).Ok?
    ensures TeamStatsOf(matches).Ok? ==>
            var t := TeamResults.TallyOf(matches).value;
            var s := TeamStatsOf(matches).value;
            && s.winHandicaps == t.winHandicaps
            && s.lossHandicaps == t.lossHandicaps
            && Streaks.LongestStreak(t.results, 'W') == Ok(Streaks.Streak(s.maxWinStreak, s.maxWinStreakCount))
            && Streaks.LongestStreak(t.results, 'L') == Ok(Streaks.Streak(s.maxLossStreak, s.maxLossStreakCount))
            && 1 <= s.maxWinStreak && 1 <= s.maxWinStreakCount
            && 1 <= s.maxLossStreak && 1 <= s.maxLossStreakCount
            && s.maxWinStreak * s.maxWinStreakCount + s.maxLossStreak * s.maxLossStreakCount <= |t.results|
            && s.winHandicaps + s.lossHandicaps <= |t.results|
  {
    TeamStatsOkIff(matches);
    if TeamStatsOf(matches).Ok? {
      var rs := TeamResults.TallyOf(matches).value.results;
      Streaks.LongestStreakBounds(rs, 'W');
      Streaks.LongestStreakBounds(rs, 'L');
      TwoCharsAtMostLength(rs, 'W', 'L');
      TeamResults.HandicapsAtMostResults(matches);
    }
  }

  // ---------------------------------------------------------------------
  // All teams
  // ---------------------------------------------------------------------

  /** On success there is one entry per registry position, in registry
      order, and the entry at position `i` is computed from team `i`'s own
      page alone. */
  lemma {:induction false} StatsInRegistryOrder(registry: seq<Team>, pages: map<Team, seq<TeamResults.MatchParse>>)
    requires forall t :: t in registry ==> t in pages
    ensures StatsOf(registry, pages).Ok? ==>
              var es := StatsOf(registry, pages).value;
              && |es| == |registry|
              && forall i :: 0 <= i < |registry| ==>
                   es[i].team == registry[i] && TeamStatsOf(pages[registry[i]]) == Ok(es[i].stats)
  {
    if registry != [] {
      StatsInRegistryOrder(registry[1..], pages);
      var first := TeamStatsOf(pages[registry[0]]);
      if first.Ok? && StatsOf(registry[1..], pages).Ok? {
        assert StatsOf(registry, pages) == PrependEntries([Entry(registry[0], first.value)], StatsOf(registry[1..], pages));
        var es := StatsOf(registry, pages).value;
        var rest := StatsOf(registry[1..], pages).value;
        assert es == [Entry(registry[0], first.value)] + rest;
        forall i | 0 <= i < |registry|
          ensures es[i].team == registry[i] && TeamStatsOf(pages[registry[i]]) == Ok(es[i].stats)
        {
          if i > 0 {
            assert es[i] == rest[i - 1] && registry[i] == registry[1..][i - 1];
          }
        }
      }
    }
  }

  /** The call succeeds exactly when every team's entry can be computed. */
  lemma {:induction false} StatsOkIffEveryTeamOk(registry: seq<Team>, pages: map<Team, seq<TeamResults.MatchParse>>)
    requires forall t :: t in registry ==> t in pages
    ensures StatsOf(registry, pages).Ok? <==>
              forall i :: 0 <= i < |registry| ==> TeamStatsOf(pages[registry[i]]).Ok?
  {
    if registry != [] {
      var rest := registry[1..];
      StatsOkIffEveryTeamOk(rest, pages);
      var first := TeamStatsOf(pages[registry[0]]);
      if first.Ok? {
        assert StatsOf(registry, pages) == PrependEntries([Entry(registry[0], first.value)], StatsOf(rest, pages));
        assert forall i :: 0 < i < |registry| ==> registry[i] == rest[i - 1];
      }
    }
  }

  /** Team `i` is the first team of the registry whose entry cannot be
      computed, and it fails with `e`. */
  predicate FirstFailureAt(registry: seq<Team>, pages: map<Team, seq<TeamResults.MatchParse>>, i: int, e: Error)
    requires forall t :: t in registry ==> t in pages
  {
    && 0 <= i < |registry|
    && TeamStatsOf(pages[registry[i]]) == Err(e)
    && forall j :: 0 <= j < i ==> TeamStatsOf(pages[registry[j]]).Ok?
  }

  /** When the call fails, it fails with the error of the first team whose
      entry cannot be computed; the teams before it were all fine. */
  lemma {:induction false} StatsFailsAtFirstFailingTeam(registry: seq<Team>, pages: map<Team, seq<TeamResults.MatchParse>>)
    requires forall t :: t in registry ==> t in pages
    requires StatsOf(registry, pages).Err?
    ensures exists i :: FirstFailureAt(registry, pages, i, StatsOf(registry, pages).error)
  {
    var rest := registry[1..];
    var first := TeamStatsOf(pages[registry[0]]);
    if first.Ok? {
      assert StatsOf(registry, pages) == PrependEntries([Entry(registry[0], first.value)], StatsOf(rest, pages));
      StatsFailsAtFirstFailingTeam(rest, pages);
      var k :| FirstFailureAt(rest, pages, k, StatsOf(rest, pages).error);
      FirstFailureShift(registry, pages, k, StatsOf(rest, pages).error);
    } else {
      assert FirstFailureAt(registry, pages, 0, StatsOf(registry, pages).error);
    }
  }

  lemma FirstFailureShift(registry: seq<Team>, pages: map<Team, seq<TeamResults.MatchParse>>, k: int, e: Error)
    requires forall t :: t in registry ==> t in pages
    requires registry != [] && TeamStatsOf(pages[registry[0]]).Ok?
    requires FirstFailureAt(registry[1..], pages, k, e)
    ensures FirstFailureAt(registry, pages, k + 1, e)
  {
    forall j | 0 <= j < k + 1
      ensures TeamStatsOf(pages[registry[j]]).Ok?
    {
      if j > 0 {
        assert registry[j] == registry[1..][j - 1];
      }
    }
  }

  /** With the team names distinct, as dictionary keys are, every registry
      team has exactly one entry and no other team has one. */
  lemma StatsOneEntryPerTeam(registry: seq<Team>, pages: map<Team, seq<TeamResults.MatchParse>>)
    requires forall t :: t in registry ==> t in pages
    requires forall i, j :: 0 <= i < j < |registry| ==> registry[i] != registry[j]
    requires StatsOf(registry, pages).Ok?
    ensures var es := StatsOf(registry, pages).value;
            && (forall e :: e in es ==> e.team in registry)
            && (forall t :: t in registry ==> exists i :: 0 <= i < |es| && es[i].team == t)
            && (forall i, j :: 0 <= i < j < |es| ==> es[i].team != es[j].team)
  {
    StatsInRegistryOrder(registry, pages);
  }

  /** An entry depends only on its own team's page: two runs whose pages
      agree for the team at position `i` give that team the same entry. */
  lemma StatsEntryIsLocal(registry: seq<Team>, pages1: map<Team, seq<TeamResults.MatchParse>>,
                          pages2: map<Team, seq<TeamResults.MatchParse>>, i: nat)
    requires forall t :: t in registry ==> t in pages1 && t in pages2
    requires i < |registry| && pages1[registry[i]] == pages2[registry[i]]
    ensures StatsOf(registry, pages1).Ok? && StatsOf(registry, pages2).Ok? ==>
              && |StatsOf(registry, pages1).value| == |StatsOf(registry, pages2).value| == |registry|
              && StatsOf(registry, pages1).value[i] == StatsOf(registry, pages2).value[i]
  {
    StatsInRegistryOrder(registry, pages1);
    StatsInRegistryOrder(registry, pages2);
  }
}
