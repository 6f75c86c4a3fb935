/** The accumulation loop of `get_team_results` in mlb_stats.py.

    The page fetch and the markup slicing are replaced by one abstract parse
    outcome per match row, in page order. For each row the Python loop reads
    the result character (an IndexError there ends the loop), appends it to
    `results`, then reads the two score cells: an IndexError while splitting a
    cell ends the loop with the result already appended, and a cell with no
    digits makes `re.search` return None, so `.group()` raises AttributeError,
    which the `except IndexError` clause does not catch. A fully parsed game
    whose score margin is more than one run is a handicap game, counted as a
    win handicap when the result is 'W' and as a loss handicap otherwise. */
module TeamResults {
  import opened Outcomes

  /** The score cells of one match row as the parser meets them. */
  datatype ScoreParse =
    | Scores(home: nat, away: nat)  // both `\d+` searches succeeded
    | ScoreCellMissing              // a score marker was not found: IndexError
    | ScoreDigitsMissing            // a score cell held no digits: AttributeError

  /** One match row: either its result cell could not be read (IndexError),
      or it has a result character and a score parse. */
  datatype MatchParse =
    | ResultCellMissing
    | Played(result: char, score: ScoreParse)

  /** `(results, win_handicaps, loss_handicaps)`. */
  datatype Tally = Tally(results: seq<char>, winHandicaps: nat, lossHandicaps: nat)

  /** `abs(home_score - away_score)`. */
  function Margin(home: nat, away: nat): (d: nat)
    ensures d == home - away || d == away - home
    ensures home - away <= d && away - home <= d
  {
    if home >= away then home - away else away - home
  }

  /** A match row whose result and both scores were read. */
  predicate FullyParsed(m: MatchParse)
  {
    m.Played? && m.score.Scores?
  }

  /** What a fully parsed game contributes on its own: its result, and one
      handicap when the margin is more than one run, counted as a win
      handicap exactly when the result is 'W'. */
  function GameTally(result: char, home: nat, away: nat): (t: Tally)
    ensures t.results == [result]
    ensures t.winHandicaps + t.lossHandicaps == if Margin(home, away) > 1 then 1 else 0
    ensures result == 'W' ==> t.lossHandicaps == 0
    ensures result != 'W' ==> t.winHandicaps == 0
  {
    var handicap := if Margin(home, away) > 1 then 1 else 0;
    if result == 'W' then Tally([result], handicap, 0) else Tally([result], 0, handicap)
  }

  /** The tally of some earlier games followed by the outcome of later ones. */
  function Prepend(t: Tally, r: Result<Tally>): Result<Tally>
  {
    match r
    case Err(e) => Err(e)
    case Ok(u) => Ok(Tally(t.results + u.results, t.winHandicaps + u.winHandicaps,
                           t.lossHandicaps + u.lossHandicaps))
  }

  lemma PrependAssoc(t: Tally, u: Tally, r: Result<Tally>)
    ensures Prepend(t, Prepend(u, r))
         == Prepend(Tally(t.results + u.results, t.winHandicaps + u.winHandicaps,
                          t.lossHandicaps + u.lossHandicaps), r)
  {
    if r.Ok? {
      assert t.results + (u.results + r.value.results) == (t.results + u.results) + r.value.results;
    }
  }

  lemma PrependNothing(t: Tally)
    ensures Prepend(t, Ok(Tally([], 0, 0))) == Ok(t)
  {
    assert t.results + [] == t.results;
  }

  /** `TallyOf` on the rows from position `i` on, unfolded once. */
  lemma TallyOfStep(matches: seq<MatchParse>, i: nat)
    requires i < |matches|
    ensures TallyOf(matches[i..]) ==
              match matches[i]
              case ResultCellMissing => Ok(Tally([], 0, 0))
              case Played(c, ScoreCellMissing) => Ok(Tally([c], 0, 0))
              case Played(_, ScoreDigitsMissing) => Err(AttributeError)
              case Played(c, Scores(home, away)) => Prepend(GameTally(c, home, away), TallyOf(matches[i + 1..]))
  {
    assert matches[i..][0] == matches[i] && matches[i..][1..] == matches[i + 1..];
  }

  /** What `get_team_results` returns, or the exception it raises, for the
      given match rows. */
  function TallyOf(matches: seq<MatchParse>): (r: Result<Tally>)
    ensures r.Err? ==> r.error == AttributeError
    ensures r.Ok? ==> |r.value.results| <= |matches|
  {
    if matches == [] then Ok(Tally([], 0, 0))
    else
      match matches[0]
      case ResultCellMissing => Ok(Tally([], 0, 0))
      case Played(c, ScoreCellMissing) => Ok(Tally([c], 0, 0))
      case Played(_, ScoreDigitsMissing) => Err(AttributeError)
      case Played(c, Scores(home, away)) => Prepend(GameTally(c, home, away), TallyOf(matches[1..]))
  }

  /** The loop of `get_team_results`: walk the rows in order, append each
      result, count handicap games, and stop quietly at the first IndexError. */
  method GetTeamResults(matches: seq<MatchParse>) returns (r: Result<Tally>)
    ensures r == TallyOf(matches)
    ensures r.Ok? ==> r.value.winHandicaps + r.value.lossHandicaps <= |r.value.results|
  {
    var results: seq<char> := [];
    var lossHandicaps: nat := 0;
    var winHandicaps: nat := 0;
    var i := 0;
    assert TallyOf(matches) == Prepend(Tally(results, winHandicaps, lossHandicaps), TallyOf(matches)) by {
      if TallyOf(matches).Ok? {
        assert [] + TallyOf(matches).value.results == TallyOf(matches).value.results;
      }
    }
    while i < |matches|
      invariant 0 <= i <= |matches|
      invariant winHandicaps + lossHandicaps <= |results|
      invariant TallyOf(matches) == Prepend(Tally(results, winHandicaps, lossHandicaps), TallyOf(matches[i..]))
    {
      var m := matches[i];
      TallyOfStep(matches, i);
      ghost var before := Tally(results, winHandicaps, lossHandicaps);
      if m.ResultCellMissing? {
        PrependNothing(before);
        break;
      }
      var result := m.result;
      results := results + [result];
      var win := result == 'W';
      if m.score.ScoreCellMissing? {
        assert before.results + [result] == results;
        break;
      } else if m.score.ScoreDigitsMissing? {
        return Err(AttributeError);
      }
      var homeScore, awayScore := m.score.home, m.score.away;
      if Margin(homeScore, awayScore) > 1 {
        if win {
          winHandicaps := winHandicaps + 1;
        } else {
          lossHandicaps := lossHandicaps + 1;
        }
      }
      PrependAssoc(before, GameTally(result, homeScore, awayScore), TallyOf(matches[i + 1..]));
      i := i + 1;
    }
    if i == |matches| {
      assert matches[i..] == [];
      PrependNothing(Tally(results, winHandicaps, lossHandicaps));
    }
    r := Ok(Tally(results, winHandicaps, lossHandicaps));
  }

  /** The number of fully parsed rows at the front of `matches`: the games the
      loop counts in full before anything stops it. */
  function ParsedPrefix(matches: seq<MatchParse>): (p: nat)
    ensures p <= |matches|
    ensures forall j :: 0 <= j < p ==> FullyParsed(matches[j])
    ensures p < |matches| ==> !FullyParsed(matches[p])
  {
    if matches == [] || !FullyParsed(matches[0]) then 0 else 1 + ParsedPrefix(matches[1..])
  }

  /** The call raises AttributeError exactly when the first row that is not
      fully parsed has a score cell without digits. Otherwise `results` holds,
      in order, the result of every fully parsed row before that one, plus its
      own result when only a score cell was missing. */
  lemma {:induction false} TallyResultsArePrefix(matches: seq<MatchParse>)
    ensures var p := ParsedPrefix(matches);
            TallyOf(matches).Err? <==>
              p < |matches| && matches[p].Played? && matches[p].score.ScoreDigitsMissing?
    ensures TallyOf(matches).Err? ==> TallyOf(matches).error == AttributeError
    ensures TallyOf(matches).Ok? ==>
              var p := ParsedPrefix(matches);
              var rs := TallyOf(matches).value.results;
              && |rs| == (if p < |matches| && matches[p].Played? then p + 1 else p)
              && forall j :: 0 <= j < |rs| ==> matches[j].Played? && rs[j] == matches[j].result
  {
    if matches != [] && FullyParsed(matches[0]) {
      var rest := matches[1..];
      TallyResultsArePrefix(rest);
      assert ParsedPrefix(matches) == 1 + ParsedPrefix(rest);
      if TallyOf(rest).Ok? {
        var rs := TallyOf(matches).value.results;
        assert rs == [matches[0].result] + TallyOf(rest).value.results;
        forall j | 0 <= j < |rs|
          ensures matches[j].Played? && rs[j] == matches[j].result
        {
          if j > 0 {
            assert rs[j] == TallyOf(rest).value.results[j - 1];
            assert matches[j] == rest[j - 1];
          }
        }
      }
    }
  }

  /** Both counters only count games that are in `results`. */
  lemma {:induction false} HandicapsAtMostResults(matches: seq<MatchParse>)
    ensures TallyOf(matches).Ok? ==>
              TallyOf(matches).value.winHandicaps + TallyOf(matches).value.lossHandicaps
                <= |TallyOf(matches).value.results|
  {
    if matches != [] && FullyParsed(matches[0]) {
      HandicapsAtMostResults(matches[1..]);
    }
  }

  /** The effect of one more row on the tally so far, as the loop body has
      it: a row without a result adds nothing, a row with a missing score
      cell adds its result only, a row with a score cell without digits
      raises AttributeError, and a fully parsed game adds its result and one
      handicap when the margin is more than one run, to the win counter iff
      the result is 'W'. */
  function AfterRow(t: Tally, m: MatchParse): Result<Tally>
  {
    match m
    case ResultCellMissing => Ok(t)
    case Played(c, ScoreCellMissing) => Ok(Tally(t.results + [c], t.winHandicaps, t.lossHandicaps))
    case Played(_, ScoreDigitsMissing) => Err(AttributeError)
    case Played(c, Scores(home, away)) =>
      Ok(Tally(t.results + [c],
               t.winHandicaps + (if c == 'W' && Margin(home, away) > 1 then 1 else 0),
               t.lossHandicaps + (if c != 'W' && Margin(home, away) > 1 then 1 else 0)))
  }

  lemma PrependAfterRow(g: Tally, u: Tally, m: MatchParse)
    ensures Prepend(g, AfterRow(u, m))
         == AfterRow(Tally(g.results + u.results, g.winHandicaps + u.winHandicaps,
                           g.lossHandicaps + u.lossHandicaps), m)
  {
    if m.Played? && !m.score.ScoreDigitsMissing? {
      assert (g.results + u.results) + [m.result] == g.results + (u.results + [m.result]);
    }
  }

  /** Reading the rows from the back agrees with the recursive definition:
      after rows that were all fully parsed, one more row has exactly the
      effect `AfterRow` gives it. */
  lemma {:induction false} TallyAppendGame(matches: seq<MatchParse>, m: MatchParse)
    requires forall j :: 0 <= j < |matches| ==> FullyParsed(matches[j])
    ensures TallyOf(matches).Ok?
    ensures TallyOf(matches + [m]) == AfterRow(TallyOf(matches).value, m)
  {
    if matches == [] {
      assert [] + [m] == [m];
      assert [m][1..] == [];
      match m
      case ResultCellMissing =>
      case Played(c, ScoreCellMissing) =>
        assert [] + [c] == [c];
      case Played(_, ScoreDigitsMissing) =>
      case Played(c, Scores(home, away)) =>
        assert TallyOf([m]) == Prepend(GameTally(c, home, away), Ok(Tally([], 0, 0)));
        PrependNothing(GameTally(c, home, away));
        assert [] + [c] == [c];
    } else {
      var rest := matches[1..];
      assert (matches + [m])[1..] == rest + [m];
      TallyAppendGame(rest, m);
      var g := GameTally(matches[0].result, matches[0].score.home, matches[0].score.away);
      assert TallyOf(matches + [m]) == Prepend(g, TallyOf(rest + [m]));
      var t' := TallyOf(rest).value;
      assert TallyOf(matches).value
          == Tally(g.results + t'.results, g.winHandicaps + t'.winHandicaps, g.lossHandicaps + t'.lossHandicaps);
      PrependAfterRow(g, t', m);
    }
  }

  /** Nothing after the first row that stops the loop is ever looked at. */
  lemma {:induction false} TallyIgnoresRowsAfterStop(matches: seq<MatchParse>, later: seq<MatchParse>)
    requires ParsedPrefix(matches) < |matches|
    ensures TallyOf(matches + later) == TallyOf(matches)
  {
    if FullyParsed(matches[0]) {
      assert (matches + later)[1..] == matches[1..] + later;
      TallyIgnoresRowsAfterStop(matches[1..], later);
    } else {
      assert (matches + later)[0] == matches[0];
    }
  }
}
