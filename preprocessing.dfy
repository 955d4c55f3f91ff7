/** Match-level outcome features: the full-time score "h-a" is read into
    home and away goals, and from their comparison come the points of each
    side, the winner code and the home side's W/L/D indicators. */
module Preprocessing {
  import opened Wrappers
  import opened Text

  /** One match row as the cleaned table holds it. Only the columns the
      pipeline reads are kept; date and possession are not needed here. */
  datatype Match = Match(
    season: string,
    homeTeam: string,
    awayTeam: string,
    resultFull: string,
    homePasses: int,
    awayPasses: int,
    homeShots: int,
    awayShots: int,
    homeShotsOnTarget: int,
    awayShotsOnTarget: int)

  /** The derived columns points_home, points_away, winner, W, L and D. */
  datatype Outcome = Outcome(
    pointsHome: nat,
    pointsAway: nat,
    winner: string,
    win: nat,
    loss: nat,
    draw: nat)

  /** A match row augmented with home_goals, away_goals and its outcome. */
  datatype MatchRecord = MatchRecord(
    row: Match,
    homeGoals: nat,
    awayGoals: nat,
    outcome: Outcome)

  /** The conversion that raised: which row, and which dash-separated piece
      (0 for home goals, 1 for away goals). */
  datatype ScoreError = ScoreError(row: nat, piece: nat)

  /** `result_full.str.split("-").str[k].astype(int)` on one row: the k-th
      dash-separated piece read by `int()`. A missing piece (pandas gives NaN)
      or a piece `int()` refuses yields `None`: the conversion raises. */
  function ScorePiece(score: string, k: nat): (r: Option<nat>)
    ensures r.Some? <==> k < |Split(score, '-')| && ParseInt(Split(score, '-')[k]).Some?
    ensures r.Some? ==> r.value == ParseInt(Split(score, '-')[k]).value
  {
    var pieces := Split(score, '-');
    if k < |pieces| then
      var v := ParseInt(pieces[k]);
      if v.Some? then Some(v.value) else None
    else None
  }

  predicate ScoreParses(score: string) {
    ScorePiece(score, 0).Some? && ScorePiece(score, 1).Some?
  }

  /** The score string for goals (h, a). */
  function FormatScore(home: nat, away: nat): string {
    NatToString(home) + "-" + NatToString(away)
  }

  /** Reading back a formatted score gives its goals: the integer before the
      dash is the home side's, the one after it the away side's. */
  lemma ScoreRoundTrip(home: nat, away: nat)
    ensures ScorePiece(FormatScore(home, away), 0) == Some(home)
    ensures ScorePiece(FormatScore(home, away), 1) == Some(away)
  {
    var h, a := NatToString(home), NatToString(away);
    assert '-' !in h && '-' !in a by {
      assert forall i :: 0 <= i < |h| ==> IsDigit(h[i]);
      assert forall i :: 0 <= i < |a| ==> IsDigit(a[i]);
    }
    assert Join([a], '-') == a;
    assert FormatScore(home, away) == Join([h, a], '-');
    SplitJoin([h, a], '-');
    ParseIntOfNatToString(home);
    ParseIntOfNatToString(away);
  }

  /** A score with no dash has no away piece, so it does not parse: the
      conversion raises rather than defaulting to 0. */
  lemma NoDashFails(score: string)
    requires '-' !in score
    ensures !ScoreParses(score)
  {
    assert Split(score, '-') == [score];
  }

  /** Outcome of one match from its goals: 3/0, 0/3 or 1/1 points, winner
      "H", "A" or "D", and exactly one of W, L, D set. Written as the source
      does it: the columns start at 0 and "", and one branch overwrites some. */
  function MatchOutcome(home: nat, away: nat): (o: Outcome)
    ensures o.winner == "H" <==> home > away
    ensures o.winner == "A" <==> home < away
    ensures o.winner == "D" <==> home == away
    ensures o.winner != ""
    ensures o.win <= 1 && o.loss <= 1 && o.draw <= 1 && o.win + o.loss + o.draw == 1
    ensures o.win == 1 <==> o.winner == "H"
    ensures o.loss == 1 <==> o.winner == "A"
    ensures o.draw == 1 <==> o.winner == "D"
    ensures o.pointsHome in {0, 1, 3} && o.pointsAway in {0, 1, 3}
    ensures o.pointsHome + o.pointsAway in {2, 3}
    ensures o.pointsHome == 3 <==> home > away
    ensures o.pointsAway == 3 <==> home < away
    ensures o.pointsHome == 1 <==> o.pointsAway == 1
  {
    var initial := Outcome(0, 0, "", 0, 0, 0);
    if home > away then initial.(pointsHome := 3, winner := "H", win := 1)
    else if home < away then initial.(pointsAway := 3, winner := "A", loss := 1)
    else initial.(pointsHome := 1, pointsAway := 1, winner := "D", draw := 1)
  }

  /** `rec` is row `m` with its score read and its outcome derived from its
      own goals alone. */
  predicate Derived(m: Match, rec: MatchRecord) {
    && rec.row == m
    && ScorePiece(m.resultFull, 0) == Some(rec.homeGoals)
    && ScorePiece(m.resultFull, 1) == Some(rec.awayGoals)
    && rec.outcome == MatchOutcome(rec.homeGoals, rec.awayGoals)
  }

  /** `e` names the conversion that raises first: the home-goals column is
      converted for every row before the away-goals column. */
  predicate FirstFailure(df: seq<Match>, e: ScoreError) {
    && e.row < |df|
    && e.piece < 2
    && ScorePiece(df[e.row].resultFull, e.piece).None?
    && (forall j :: 0 <= j < e.row ==> ScorePiece(df[j].resultFull, e.piece).Some?)
    && (e.piece == 1 ==> forall j :: 0 <= j < |df| ==> ScorePiece(df[j].resultFull, 0).Some?)
  }

  /** add_match_outcome_features: the caller's rows are values, so the
      result is a new table; every row keeps its columns and position and
      gains goals and outcome, or the conversion of some score raises. */
  method AddMatchOutcomeFeatures(df: seq<Match>) returns (r: Result<seq<MatchRecord>, ScoreError>)
    ensures r.Success? <==> forall i :: 0 <= i < |df| ==> ScoreParses(df[i].resultFull)
    ensures r.Failure? ==> FirstFailure(df, r.error)
    ensures r.Success? ==> |r.value| == |df|
    ensures r.Success? ==> forall i :: 0 <= i < |df| ==> Derived(df[i], r.value[i])
  {
    // home_goals: the whole column is converted first, then away_goals
    var home := GoalsColumn(df, 0);
    if home.Failure? {
      return Failure(home.error);
    }
    var away := GoalsColumn(df, 1);
    if away.Failure? {
      return Failure(away.error);
    }
    var hg, ag := home.value, away.value;
    var outcomes := DeriveOutcomes(hg, ag);
    r := Success(seq(|df|, i requires 0 <= i < |df| => MatchRecord(df[i], hg[i], ag[i], outcomes[i])));
  }

  /** One goals column: piece `k` of every row's score converted to an
      integer, or the first row whose conversion raises. */
  method GoalsColumn(df: seq<Match>, k: nat) returns (r: Result<seq<nat>, ScoreError>)
    ensures r.Success? <==> forall i :: 0 <= i < |df| ==> ScorePiece(df[i].resultFull, k).Some?
    ensures r.Success? ==> |r.value| == |df|
    ensures r.Success? ==> forall i :: 0 <= i < |df| ==> ScorePiece(df[i].resultFull, k) == Some(r.value[i])
    ensures r.Failure? ==> r.error.piece == k && r.error.row < |df|
    ensures r.Failure? ==> ScorePiece(df[r.error.row].resultFull, k).None?
    ensures r.Failure? ==> forall j :: 0 <= j < r.error.row ==> ScorePiece(df[j].resultFull, k).Some?
  {
    var column: seq<nat> := [];
    for i := 0 to |df|
      invariant |column| == i
      invariant forall j :: 0 <= j < i ==> ScorePiece(df[j].resultFull, k) == Some(column[j])
    {
      var g := ScorePiece(df[i].resultFull, k);
      if g.None? {
        return Failure(ScoreError(i, k));
      }
      column := column + [g.value];
    }
    r := Success(column);
  }

  /** The column initialisation and the row loop of
      add_match_outcome_features: each row's cells are overwritten from that
      row's goals alone. */
  method DeriveOutcomes(hg: seq<nat>, ag: seq<nat>) returns (outcomes: seq<Outcome>)
    requires |hg| == |ag|
    ensures |outcomes| == |hg|
    ensures forall k :: 0 <= k < |hg| ==> outcomes[k] == MatchOutcome(hg[k], ag[k])
  {
    var n := |hg|;
    var pointsHome := new nat[n](_ => 0);
    var pointsAway := new nat[n](_ => 0);
    var winner := new string[n](_ => "");
    var win := new nat[n](_ => 0);
    var loss := new nat[n](_ => 0);
    var draw := new nat[n](_ => 0);

    for idx := 0 to n
      invariant forall k :: 0 <= k < idx ==>
        Outcome(pointsHome[k], pointsAway[k], winner[k], win[k], loss[k], draw[k]) == MatchOutcome(hg[k], ag[k])
      invariant forall k :: idx <= k < n ==>
        Outcome(pointsHome[k], pointsAway[k], winner[k], win[k], loss[k], draw[k]) == Outcome(0, 0, "", 0, 0, 0)
    {
      if hg[idx] > ag[idx] {
        pointsHome[idx] := 3;
        winner[idx] := "H";
        win[idx] := 1;
      } else if hg[idx] < ag[idx] {
        pointsAway[idx] := 3;
        winner[idx] := "A";
        loss[idx] := 1;
      } else {
        pointsHome[idx] := 1;
        pointsAway[idx] := 1;
        winner[idx] := "D";
        draw[idx] := 1;
      }
    }

    outcomes := seq(n, k requires 0 <= k < n reads pointsHome, pointsAway, winner, win, loss, draw =>
      Outcome(pointsHome[k], pointsAway[k], winner[k], win[k], loss[k], draw[k]));
  }

  /** The example of a home win: "3-1" gives goals (3, 1), points (3, 0),
      winner "H" and W = 1. */
  lemma HomeWinExample()
    ensures ScorePiece("3-1", 0) == Some(3) && ScorePiece("3-1", 1) == Some(1)
    ensures MatchOutcome(3, 1) == Outcome(3, 0, "H", 1, 0, 0)
  {
    ScoreRoundTrip(3, 1);
    assert FormatScore(3, 1) == "3-1";
  }

  /** Only the first two pieces are read: a score with a third piece still
      converts, and its extra piece is ignored. */
  lemma ExtraPieceIgnored()
    ensures ScorePiece("2-1-0", 0) == Some(2) && ScorePiece("2-1-0", 1) == Some(1)
  {
    SplitJoin(["2", "1", "0"], '-');
    assert Join(["2", "1", "0"], '-') == "2-1-0";
    ParseIntOfNatToString(2);
    ParseIntOfNatToString(1);
    assert NatToString(2) == "2" && NatToString(1) == "1";
  }
}
