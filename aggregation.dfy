/** Season aggregation and the league table: per-team sums in the home
    role and in the away role, paired by a join on the season alone and then
    reduced to the rows where the two roles name the same team; the partial
    season is dropped, the role totals are added up, and the table is sorted,
    ranked within each season and given a season number. */
module Aggregation {
  import opened Collections
  import opened Text
  import opened Preprocessing

  /** The season the data collection stopped in the middle of. */
  const ExcludedSeason: string := "20/21"

  // -----------------------------------------------------------------------
  // Statistics of one side of a match
  // -----------------------------------------------------------------------

  /** The six summed statistics, seen from one side: points earned, goals
      scored, goals conceded (the other side's goals), passes, shots and
      shots on target. */
  datatype Line = Line(
    points: int,
    goalsScored: int,
    goalsConceded: int,
    passes: int,
    shots: int,
    shotsOnTarget: int)

  const Zero := Line(0, 0, 0, 0, 0, 0)

  function Add(a: Line, b: Line): Line {
    Line(a.points + b.points, a.goalsScored + b.goalsScored, a.goalsConceded + b.goalsConceded,
         a.passes + b.passes, a.shots + b.shots, a.shotsOnTarget + b.shotsOnTarget)
  }

  /** The home side's columns: points_home, home_goals, away_goals (as
      conceded), home_passes, home_shots, home_shots_on_target. */
  function HomeLine(m: MatchRecord): Line {
    Line(m.outcome.pointsHome, m.homeGoals, m.awayGoals,
         m.row.homePasses, m.row.homeShots, m.row.homeShotsOnTarget)
  }

  /** The away side's columns: points_away, away_goals, home_goals (as
      conceded), away_passes, away_shots, away_shots_on_target. */
  function AwayLine(m: MatchRecord): Line {
    Line(m.outcome.pointsAway, m.awayGoals, m.homeGoals,
         m.row.awayPasses, m.row.awayShots, m.row.awayShotsOnTarget)
  }

  // -----------------------------------------------------------------------
  // Grouping by (season, team) in one role
  // -----------------------------------------------------------------------

  datatype Key = Key(season: string, team: string)

  function HomeKey(m: MatchRecord): Key {
    Key(m.row.season, m.row.homeTeam)
  }

  function AwayKey(m: MatchRecord): Key {
    Key(m.row.season, m.row.awayTeam)
  }

  function HomeKeys(ms: seq<MatchRecord>): (ks: seq<Key>)
    ensures |ks| == |ms| && forall i :: 0 <= i < |ms| ==> ks[i] == HomeKey(ms[i])
  {
    seq(|ms|, i requires 0 <= i < |ms| => HomeKey(ms[i]))
  }

  function AwayKeys(ms: seq<MatchRecord>): (ks: seq<Key>)
    ensures |ks| == |ms| && forall i :: 0 <= i < |ms| ==> ks[i] == AwayKey(ms[i])
  {
    seq(|ms|, i requires 0 <= i < |ms| => AwayKey(ms[i]))
  }

  /** Sum of the home side's statistics over the matches `k.team` played at
      home in season `k.season`. */
  function HomeSum(ms: seq<MatchRecord>, k: Key): Line {
    if ms == [] then Zero else Add(HomePart(ms[0], k), HomeSum(ms[1..], k))
  }

  /** What match `m` adds to the home sum of `k`. */
  function HomePart(m: MatchRecord, k: Key): Line {
    if HomeKey(m) == k then HomeLine(m) else Zero
  }

  /** Sum of the away side's statistics over the matches `k.team` played
      away in season `k.season`. */
  function AwaySum(ms: seq<MatchRecord>, k: Key): Line {
    if ms == [] then Zero else Add(AwayPart(ms[0], k), AwaySum(ms[1..], k))
  }

  /** What match `m` adds to the away sum of `k`. */
  function AwayPart(m: MatchRecord, k: Key): Line {
    if AwayKey(m) == k then AwayLine(m) else Zero
  }

  /** One row of a grouped sum: the key and the summed statistics. */
  datatype Group = Group(key: Key, total: Line)

  predicate KeysDistinct(gs: seq<Group>) {
    forall i, j :: 0 <= i < j < |gs| ==> gs[i].key != gs[j].key
  }

  /** `groupby([season, home_team]).agg(sum)`: one row per (season, team)
      that occurs in the home role, holding that team's home sums. */
  function HomeGroups(ms: seq<MatchRecord>): (gs: seq<Group>)
    ensures KeysDistinct(gs)
    ensures forall k :: (exists i :: 0 <= i < |gs| && gs[i].key == k) <==> k in HomeKeys(ms)
    ensures forall i :: 0 <= i < |gs| ==> gs[i].total == HomeSum(ms, gs[i].key)
  {
    var keys := Unique(HomeKeys(ms));
    var gs := seq(|keys|, i requires 0 <= i < |keys| => Group(keys[i], HomeSum(ms, keys[i])));
    assert forall k :: k in keys ==> exists i :: 0 <= i < |gs| && gs[i].key == k by {
      forall k | k in keys
        ensures exists i :: 0 <= i < |gs| && gs[i].key == k
      {
        assert gs[Find(keys, k)].key == k;
      }
    }
    gs
  }

  /** `groupby([season, away_team]).agg(sum)`: one row per (season, team)
      that occurs in the away role, holding that team's away sums. */
  function AwayGroups(ms: seq<MatchRecord>): (gs: seq<Group>)
    ensures KeysDistinct(gs)
    ensures forall k :: (exists i :: 0 <= i < |gs| && gs[i].key == k) <==> k in AwayKeys(ms)
    ensures forall i :: 0 <= i < |gs| ==> gs[i].total == AwaySum(ms, gs[i].key)
  {
    var keys := Unique(AwayKeys(ms));
    var gs := seq(|keys|, i requires 0 <= i < |keys| => Group(keys[i], AwaySum(ms, keys[i])));
    assert forall k :: k in keys ==> exists i :: 0 <= i < |gs| && gs[i].key == k by {
      forall k | k in keys
        ensures exists i :: 0 <= i < |gs| && gs[i].key == k
      {
        assert gs[Find(keys, k)].key == k;
      }
    }
    gs
  }

  // -----------------------------------------------------------------------
  // The merge on season alone
  // -----------------------------------------------------------------------

  /** A row of the season-only merge: a home group next to an away group of
      the same season. */
  datatype Joined = Joined(season: string, homeTeam: string, awayTeam: string, home: Line, away: Line)

  function Pair(h: Group, a: Group): Joined {
    Joined(h.key.season, h.key.team, a.key.team, h.total, a.total)
  }

  predicate JoinedDistinct(js: seq<Joined>) {
    forall i, j :: 0 <= i < j < |js| ==>
      (js[i].season, js[i].homeTeam, js[i].awayTeam) != (js[j].season, js[j].homeTeam, js[j].awayTeam)
  }

  /** `h` paired with every away group of its season, in order. */
  function PairWithSeason(h: Group, aways: seq<Group>): (js: seq<Joined>)
    ensures forall j :: j in js <==> exists q :: 0 <= q < |aways| && aways[q].key.season == h.key.season && j == Pair(h, aways[q])
    ensures forall j :: j in js ==> j.season == h.key.season && j.homeTeam == h.key.team
    ensures KeysDistinct(aways) ==> JoinedDistinct(js)
  {
    if aways == [] then []
    else
      var rest := PairWithSeason(h, aways[1..]);
      assert forall q :: 1 <= q < |aways| ==> aways[q] == aways[1..][q - 1];
      if aways[0].key.season == h.key.season then
        var js := [Pair(h, aways[0])] + rest;
        assert KeysDistinct(aways) ==> JoinedDistinct(js) by {
          if KeysDistinct(aways) {
            assert KeysDistinct(aways[1..]);
            forall j | 1 <= j < |js|
              ensures js[j].awayTeam != aways[0].key.team
            {
              assert js[j] == rest[j - 1] && rest[j - 1] in rest;
            }
          }
        }
        js
      else rest
  }

  /** `home.merge(away, on=season)`: every home group paired with every away
      group of the same season (a cross product within each season). */
  function JoinOnSeason(homes: seq<Group>, aways: seq<Group>): (js: seq<Joined>)
    ensures forall j :: j in js <==>
      exists p, q :: 0 <= p < |homes| && 0 <= q < |aways| &&
        homes[p].key.season == aways[q].key.season && j == Pair(homes[p], aways[q])
    ensures KeysDistinct(homes) && KeysDistinct(aways) ==> JoinedDistinct(js)
  {
    if homes == [] then []
    else
      var n := |homes| - 1;
      var rest := JoinOnSeason(homes[..n], aways);
      var last := PairWithSeason(homes[n], aways);
      assert forall p :: 0 <= p < n ==> homes[p] == homes[..n][p];
      assert forall j :: j in rest ==> exists p :: 0 <= p < n && j.season == homes[p].key.season && j.homeTeam == homes[p].key.team;
      rest + last
  }

  /** `_season_total` for all six statistics at once. The source calls it
      once per statistic and merges the results on (season, home_team,
      away_team); all of them group the same rows, so the merge lines up
      one row of each and amounts to carrying the six sums together. */
  function SeasonTotal(ms: seq<MatchRecord>): (js: seq<Joined>)
    ensures forall j :: j in js <==>
      && Key(j.season, j.homeTeam) in HomeKeys(ms) && Key(j.season, j.awayTeam) in AwayKeys(ms)
      && j.home == HomeSum(ms, Key(j.season, j.homeTeam)) && j.away == AwaySum(ms, Key(j.season, j.awayTeam))
    ensures JoinedDistinct(js)
  {
    var homes, aways := HomeGroups(ms), AwayGroups(ms);
    var js := JoinOnSeason(homes, aways);
    forall j
      ensures j in js <==>
        && Key(j.season, j.homeTeam) in HomeKeys(ms) && Key(j.season, j.awayTeam) in AwayKeys(ms)
        && j.home == HomeSum(ms, Key(j.season, j.homeTeam)) && j.away == AwaySum(ms, Key(j.season, j.awayTeam))
    {
      if j in js {
        var p, q :| 0 <= p < |homes| && 0 <= q < |aways| &&
          homes[p].key.season == aways[q].key.season && j == Pair(homes[p], aways[q]);
        assert homes[p].key == Key(j.season, j.homeTeam) && aways[q].key == Key(j.season, j.awayTeam);
      }
      if Key(j.season, j.homeTeam) in HomeKeys(ms) && Key(j.season, j.awayTeam) in AwayKeys(ms)
        && j.home == HomeSum(ms, Key(j.season, j.homeTeam)) && j.away == AwaySum(ms, Key(j.season, j.awayTeam))
      {
        var p :| 0 <= p < |homes| && homes[p].key == Key(j.season, j.homeTeam);
        var q :| 0 <= q < |aways| && aways[q].key == Key(j.season, j.awayTeam);
        assert j == Pair(homes[p], aways[q]);
      }
    }
    js
  }

  // -----------------------------------------------------------------------
  // Filters and final metrics
  // -----------------------------------------------------------------------

  /** Keep only rows whose home team equals their away team. */
  function KeepSelf(js: seq<Joined>): (r: seq<Joined>)
    ensures forall j :: j in r <==> j in js && j.homeTeam == j.awayTeam
    ensures JoinedDistinct(js) ==> JoinedDistinct(r)
  {
    if js == [] then []
    else
      var rest := KeepSelf(js[1..]);
      assert forall j :: j in js[1..] ==> j in js;
      if js[0].homeTeam == js[0].awayTeam then [js[0]] + rest else rest
  }

  /** Remove the rows of the partial season. */
  function DropSeason(js: seq<Joined>, season: string): (r: seq<Joined>)
    ensures forall j :: j in r <==> j in js && j.season != season
    ensures JoinedDistinct(js) ==> JoinedDistinct(r)
  {
    if js == [] then []
    else
      var rest := DropSeason(js[1..], season);
      assert forall j :: j in js[1..] ==> j in js;
      if js[0].season != season then [js[0]] + rest else rest
  }

  /** One team's season: its two role sums and the derived totals. */
  datatype TeamSeason = TeamSeason(
    season: string,
    team: string,
    home: Line,
    away: Line,
    totalPoints: int,
    totalGoalsScored: int,
    totalGoalsConceded: int,
    diff: int,
    totalPasses: int,
    totalShots: int,
    totalShotsOnTarget: int)

  /** The total columns: each the home-role sum plus the away-role sum, and
      the goal difference scored minus conceded. */
  function FinalMetrics(j: Joined): (t: TeamSeason)
    ensures KeyOf(t) == Key(j.season, j.homeTeam) && t.home == j.home && t.away == j.away
    ensures t.totalPoints == j.home.points + j.away.points
    ensures t.totalGoalsScored == j.home.goalsScored + j.away.goalsScored
    ensures t.totalGoalsConceded == j.home.goalsConceded + j.away.goalsConceded
    ensures t.diff == t.totalGoalsScored - t.totalGoalsConceded
    ensures t.totalPasses == j.home.passes + j.away.passes
    ensures t.totalShots == j.home.shots + j.away.shots
    ensures t.totalShotsOnTarget == j.home.shotsOnTarget + j.away.shotsOnTarget
  {
    var total := Add(j.home, j.away);
    TeamSeason(j.season, j.homeTeam, j.home, j.away,
      total.points, total.goalsScored, total.goalsConceded,
      total.goalsScored - total.goalsConceded,
      total.passes, total.shots, total.shotsOnTarget)
  }

  function MapFinalMetrics(js: seq<Joined>): (ts: seq<TeamSeason>)
    ensures |ts| == |js| && forall i :: 0 <= i < |js| ==> ts[i] == FinalMetrics(js[i])
  {
    seq(|js|, i requires 0 <= i < |js| => FinalMetrics(js[i]))
  }

  /** The table before sorting and ranking: after the self-match filter
      and the season exclusion, exactly one row per surviving (season, team),
      each with that team's own home and away sums. */
  function Performance(ms: seq<MatchRecord>): (rows: seq<TeamSeason>)
    ensures forall t :: t in rows <==> Survives(ms, KeyOf(t)) && t == TeamRow(ms, KeyOf(t))
    ensures forall i, j :: 0 <= i < j < |rows| ==> KeyOf(rows[i]) != KeyOf(rows[j])
  {
    var kept := DropSeason(KeepSelf(SeasonTotal(ms)), ExcludedSeason);
    var rows := MapFinalMetrics(kept);
    KeptRows(ms, kept, rows);
    rows
  }

  // -----------------------------------------------------------------------
  // What survives, and what its totals are
  // -----------------------------------------------------------------------

  /** A (season, team) keeps a row when the team has at least one home and
      one away match that season and the season is not the excluded one. */
  predicate Survives(ms: seq<MatchRecord>, k: Key) {
    k.season != ExcludedSeason && k in HomeKeys(ms) && k in AwayKeys(ms)
  }

  /** The row a surviving (season, team) gets: its home sums, its away sums
      and their totals. */
  function TeamRow(ms: seq<MatchRecord>, k: Key): TeamSeason {
    FinalMetrics(Joined(k.season, k.team, k.team, HomeSum(ms, k), AwaySum(ms, k)))
  }

  function KeyOf(t: TeamSeason): Key {
    Key(t.season, t.team)
  }

  /** The rows made from the filtered merge are the surviving teams' rows,
      one per (season, team). */
  lemma KeptRows(ms: seq<MatchRecord>, kept: seq<Joined>, rows: seq<TeamSeason>)
    requires kept == DropSeason(KeepSelf(SeasonTotal(ms)), ExcludedSeason)
    requires rows == MapFinalMetrics(kept)
    ensures forall t :: t in rows <==> Survives(ms, KeyOf(t)) && t == TeamRow(ms, KeyOf(t))
    ensures forall i, j :: 0 <= i < j < |rows| ==> KeyOf(rows[i]) != KeyOf(rows[j])
  {
    forall t | t in rows
      ensures Survives(ms, KeyOf(t)) && t == TeamRow(ms, KeyOf(t))
    {
      var i :| 0 <= i < |rows| && rows[i] == t;
      assert kept[i] in kept;
    }
    forall t | Survives(ms, KeyOf(t)) && t == TeamRow(ms, KeyOf(t))
      ensures t in rows
    {
      var k := KeyOf(t);
      var j := Joined(k.season, k.team, k.team, HomeSum(ms, k), AwaySum(ms, k));
      assert j in kept;
      var i :| 0 <= i < |kept| && kept[i] == j;
      assert rows[i] == t;
    }
    assert JoinedDistinct(kept);
    forall i, j | 0 <= i < j < |rows|
      ensures KeyOf(rows[i]) != KeyOf(rows[j])
    {
      assert kept[i] in kept && kept[j] in kept;
    }
  }

  /** The six statistics of team `k.team` over every match it played in
      season `k.season`, each match counted from its own side: the home
      columns where it was at home, the away columns where it was away. */
  function TeamLine(ms: seq<MatchRecord>, k: Key): Line {
    if ms == [] then Zero else Add(Add(HomePart(ms[0], k), AwayPart(ms[0], k)), TeamLine(ms[1..], k))
  }

  /** Matches team `k.team` played in season `k.season`. */
  function Played(ms: seq<MatchRecord>, k: Key): nat {
    if ms == [] then 0
    else (if HomeKey(ms[0]) == k || AwayKey(ms[0]) == k then 1 else 0) + Played(ms[1..], k)
  }

  /** Adding the home-role sum and the away-role sum gives the team's
      totals over all its matches. */
  lemma {:induction false} RoleSumsAddUp(ms: seq<MatchRecord>, k: Key)
    ensures Add(HomeSum(ms, k), AwaySum(ms, k)) == TeamLine(ms, k)
  {
    if ms != [] {
      RoleSumsAddUp(ms[1..], k);
      AddInterchange(HomePart(ms[0], k), HomeSum(ms[1..], k), AwayPart(ms[0], k), AwaySum(ms[1..], k),
        TeamLine(ms[1..], k));
    } else {
      assert HomeSum(ms, k) == Zero && AwaySum(ms, k) == Zero && TeamLine(ms, k) == Zero;
    }
  }

  lemma AddInterchange(h: Line, x: Line, a: Line, y: Line, rest: Line)
    requires Add(x, y) == rest
    ensures Add(Add(h, x), Add(a, y)) == Add(Add(h, a), rest)
  {
  }

  /** The outcome columns were derived from the goals. */
  predicate Consistent(m: MatchRecord) {
    m.outcome == MatchOutcome(m.homeGoals, m.awayGoals)
  }

  /** Each match gives a team 0, 1 or 3 points, so its season total lies
      between 0 and three times the matches it played. */
  lemma {:induction false} PointsBound(ms: seq<MatchRecord>, k: Key)
    requires forall i :: 0 <= i < |ms| ==> Consistent(ms[i])
    ensures 0 <= TeamLine(ms, k).points <= 3 * Played(ms, k)
  {
    if ms != [] {
      assert Consistent(ms[0]);
      PointsBound(ms[1..], k);
    }
  }

  // -----------------------------------------------------------------------
  // _season_avg: per-role means, over exact rationals
  // -----------------------------------------------------------------------

  /** Matches `k.team` played at home in season `k.season`. */
  function HomeCount(ms: seq<MatchRecord>, k: Key): nat {
    if ms == [] then 0 else (if HomeKey(ms[0]) == k then 1 else 0) + HomeCount(ms[1..], k)
  }

  /** Matches `k.team` played away in season `k.season`. */
  function AwayCount(ms: seq<MatchRecord>, k: Key): nat {
    if ms == [] then 0 else (if AwayKey(ms[0]) == k then 1 else 0) + AwayCount(ms[1..], k)
  }

  /** The six statistics as means. */
  datatype Means = Means(
    points: real,
    goalsScored: real,
    goalsConceded: real,
    passes: real,
    shots: real,
    shotsOnTarget: real)

  /** A group's sums divided by its size: `agg(mean)`. */
  function MeanOf(total: Line, n: nat): (m: Means)
    requires n > 0
    ensures m.points * n as real == total.points as real
    ensures m.goalsScored * n as real == total.goalsScored as real
    ensures m.goalsConceded * n as real == total.goalsConceded as real
    ensures m.passes * n as real == total.passes as real
    ensures m.shots * n as real == total.shots as real
    ensures m.shotsOnTarget * n as real == total.shotsOnTarget as real
  {
    var d := n as real;
    Means(total.points as real / d, total.goalsScored as real / d, total.goalsConceded as real / d,
          total.passes as real / d, total.shots as real / d, total.shotsOnTarget as real / d)
  }

  /** `avg` is the mean of a home mean over `hn` matches summing to `hs`
      and an away mean over `an` matches summing to `as_`, stated without
      division: 2 · avg · hn · an = hs · an + as_ · hn. */
  predicate MeanOfMeans(avg: real, hs: int, hn: nat, as_: int, an: nat) {
    2.0 * avg * (hn * an) as real == (hs * an + as_ * hn) as real
  }

  /** Every one of the six columns of `m` is a mean of means. */
  predicate AllMeansOfMeans(m: Means, hs: Line, hn: nat, as_: Line, an: nat) {
    && MeanOfMeans(m.points, hs.points, hn, as_.points, an)
    && MeanOfMeans(m.goalsScored, hs.goalsScored, hn, as_.goalsScored, an)
    && MeanOfMeans(m.goalsConceded, hs.goalsConceded, hn, as_.goalsConceded, an)
    && MeanOfMeans(m.passes, hs.passes, hn, as_.passes, an)
    && MeanOfMeans(m.shots, hs.shots, hn, as_.shots, an)
    && MeanOfMeans(m.shotsOnTarget, hs.shotsOnTarget, hn, as_.shotsOnTarget, an)
  }

  /** Column by column, half the sum of two mean rows. */
  function Midpoint(h: Means, a: Means): Means {
    Means((h.points + a.points) / 2.0, (h.goalsScored + a.goalsScored) / 2.0,
          (h.goalsConceded + a.goalsConceded) / 2.0, (h.passes + a.passes) / 2.0,
          (h.shots + a.shots) / 2.0, (h.shotsOnTarget + a.shotsOnTarget) / 2.0)
  }

  /** The average columns of a (season, team) that keeps a row: each is the
      mean of the home-role mean and the away-role mean (not the mean over
      all the team's matches). */
  function AverageColumns(ms: seq<MatchRecord>, k: Key): (m: Means)
    requires k in HomeKeys(ms) && k in AwayKeys(ms)
    ensures HomeCount(ms, k) > 0 && AwayCount(ms, k) > 0
    ensures AllMeansOfMeans(m, HomeSum(ms, k), HomeCount(ms, k), AwaySum(ms, k), AwayCount(ms, k))
  {
    CountPositive(ms, k);
    var hn, an := HomeCount(ms, k), AwayCount(ms, k);
    var hs, as_ := HomeSum(ms, k), AwaySum(ms, k);
    MidpointOfMeanLines(hs, hn, as_, an);
    Midpoint(MeanOf(hs, hn), MeanOf(as_, an))
  }

  /** The midpoint of the home and away mean rows is a mean of means in
      every column. */
  lemma MidpointOfMeanLines(hs: Line, hn: nat, as_: Line, an: nat)
    requires hn > 0 && an > 0
    ensures AllMeansOfMeans(Midpoint(MeanOf(hs, hn), MeanOf(as_, an)), hs, hn, as_, an)
  {
    MidpointScoring(hs, hn, as_, an);
    MidpointPlay(hs, hn, as_, an);
  }

  /** The points and goals columns of the midpoint are means of means. */
  lemma MidpointScoring(hs: Line, hn: nat, as_: Line, an: nat)
    requires hn > 0 && an > 0
    ensures var m := Midpoint(MeanOf(hs, hn), MeanOf(as_, an));
      && MeanOfMeans(m.points, hs.points, hn, as_.points, an)
      && MeanOfMeans(m.goalsScored, hs.goalsScored, hn, as_.goalsScored, an)
      && MeanOfMeans(m.goalsConceded, hs.goalsConceded, hn, as_.goalsConceded, an)
  {
    var h, a := MeanOf(hs, hn), MeanOf(as_, an);
    MidpointOfMeans(h.points, hs.points, hn, a.points, as_.points, an);
    MidpointOfMeans(h.goalsScored, hs.goalsScored, hn, a.goalsScored, as_.goalsScored, an);
    MidpointOfMeans(h.goalsConceded, hs.goalsConceded, hn, a.goalsConceded, as_.goalsConceded, an);
  }

  /** The passes and shots columns of the midpoint are means of means. */
  lemma MidpointPlay(hs: Line, hn: nat, as_: Line, an: nat)
    requires hn > 0 && an > 0
    ensures var m := Midpoint(MeanOf(hs, hn), MeanOf(as_, an));
      && MeanOfMeans(m.passes, hs.passes, hn, as_.passes, an)
      && MeanOfMeans(m.shots, hs.shots, hn, as_.shots, an)
      && MeanOfMeans(m.shotsOnTarget, hs.shotsOnTarget, hn, as_.shotsOnTarget, an)
  {
    var h, a := MeanOf(hs, hn), MeanOf(as_, an);
    MidpointOfMeans(h.passes, hs.passes, hn, a.passes, as_.passes, an);
    MidpointOfMeans(h.shots, hs.shots, hn, a.shots, as_.shots, an);
    MidpointOfMeans(h.shotsOnTarget, hs.shotsOnTarget, hn, a.shotsOnTarget, as_.shotsOnTarget, an);
  }

  /** Halving the sum of two means gives the mean of means. */
  lemma MidpointOfMeans(x: real, hs: int, hn: nat, y: real, as_: int, an: nat)
    requires hn > 0 && an > 0
    requires x * hn as real == hs as real && y * an as real == as_ as real
    ensures MeanOfMeans((x + y) / 2.0, hs, hn, as_, an)
  {
    var h, a := hn as real, an as real;
    calc {
      2.0 * ((x + y) / 2.0) * (hn * an) as real;
      (x + y) * (h * a);
      (x * h) * a + (y * a) * h;
      hs as real * a + as_ as real * h;
      (hs * an + as_ * hn) as real;
    }
  }

  lemma {:induction false} CountPositive(ms: seq<MatchRecord>, k: Key)
    requires k in HomeKeys(ms) && k in AwayKeys(ms)
    ensures HomeCount(ms, k) > 0 && AwayCount(ms, k) > 0
  {
    var i :| 0 <= i < |ms| && HomeKeys(ms)[i] == k;
    var j :| 0 <= j < |ms| && AwayKeys(ms)[j] == k;
    HomeCountPositive(ms, k, i);
    AwayCountPositive(ms, k, j);
  }

  lemma {:induction false} HomeCountPositive(ms: seq<MatchRecord>, k: Key, i: nat)
    requires i < |ms| && HomeKey(ms[i]) == k
    ensures HomeCount(ms, k) > 0
  {
    if i > 0 {
      HomeCountPositive(ms[1..], k, i - 1);
    }
  }

  lemma {:induction false} AwayCountPositive(ms: seq<MatchRecord>, k: Key, i: nat)
    requires i < |ms| && AwayKey(ms[i]) == k
    ensures AwayCount(ms, k) > 0
  {
    if i > 0 {
      AwayCountPositive(ms[1..], k, i - 1);
    }
  }

  /** Home points over a team's home matches are at most three per match,
      and likewise away. */
  lemma {:induction false} RolePointsBound(ms: seq<MatchRecord>, k: Key)
    requires forall i :: 0 <= i < |ms| ==> Consistent(ms[i])
    ensures 0 <= HomeSum(ms, k).points <= 3 * HomeCount(ms, k)
    ensures 0 <= AwaySum(ms, k).points <= 3 * AwayCount(ms, k)
  {
    if ms != [] {
      assert Consistent(ms[0]);
      RolePointsBound(ms[1..], k);
    } else {
      assert HomeSum(ms, k) == Zero && AwaySum(ms, k) == Zero;
    }
  }

  /** The average points column lies between 0 and 3. */
  lemma AveragePointsBound(ms: seq<MatchRecord>, k: Key)
    requires forall i :: 0 <= i < |ms| ==> Consistent(ms[i])
    requires k in HomeKeys(ms) && k in AwayKeys(ms)
    ensures 0.0 <= AverageColumns(ms, k).points <= 3.0
  {
    CountPositive(ms, k);
    RolePointsBound(ms, k);
    MeanBound(HomeSum(ms, k).points, HomeCount(ms, k));
    MeanBound(AwaySum(ms, k).points, AwayCount(ms, k));
  }

  lemma MeanBound(total: int, n: nat)
    requires n > 0 && 0 <= total <= 3 * n
    ensures 0.0 <= total as real / n as real <= 3.0
  {
    var d := n as real;
    assert total as real <= 3.0 * d;
    assert (total as real / d) * d == total as real;
  }

  /** Each total column of a table row (a surviving team's own row, which
      is what `Performance` holds) is the team's own statistic summed over
      every match it played in that season, and the goal difference is goals
      scored minus goals conceded over those matches. */
  lemma PerformanceTotals(ms: seq<MatchRecord>, t: TeamSeason)
    requires Survives(ms, KeyOf(t)) && t == TeamRow(ms, KeyOf(t))
    ensures t.totalPoints == TeamLine(ms, KeyOf(t)).points
    ensures t.totalGoalsScored == TeamLine(ms, KeyOf(t)).goalsScored
    ensures t.totalGoalsConceded == TeamLine(ms, KeyOf(t)).goalsConceded
    ensures t.diff == TeamLine(ms, KeyOf(t)).goalsScored - TeamLine(ms, KeyOf(t)).goalsConceded
    ensures t.totalPasses == TeamLine(ms, KeyOf(t)).passes
    ensures t.totalShots == TeamLine(ms, KeyOf(t)).shots
    ensures t.totalShotsOnTarget == TeamLine(ms, KeyOf(t)).shotsOnTarget
  {
    RoleSumsAddUp(ms, KeyOf(t));
  }

  /** With outcomes derived from the goals, a table row's total points lie
      between 0 and three times the matches the team played that season,
      and it played at least one. */
  lemma PerformancePoints(ms: seq<MatchRecord>, t: TeamSeason)
    requires forall i :: 0 <= i < |ms| ==> Consistent(ms[i])
    requires Survives(ms, KeyOf(t)) && t == TeamRow(ms, KeyOf(t))
    ensures 1 <= Played(ms, KeyOf(t))
    ensures 0 <= t.totalPoints <= 3 * Played(ms, KeyOf(t))
  {
    PerformanceTotals(ms, t);
    TeamPoints(ms, KeyOf(t));
  }

  /** A team with a home match in the season played at least once and
      earned at most three points per match. */
  lemma TeamPoints(ms: seq<MatchRecord>, k: Key)
    requires forall i :: 0 <= i < |ms| ==> Consistent(ms[i])
    requires k in HomeKeys(ms)
    ensures 1 <= Played(ms, k)
    ensures 0 <= TeamLine(ms, k).points <= 3 * Played(ms, k)
  {
    PointsBound(ms, k);
    var i :| 0 <= i < |ms| && HomeKeys(ms)[i] == k;
    PlayedPositive(ms, k, i);
  }

  lemma {:induction false} PlayedPositive(ms: seq<MatchRecord>, k: Key, i: nat)
    requires i < |ms| && HomeKey(ms[i]) == k
    ensures 1 <= Played(ms, k)
  {
    if i > 0 {
      PlayedPositive(ms[1..], k, i - 1);
    }
  }

  // -----------------------------------------------------------------------
  // The table order
  // -----------------------------------------------------------------------

  /** The order of the sorted table: season ascending, then total points
      descending, then goal difference descending. Rows reach the sort in
      (season, team) order and the multi-column sort is stable, so rows that
      tie on all three stay in team order. */
  predicate Precedes(x: TeamSeason, y: TeamSeason) {
    || StrLt(x.season, y.season)
    || (x.season == y.season &&
        (|| x.totalPoints > y.totalPoints
         || (x.totalPoints == y.totalPoints &&
             (|| x.diff > y.diff
              || (x.diff == y.diff && StrLe(x.team, y.team))))))
  }

  lemma PrecedesTotalPreorder()
    ensures TotalPreorder(Precedes)
  {
    forall x: TeamSeason, y: TeamSeason
      ensures Precedes(x, y) || Precedes(y, x)
    {
      StrLeTotal(x.season, y.season);
      StrLeTotal(x.team, y.team);
    }
    forall x: TeamSeason, y: TeamSeason, z: TeamSeason | Precedes(x, y) && Precedes(y, z)
      ensures Precedes(x, z)
    {
      SeasonOrderTransitive(x.season, y.season, z.season);
      if x.season == y.season == z.season && x.totalPoints == y.totalPoints == z.totalPoints
        && x.diff == y.diff == z.diff {
        StrLeTransitive(x.team, y.team, z.team);
      }
    }
  }

  /** Season order on its own: at or before, and strictly before, compose. */
  lemma SeasonOrderTransitive(a: string, b: string, c: string)
    ensures (StrLt(a, b) || a == b) && (StrLt(b, c) || b == c) ==> (StrLt(a, c) || a == c)
    ensures (StrLt(a, b) && (StrLt(b, c) || b == c)) || ((StrLt(a, b) || a == b) && StrLt(b, c)) ==> StrLt(a, c)
  {
    if StrLe(a, b) && StrLe(b, c) {
      StrLeTransitive(a, b, c);
      if a == c {
        StrLeAntisymmetric(a, b);
      }
    }
  }

  /** Within a season, a row with more points than another comes before
      it in the sorted table. */
  lemma {:induction false} SortedSeasonLeader(rows: seq<TeamSeason>, i: nat, j: nat)
    requires SortedBy(rows, Precedes)
    requires i < |rows| && j < |rows| && rows[i].season == rows[j].season
    requires rows[i].totalPoints > rows[j].totalPoints
    ensures i < j
  {
    assert j < i ==> Precedes(rows[j], rows[i]);
  }

  // -----------------------------------------------------------------------
  // Table standing
  // -----------------------------------------------------------------------

  /** The standing the table gives row `i`: one more than the rows of the
      same season above it. */
  function Standing<T(==)>(seasons: seq<T>, i: nat): nat
    requires i < |seasons|
  {
    Count(seasons[..i], seasons[i]) + 1
  }

  /** Season order of a column: each season at or after the one above it. */
  predicate SeasonSorted(seasons: seq<string>) {
    forall i, j :: 0 <= i < j < |seasons| ==> StrLe(seasons[i], seasons[j])
  }

  /** Each value's rows are contiguous: where a new value starts, it has not
      occurred above. */
  predicate Grouped<T(==)>(s: seq<T>) {
    forall j, i :: 0 <= j < i < |s| && NewValueAt(s, i) ==> s[j] != s[i]
  }

  /** Row `i` holds another value than the row above it. */
  predicate NewValueAt<T(==)>(s: seq<T>, i: nat)
    requires 0 < i < |s|
  {
    s[i - 1] != s[i]
  }

  /** A season-sorted column is grouped by season. */
  lemma SortedIsGrouped(seasons: seq<string>)
    requires SeasonSorted(seasons)
    ensures Grouped(seasons)
  {
    forall j, i | 0 <= j < i < |seasons| && NewValueAt(seasons, i)
      ensures seasons[j] != seasons[i]
    {
      if j < i - 1 {
        assert StrLe(seasons[j], seasons[i - 1]) && StrLe(seasons[i - 1], seasons[i]);
        if seasons[j] == seasons[i] {
          StrLeAntisymmetric(seasons[i - 1], seasons[i]);
        }
      }
    }
  }

  /** Rows from `start` on that share the season of row `start`. */
  function RunLength<T(==)>(s: seq<T>, start: nat): (n: nat)
    requires start < |s|
    ensures 1 <= n <= |s| - start
    ensures start + n < |s| ==> s[start + n] != s[start]
    decreases |s| - start
  {
    if start + 1 == |s| || s[start + 1] != s[start] then 1 else 1 + RunLength(s, start + 1)
  }

  /** Every row of a run holds the run's season. */
  lemma {:induction false} RunIsUniform<T>(s: seq<T>, start: nat, i: nat)
    requires start <= i < |s| && i < start + RunLength(s, start)
    ensures s[i] == s[start]
    decreases i - start
  {
    if i > start {
      RunIsUniform(s, start + 1, i);
    }
  }

  /** The lengths of the runs of equal seasons from `start` on. */
  function CountsFrom<T(==)>(s: seq<T>, start: nat): (counts: seq<nat>)
    requires start <= |s|
    ensures start == |s| <==> counts == []
    ensures Sum(counts) == |s| - start
    ensures forall k :: 0 <= k < |counts| ==> counts[k] >= 1
    decreases |s| - start
  {
    if start == |s| then [] else [RunLength(s, start)] + CountsFrom(s, start + RunLength(s, start))
  }

  /** Every count from `start` on is the length of the run that begins
      after the rows of the runs before it. */
  lemma CountsFromRuns<T>(s: seq<T>, start: nat, counts: seq<nat>)
    requires start <= |s| && counts == CountsFrom(s, start)
    ensures forall k :: 0 <= k < |counts| ==>
      start + Sum(counts[..k]) < |s| && counts[k] == RunLength(s, start + Sum(counts[..k]))
  {
    forall k | 0 <= k < |counts|
      ensures start + Sum(counts[..k]) < |s| && counts[k] == RunLength(s, start + Sum(counts[..k]))
    {
      CountRun(s, start, k, start + Sum(counts[..k]));
    }
  }

  /** Count `k` from `start` on is the length of the run that begins at
      `at`, the row after the rows of the first `k` runs. */
  lemma {:induction false} CountRun<T>(s: seq<T>, start: nat, k: nat, at: nat)
    requires start <= |s| && k < |CountsFrom(s, start)|
    requires at == start + Sum(CountsFrom(s, start)[..k])
    ensures at < |s| && CountsFrom(s, start)[k] == RunLength(s, at)
    decreases k
  {
    var counts := CountsFrom(s, start);
    var n := RunLength(s, start);
    var rest := CountsFrom(s, start + n);
    assert counts == [n] + rest;
    if k == 0 {
      assert counts[..k] == [];
    } else {
      assert Sum(counts[..k]) == n + Sum(rest[..k - 1]) && counts[k] == rest[k - 1] by {
        SumCons(n, rest, k);
      }
      CountRun(s, start + n, k - 1, at);
    }
  }

  /** Prefix sums of a sequence with a new first element. */
  lemma SumCons(n: nat, rest: seq<nat>, k: nat)
    requires 0 < k <= |rest|
    ensures Sum(([n] + rest)[..k]) == n + Sum(rest[..k - 1])
    ensures ([n] + rest)[k] == rest[k - 1]
  {
    var c := ([n] + rest)[..k];
    assert c[0] == n && c[1..] == rest[..k - 1];
  }

  /** `groupby(season).count()` on the season-sorted table: the groups come
      in sorted season order, which is the order of the runs of equal
      seasons, and each count is a run's length. */
  function SeasonCounts<T(==)>(s: seq<T>): (counts: seq<nat>)
    ensures Sum(counts) == |s|
    ensures forall k :: 0 <= k < |counts| ==> counts[k] >= 1
    ensures forall k :: 0 <= k < |counts| ==> Sum(counts[..k]) < |s| && counts[k] == RunLength(s, Sum(counts[..k]))
  {
    var counts := CountsFrom(s, 0);
    CountsFromRuns(s, 0, counts);
    counts
  }

  /** The rank_column loop: for each season's team count `n`, the
      standings 1 to `n` are appended. On a season-sorted column this gives
      every row one more than the rows of its season above it. */
  method RankColumn(seasons: seq<string>) returns (rank: seq<nat>)
    requires SeasonSorted(seasons)
    ensures |rank| == |seasons|
    ensures forall i :: 0 <= i < |seasons| ==> rank[i] == Standing(seasons, i)
  {
    SortedIsGrouped(seasons);
    var counts := SeasonCounts(seasons);
    rank := [];
    assert counts[0..] == counts;
    for k := 0 to |counts|
      invariant RankedUpTo(seasons, counts, k, rank)
    {
      var n := counts[k];
      ghost var before := rank;
      rank := Extend(rank, n);
      RankLoopStep(seasons, counts, k, before, rank);
    }
    RankedAll(seasons, counts, rank);
  }

  /** The loop invariant: `rank` holds the standings of the rows covered by
      the first `k` counts, and the remaining counts are those of the rows
      after them. */
  predicate RankedUpTo<T(==)>(seasons: seq<T>, counts: seq<nat>, k: nat, rank: seq<nat>) {
    && k <= |counts|
    && |rank| <= |seasons|
    && counts[k..] == CountsFrom(seasons, |rank|)
    && (0 < |rank| < |seasons| ==> seasons[|rank| - 1] != seasons[|rank|])
    && (forall i :: 0 <= i < |rank| ==> rank[i] == Standing(seasons, i))
  }

  lemma RankLoopStep<T>(seasons: seq<T>, counts: seq<nat>, k: nat, before: seq<nat>, after: seq<nat>)
    requires Grouped(seasons) && k < |counts| && RankedUpTo(seasons, counts, k, before)
    requires |after| == |before| + counts[k] && after[..|before|] == before
    requires forall i :: |before| <= i < |after| ==> after[i] == i - |before| + 1
    ensures RankedUpTo(seasons, counts, k + 1, after)
  {
    CountsStep(seasons, counts, k, |before|);
    RankStep(seasons, before, after);
  }

  lemma RankedAll<T>(seasons: seq<T>, counts: seq<nat>, rank: seq<nat>)
    requires RankedUpTo(seasons, counts, |counts|, rank)
    ensures |rank| == |seasons|
    ensures forall i :: 0 <= i < |seasons| ==> rank[i] == Standing(seasons, i)
  {
    assert counts[|counts|..] == [];
  }

  /** `rank_column.extend(range(1, n + 1))`. */
  method Extend(rank: seq<nat>, n: nat) returns (r: seq<nat>)
    ensures |r| == |rank| + n
    ensures r[..|rank|] == rank
    ensures forall i :: |rank| <= i < |r| ==> r[i] == i - |rank| + 1
  {
    r := rank;
    for v := 1 to n + 1
      invariant |r| == |rank| + v - 1
      invariant r[..|rank|] == rank
      invariant forall i :: |rank| <= i < |r| ==> r[i] == i - |rank| + 1
    {
      r := r + [v];
    }
  }

  /** The count the loop reads next is the length of the run starting at
      `start`, the counts after it are those of the rows after that run,
      and the row after the run holds another season. */
  lemma CountsStep<T>(seasons: seq<T>, counts: seq<nat>, k: nat, start: nat)
    requires k < |counts| && start <= |seasons|
    requires counts[k..] == CountsFrom(seasons, start)
    ensures start < |seasons|
    ensures counts[k] == RunLength(seasons, start)
    ensures counts[k + 1..] == CountsFrom(seasons, start + counts[k])
    ensures start + counts[k] < |seasons| ==> seasons[start + counts[k]] != seasons[start + counts[k] - 1]
  {
    assert counts[k..] != [];
    assert counts[k] == counts[k..][0];
    assert counts[k + 1..] == counts[k..][1..];
    RunIsUniform(seasons, start, start + counts[k] - 1);
  }

  /** One pass of the loop: appending the standings 1 to `n` for the run
      that starts after `before` extends the correct standings by that run. */
  lemma RankStep<T>(seasons: seq<T>, before: seq<nat>, after: seq<nat>)
    requires Grouped(seasons) && |before| < |seasons|
    requires 0 < |before| ==> seasons[|before| - 1] != seasons[|before|]
    requires forall i :: 0 <= i < |before| ==> before[i] == Standing(seasons, i)
    requires |after| == |before| + RunLength(seasons, |before|) && after[..|before|] == before
    requires forall i :: |before| <= i < |after| ==> after[i] == i - |before| + 1
    ensures forall i :: 0 <= i < |after| ==> after[i] == Standing(seasons, i)
  {
    var start := |before|;
    assert forall i :: 0 <= i < start ==> after[i] == after[..start][i];
    forall i | start <= i < |after|
      ensures Standing(seasons, i) == i - start + 1
    {
      StandingInRun(seasons, start, i);
    }
  }

  /** Within a run of one season that starts where the previous season
      ends, the standing is the position in the run plus one. */
  lemma StandingInRun<T>(seasons: seq<T>, start: nat, i: nat)
    requires Grouped(seasons)
    requires start <= i < |seasons|
    requires i < start + RunLength(seasons, start)
    requires start > 0 ==> seasons[start - 1] != seasons[start]
    ensures Standing(seasons, i) == i - start + 1
  {
    RunIsUniform(seasons, start, i);
    assert seasons[..i] == seasons[..start] + seasons[start..i];
    CountAppend(seasons[..start], seasons[start..i], seasons[i]);
    RunCount(seasons, start, i);
    NoEarlier(seasons, start);
  }

  /** The rows of a run above row `i` all hold the run's season. */
  lemma RunCount<T>(seasons: seq<T>, start: nat, i: nat)
    requires start <= i < |seasons| && i < start + RunLength(seasons, start)
    ensures Count(seasons[start..i], seasons[start]) == i - start
  {
    forall j | 0 <= j < i - start
      ensures seasons[start..i][j] == seasons[start]
    {
      RunIsUniform(seasons, start, start + j);
    }
    CountAll(seasons[start..i], seasons[start]);
  }

  /** In a grouped column, no row above the start of a new season's run
      holds that season. */
  lemma NoEarlier<T>(seasons: seq<T>, start: nat)
    requires Grouped(seasons) && start < |seasons|
    requires start > 0 ==> seasons[start - 1] != seasons[start]
    ensures Count(seasons[..start], seasons[start]) == 0
  {
    forall j | 0 <= j < start
      ensures seasons[..start][j] != seasons[start]
    {
      assert NewValueAt(seasons, start);
    }
    CountNone(seasons[..start], seasons[start]);
  }

  lemma {:induction false} CountAppend<T>(a: seq<T>, b: seq<T>, x: T)
    ensures Count(a + b, x) == Count(a, x) + Count(b, x)
  {
    if a != [] {
      assert (a + b)[1..] == a[1..] + b;
      CountAppend(a[1..], b, x);
    } else {
      assert a + b == b;
    }
  }

  lemma {:induction false} CountNone<T>(s: seq<T>, x: T)
    requires forall j :: 0 <= j < |s| ==> s[j] != x
    ensures Count(s, x) == 0
  {
    if s != [] {
      CountNone(s[1..], x);
    }
  }

  lemma {:induction false} CountAll<T>(s: seq<T>, x: T)
    requires forall j :: 0 <= j < |s| ==> s[j] == x
    ensures Count(s, x) == |s|
  {
    if s != [] {
      CountAll(s[1..], x);
    }
  }

  /** Standings within one season run from 1 to that season's row count. */
  lemma StandingBounds<T>(seasons: seq<T>, i: nat)
    requires i < |seasons|
    ensures 1 <= Standing(seasons, i) <= Count(seasons, seasons[i])
  {
    assert seasons == seasons[..i] + seasons[i..];
    CountAppend(seasons[..i], seasons[i..], seasons[i]);
    assert seasons[i..] == [seasons[i]] + seasons[i + 1..];
  }

  /** Two rows of one season never share a standing: the lower row has the
      larger one. */
  lemma StandingIncreases<T>(seasons: seq<T>, i: nat, j: nat)
    requires i < j < |seasons| && seasons[i] == seasons[j]
    ensures Standing(seasons, i) < Standing(seasons, j)
  {
    var x := seasons[j];
    assert seasons[..j] == seasons[..i] + seasons[i..j];
    CountAppend(seasons[..i], seasons[i..j], x);
    assert seasons[i..j] == [x] + seasons[i + 1..j];
  }

  /** The seasons of a sorted table, top to bottom. */
  function SeasonsOf(rows: seq<TeamSeason>): (seasons: seq<string>)
    ensures |seasons| == |rows| && forall i :: 0 <= i < |rows| ==> seasons[i] == rows[i].season
  {
    seq(|rows|, i requires 0 <= i < |rows| => rows[i].season)
  }

  /** A table sorted by `Precedes` is sorted by season. */
  lemma SortedSeasons(rows: seq<TeamSeason>)
    requires SortedBy(rows, Precedes)
    ensures SeasonSorted(SeasonsOf(rows))
  {
    forall i, j | 0 <= i < j < |rows|
      ensures StrLe(rows[i].season, rows[j].season)
    {
      assert Precedes(rows[i], rows[j]);
      StrLeReflexive(rows[i].season);
    }
  }

  /** In the sorted table, a team with more points than another of its
      season stands higher, and the team standing first has the most points
      of its season. */
  lemma StandingFollowsPoints(rows: seq<TeamSeason>, i: nat, j: nat)
    requires SortedBy(rows, Precedes)
    requires i < |rows| && j < |rows| && rows[i].season == rows[j].season
    ensures rows[i].totalPoints > rows[j].totalPoints ==>
      Standing(SeasonsOf(rows), i) < Standing(SeasonsOf(rows), j)
    ensures Standing(SeasonsOf(rows), i) == 1 ==> rows[i].totalPoints >= rows[j].totalPoints
  {
    var seasons := SeasonsOf(rows);
    StandingBounds(seasons, i);
    StandingBounds(seasons, j);
    if rows[i].totalPoints > rows[j].totalPoints {
      SortedSeasonLeader(rows, i, j);
      StandingIncreases(seasons, i, j);
    }
    if rows[j].totalPoints > rows[i].totalPoints {
      SortedSeasonLeader(rows, j, i);
      StandingIncreases(seasons, j, i);
    }
  }

  // -----------------------------------------------------------------------
  // Season number
  // -----------------------------------------------------------------------

  /** `seasons.index(season)` where `seasons` lists the table's seasons in
      order of first appearance. */
  function SeasonNumber(seasons: seq<string>, i: nat): (n: nat)
    requires i < |seasons|
    ensures n < |Unique(seasons)|
  {
    Find(Unique(seasons), seasons[i])
  }

  /** Two rows share a season number exactly when they share a season. */
  lemma SeasonNumberIdentifies(seasons: seq<string>, i: nat, j: nat)
    requires i < |seasons| && j < |seasons|
    ensures SeasonNumber(seasons, i) == SeasonNumber(seasons, j) <==> seasons[i] == seasons[j]
  {
  }

  /** Every number below the count of distinct seasons is used. */
  lemma SeasonNumberOnto(seasons: seq<string>, k: nat)
    requires k < |Unique(seasons)|
    ensures exists i :: 0 <= i < |seasons| && SeasonNumber(seasons, i) == k
  {
    var u := Unique(seasons);
    assert u[k] in seasons;
    var i := Find(seasons, u[k]);
    assert Find(u, u[k]) == k;
    assert SeasonNumber(seasons, i) == k;
  }

  /** Down a season-sorted table the season number never decreases, so the
      seasons are numbered 0, 1, 2, ... from the earliest. */
  lemma SeasonNumberMonotone(seasons: seq<string>, i: nat, j: nat)
    requires SeasonSorted(seasons)
    requires i <= j < |seasons|
    ensures SeasonNumber(seasons, i) <= SeasonNumber(seasons, j)
  {
    var x, y := seasons[i], seasons[j];
    var fx, fy := Find(seasons, x), Find(seasons, y);
    FindAtMost(seasons, i);
    assert fy < fx ==> x == y by {
      if fy < fx {
        assert StrLe(seasons[fy], seasons[i]) && StrLe(seasons[i], seasons[j]);
        StrLeAntisymmetric(x, y);
      }
    }
    UniqueOrderReflects(seasons, SeasonNumber(seasons, i), SeasonNumber(seasons, j));
  }

  /** The order of first appearance is reflected by the order in `Unique`. */
  lemma UniqueOrderReflects(s: seq<string>, a: nat, b: nat)
    requires a < |Unique(s)| && b < |Unique(s)|
    ensures Find(s, Unique(s)[a]) < Find(s, Unique(s)[b]) ==> a < b
  {
    if b < a {
      UniqueFirstOccurrenceOrder(s, b, a);
    }
  }

  // -----------------------------------------------------------------------
  // aggregate_season_performance
  // -----------------------------------------------------------------------

  /** A row of the final table: the team's season, its standing and the
      season number. */
  datatype TableRow = TableRow(stats: TeamSeason, standing: nat, seasonNumber: nat)

  function StatsOf(table: seq<TableRow>): (rows: seq<TeamSeason>)
    ensures |rows| == |table| && forall i :: 0 <= i < |table| ==> rows[i] == table[i].stats
  {
    seq(|table|, i requires 0 <= i < |table| => table[i].stats)
  }

  /** The league table: the rows of `Performance` (one per surviving team and
      season) in table order, each with its standing within its season and
      its season number. */
  method AggregateSeasonPerformance(ms: seq<MatchRecord>) returns (table: seq<TableRow>)
    ensures multiset(StatsOf(table)) == multiset(Performance(ms))
    ensures SortedBy(StatsOf(table), Precedes)
    ensures forall i :: 0 <= i < |table| ==> table[i].standing == Standing(SeasonsOf(StatsOf(table)), i)
    ensures forall i :: 0 <= i < |table| ==> table[i].seasonNumber == SeasonNumber(SeasonsOf(StatsOf(table)), i)
  {
    var performance := Performance(ms);
    PrecedesTotalPreorder();
    var sorted := SortBy(performance, Precedes);
    var seasons := SeasonsOf(sorted);
    SortedSeasons(sorted);
    var rank := RankColumn(seasons);
    var labels := Unique(seasons);
    table := seq(|sorted|, i requires 0 <= i < |sorted| => TableRow(sorted[i], rank[i], Find(labels, seasons[i])));
    assert StatsOf(table) == sorted;
  }
}
