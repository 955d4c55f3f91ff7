# Arsenal FC analysis: match outcomes, season table and outcome prediction

This project is a Dafny model of the data pipeline in
`football-analytics/arsenal-fc-analysis/src`. It models three stages and
proves properties of each.

- **Match outcome features** (`preprocessing.dfy`). The full-time score
  `"h-a"` is split on the dash and read with Python's `int()` into home and
  away goals. Each row then gets home and away points (3/0, 0/3 or 1/1), a
  winner code `H`, `A` or `D`, and the home side's W/L/D indicators. As in
  the source, the columns are first set to zero and the row loop overwrites
  them. That loop is a method over arrays.
- **Season aggregation** (`aggregation.dfy`). Per-team sums are grouped by
  (season, home team) and by (season, away team). The two groupings are
  joined on the season alone and cut down to the rows where both roles name
  the same team. The partial season `"20/21"` is dropped, and the role sums
  are added into totals and a goal difference. The table is sorted by
  season, then points, then goal difference. The standing loop fills each
  season's standings `1..n`, and every season gets its number in order of
  first appearance.
- **Outcome prediction** (`modeling.dfy`). Feature columns are those named
  `home_*`/`away_*` that hold no post-match keyword and are numeric. They
  are aligned with the `winner` column by row label after rows with a
  missing feature are dropped. The train/test split keeps row order. The
  evaluation loop counts each model's correct predictions and builds its
  3×3 confusion matrix over `H`, `D`, `A`. The results are then sorted by
  accuracy, best first.

Shared pieces:
- `text.dfy` models the string operations the pipeline relies on: `str.split`,
  `int()`, lower-casing, substring tests and Python's code-point string order.
- `collections.dfy` holds first-occurrence search, `unique()` and a sort by a
  total preorder.
- `wrappers.dfy` holds `Option` and `Result`.

Where the code and its documentation disagree, the model follows the code:

- **Score conversion.** A score is not required to have the form
  "int-int". Only the first two dash-separated pieces are read, each the way
  `int()` reads it: surrounding white space, a sign and digit-separating
  underscores are accepted, and a third piece is ignored
  (`Preprocessing.ExtraPieceIgnored`). A piece that does not convert raises.
  The error reported is the first row whose home piece fails, because the
  whole home column is converted before the away column.
- **Ties in the table.** Exact ties on (season, points, goal difference)
  keep their earlier relative order. The sort is stable, and rows reach it
  in (season, team) order, because `groupby` sorts its keys and `merge`
  keeps the left table's order. The model therefore orders tied rows by team
  name (`Aggregation.Precedes`).
- **Degenerate splits.** No typed training error is raised for a degenerate
  split. The split fails as the library does, with an empty training part
  as one of its refusals. Training itself is not modelled.

## Model

| member | source | states |
|---|---|---|
| Text.Split | football-analytics/arsenal-fc-analysis/src/preprocessing.py:72-73 | `split("-")` gives at least one piece and no piece contains the separator |
| Text.JoinSplit | football-analytics/arsenal-fc-analysis/src/preprocessing.py:72-73 | joining the pieces of a split with the separator gives back the string |
| Text.SplitJoin | football-analytics/arsenal-fc-analysis/src/preprocessing.py:72-73 | splitting a join of separator-free pieces gives back the pieces |
| Text.ParseIntOfNatToString | football-analytics/arsenal-fc-analysis/src/preprocessing.py:72-73 | `int(str(n)) == n` for every non-negative n |
| Text.DecimalParses | football-analytics/arsenal-fc-analysis/src/preprocessing.py:72-73 | a decimal literal converts to its value |
| Text.ParseInt | football-analytics/arsenal-fc-analysis/src/preprocessing.py:72-73 | `int()` on a piece: empty or all-white-space text does not convert; a piece that converts holds only digits, white space, underscores and signs; without a minus sign the value is non-negative |
| Text.LowerIdempotent | football-analytics/arsenal-fc-analysis/src/modeling.py:55 | `lower()` leaves no ASCII capital, lower-casing twice is lower-casing once, and a name without capitals is unchanged |
| Text.StartsWithIsPrefix | football-analytics/arsenal-fc-analysis/src/modeling.py:54 | `startswith(p)` holds exactly when the name is p followed by the rest of the name |
| Text.ContainsIsInfix | football-analytics/arsenal-fc-analysis/src/modeling.py:55 | `bad in name` holds exactly when the name is some text, then `bad`, then some text |
| Text.StrLeTotal | football-analytics/arsenal-fc-analysis/src/aggregation.py:163-166 | any two season labels are comparable in string order |
| Text.StrLeAntisymmetric | football-analytics/arsenal-fc-analysis/src/aggregation.py:163-166 | labels ordered both ways are equal |
| Text.StrLeTransitive | football-analytics/arsenal-fc-analysis/src/aggregation.py:163-166 | string order is transitive |
| Preprocessing.ScorePiece | football-analytics/arsenal-fc-analysis/src/preprocessing.py:72-73 | piece k converts exactly when the k-th dash-separated piece exists and `int()` accepts it, and its value is what `int()` gives for that piece |
| Preprocessing.ScoreRoundTrip | football-analytics/arsenal-fc-analysis/src/preprocessing.py:72-73 | reading the score "h-a" gives h as home goals and a as away goals |
| Preprocessing.NoDashFails | football-analytics/arsenal-fc-analysis/src/preprocessing.py:73 | a score without a dash has no away piece and does not convert |
| Preprocessing.ExtraPieceIgnored | football-analytics/arsenal-fc-analysis/src/preprocessing.py:72-73 | "2-1-0" converts to goals 2 and 1: pieces after the second are ignored |
| Preprocessing.MatchOutcome | football-analytics/arsenal-fc-analysis/src/preprocessing.py:76-100 | winner is H, A or D exactly when home goals are greater, smaller or equal; exactly one of W, L, D is 1 and it matches the winner; points are 3/0, 0/3 or 1/1 |
| Preprocessing.HomeWinExample | football-analytics/arsenal-fc-analysis/src/preprocessing.py:72-100 | "3-1" gives goals (3, 1), points (3, 0), winner H and W = 1 |
| Preprocessing.GoalsColumn | football-analytics/arsenal-fc-analysis/src/preprocessing.py:72-73 | a goals column converts exactly when every row's piece converts; each value is its own row's piece; otherwise the first failing row is reported |
| Preprocessing.DeriveOutcomes | football-analytics/arsenal-fc-analysis/src/preprocessing.py:76-100 | after the initialisation and the row loop, every row's six outcome cells equal the outcome of that row's own goals |
| Preprocessing.AddMatchOutcomeFeatures | football-analytics/arsenal-fc-analysis/src/preprocessing.py:64-102 | succeeds exactly when every score converts; the failure names the first conversion that raises (home column first); on success every row keeps its columns and position and gains its goals and derived outcome |
| Collections.Find | football-analytics/arsenal-fc-analysis/src/aggregation.py:183 | `list.index`: an index holding the value with no earlier occurrence |
| Collections.Unique | football-analytics/arsenal-fc-analysis/src/aggregation.py:182 | `unique()` holds exactly the values of the column, each once |
| Collections.UniqueFirstOccurrenceOrder | football-analytics/arsenal-fc-analysis/src/aggregation.py:182 | `unique()` lists values in order of their first occurrence |
| Collections.SortBy | football-analytics/arsenal-fc-analysis/src/aggregation.py:163-166 | the sorted table is ordered by the comparator and is a permutation of its input |
| Aggregation.HomeGroups | football-analytics/arsenal-fc-analysis/src/aggregation.py:55 | one row per (season, home team) that occurs, keys distinct, each holding the sums over that team's home matches that season |
| Aggregation.AwayGroups | football-analytics/arsenal-fc-analysis/src/aggregation.py:56 | one row per (season, away team) that occurs, keys distinct, each holding the sums over that team's away matches that season |
| Aggregation.PairWithSeason | football-analytics/arsenal-fc-analysis/src/aggregation.py:57 | a home group is paired with exactly the away groups of its season, with no repeated (season, home, away) |
| Aggregation.JoinOnSeason | football-analytics/arsenal-fc-analysis/src/aggregation.py:57 | the merge on season holds exactly the pairs of a home group and an away group of the same season, with no repeated (season, home team, away team) |
| Aggregation.SeasonTotal | football-analytics/arsenal-fc-analysis/src/aggregation.py:54-58 | `_season_total`: a merged row exists exactly for a home group and an away group of the same season, and holds that home group's home sums and that away group's away sums; no (season, home team, away team) repeats |
| Aggregation.KeepSelf | football-analytics/arsenal-fc-analysis/src/aggregation.py:129 | keeps exactly the rows whose home team equals their away team |
| Aggregation.DropSeason | football-analytics/arsenal-fc-analysis/src/aggregation.py:132 | keeps exactly the rows of other seasons |
| Aggregation.FinalMetrics | football-analytics/arsenal-fc-analysis/src/aggregation.py:135-144 | each total column is the home-role value plus the away-role value, and the goal difference is total goals scored minus total goals conceded |
| Aggregation.Performance | football-analytics/arsenal-fc-analysis/src/aggregation.py:112-144 | a row is in the table exactly when its team played at home and away that season, the season is not 20/21, and the row holds that team's own home and away sums and their totals; at most one row per (season, team) |
| Aggregation.KeptRows | football-analytics/arsenal-fc-analysis/src/aggregation.py:112-144 | the totals made from the merge cut to home team = away team and to other seasons than 20/21 are exactly the surviving teams' own rows, one per (season, team) |
| Aggregation.RoleSumsAddUp | football-analytics/arsenal-fc-analysis/src/aggregation.py:135-144 | home-role sum plus away-role sum is the team's total over all its matches of the season |
| Aggregation.PerformanceTotals | football-analytics/arsenal-fc-analysis/src/aggregation.py:135-144 | in every table row (a surviving team's own row), each total column is the team's statistic over every match it played that season; the goal difference is goals scored minus goals conceded |
| Aggregation.PointsBound | football-analytics/arsenal-fc-analysis/src/aggregation.py:135 | a team's season points lie between 0 and 3 × matches played |
| Aggregation.TeamPoints | football-analytics/arsenal-fc-analysis/src/aggregation.py:135 | a team with a home match in a season played at least once and has between 0 and 3 × matches played points |
| Aggregation.PerformancePoints | football-analytics/arsenal-fc-analysis/src/aggregation.py:135 | in every table row (a surviving team's own row), the team played at least once and has between 0 and 3 × matches played points |
| Aggregation.MeanOf | football-analytics/arsenal-fc-analysis/src/aggregation.py:61-65 | `agg(mean)`: each mean times the group size is the group's sum |
| Aggregation.AverageColumns | football-analytics/arsenal-fc-analysis/src/aggregation.py:146-157 | `_season_avg` then halving: both role counts are positive and each average column is the mean of the home-role mean and the away-role mean (2 · avg · home count · away count = home sum · away count + away sum · home count) |
| Aggregation.MidpointOfMeanLines | football-analytics/arsenal-fc-analysis/src/aggregation.py:146-157 | half the sum of a home mean row and an away mean row is, in every column, the mean of means of the underlying sums |
| Aggregation.MidpointOfMeans | football-analytics/arsenal-fc-analysis/src/aggregation.py:146 | for one column, `(home mean + away mean) / 2` is the mean of means of the two sums |
| Aggregation.CountPositive | football-analytics/arsenal-fc-analysis/src/aggregation.py:146-160 | a team kept in the table has at least one home and one away match, so both means are defined |
| Aggregation.RolePointsBound | football-analytics/arsenal-fc-analysis/src/aggregation.py:91 | home points are at most 3 per home match, away points at most 3 per away match |
| Aggregation.AveragePointsBound | football-analytics/arsenal-fc-analysis/src/aggregation.py:146 | the average points column lies between 0 and 3 |
| Aggregation.PrecedesTotalPreorder | football-analytics/arsenal-fc-analysis/src/aggregation.py:163-166 | the table order (season up, points down, goal difference down, then team) is total and transitive |
| Aggregation.SortedSeasonLeader | football-analytics/arsenal-fc-analysis/src/aggregation.py:163-166 | in the sorted table, a row with more points than another of its season comes before it |
| Aggregation.SortedSeasons | football-analytics/arsenal-fc-analysis/src/aggregation.py:163-166 | the sorted table is sorted by season |
| Aggregation.SortedIsGrouped | football-analytics/arsenal-fc-analysis/src/aggregation.py:163-168 | in a season-sorted column each season's rows are contiguous |
| Aggregation.RunLength | football-analytics/arsenal-fc-analysis/src/aggregation.py:168 | each season group counts at least one row, and the row after it holds another season |
| Aggregation.RunIsUniform | football-analytics/arsenal-fc-analysis/src/aggregation.py:168 | every row counted in a season group holds that season |
| Aggregation.CountsFrom | football-analytics/arsenal-fc-analysis/src/aggregation.py:168 | the counts of the season groups from a row on are each at least 1 and add up to the number of rows from there on |
| Aggregation.CountRun | football-analytics/arsenal-fc-analysis/src/aggregation.py:168 | the k-th season-group count from a row on is the length of the run that starts right after the rows of the first k groups, and that start lies inside the column |
| Aggregation.CountsFromRuns | football-analytics/arsenal-fc-analysis/src/aggregation.py:168 | every season-group count from a row on is the length of the run starting where the earlier groups end |
| Aggregation.SeasonCounts | football-analytics/arsenal-fc-analysis/src/aggregation.py:168 | `groupby(season).count()`: every season group counts at least one row, the counts add up to the number of rows, and count k is the length of the run of equal seasons that starts right after the rows of the first k groups |
| Aggregation.CountsStep | football-analytics/arsenal-fc-analysis/src/aggregation.py:168-171 | the next team count the loop reads is the length of the next season's run, and the remaining counts are those of the rows after it |
| Aggregation.RankColumn | football-analytics/arsenal-fc-analysis/src/aggregation.py:168-173 | on a season-sorted column, the rank column has one entry per row, each one more than the rows of the same season above it |
| Aggregation.Extend | football-analytics/arsenal-fc-analysis/src/aggregation.py:171 | `extend(range(1, n + 1))` keeps the column and appends 1..n |
| Aggregation.StandingBounds | football-analytics/arsenal-fc-analysis/src/aggregation.py:168-173 | standings run from 1 to the number of rows of the season |
| Aggregation.StandingIncreases | football-analytics/arsenal-fc-analysis/src/aggregation.py:168-173 | two rows of one season never share a standing; the lower row has the larger one |
| Aggregation.StandingFollowsPoints | football-analytics/arsenal-fc-analysis/src/aggregation.py:163-173 | a team with more points than another of its season stands higher, and standing 1 has the most points of its season |
| Aggregation.SeasonNumber | football-analytics/arsenal-fc-analysis/src/aggregation.py:182-183 | each season number is below the number of distinct seasons |
| Aggregation.SeasonNumberIdentifies | football-analytics/arsenal-fc-analysis/src/aggregation.py:182-183 | two rows share a season number exactly when they share a season |
| Aggregation.SeasonNumberOnto | football-analytics/arsenal-fc-analysis/src/aggregation.py:182-183 | every number below the count of distinct seasons is used |
| Aggregation.SeasonNumberMonotone | football-analytics/arsenal-fc-analysis/src/aggregation.py:163-183 | down the season-sorted table the season number never decreases |
| Aggregation.AggregateSeasonPerformance | football-analytics/arsenal-fc-analysis/src/aggregation.py:71-187 | the table is a permutation of the surviving team-season rows, in table order, each with its standing within its season and its season number |
| Modeling.FeaturePositions | football-analytics/arsenal-fc-analysis/src/modeling.py:52-58 | the chosen positions are exactly those of numeric columns with a feature name, in column order |
| Modeling.FeatureSelection | football-analytics/arsenal-fc-analysis/src/modeling.py:42-58 | a column is chosen exactly when it starts with home_ or away_, its lower-cased name holds no forbidden keyword and it is numeric; no goal column is chosen |
| Modeling.GoalColumnsExcluded | football-analytics/arsenal-fc-analysis/src/modeling.py:42-56 | home_goals and away_goals are never features, home_passes is one |
| Modeling.HomePassesIsFeature | football-analytics/arsenal-fc-analysis/src/modeling.py:42-56 | home_passes passes the prefix test and holds no forbidden keyword |
| Modeling.CompleteRows | football-analytics/arsenal-fc-analysis/src/modeling.py:61 | `dropna()` keeps exactly the rows with all features present, in order |
| Modeling.ValidLabels | football-analytics/arsenal-fc-analysis/src/modeling.py:61 | `X.dropna().index` has one label per complete row, and a label occurs in it exactly when some complete row carries it |
| Modeling.PositionsOf | football-analytics/arsenal-fc-analysis/src/modeling.py:62-63 | the positions `.loc` finds for one label are exactly the rows carrying that label |
| Modeling.LocPositions | football-analytics/arsenal-fc-analysis/src/modeling.py:62-63 | `.loc[labels]` selects exactly the rows whose label is among the requested ones |
| Modeling.PrepareFeatures | football-analytics/arsenal-fc-analysis/src/modeling.py:34-65 | fails exactly when there is no winner column; otherwise X and y share their row labels, X holds the chosen columns, and each kept row carries its own label, winner and feature cells |
| Modeling.PrepareKeepsCompleteRows | football-analytics/arsenal-fc-analysis/src/modeling.py:58-63 | with unique row labels the kept rows are exactly the complete rows in order, so X has no missing cell |
| Modeling.LocOfDistinct | football-analytics/arsenal-fc-analysis/src/modeling.py:62-63 | `.loc` on the labels of distinct rows under a unique index gives those rows back |
| Modeling.RepeatedLabelKeepsMissing | football-analytics/arsenal-fc-analysis/src/modeling.py:61-63 | with a repeated label, `.loc` also brings back a row whose features are not all present |
| Modeling.Ceil | football-analytics/arsenal-fc-analysis/src/modeling.py:71-77 | the least integer at or above its argument |
| Modeling.SplitData | football-analytics/arsenal-fc-analysis/src/modeling.py:71-77 | fails exactly on unequal lengths, a test size outside (0, 1) or an empty training part, an empty training part being reported only when the other two checks pass; otherwise train then test is the input, in order, with ceil(test_size × n) test rows |
| Modeling.QuarterTestCount | football-analytics/arsenal-fc-analysis/src/modeling.py:71 | with the default size the test part has (n + 3) / 4 rows |
| Modeling.DefaultSplitSucceeds | football-analytics/arsenal-fc-analysis/src/modeling.py:71-77 | the default split succeeds exactly on equal lengths and at least two rows |
| Modeling.Correct | football-analytics/arsenal-fc-analysis/src/modeling.py:125-128 | correct predictions never exceed the test size |
| Modeling.ConfusionMatrix | football-analytics/arsenal-fc-analysis/src/modeling.py:130-134 | the matrix is 3 × 3 over H, D, A and no entry exceeds the test size |
| Modeling.ConfusionRowSums | football-analytics/arsenal-fc-analysis/src/modeling.py:130-134 | when every prediction is H, D or A, row i adds up to the number of test rows whose actual class is class i |
| Modeling.ConfusionColumnSums | football-analytics/arsenal-fc-analysis/src/modeling.py:130-134 | when every actual class is H, D or A, column j adds up to the number of test rows predicted as class j |
| Modeling.RowSum | football-analytics/arsenal-fc-analysis/src/modeling.py:130-134 | when every prediction is H, D or A, the rows of one actual class are split among the three predicted classes |
| Modeling.ColumnSum | football-analytics/arsenal-fc-analysis/src/modeling.py:130-134 | when every actual class is H, D or A, the rows predicted as one class are split among the three actual classes |
| Modeling.CorrectIsTrace | football-analytics/arsenal-fc-analysis/src/modeling.py:125-134 | when every actual class is H, D or A, the correct count is the sum of the agreeing pair counts |
| Modeling.ConfusionTrace | football-analytics/arsenal-fc-analysis/src/modeling.py:125-134 | when every actual class is H, D or A, the correct count is the confusion matrix's trace |
| Modeling.ConfusionTotal | football-analytics/arsenal-fc-analysis/src/modeling.py:130-134 | when all classes are H, D or A, the matrix entries add up to the test size |
| Modeling.ConfusionAbsentClass | football-analytics/arsenal-fc-analysis/src/modeling.py:130-134 | a class never actual has an all-zero row; one never predicted has an all-zero column |
| Modeling.LoopErrorNone | football-analytics/arsenal-fc-analysis/src/modeling.py:122-134 | the loop gets through every model exactly when all predictions have the test size and, with a model and a test row, some actual class is H, D or A |
| Modeling.LoopErrorAppend | football-analytics/arsenal-fc-analysis/src/modeling.py:122-134 | the first error over two runs of models is the first run's, or else the second's |
| Modeling.MoreAccurateTotalPreorder | football-analytics/arsenal-fc-analysis/src/modeling.py:136-138 | the results order is total and transitive |
| Modeling.AccuracyOrder | football-analytics/arsenal-fc-analysis/src/modeling.py:125-138 | on a common test size, ordering by correct count is ordering by accuracy |
| Modeling.ScoreIsTrace | football-analytics/arsenal-fc-analysis/src/modeling.py:122-134 | each model's score equals the trace of its own confusion matrix when every actual class is H, D or A |
| Modeling.ScoreModels | football-analytics/arsenal-fc-analysis/src/modeling.py:119-134 | succeeds exactly when no model raises and otherwise reports the first error; the results are the models' scores in order, and each model's confusion matrix is stored under its name |
| Modeling.EvaluateModels | football-analytics/arsenal-fc-analysis/src/modeling.py:112-140 | succeeds exactly when there is a model and none raises; the results are a permutation of the scores sorted best first; the matrices are as stored by the loop |

## Left out

- `app.py`, `visualization.py` and the data loading and cleaning stages are not part of this model. The column names from `schema.py` appear as the fields of the match record and as the literal constants they name.
- Training is not modelled: `StandardScaler`, the five classifiers and `predict`. A model is given as its name and its predictions on the test rows. `Modeling.ScoreModels` and `Modeling.EvaluateModels` require distinct model names, which the source's dictionary of models guarantees.
- Floating point is not modelled: means and accuracies are exact rationals. Integer columns are unbounded (no 64-bit overflow). Missing values in the aggregated columns are not modelled.
- Aggregation.AggregateSeasonPerformance: the average columns are not carried in the table rows. `Aggregation.AverageColumns` gives them for each surviving (season, team) as the mean of the home-role mean and the away-role mean. The possession averages are left out: home and away possession are read only to build their own average column (aggregation.py:103-109, 117, 158-160), never by the totals, the filters, the sort or the standings, and the table rows carry no average column, so the match record omits both possession columns.
- Aggregation.HomeGroups and Aggregation.AwayGroups: groups are listed in order of first occurrence, not in sorted key order. Only the final table order is observable, and it is total on table rows, so this does not change the result.
- Modeling.SplitData: when the lengths differ and the test size is also outside (0, 1), the model reports the unequal lengths first. This is the order in scikit-learn releases before 1.3; later releases check the test size first and report that instead. Which error is raised in that case depends on the installed release, and the model fixes the older order.
- The twelve three-key merges on (season, home team, away team), which join thirteen per-statistic tables, are collapsed into one grouping that carries the six statistics together. All of these tables group the same rows under the same keys, so each merge lines up one row of each.
- Preprocessing.AddMatchOutcomeFeatures: rows are addressed by position, not by index label. With a repeated index label, `df.loc[idx, HOME_GOALS]` is a Series, so the comparison at preprocessing.py:86 raises a ValueError (the truth value of a Series is ambiguous); the model has no such failure. `app.py:86-88` calls it on a freshly read table with its default consecutive index, where labels are positions. `df.copy()` is modelled by the value semantics of the result.
- Missing columns and missing scores are not modelled. The record types always carry every column, so the KeyError for an absent column (preprocessing.py:72-73, aggregation.py:77-99) cannot arise, and a score is text, so the failure of `astype(int)` on a missing (NaN) score is not modelled.
- Text.ParseInt: only ASCII digits are accepted. Python's `int()` also accepts other Unicode decimal digits. `Text.Lower` folds ASCII letters only.
- Modeling.PrepareFeatures: requires distinct column names. With duplicate names, pandas selects several columns for one name, and that is not modelled.
- Modeling.Correct: the accuracy of an empty test set is not modelled. The row keeps its correct count 0 and its size 0 instead of a quotient.
- Modeling.EvaluateModels: ties in accuracy may come out in any order, because the accuracy sort is not stable. The contract states an ordered permutation, not a particular order among ties.
- The reset of the row index and the renaming of columns change no values and are not modelled.
