/** Match-outcome prediction: choosing the pre-match feature columns and
    aligning them with the winner column, the order-keeping train/test split,
    and the evaluation loop that scores each model's predictions and builds
    its confusion matrix over the classes H, D and A. The classifiers
    themselves are not modelled: a model is its name and its predictions. */
module Modeling {
  import opened Wrappers
  import opened Collections
  import opened Text

  // -----------------------------------------------------------------------
  // Tables
  // -----------------------------------------------------------------------

  /** One cell: missing (NaN), a number, or a text label. */
  datatype Cell = Missing | Num(value: real) | Label(text: string)

  /** A column header and whether its dtype is numeric. */
  datatype Column = Column(name: string, numeric: bool)

  /** A table: its columns, its row labels (the index) and its rows. */
  datatype Frame = Frame(columns: seq<Column>, index: seq<int>, rows: seq<seq<Cell>>)

  predicate WellFormed(df: Frame) {
    && |df.index| == |df.rows|
    && forall i :: 0 <= i < |df.rows| ==> |df.rows[i]| == |df.columns|
  }

  function Names(columns: seq<Column>): (names: seq<string>)
    ensures |names| == |columns| && forall p :: 0 <= p < |columns| ==> names[p] == columns[p].name
  {
    seq(|columns|, p requires 0 <= p < |columns| => columns[p].name)
  }

  // -----------------------------------------------------------------------
  // Feature selection
  // -----------------------------------------------------------------------

  const WinnerColumn: string := "winner"

  /** Substrings that mark a column as known only after the match. */
  const ForbiddenKeywords: seq<string> := ["goal", "result", "points", "winner", "_acum", "sg_match"]

  /** A column name is a feature name when it starts with "home_" or
      "away_" and its lower-cased form contains no forbidden keyword. */
  predicate IsFeatureName(name: string) {
    && (StartsWith(name, "home_") || StartsWith(name, "away_"))
    && forall b :: 0 <= b < |ForbiddenKeywords| ==> !Contains(Lower(name), ForbiddenKeywords[b])
  }

  predicate IsFeature(c: Column) {
    IsFeatureName(c.name) && c.numeric
  }

  /** Positions of the feature columns among the first `n`, in column
      order: the list comprehension followed by `select_dtypes("number")`. */
  function FeaturePositionsUpTo(columns: seq<Column>, n: nat): (ps: seq<nat>)
    requires n <= |columns|
    ensures forall k :: 0 <= k < |ps| ==> ps[k] < n
    ensures forall k, l :: 0 <= k < l < |ps| ==> ps[k] < ps[l]
    ensures forall p :: 0 <= p < n ==> (p in ps <==> IsFeature(columns[p]))
  {
    if n == 0 then []
    else FeaturePositionsUpTo(columns, n - 1) + (if IsFeature(columns[n - 1]) then [n - 1] else [])
  }

  function FeaturePositions(columns: seq<Column>): (ps: seq<nat>)
    ensures forall k :: 0 <= k < |ps| ==> ps[k] < |columns|
    ensures forall k, l :: 0 <= k < l < |ps| ==> ps[k] < ps[l]
    ensures forall p :: 0 <= p < |columns| ==> (p in ps <==> IsFeature(columns[p]))
  {
    FeaturePositionsUpTo(columns, |columns|)
  }

  /** The chosen columns are exactly the numeric ones with a feature name,
      kept in their original order; no column named like a goal count is
      among them. */
  lemma FeatureSelection(columns: seq<Column>, p: nat)
    requires p < |columns|
    ensures p in FeaturePositions(columns) <==>
      && (StartsWith(columns[p].name, "home_") || StartsWith(columns[p].name, "away_"))
      && (forall b :: 0 <= b < |ForbiddenKeywords| ==> !Contains(Lower(columns[p].name), ForbiddenKeywords[b]))
      && columns[p].numeric
    ensures Contains(Lower(columns[p].name), "goal") ==> p !in FeaturePositions(columns)
  {
    assert ForbiddenKeywords[0] == "goal";
  }

  /** The goal columns of the match table are never features, while the
      home pass count is one. */
  lemma GoalColumnsExcluded()
    ensures !IsFeatureName("home_goals") && !IsFeatureName("away_goals")
    ensures IsFeatureName("home_passes")
  {
    assert ForbiddenKeywords[0] == "goal";
    assert OccursAt(Lower("home_goals"), "goal", 5);
    assert Contains(Lower("home_goals"), ForbiddenKeywords[0]);
    assert OccursAt(Lower("away_goals"), "goal", 5);
    assert Contains(Lower("away_goals"), ForbiddenKeywords[0]);
    HomePassesIsFeature();
  }

  lemma HomePassesIsFeature()
    ensures IsFeatureName("home_passes")
  {
    var lowered := Lower("home_passes");
    assert lowered == "home_passes";
    assert StartsWith("home_passes", "home_");
    forall b | 0 <= b < |ForbiddenKeywords|
      ensures !Contains(lowered, ForbiddenKeywords[b])
    {
      NoOccurrence(lowered, ForbiddenKeywords[b]);
    }
  }

  /** A keyword whose first two characters never appear side by side in `s`
      does not occur in `s`. */
  lemma NoOccurrence(s: string, bad: string)
    requires |bad| >= 2
    requires forall i :: 0 <= i < |s| - 1 ==> s[i] != bad[0] || s[i + 1] != bad[1]
    ensures !Contains(s, bad)
  {
    forall i | 0 <= i <= |s| - |bad|
      ensures !OccursAt(s, bad, i)
    {
      assert s[i..i + |bad|][0] == s[i] && s[i..i + |bad|][1] == s[i + 1];
    }
  }

  // -----------------------------------------------------------------------
  // Aligning features and target
  // -----------------------------------------------------------------------

  /** Every chosen feature of the row is present. */
  predicate Complete(row: seq<Cell>, ps: seq<nat>)
    requires forall k :: 0 <= k < |ps| ==> ps[k] < |row|
  {
    forall k :: 0 <= k < |ps| ==> row[ps[k]] != Missing
  }

  predicate ValidPositions(df: Frame, ps: seq<nat>) {
    WellFormed(df) && forall k :: 0 <= k < |ps| ==> ps[k] < |df.columns|
  }

  /** Positions (among the first `n` rows) of the rows whose features are
      all present, in row order. */
  function CompleteRowsUpTo(df: Frame, ps: seq<nat>, n: nat): (rs: seq<nat>)
    requires ValidPositions(df, ps) && n <= |df.rows|
    ensures forall k :: 0 <= k < |rs| ==> rs[k] < n
    ensures forall k, l :: 0 <= k < l < |rs| ==> rs[k] < rs[l]
    ensures forall i :: 0 <= i < n ==> (i in rs <==> Complete(df.rows[i], ps))
  {
    if n == 0 then []
    else CompleteRowsUpTo(df, ps, n - 1) + (if Complete(df.rows[n - 1], ps) then [n - 1] else [])
  }

  function CompleteRows(df: Frame, ps: seq<nat>): (rs: seq<nat>)
    requires ValidPositions(df, ps)
    ensures forall k :: 0 <= k < |rs| ==> rs[k] < |df.rows|
    ensures forall k, l :: 0 <= k < l < |rs| ==> rs[k] < rs[l]
    ensures forall i :: 0 <= i < |df.rows| ==> (i in rs <==> Complete(df.rows[i], ps))
  {
    CompleteRowsUpTo(df, ps, |df.rows|)
  }

  /** `X.dropna().index`: the labels of the complete rows. */
  function ValidLabels(df: Frame, ps: seq<nat>): (labels: seq<int>)
    requires ValidPositions(df, ps)
    ensures |labels| == |CompleteRows(df, ps)|
    ensures forall l :: l in labels <==>
      exists i :: 0 <= i < |df.rows| && df.index[i] == l && Complete(df.rows[i], ps)
  {
    var rs := CompleteRows(df, ps);
    var labels := seq(|rs|, k requires 0 <= k < |rs| => df.index[rs[k]]);
    LabelsOfRows(df, ps, rs, labels);
    labels
  }

  /** The labels read off the complete rows are exactly the labels of
      complete rows. */
  lemma LabelsOfRows(df: Frame, ps: seq<nat>, rs: seq<nat>, labels: seq<int>)
    requires ValidPositions(df, ps) && rs == CompleteRows(df, ps)
    requires |labels| == |rs| && forall k :: 0 <= k < |rs| ==> labels[k] == df.index[rs[k]]
    ensures forall l :: l in labels <==>
      exists i :: 0 <= i < |df.rows| && df.index[i] == l && Complete(df.rows[i], ps)
  {
    forall l
      ensures l in labels <==> exists i :: 0 <= i < |df.rows| && df.index[i] == l && Complete(df.rows[i], ps)
    {
      if l in labels {
        var k :| 0 <= k < |labels| && labels[k] == l;
        assert rs[k] in rs;
      }
      if exists i :: 0 <= i < |df.rows| && df.index[i] == l && Complete(df.rows[i], ps) {
        var i :| 0 <= i < |df.rows| && df.index[i] == l && Complete(df.rows[i], ps);
        var k :| 0 <= k < |rs| && rs[k] == i;
        assert labels[k] == l;
      }
    }
  }

  /** Positions (among the first `n`) that carry label `l`, in order. */
  function PositionsOf(index: seq<int>, l: int, n: nat): (ps: seq<nat>)
    requires n <= |index|
    ensures forall k :: 0 <= k < |ps| ==> ps[k] < n && index[ps[k]] == l
    ensures forall p :: 0 <= p < n ==> (p in ps <==> index[p] == l)
  {
    if n == 0 then []
    else PositionsOf(index, l, n - 1) + (if index[n - 1] == l then [n - 1] else [])
  }

  /** `.loc[labels]`: for each requested label in turn, every row carrying
      it (a repeated label in the index brings all its rows). */
  function LocPositions(index: seq<int>, labels: seq<int>): (ps: seq<nat>)
    ensures forall k :: 0 <= k < |ps| ==> ps[k] < |index|
    ensures forall p :: 0 <= p < |index| ==> (p in ps <==> index[p] in labels)
  {
    if labels == [] then [] else PositionsOf(index, labels[0], |index|) + LocPositions(index, labels[1..])
  }

  /** The entries of `row` at positions `ps`: a row's cells, or the
      column headers, selected by position. */
  function Project<T>(row: seq<T>, ps: seq<nat>): (cells: seq<T>)
    requires forall k :: 0 <= k < |ps| ==> ps[k] < |row|
    ensures |cells| == |ps| && forall k :: 0 <= k < |ps| ==> cells[k] == row[ps[k]]
  {
    seq(|ps|, k requires 0 <= k < |ps| => row[ps[k]])
  }

  /** Features and target, aligned on the same row labels. */
  datatype Prepared = Prepared(x: Frame, yIndex: seq<int>, y: seq<Cell>)

  /** `df[WINNER_COL]` raises a KeyError when there is no such column. */
  datatype PrepareError = NoWinnerColumn

  /** Rows of the input that `prepare_features` keeps, in output order. */
  function KeptRows(df: Frame): (rs: seq<nat>)
    requires WellFormed(df)
    ensures forall k :: 0 <= k < |rs| ==> rs[k] < |df.rows|
  {
    var ps := FeaturePositions(df.columns);
    LocPositions(df.index, ValidLabels(df, ps))
  }

  /** prepare_features: the target is the winner column; the features are
      the chosen columns; both are cut down, by label, to the rows whose
      features are all present. */
  function PrepareFeatures(df: Frame): (r: Result<Prepared, PrepareError>)
    requires WellFormed(df)
    requires Distinct(Names(df.columns))
    ensures r.Failure? <==> WinnerColumn !in Names(df.columns)
    ensures r.Success? ==>
      && WellFormed(r.value.x)
      && |r.value.y| == |r.value.x.rows| == |r.value.yIndex|
      && r.value.x.index == r.value.yIndex
      && r.value.x.columns == Project(df.columns, FeaturePositions(df.columns))
    ensures r.Success? ==> |r.value.y| == |KeptRows(df)|
    ensures r.Success? ==> forall k :: 0 <= k < |r.value.y| ==>
      var i := KeptRows(df)[k];
      && r.value.yIndex[k] == df.index[i]
      && r.value.y[k] == df.rows[i][Find(Names(df.columns), WinnerColumn)]
      && r.value.x.rows[k] == Project(df.rows[i], FeaturePositions(df.columns))
  {
    var names := Names(df.columns);
    if WinnerColumn !in names then Failure(NoWinnerColumn)
    else
      var w := Find(names, WinnerColumn);
      var ps := FeaturePositions(df.columns);
      var rows := KeptRows(df);
      var labels := seq(|rows|, k requires 0 <= k < |rows| => df.index[rows[k]]);
      var x := Frame(Project(df.columns, ps), labels,
        seq(|rows|, k requires 0 <= k < |rows| => Project(df.rows[rows[k]], ps)));
      Success(Prepared(x, labels, seq(|rows|, k requires 0 <= k < |rows| => df.rows[rows[k]][w])))
  }

  /** With unique row labels, the kept rows are exactly the rows whose
      features are all present, in their original order, so no feature
      cell of X is missing. */
  lemma PrepareKeepsCompleteRows(df: Frame)
    requires WellFormed(df)
    requires Distinct(df.index)
    ensures KeptRows(df) == CompleteRows(df, FeaturePositions(df.columns))
    ensures Distinct(Names(df.columns)) && PrepareFeatures(df).Success? ==>
      var x := PrepareFeatures(df).value.x;
      forall k, c :: 0 <= k < |x.rows| && 0 <= c < |x.columns| ==> x.rows[k][c] != Missing
  {
    var ps := FeaturePositions(df.columns);
    var rs := CompleteRows(df, ps);
    LocOfDistinct(df.index, rs);
    assert ValidLabels(df, ps) == seq(|rs|, k requires 0 <= k < |rs| => df.index[rs[k]]);
  }

  /** `.loc` on the labels of distinct positions, under a unique index,
      gives those positions back. */
  lemma {:induction false} LocOfDistinct(index: seq<int>, rs: seq<nat>)
    requires Distinct(index)
    requires forall k :: 0 <= k < |rs| ==> rs[k] < |index|
    ensures LocPositions(index, seq(|rs|, k requires 0 <= k < |rs| => index[rs[k]])) == rs
    decreases |rs|
  {
    var labels := seq(|rs|, k requires 0 <= k < |rs| => index[rs[k]]);
    if rs != [] {
      assert rs == [rs[0]] + rs[1..];
      var tail := seq(|rs| - 1, k requires 0 <= k < |rs| - 1 => index[rs[1..][k]]);
      assert labels[0] == index[rs[0]] && labels[1..] == tail;
      LocOfDistinct(index, rs[1..]);
      PositionsOfUnique(index, rs[0], |index|);
    }
  }

  lemma {:induction false} PositionsOfUnique(index: seq<int>, p: nat, n: nat)
    requires Distinct(index)
    requires p < |index| && n <= |index|
    ensures PositionsOf(index, index[p], n) == if p < n then [p] else []
  {
    if n > 0 {
      PositionsOfUnique(index, p, n - 1);
    }
  }

  /** With a repeated row label, `.loc` brings back a row whose features
      are not all present: of two rows sharing a label, the first complete
      and the second not, both are kept. */
  lemma RepeatedLabelKeepsMissing(df: Frame)
    requires WellFormed(df) && |df.rows| == 2 && df.index[0] == df.index[1]
    requires Complete(df.rows[0], FeaturePositions(df.columns))
    requires !Complete(df.rows[1], FeaturePositions(df.columns))
    ensures KeptRows(df) == [0, 1]
  {
    var ps := FeaturePositions(df.columns);
    FirstRowComplete(df, ps);
    assert ValidLabels(df, ps) == [df.index[0]];
    SharedLabel(df.index);
    assert LocPositions(df.index, [df.index[0]]) == PositionsOf(df.index, df.index[0], 2) + LocPositions(df.index, []);
  }

  lemma FirstRowComplete(df: Frame, ps: seq<nat>)
    requires ValidPositions(df, ps) && |df.rows| == 2
    requires Complete(df.rows[0], ps) && !Complete(df.rows[1], ps)
    ensures CompleteRows(df, ps) == [0]
  {
    assert CompleteRowsUpTo(df, ps, 1) == [0];
  }

  lemma SharedLabel(index: seq<int>)
    requires |index| == 2 && index[0] == index[1]
    ensures PositionsOf(index, index[0], 2) == [0, 1]
  {
    assert PositionsOf(index, index[0], 1) == [0];
  }

  // -----------------------------------------------------------------------
  // split_data: train_test_split(test_size, shuffle=False)
  // -----------------------------------------------------------------------

  const DefaultTestSize: real := 0.25

  /** The least integer at or above `r`. */
  function Ceil(r: real): (c: int)
    ensures r <= c as real && (c - 1) as real < r
  {
    -((-r).Floor)
  }

  lemma CeilUnique(r: real, c: int)
    requires r <= c as real && (c - 1) as real < r
    ensures Ceil(r) == c
  {
  }

  /** Rows the library puts in the test part: the fraction, rounded up. */
  function TestCount(n: nat, testSize: real): int {
    Ceil(testSize * n as real)
  }

  /** The four parts train_test_split returns. */
  datatype TrainTest<X, Y> = TrainTest(xTrain: seq<X>, xTest: seq<X>, yTrain: seq<Y>, yTest: seq<Y>)

  /** The library's refusals, in the order it checks them. */
  datatype SplitError = InconsistentLengths | InvalidTestSize | EmptyTrainSet

  /** split_data: the first rows train, the last `TestCount` rows test, in
      their original order. */
  function SplitData<X, Y>(xs: seq<X>, ys: seq<Y>, testSize: real): (r: Result<TrainTest<X, Y>, SplitError>)
    ensures r.Failure? <==> |xs| != |ys| || testSize <= 0.0 || testSize >= 1.0 || TestCount(|xs|, testSize) >= |xs|
    ensures r.Failure? && |xs| != |ys| ==> r.error == InconsistentLengths
    ensures r.Failure? && |xs| == |ys| && (testSize <= 0.0 || testSize >= 1.0) ==> r.error == InvalidTestSize
    ensures r.Failure? && |xs| == |ys| && 0.0 < testSize < 1.0 ==> r.error == EmptyTrainSet
    ensures r.Success? ==>
      && r.value.xTrain + r.value.xTest == xs
      && r.value.yTrain + r.value.yTest == ys
      && |r.value.xTest| == |r.value.yTest| == TestCount(|xs|, testSize)
      && |r.value.xTrain| == |r.value.yTrain| >= 1
  {
    if |xs| != |ys| then Failure(InconsistentLengths)
    else if testSize <= 0.0 || testSize >= 1.0 then Failure(InvalidTestSize)
    else
      var n := |xs|;
      var nTest := TestCount(n, testSize);
      assert nTest >= 0 by { assert testSize * n as real >= 0.0; }
      var nTrain := n - nTest;
      if nTrain <= 0 then Failure(EmptyTrainSet)
      else
        assert xs[..nTrain] + xs[nTrain..] == xs;
        assert ys[..nTrain] + ys[nTrain..] == ys;
        Success(TrainTest(xs[..nTrain], xs[nTrain..], ys[..nTrain], ys[nTrain..]))
  }

  /** With the default test size the test part is the last quarter of the
      rows, rounded up. */
  lemma QuarterTestCount(n: nat)
    ensures TestCount(n, DefaultTestSize) == (n + 3) / 4
  {
    var q := (n + 3) / 4;
    assert 4 * q <= n + 3 < 4 * q + 4;
    assert (4 * q) as real == 4.0 * q as real;
    CeilUnique(DefaultTestSize * n as real, q);
  }

  /** With the default test size the split succeeds exactly when the inputs
      have equal length and at least two rows. */
  lemma DefaultSplitSucceeds<X, Y>(xs: seq<X>, ys: seq<Y>)
    ensures SplitData(xs, ys, DefaultTestSize).Success? <==> |xs| == |ys| && |xs| >= 2
  {
    QuarterTestCount(|xs|);
  }

  // -----------------------------------------------------------------------
  // Scores and confusion matrices
  // -----------------------------------------------------------------------

  /** The classes, in the row and column order of every confusion matrix. */
  const Classes: seq<string> := ["H", "D", "A"]

  /** Test rows whose actual class is `actual` and predicted one `predicted`. */
  function PairCount(yTrue: seq<string>, yPred: seq<string>, actual: string, predicted: string): (c: nat)
    requires |yTrue| == |yPred|
    ensures c <= |yTrue|
  {
    if yTrue == [] then 0
    else
      var here := if yTrue[0] == actual && yPred[0] == predicted then 1 else 0;
      here + PairCount(yTrue[1..], yPred[1..], actual, predicted)
  }

  /** Correct predictions: the numerator of accuracy_score. */
  function Correct(yTrue: seq<string>, yPred: seq<string>): (c: nat)
    requires |yTrue| == |yPred|
    ensures c <= |yTrue|
  {
    if yTrue == [] then 0
    else (if yTrue[0] == yPred[0] then 1 else 0) + Correct(yTrue[1..], yPred[1..])
  }

  /** confusion_matrix(y_true, y_pred, labels=["H", "D", "A"]). */
  function ConfusionMatrix(yTrue: seq<string>, yPred: seq<string>): (m: seq<seq<nat>>)
    requires |yTrue| == |yPred|
    ensures |m| == 3 && forall i :: 0 <= i < 3 ==> |m[i]| == 3
    ensures forall i, j :: 0 <= i < 3 && 0 <= j < 3 ==> m[i][j] <= |yTrue|
  {
    seq(3, i requires 0 <= i < 3 => seq(3, j requires 0 <= j < 3 => PairCount(yTrue, yPred, Classes[i], Classes[j])))
  }

  /** When every prediction is H, D or A, row `i` of the matrix adds up to
      the number of test rows whose actual class is class `i`. */
  lemma ConfusionRowSums(yTrue: seq<string>, yPred: seq<string>)
    requires |yTrue| == |yPred| && AllClasses(yPred)
    ensures var m := ConfusionMatrix(yTrue, yPred);
      forall i :: 0 <= i < 3 ==> m[i][0] + m[i][1] + m[i][2] == Count(yTrue, Classes[i])
  {
    var m := ConfusionMatrix(yTrue, yPred);
    forall i | 0 <= i < 3
      ensures m[i][0] + m[i][1] + m[i][2] == Count(yTrue, Classes[i])
    {
      assert m[i][0] + m[i][1] + m[i][2] == PairCount(yTrue, yPred, Classes[i], Classes[0]) +
        PairCount(yTrue, yPred, Classes[i], Classes[1]) + PairCount(yTrue, yPred, Classes[i], Classes[2]);
      RowSum(yTrue, yPred, Classes[i]);
    }
  }

  /** When every actual class is H, D or A, column `j` of the matrix adds up
      to the number of test rows predicted as class `j`. */
  lemma ConfusionColumnSums(yTrue: seq<string>, yPred: seq<string>)
    requires |yTrue| == |yPred| && AllClasses(yTrue)
    ensures var m := ConfusionMatrix(yTrue, yPred);
      forall j :: 0 <= j < 3 ==> m[0][j] + m[1][j] + m[2][j] == Count(yPred, Classes[j])
  {
    var m := ConfusionMatrix(yTrue, yPred);
    forall j | 0 <= j < 3
      ensures m[0][j] + m[1][j] + m[2][j] == Count(yPred, Classes[j])
    {
      assert m[0][j] + m[1][j] + m[2][j] == PairCount(yTrue, yPred, Classes[0], Classes[j]) +
        PairCount(yTrue, yPred, Classes[1], Classes[j]) + PairCount(yTrue, yPred, Classes[2], Classes[j]);
      ColumnSum(yTrue, yPred, Classes[j]);
    }
  }

  /** When every prediction is H, D or A, the rows of actual class `actual`
      are split among the three predicted classes. */
  lemma {:induction false} RowSum(yTrue: seq<string>, yPred: seq<string>, actual: string)
    requires |yTrue| == |yPred|
    ensures AllClasses(yPred) ==>
      PairCount(yTrue, yPred, actual, Classes[0]) + PairCount(yTrue, yPred, actual, Classes[1]) +
      PairCount(yTrue, yPred, actual, Classes[2]) == Count(yTrue, actual)
  {
    if yTrue != [] && AllClasses(yPred) {
      assert yPred[0] in Classes;
      assert AllClasses(yPred[1..]) by {
        assert forall k :: 0 <= k < |yPred| - 1 ==> yPred[1..][k] == yPred[k + 1];
      }
      RowSum(yTrue[1..], yPred[1..], actual);
    }
  }

  /** When every actual class is H, D or A, the rows predicted as
      `predicted` are split among the three actual classes. */
  lemma {:induction false} ColumnSum(yTrue: seq<string>, yPred: seq<string>, predicted: string)
    requires |yTrue| == |yPred|
    ensures AllClasses(yTrue) ==>
      PairCount(yTrue, yPred, Classes[0], predicted) + PairCount(yTrue, yPred, Classes[1], predicted) +
      PairCount(yTrue, yPred, Classes[2], predicted) == Count(yPred, predicted)
  {
    if yTrue != [] && AllClasses(yTrue) {
      assert yTrue[0] in Classes;
      assert AllClasses(yTrue[1..]) by {
        assert forall k :: 0 <= k < |yTrue| - 1 ==> yTrue[1..][k] == yTrue[k + 1];
      }
      ColumnSum(yTrue[1..], yPred[1..], predicted);
    }
  }

  function Trace(m: seq<seq<nat>>): nat
    requires |m| == 3 && forall i :: 0 <= i < 3 ==> |m[i]| == 3
  {
    m[0][0] + m[1][1] + m[2][2]
  }

  function EntrySum(m: seq<seq<nat>>): nat
    requires |m| == 3 && forall i :: 0 <= i < 3 ==> |m[i]| == 3
  {
    m[0][0] + m[0][1] + m[0][2] + m[1][0] + m[1][1] + m[1][2] + m[2][0] + m[2][1] + m[2][2]
  }

  predicate AllClasses(ys: seq<string>) {
    forall k :: 0 <= k < |ys| ==> ys[k] in Classes
  }

  /** When every actual class is H, D or A, the correct predictions are the
      diagonal of the confusion matrix. */
  lemma {:induction false} CorrectIsTrace(yTrue: seq<string>, yPred: seq<string>)
    requires |yTrue| == |yPred| && AllClasses(yTrue)
    ensures Correct(yTrue, yPred) ==
      PairCount(yTrue, yPred, "H", "H") + PairCount(yTrue, yPred, "D", "D") + PairCount(yTrue, yPred, "A", "A")
  {
    if yTrue != [] {
      assert yTrue[0] in Classes;
      CorrectIsTrace(yTrue[1..], yPred[1..]);
    }
  }

  lemma ConfusionTrace(yTrue: seq<string>, yPred: seq<string>)
    requires |yTrue| == |yPred| && AllClasses(yTrue)
    ensures Correct(yTrue, yPred) == Trace(ConfusionMatrix(yTrue, yPred))
  {
    CorrectIsTrace(yTrue, yPred);
  }

  /** When every actual and predicted class is H, D or A, each test row is
      counted in exactly one entry, so the entries add up to the test size. */
  lemma {:induction false} PairCountsCover(yTrue: seq<string>, yPred: seq<string>)
    requires |yTrue| == |yPred| && AllClasses(yTrue) && AllClasses(yPred)
    ensures
      PairCount(yTrue, yPred, "H", "H") + PairCount(yTrue, yPred, "H", "D") + PairCount(yTrue, yPred, "H", "A") +
      PairCount(yTrue, yPred, "D", "H") + PairCount(yTrue, yPred, "D", "D") + PairCount(yTrue, yPred, "D", "A") +
      PairCount(yTrue, yPred, "A", "H") + PairCount(yTrue, yPred, "A", "D") + PairCount(yTrue, yPred, "A", "A")
      == |yTrue|
  {
    if yTrue != [] {
      assert yTrue[0] in Classes && yPred[0] in Classes;
      PairCountsCover(yTrue[1..], yPred[1..]);
    }
  }

  lemma ConfusionTotal(yTrue: seq<string>, yPred: seq<string>)
    requires |yTrue| == |yPred| && AllClasses(yTrue) && AllClasses(yPred)
    ensures EntrySum(ConfusionMatrix(yTrue, yPred)) == |yTrue|
  {
    PairCountsCover(yTrue, yPred);
  }

  /** A class that never occurs as the actual class has an all-zero row, and
      one that is never predicted an all-zero column. */
  lemma ConfusionAbsentClass(yTrue: seq<string>, yPred: seq<string>, c: nat)
    requires |yTrue| == |yPred| && c < 3
    ensures Classes[c] !in yTrue ==> forall j :: 0 <= j < 3 ==> ConfusionMatrix(yTrue, yPred)[c][j] == 0
    ensures Classes[c] !in yPred ==> forall i :: 0 <= i < 3 ==> ConfusionMatrix(yTrue, yPred)[i][c] == 0
  {
    forall other: string
      ensures Classes[c] !in yTrue ==> PairCount(yTrue, yPred, Classes[c], other) == 0
      ensures Classes[c] !in yPred ==> PairCount(yTrue, yPred, other, Classes[c]) == 0
    {
      AbsentPairs(yTrue, yPred, Classes[c], other);
    }
  }

  lemma {:induction false} AbsentPairs(yTrue: seq<string>, yPred: seq<string>, x: string, other: string)
    requires |yTrue| == |yPred|
    ensures x !in yTrue ==> PairCount(yTrue, yPred, x, other) == 0
    ensures x !in yPred ==> PairCount(yTrue, yPred, other, x) == 0
  {
    if yTrue != [] {
      assert x !in yTrue ==> x !in yTrue[1..];
      assert x !in yPred ==> x !in yPred[1..];
      AbsentPairs(yTrue[1..], yPred[1..], x, other);
    }
  }

  // -----------------------------------------------------------------------
  // evaluate_models
  // -----------------------------------------------------------------------

  /** A fitted model, seen through its predictions on the test rows. */
  datatype Model = Model(name: string, predictions: seq<string>)

  /** A row of the results table: the model, its correct predictions and
      the test size (its accuracy is their quotient). */
  datatype ScoreRow = ScoreRow(name: string, correct: nat, total: nat)

  datatype Evaluation = Evaluation(results: seq<ScoreRow>, matrices: map<string, seq<seq<nat>>>)

  /** What stops the evaluation: predictions of the wrong length
      (accuracy_score), a non-empty test target with none of H, D, A
      (confusion_matrix), or no model at all (the empty results table has
      no Accuracy column to sort by). */
  datatype EvalError = LengthMismatch(model: string) | NoKnownLabel | NoResults

  function ModelNames(models: seq<Model>): (names: seq<string>)
    ensures |names| == |models| && forall i :: 0 <= i < |models| ==> names[i] == models[i].name
  {
    seq(|models|, i requires 0 <= i < |models| => models[i].name)
  }

  predicate HasKnownLabel(ys: seq<string>) {
    exists k :: 0 <= k < |ys| && ys[k] in Classes
  }

  predicate AllSized(models: seq<Model>, yTest: seq<string>) {
    forall i :: 0 <= i < |models| ==> |models[i].predictions| == |yTest|
  }

  /** The error scoring model `m` raises, if any. */
  function ModelError(m: Model, yTest: seq<string>): Option<EvalError> {
    if |m.predictions| != |yTest| then Some(LengthMismatch(m.name))
    else if yTest != [] && !HasKnownLabel(yTest) then Some(NoKnownLabel)
    else None
  }

  /** The first error the loop meets, models taken in order. */
  function LoopError(models: seq<Model>, yTest: seq<string>): Option<EvalError> {
    if models == [] then None
    else if ModelError(models[0], yTest).Some? then ModelError(models[0], yTest)
    else LoopError(models[1..], yTest)
  }

  /** The loop gets through every model exactly when all predictions have
      the test size and, unless there is no model or no test row, some
      actual class is H, D or A. */
  lemma {:induction false} LoopErrorNone(models: seq<Model>, yTest: seq<string>)
    ensures LoopError(models, yTest).None? <==>
      AllSized(models, yTest) && (models == [] || yTest == [] || HasKnownLabel(yTest))
  {
    if models != [] {
      LoopErrorNone(models[1..], yTest);
      assert forall i :: 1 <= i < |models| ==> models[i] == models[1..][i - 1];
    }
  }

  lemma {:induction false} LoopErrorAppend(a: seq<Model>, b: seq<Model>, yTest: seq<string>)
    ensures LoopError(a + b, yTest) == if LoopError(a, yTest).Some? then LoopError(a, yTest) else LoopError(b, yTest)
  {
    if a == [] {
      assert a + b == b;
    } else {
      assert (a + b)[1..] == a[1..] + b;
      LoopErrorAppend(a[1..], b, yTest);
    }
  }

  /** The score rows in model order. */
  function ScoreRows(models: seq<Model>, yTest: seq<string>): (rows: seq<ScoreRow>)
    requires AllSized(models, yTest)
  {
    seq(|models|, i requires 0 <= i < |models| =>
      ScoreRow(models[i].name, Correct(yTest, models[i].predictions), |yTest|))
  }

  /** Results order: better accuracy first. All rows share the test size,
      so comparing correct counts compares accuracies. */
  predicate MoreAccurate(a: ScoreRow, b: ScoreRow) {
    a.correct >= b.correct
  }

  lemma MoreAccurateTotalPreorder()
    ensures TotalPreorder(MoreAccurate)
  {
  }

  function Accuracy(row: ScoreRow): real
    requires row.total > 0
  {
    row.correct as real / row.total as real
  }

  /** On a common test size, the correct-count order is the accuracy order. */
  lemma AccuracyOrder(a: ScoreRow, b: ScoreRow)
    requires a.total == b.total > 0
    ensures MoreAccurate(a, b) <==> Accuracy(a) >= Accuracy(b)
  {
    var d := a.total as real;
    assert Accuracy(a) * d == a.correct as real;
    assert Accuracy(b) * d == b.correct as real;
  }

  /** Each score equals the trace of the same model's confusion matrix when
      every actual class is H, D or A. */
  lemma ScoreIsTrace(models: seq<Model>, yTest: seq<string>, i: nat)
    requires AllSized(models, yTest) && AllClasses(yTest) && i < |models|
    ensures ScoreRows(models, yTest)[i].correct == Trace(ConfusionMatrix(yTest, models[i].predictions))
  {
    ConfusionTrace(yTest, models[i].predictions);
  }

  /** The loop of evaluate_models: for each model in turn, its score row is
      appended and its confusion matrix stored under its name; the first
      model whose scoring raises stops it. */
  method ScoreModels(models: seq<Model>, yTest: seq<string>) returns (r: Result<Evaluation, EvalError>)
    requires Distinct(ModelNames(models))
    ensures r.Success? <==> LoopError(models, yTest).None?
    ensures r.Failure? ==> LoopError(models, yTest) == Some(r.error)
    ensures r.Success? ==> AllSized(models, yTest) && r.value.results == ScoreRows(models, yTest)
    ensures r.Success? ==> r.value.matrices.Keys == set i | 0 <= i < |models| :: models[i].name
    ensures r.Success? ==> forall i :: 0 <= i < |models| ==>
      |models[i].predictions| == |yTest| &&
      r.value.matrices[models[i].name] == ConfusionMatrix(yTest, models[i].predictions)
  {
    var results: seq<ScoreRow> := [];
    var matrices: map<string, seq<seq<nat>>> := map[];
    for i := 0 to |models|
      invariant LoopError(models[..i], yTest).None?
      invariant |results| == i
      invariant forall j :: 0 <= j < i ==>
        |models[j].predictions| == |yTest| &&
        results[j] == ScoreRow(models[j].name, Correct(yTest, models[j].predictions), |yTest|)
      invariant matrices.Keys == set j | 0 <= j < i :: models[j].name
      invariant forall j :: 0 <= j < i ==> matrices[models[j].name] == ConfusionMatrix(yTest, models[j].predictions)
    {
      var m := models[i];
      LoopErrorStep(models, i, yTest);
      if |m.predictions| != |yTest| {
        return Failure(LengthMismatch(m.name));
      }
      results := results + [ScoreRow(m.name, Correct(yTest, m.predictions), |yTest|)];
      if yTest != [] && !HasKnownLabel(yTest) {
        return Failure(NoKnownLabel);
      }
      NameIsNew(models, i);
      ghost var before := matrices;
      matrices := matrices[m.name := ConfusionMatrix(yTest, m.predictions)];
      forall j | 0 <= j < i + 1
        ensures matrices[models[j].name] == ConfusionMatrix(yTest, models[j].predictions)
      {
        if j < i {
          assert matrices[models[j].name] == before[models[j].name];
        }
      }
    }
    assert models[..|models|] == models;
    r := Success(Evaluation(results, matrices));
  }

  /** evaluate_models: the scored rows sorted by accuracy, best first, and
      the confusion matrices by model name. The sort need not keep ties in
      model order, so the result is stated as an ordered permutation. */
  method EvaluateModels(models: seq<Model>, yTest: seq<string>) returns (r: Result<Evaluation, EvalError>)
    requires Distinct(ModelNames(models))
    ensures r.Success? <==> models != [] && LoopError(models, yTest).None?
    ensures r.Failure? ==> r.error == if LoopError(models, yTest).Some? then LoopError(models, yTest).value else NoResults
    ensures r.Success? ==>
      && AllSized(models, yTest)
      && multiset(r.value.results) == multiset(ScoreRows(models, yTest))
      && SortedBy(r.value.results, MoreAccurate)
    ensures r.Success? ==> r.value.matrices.Keys == set i | 0 <= i < |models| :: models[i].name
    ensures r.Success? ==> forall i :: 0 <= i < |models| ==>
      |models[i].predictions| == |yTest| &&
      r.value.matrices[models[i].name] == ConfusionMatrix(yTest, models[i].predictions)
  {
    var scored := ScoreModels(models, yTest);
    if scored.Failure? {
      return Failure(scored.error);
    }
    if scored.value.results == [] {
      return Failure(NoResults);
    }
    MoreAccurateTotalPreorder();
    r := Success(scored.value.(results := SortBy(scored.value.results, MoreAccurate)));
  }

  /** Before model `i` is scored with no error so far, the error of the
      whole loop is model `i`'s own if it has one, and the prefix through
      `i` has none otherwise. */
  lemma LoopErrorStep(models: seq<Model>, i: nat, yTest: seq<string>)
    requires i < |models| && LoopError(models[..i], yTest).None?
    ensures ModelError(models[i], yTest).Some? ==> LoopError(models, yTest) == ModelError(models[i], yTest)
    ensures ModelError(models[i], yTest).None? ==> LoopError(models[..i + 1], yTest).None?
  {
    assert models == models[..i] + models[i..];
    LoopErrorAppend(models[..i], models[i..], yTest);
    assert models[..i + 1] == models[..i] + [models[i]];
    LoopErrorAppend(models[..i], [models[i]], yTest);
    assert models[i..][0] == models[i];
  }

  /** Distinct names: model `i` is stored under a name no earlier model has. */
  lemma NameIsNew(models: seq<Model>, i: nat)
    requires Distinct(ModelNames(models)) && i < |models|
    ensures forall j :: 0 <= j < i ==> models[j].name != models[i].name
  {
    assert forall j :: 0 <= j < i ==> ModelNames(models)[j] == models[j].name;
  }
}
