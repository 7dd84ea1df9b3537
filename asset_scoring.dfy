/** The scoring stage (models/asset_scoring.py, `compute_asset_score`): each
    KPI column is min-max normalised (volatility and max drawdown after a
    change of sign), the four normalised columns are combined with weights
    0.4 / 0.3 / 0.2 / 0.1 into a `score` column added to the caller's frame,
    and a copy of the frame is returned sorted by descending score. */
module AssetScoring {
  import opened Tables
  import opened ComputeKpis

  const SharpeWeight: real := 0.4
  const ReturnWeight: real := 0.3
  const VolatilityWeight: real := 0.2
  const DrawdownWeight: real := 0.1

  /** A row of the returned frame: the unscaled KPIs and the score. */
  datatype ScoredAsset = ScoredAsset(kpi: AssetKpi, score: Option<real>)

  /** `MinMaxScaler.fit_transform` rejects a frame without rows. */
  datatype ScoreError = EmptyFrame

  // ---------------------------------------------------------------------
  // Min-max scaling of one column (models/asset_scoring.py:57-69)
  // ---------------------------------------------------------------------

  /** The non-null values of a column, in row order: what the scaler fits on. */
  function Present(col: seq<Option<real>>): (p: seq<real>)
    ensures |p| <= |col|
  {
    if col == [] then []
    else
      var last := col[|col| - 1];
      Present(col[..|col| - 1]) + (if last.Some? then [last.value] else [])
  }

  /** The fitted values are exactly the column's non-null values. */
  lemma {:induction false} PresentMembers(col: seq<Option<real>>)
    ensures forall k :: 0 <= k < |col| && col[k].Some? ==> col[k].value in Present(col)
    ensures forall j :: 0 <= j < |Present(col)| ==> Some(Present(col)[j]) in col
  {
    if col != [] {
      var pre := col[..|col| - 1];
      var last := col[|col| - 1];
      PresentMembers(pre);
      var p := Present(col);
      assert p == Present(pre) + (if last.Some? then [last.value] else []);
      forall k | 0 <= k < |col| && col[k].Some? ensures col[k].value in p {
        if k < |pre| {
          assert col[k] == pre[k];
        }
      }
      forall j | 0 <= j < |p| ensures Some(p[j]) in col {
        if j < |Present(pre)| {
          assert p[j] == Present(pre)[j];
          assert Some(p[j]) in pre;
        } else {
          assert p[j] == last.value;
        }
      }
    }
  }

  /** `(x - min) / (max - min)`, with a zero range replaced by 1 as the
      scaler does, so that a constant column scales to 0. */
  function Scaled(x: real, lo: real, hi: real): real {
    (x - lo) / (if hi - lo == 0.0 then 1.0 else hi - lo)
  }

  /** `MinMaxScaler().fit_transform` on one column: nulls are ignored by the
      fit and passed through; a column without values stays null. */
  function MinMax(col: seq<Option<real>>): (r: seq<Option<real>>)
    ensures |r| == |col|
    ensures forall k :: 0 <= k < |col| ==> (r[k].Some? <==> col[k].Some?)
  {
    var p := Present(col);
    if |p| == 0 then col
    else
      var lo := SeqMin(p);
      var hi := SeqMax(p);
      seq(|col|, k requires 0 <= k < |col| =>
        if col[k].Some? then Some(Scaled(col[k].value, lo, hi)) else None)
  }

  lemma ScaledBounds(x: real, lo: real, hi: real)
    requires lo <= x <= hi
    ensures 0.0 <= Scaled(x, lo, hi) <= 1.0
  {
    if hi - lo != 0.0 {
      assert x - lo <= hi - lo;
    }
  }

  lemma ScaledMonotone(x: real, y: real, lo: real, hi: real)
    requires lo <= hi && x <= y
    ensures Scaled(x, lo, hi) <= Scaled(y, lo, hi)
  {
  }

  lemma ScaledTop(lo: real, hi: real)
    requires lo < hi
    ensures Scaled(hi, lo, hi) == 1.0
  {
    var d := hi - lo;
    assert d != 0.0;
    assert d / d == 1.0;
  }

  /** A non-null value of a column lies between the fitted minimum and maximum. */
  lemma {:induction false} WithinFit(col: seq<Option<real>>, k: nat)
    requires k < |col| && col[k].Some?
    ensures |Present(col)| > 0
    ensures SeqMin(Present(col)) <= col[k].value <= SeqMax(Present(col))
  {
    PresentMembers(col);
    var p := Present(col);
    var j :| 0 <= j < |p| && p[j] == col[k].value;
  }

  /** Every scaled value lies in [0, 1]. */
  lemma {:induction false} MinMaxBounds(col: seq<Option<real>>)
    ensures forall k :: 0 <= k < |col| && MinMax(col)[k].Some? ==> 0.0 <= MinMax(col)[k].value <= 1.0
  {
    forall k | 0 <= k < |col| && MinMax(col)[k].Some? ensures 0.0 <= MinMax(col)[k].value <= 1.0 {
      WithinFit(col, k);
      ScaledBounds(col[k].value, SeqMin(Present(col)), SeqMax(Present(col)));
    }
  }

  /** Scaling keeps the order of the values. */
  lemma {:induction false} MinMaxMonotone(col: seq<Option<real>>, i: nat, j: nat)
    requires i < |col| && j < |col| && col[i].Some? && col[j].Some?
    requires col[i].value <= col[j].value
    ensures MinMax(col)[i].value <= MinMax(col)[j].value
  {
    WithinFit(col, i);
    ScaledMonotone(col[i].value, col[j].value, SeqMin(Present(col)), SeqMax(Present(col)));
  }

  /** The column's smallest value scales to 0. */
  lemma {:induction false} MinMaxBottom(col: seq<Option<real>>, k: nat)
    requires k < |col| && col[k].Some?
    requires forall j :: 0 <= j < |col| && col[j].Some? ==> col[k].value <= col[j].value
    ensures MinMax(col)[k] == Some(0.0)
  {
    WithinFit(col, k);
    PresentMembers(col);
    var p := Present(col);
    var a :| 0 <= a < |p| && p[a] == SeqMin(p);
    assert Some(p[a]) in col;
  }

  /** The column's largest value scales to 1, unless every value is the same. */
  lemma {:induction false} MinMaxTop(col: seq<Option<real>>, k: nat, j: nat)
    requires k < |col| && col[k].Some?
    requires forall i :: 0 <= i < |col| && col[i].Some? ==> col[i].value <= col[k].value
    requires j < |col| && col[j].Some? && col[j].value < col[k].value
    ensures MinMax(col)[k] == Some(1.0)
  {
    WithinFit(col, k);
    WithinFit(col, j);
    PresentMembers(col);
    var p := Present(col);
    var b :| 0 <= b < |p| && p[b] == SeqMax(p);
    assert Some(p[b]) in col;
    ScaledTop(SeqMin(p), SeqMax(p));
  }

  // ---------------------------------------------------------------------
  // The KPI columns (models/asset_scoring.py:62-69)
  // ---------------------------------------------------------------------

  /** `-df[...]`: negation keeps nulls null. */
  function Negate(col: seq<Option<real>>): (r: seq<Option<real>>)
    ensures |r| == |col|
    ensures forall k :: 0 <= k < |col| ==> r[k] == if col[k].Some? then Some(-col[k].value) else None
  {
    seq(|col|, k requires 0 <= k < |col| => if col[k].Some? then Some(-col[k].value) else None)
  }

  function SharpeColumn(kpis: seq<AssetKpi>): (col: seq<Option<real>>)
    ensures |col| == |kpis| && forall k :: 0 <= k < |kpis| ==> col[k] == kpis[k].sharpe
  {
    seq(|kpis|, k requires 0 <= k < |kpis| => kpis[k].sharpe)
  }

  function ReturnColumn(kpis: seq<AssetKpi>): (col: seq<Option<real>>)
    ensures |col| == |kpis| && forall k :: 0 <= k < |kpis| ==> col[k] == Some(kpis[k].annualReturn)
  {
    seq(|kpis|, k requires 0 <= k < |kpis| => Some(kpis[k].annualReturn))
  }

  function VolatilityColumn(kpis: seq<AssetKpi>): (col: seq<Option<real>>)
    ensures |col| == |kpis| && forall k :: 0 <= k < |kpis| ==> col[k] == kpis[k].volatility
  {
    seq(|kpis|, k requires 0 <= k < |kpis| => kpis[k].volatility)
  }

  function DrawdownColumn(kpis: seq<AssetKpi>): (col: seq<Option<real>>)
    ensures |col| == |kpis| && forall k :: 0 <= k < |kpis| ==> col[k] == kpis[k].maxDrawdown
  {
    seq(|kpis|, k requires 0 <= k < |kpis| => kpis[k].maxDrawdown)
  }

  /** The scaled volatility: lower volatility scores higher. */
  lemma {:induction false} NegatedScalingReverses(col: seq<Option<real>>, i: nat, j: nat)
    requires i < |col| && j < |col| && col[i].Some? && col[j].Some?
    requires col[i].value <= col[j].value
    ensures MinMax(Negate(col))[j].value <= MinMax(Negate(col))[i].value
  {
    MinMaxMonotone(Negate(col), j, i);
  }

  /** After the change of sign, the column's largest value scales to 0. */
  lemma {:induction false} NegatedBottom(col: seq<Option<real>>, k: nat)
    requires k < |col| && col[k].Some?
    requires forall j :: 0 <= j < |col| && col[j].Some? ==> col[j].value <= col[k].value
    ensures MinMax(Negate(col))[k] == Some(0.0)
  {
    MinMaxBottom(Negate(col), k);
  }

  /** After the change of sign, the column's smallest value scales to 1,
      unless every value is the same. */
  lemma {:induction false} NegatedTop(col: seq<Option<real>>, k: nat, j: nat)
    requires k < |col| && col[k].Some?
    requires forall i :: 0 <= i < |col| && col[i].Some? ==> col[k].value <= col[i].value
    requires j < |col| && col[j].Some? && col[k].value < col[j].value
    ensures MinMax(Negate(col))[k] == Some(1.0)
  {
    MinMaxTop(Negate(col), k, j);
  }

  /** The four scaled columns, as `df_scaled` holds them. */
  datatype ScaledColumns = ScaledColumns(
    sharpe: seq<Option<real>>,
    annualReturn: seq<Option<real>>,
    volatility: seq<Option<real>>,
    maxDrawdown: seq<Option<real>>)

  function ScaleColumns(kpis: seq<AssetKpi>): (s: ScaledColumns)
    ensures |s.sharpe| == |s.annualReturn| == |s.volatility| == |s.maxDrawdown| == |kpis|
  {
    ScaledColumns(
      MinMax(SharpeColumn(kpis)),
      MinMax(ReturnColumn(kpis)),
      MinMax(Negate(VolatilityColumn(kpis))),
      MinMax(Negate(DrawdownColumn(kpis))))
  }

  /** The sign trap: drawdowns are at most 0, so after the change of sign
      the deepest (worst) drawdown is the one scaled to 1, and the shallowest
      the one scaled to 0.  The drawdown term thus rewards large losses. */
  lemma {:induction false} DeepestDrawdownScaledToOne(kpis: seq<AssetKpi>, k: nat, j: nat)
    requires k < |kpis| && kpis[k].maxDrawdown.Some?
    requires forall j :: 0 <= j < |kpis| && kpis[j].maxDrawdown.Some? ==>
      kpis[k].maxDrawdown.value <= kpis[j].maxDrawdown.value
    requires j < |kpis| && kpis[j].maxDrawdown.Some?
    requires kpis[k].maxDrawdown.value < kpis[j].maxDrawdown.value
    ensures ScaleColumns(kpis).maxDrawdown[k] == Some(1.0)
  {
    NegatedTop(DrawdownColumn(kpis), k, j);
  }

  // ---------------------------------------------------------------------
  // The composite score (models/asset_scoring.py:71-77)
  // ---------------------------------------------------------------------

  /** The weighted sum of one row; null as soon as one term is null. */
  function Combine(s: Option<real>, r: Option<real>, v: Option<real>, d: Option<real>): (score: Option<real>)
    ensures score.Some? <==> s.Some? && r.Some? && v.Some? && d.Some?
  {
    if s.Some? && r.Some? && v.Some? && d.Some? then
      Some(SharpeWeight * s.value + ReturnWeight * r.value + VolatilityWeight * v.value + DrawdownWeight * d.value)
    else None
  }

  /** The `score` column. */
  function Scores(kpis: seq<AssetKpi>): (scores: seq<Option<real>>)
    ensures |scores| == |kpis|
  {
    var c := ScaleColumns(kpis);
    seq(|kpis|, k requires 0 <= k < |kpis| =>
      Combine(c.sharpe[k], c.annualReturn[k], c.volatility[k], c.maxDrawdown[k]))
  }

  /** The weights sum to 1. */
  lemma WeightsSumToOne()
    ensures SharpeWeight + ReturnWeight + VolatilityWeight + DrawdownWeight == 1.0
  {
  }

  /** A row has a score exactly when its Sharpe ratio, volatility and drawdown
      are all present, and every score lies in [0, 1]. */
  lemma {:induction false} ScoreBounds(kpis: seq<AssetKpi>)
    ensures forall k :: 0 <= k < |kpis| ==>
      (Scores(kpis)[k].Some? <==>
        kpis[k].sharpe.Some? && kpis[k].volatility.Some? && kpis[k].maxDrawdown.Some?)
    ensures forall k :: 0 <= k < |kpis| && Scores(kpis)[k].Some? ==> 0.0 <= Scores(kpis)[k].value <= 1.0
  {
    var c := ScaleColumns(kpis);
    MinMaxBounds(SharpeColumn(kpis));
    MinMaxBounds(ReturnColumn(kpis));
    MinMaxBounds(Negate(VolatilityColumn(kpis)));
    MinMaxBounds(Negate(DrawdownColumn(kpis)));
  }

  /** An asset at least as good as another on every KPI (Sharpe and return
      not lower, volatility and drawdown not higher) does not score lower. */
  lemma {:induction false} ScoreDominance(kpis: seq<AssetKpi>, a: nat, b: nat)
    requires a < |kpis| && b < |kpis|
    requires Scores(kpis)[a].Some? && Scores(kpis)[b].Some?
    requires kpis[a].sharpe.value >= kpis[b].sharpe.value
    requires kpis[a].annualReturn >= kpis[b].annualReturn
    requires kpis[a].volatility.value <= kpis[b].volatility.value
    requires kpis[a].maxDrawdown.value <= kpis[b].maxDrawdown.value
    ensures Scores(kpis)[a].value >= Scores(kpis)[b].value
  {
    ScoreBounds(kpis);
    MinMaxMonotone(SharpeColumn(kpis), b, a);
    MinMaxMonotone(ReturnColumn(kpis), b, a);
    NegatedScalingReverses(VolatilityColumn(kpis), a, b);
    NegatedScalingReverses(DrawdownColumn(kpis), a, b);
  }

  // ---------------------------------------------------------------------
  // Ranking (models/asset_scoring.py:79)
  // ---------------------------------------------------------------------

  /** `sort_values("score", ascending=False)`: higher scores first, null
      scores last.  `x` may come before `y`. */
  predicate RanksBefore(x: ScoredAsset, y: ScoredAsset) {
    if x.score.None? then y.score.None?
    else y.score.None? || x.score.value >= y.score.value
  }

  lemma RanksBeforeTotalPreorder()
    ensures TotalPreorder(RanksBefore)
  {
  }

  /** The rows of the frame with their scores. */
  function WithScores(kpis: seq<AssetKpi>, scores: seq<Option<real>>): (rows: seq<ScoredAsset>)
    requires |scores| == |kpis|
    ensures |rows| == |kpis|
  {
    seq(|kpis|, k requires 0 <= k < |kpis| => ScoredAsset(kpis[k], scores[k]))
  }

  /** The caller's KPI frame: its rows and, once scored, its `score` column. */
  class KpiFrame {
    var kpis: seq<AssetKpi>
    var score: Option<seq<Option<real>>>

    constructor (kpis: seq<AssetKpi>)
      ensures this.kpis == kpis && score.None?
    {
      this.kpis := kpis;
      score := None;
    }
  }

  /** `compute_asset_score(df)`: adds the `score` column to the caller's
      frame and returns its rows ranked by descending score. */
  method ComputeAssetScore(df: KpiFrame) returns (ranked: Result<seq<ScoredAsset>, ScoreError>)
    modifies df
    ensures df.kpis == old(df.kpis)
    ensures |df.kpis| == 0 ==> ranked == Failure(EmptyFrame) && df.score == old(df.score)
    ensures |df.kpis| > 0 ==>
      && df.score == Some(Scores(df.kpis))
      && ranked.Success?
      && SortedBy(ranked.value, RanksBefore)
      && multiset(ranked.value) == multiset(WithScores(df.kpis, Scores(df.kpis)))
  {
    if |df.kpis| == 0 {
      return Failure(EmptyFrame);
    }
    var scores := Scores(df.kpis);
    df.score := Some(scores);
    var rows := WithScores(df.kpis, scores);
    RanksBeforeTotalPreorder();
    SortBySorted(rows, RanksBefore);
    ranked := Success(SortBy(rows, RanksBefore));
  }
}
