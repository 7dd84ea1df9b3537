/** The KPI stage (analytics/compute_kpis.py): one SQL query over the cleaned
    price table, a chain of common table expressions.  `daily` keeps the rows
    with a return; `stats` aggregates them per ticker (annualised mean,
    annualised sample standard deviation, count); `cum_returns_table`,
    `drawdown_calc` and `drawdown_final` compound the returns in Date order,
    track their running peak and keep the worst fall from it; the final
    SELECT joins both sides and adds the Sharpe ratio. */
module ComputeKpis {
  import opened Tables
  import opened CleanPrices

  /** Trading days per year: the factor of `AVG(return) * 252` and `SQRT(252)`. */
  const TradingDays: real := 252.0

  /** A row of the `daily` CTE. */
  datatype DailyRow = DailyRow(ticker: Ticker, date: Date, ret: real)

  /** A row of the `stats` CTE. */
  datatype StatsRow = StatsRow(ticker: Ticker, annualReturn: real, volatility: Option<real>, nObs: nat)

  /** A row of the `drawdown_final` CTE. */
  datatype DrawdownRow = DrawdownRow(ticker: Ticker, maxDrawdown: real)

  /** A row of the query's result, the `asset_kpis` table. */
  datatype AssetKpi = AssetKpi(
    ticker: Ticker,
    annualReturn: real,
    volatility: Option<real>,
    sharpe: Option<real>,
    maxDrawdown: Option<real>,
    nObs: nat)

  /** Why the query can abort: `LN` of a non-positive `1 + return`. */
  datatype KpiError = LogOfNonPositive

  // ---------------------------------------------------------------------
  // daily (analytics/compute_kpis.py:19-26)
  // ---------------------------------------------------------------------

  function HasReturn(): CleanRow -> bool {
    (x: CleanRow) => x.ret.Some?
  }

  /** `SELECT ticker, Date, return FROM prices WHERE return IS NOT NULL`. */
  function Daily(prices: seq<CleanRow>): (d: seq<DailyRow>)
    ensures |d| == Count(prices, HasReturn())
  {
    if prices == [] then []
    else
      var x := prices[|prices| - 1];
      Daily(prices[..|prices| - 1]) + (if x.ret.Some? then [DailyRow(x.ticker, x.date, x.ret.value)] else [])
  }

  /** Every `daily` row is the ticker, Date and return of a price row with a
      non-null return. */
  lemma {:induction false} DailyFromPrices(prices: seq<CleanRow>)
    ensures forall k :: 0 <= k < |Daily(prices)| ==> KeptFrom(Daily(prices)[k], prices)
  {
    forall k | 0 <= k < |Daily(prices)|
      ensures KeptFrom(Daily(prices)[k], prices)
    {
      var j := DailySource(prices, k);
      assert IsDailyOf(Daily(prices)[k], prices[j]);
    }
  }

  /** `row` is what `daily` keeps of price row `x`: its ticker, Date and
      non-null return. */
  predicate IsDailyOf(row: DailyRow, x: CleanRow) {
    x.ret.Some? && row == DailyRow(x.ticker, x.date, x.ret.value)
  }

  /** `row` is kept from some row of `prices`. */
  ghost predicate KeptFrom(row: DailyRow, prices: seq<CleanRow>) {
    exists j :: 0 <= j < |prices| && IsDailyOf(row, prices[j])
  }

  /** The price row that `daily` row `k` comes from. */
  lemma {:induction false} DailySource(prices: seq<CleanRow>, k: nat) returns (j: nat)
    requires k < |Daily(prices)|
    ensures j < |prices| && prices[j].ret.Some?
    ensures Daily(prices)[k] == DailyRow(prices[j].ticker, prices[j].date, prices[j].ret.value)
  {
    var pre := prices[..|prices| - 1];
    var x := prices[|prices| - 1];
    var d := Daily(prices);
    var tail := if x.ret.Some? then [DailyRow(x.ticker, x.date, x.ret.value)] else [];
    assert d == Daily(pre) + tail;
    if k < |Daily(pre)| {
      assert d[k] == Daily(pre)[k];
      j := DailySource(pre, k);
      assert prices[j] == pre[j];
    } else {
      assert d[k] == tail[0];
      j := |prices| - 1;
    }
  }

  /** The non-null returns of ticker `t` in table order: the reference for
      what `stats` aggregates. */
  function NonNullReturns(prices: seq<CleanRow>, t: Ticker): (rs: seq<real>)
    ensures |rs| == Count(prices, HasReturnFor(t))
  {
    if prices == [] then []
    else
      var x := prices[|prices| - 1];
      NonNullReturns(prices[..|prices| - 1], t) + (if x.ticker == t && x.ret.Some? then [x.ret.value] else [])
  }

  // ---------------------------------------------------------------------
  // Grouping by ticker (analytics/compute_kpis.py:33-34, 41, 49, 57)
  // ---------------------------------------------------------------------

  function OfTicker(t: Ticker): DailyRow -> bool {
    (x: DailyRow) => x.ticker == t
  }

  /** The rows of ticker `t`: one `GROUP BY ticker` group or `PARTITION BY ticker` partition. */
  function Group(daily: seq<DailyRow>, t: Ticker): seq<DailyRow> {
    Filter(daily, OfTicker(t))
  }

  /** The return column of some daily rows. */
  function Rets(rows: seq<DailyRow>): (rs: seq<real>)
    ensures |rs| == |rows|
    ensures forall k :: 0 <= k < |rows| ==> rs[k] == rows[k].ret
  {
    if rows == [] then [] else Rets(rows[..|rows| - 1]) + [rows[|rows| - 1].ret]
  }

  /** The group of a ticker holds exactly that ticker's non-null returns from
      the price table, in table order. */
  lemma {:induction false} GroupReturns(prices: seq<CleanRow>, t: Ticker)
    ensures Rets(Group(Daily(prices), t)) == NonNullReturns(prices, t)
  {
    if prices != [] {
      var pre := prices[..|prices| - 1];
      var x := prices[|prices| - 1];
      GroupReturns(pre, t);
      var d := Daily(prices);
      if x.ret.Some? {
        var row := DailyRow(x.ticker, x.date, x.ret.value);
        assert d == Daily(pre) + [row];
        assert d[..|d| - 1] == Daily(pre);
        if x.ticker == t {
          var g := Group(d, t);
          assert g == Group(Daily(pre), t) + [row];
          assert g[..|g| - 1] == Group(Daily(pre), t);
        }
      } else {
        assert d == Daily(pre);
      }
    }
  }

  /** The distinct tickers of `daily`, in order of first appearance: the groups
      of `GROUP BY ticker`. */
  function Tickers(daily: seq<DailyRow>): (ts: seq<Ticker>)
    ensures forall i, j :: 0 <= i < j < |ts| ==> ts[i] != ts[j]
    ensures forall t :: t in ts <==> exists k :: 0 <= k < |daily| && daily[k].ticker == t
  {
    if daily == [] then []
    else
      var pre := daily[..|daily| - 1];
      var ts := Tickers(pre);
      assert forall k :: 0 <= k < |pre| ==> pre[k] == daily[k];
      if daily[|daily| - 1].ticker in ts then ts else ts + [daily[|daily| - 1].ticker]
  }

  /** A ticker of `daily` has a non-empty group. */
  lemma TickerHasRows(daily: seq<DailyRow>, t: Ticker)
    requires t in Tickers(daily)
    ensures |Group(daily, t)| > 0
  {
    CountPositive(daily, OfTicker(t));
  }

  // ---------------------------------------------------------------------
  // stats (analytics/compute_kpis.py:27-35)
  // ---------------------------------------------------------------------

  function Sum(rs: seq<real>): real {
    if rs == [] then 0.0 else Sum(rs[..|rs| - 1]) + rs[|rs| - 1]
  }

  /** `AVG(return)`. */
  function Mean(rs: seq<real>): real
    requires |rs| > 0
  {
    Sum(rs) / (|rs| as real)
  }

  /** `a * b`, kept behind a name so that squares are reasoned about as terms. */
  function Times(a: real, b: real): real {
    a * b
  }

  /** Sum of squared deviations from `m`. */
  function SumSquares(rs: seq<real>, m: real): real {
    if rs == [] then 0.0
    else
      var d := rs[|rs| - 1] - m;
      SumSquares(rs[..|rs| - 1], m) + Times(d, d)
  }

  /** The variance behind `STDDEV` (DuckDB's sample standard deviation). */
  function SampleVariance(rs: seq<real>): real
    requires |rs| >= 2
  {
    SumSquares(rs, Mean(rs)) / ((|rs| - 1) as real)
  }

  /** `sqrt` is a square root on the non-negative reals: non-negative, zero
      only at zero, and squaring back to its argument. */
  ghost predicate IsSqrt(sqrt: real -> real) {
    forall x :: 0.0 <= x ==>
      && 0.0 <= sqrt(x)
      && (sqrt(x) == 0.0 <==> x == 0.0)
      && Times(sqrt(x), sqrt(x)) == x
  }

  /** `STDDEV(return) * SQRT(252)`: null for a single observation. */
  function Volatility(rs: seq<real>, sqrt: real -> real): Option<real> {
    if |rs| < 2 then None else Some(sqrt(SampleVariance(rs)) * sqrt(TradingDays))
  }

  /** One `stats` row: `AVG(return) * 252`, the volatility and `COUNT(*)`. */
  function StatsFor(daily: seq<DailyRow>, t: Ticker, sqrt: real -> real): StatsRow
    requires t in Tickers(daily)
  {
    TickerHasRows(daily, t);
    var rs := Rets(Group(daily, t));
    StatsRow(t, Mean(rs) * TradingDays, Volatility(rs, sqrt), |rs|)
  }

  function Stats(daily: seq<DailyRow>, sqrt: real -> real): (s: seq<StatsRow>)
    ensures |s| == |Tickers(daily)|
  {
    var ts := Tickers(daily);
    seq(|ts|, i requires 0 <= i < |ts| => StatsFor(daily, ts[i], sqrt))
  }

  lemma TimesPositive(a: real, b: real)
    requires (a > 0.0 && b > 0.0) || (a < 0.0 && b < 0.0)
    ensures Times(a, b) > 0.0
  {
    if a < 0.0 {
      assert a * b == (-a) * (-b);
    }
  }

  /** A square is never negative and is zero only at zero. */
  lemma SquareSign(d: real)
    ensures Times(d, d) >= 0.0
    ensures d != 0.0 ==> Times(d, d) > 0.0
  {
    if d != 0.0 {
      TimesPositive(d, d);
    }
  }

  lemma {:induction false} SumSquaresNonNegative(rs: seq<real>, m: real)
    ensures SumSquares(rs, m) >= 0.0
  {
    if rs != [] {
      SumSquaresNonNegative(rs[..|rs| - 1], m);
      SquareSign(rs[|rs| - 1] - m);
    }
  }

  /** One value away from the centre makes the sum of squares positive. */
  lemma {:induction false} SumSquaresPositive(rs: seq<real>, m: real, k: nat)
    requires k < |rs| && rs[k] != m
    ensures SumSquares(rs, m) > 0.0
  {
    var pre := rs[..|rs| - 1];
    SquareSign(rs[|rs| - 1] - m);
    if k < |pre| {
      assert pre[k] == rs[k];
      SumSquaresPositive(pre, m, k);
    } else {
      SumSquaresNonNegative(pre, m);
    }
  }

  lemma {:induction false} SumSquaresAtCentre(rs: seq<real>, m: real)
    requires forall k :: 0 <= k < |rs| ==> rs[k] == m
    ensures SumSquares(rs, m) == 0.0
  {
    if rs != [] {
      var pre := rs[..|rs| - 1];
      assert forall k :: 0 <= k < |pre| ==> pre[k] == rs[k];
      SumSquaresAtCentre(pre, m);
      assert Times(0.0, 0.0) == 0.0;
    }
  }

  /** The sum of squared deviations is never negative, and is zero exactly
      when every value equals the centre. */
  lemma SumSquaresZero(rs: seq<real>, m: real)
    ensures SumSquares(rs, m) >= 0.0
    ensures SumSquares(rs, m) == 0.0 <==> forall k :: 0 <= k < |rs| ==> rs[k] == m
  {
    SumSquaresNonNegative(rs, m);
    if exists k :: 0 <= k < |rs| && rs[k] != m {
      var k :| 0 <= k < |rs| && rs[k] != m;
      SumSquaresPositive(rs, m, k);
    } else {
      SumSquaresAtCentre(rs, m);
    }
  }

  /** The sum of `n` copies of `c` is `n * c`. */
  lemma {:induction false} SumConstant(rs: seq<real>, c: real)
    requires forall k :: 0 <= k < |rs| ==> rs[k] == c
    ensures Sum(rs) == (|rs| as real) * c
  {
    if rs != [] {
      var pre := rs[..|rs| - 1];
      assert forall k :: 0 <= k < |pre| ==> pre[k] == rs[k];
      SumConstant(pre, c);
    }
  }

  /** The sample variance is never negative, and is zero exactly when all
      the returns are equal. */
  lemma {:induction false} VarianceZeroIffConstant(rs: seq<real>)
    requires |rs| >= 2
    ensures SampleVariance(rs) >= 0.0
    ensures SampleVariance(rs) == 0.0 <==> forall k :: 0 <= k < |rs| ==> rs[k] == rs[0]
  {
    var m := Mean(rs);
    var n := (|rs| - 1) as real;
    SumSquaresZero(rs, m);
    if forall k :: 0 <= k < |rs| ==> rs[k] == rs[0] {
      SumConstant(rs, rs[0]);
      assert m == rs[0];
    }
    if SampleVariance(rs) == 0.0 {
      assert SumSquares(rs, m) == 0.0;
    }
  }

  /** Under a true square root, the volatility is non-negative and is zero
      exactly when the sample variance is. */
  lemma VolatilityZero(rs: seq<real>, sqrt: real -> real)
    requires IsSqrt(sqrt) && |rs| >= 2
    ensures Volatility(rs, sqrt).Some? && Volatility(rs, sqrt).value >= 0.0
    ensures Volatility(rs, sqrt).value == 0.0 <==> SampleVariance(rs) == 0.0
  {
    VarianceZeroIffConstant(rs);
    var a := sqrt(SampleVariance(rs));
    var b := sqrt(TradingDays);
    assert b > 0.0;
    if a > 0.0 {
      PositiveProduct(a, b);
    } else {
      assert a == 0.0;
    }
  }

  // ---------------------------------------------------------------------
  // cum_returns_table, drawdown_calc, drawdown_final
  // (analytics/compute_kpis.py:36-59)
  // ---------------------------------------------------------------------

  predicate AboveMinusOne(rs: seq<real>) {
    forall k :: 0 <= k < |rs| ==> rs[k] > -1.0
  }

  /** The compounded growth of a run of returns: the product of `1 + r`,
      which `EXP(SUM(LN(1 + return)))` computes when every `1 + r` is positive. */
  function Growth(rs: seq<real>): real {
    if rs == [] then 1.0 else Growth(rs[..|rs| - 1]) * (1.0 + rs[|rs| - 1])
  }

  /** `cum_return` at each date: the growth over the window frame of rows up
      to and including that date. */
  function CumReturns(rs: seq<real>): (cs: seq<real>)
    ensures |cs| == |rs|
  {
    seq(|rs|, k requires 0 <= k < |rs| => Growth(rs[..k + 1]))
  }

  /** `peak` at each date: `MAX(cum_return)` over the window frame up to that date. */
  function Peaks(cs: seq<real>): (ps: seq<real>)
    ensures |ps| == |cs|
  {
    seq(|cs|, k requires 0 <= k < |cs| => SeqMax(cs[..k + 1]))
  }

  /** `cum_return / peak - 1` at each date. */
  function Drawdowns(cs: seq<real>, ps: seq<real>): (ds: seq<real>)
    requires |cs| == |ps| && forall k :: 0 <= k < |ps| ==> ps[k] != 0.0
    ensures |ds| == |cs|
  {
    seq(|cs|, k requires 0 <= k < |cs| => cs[k] / ps[k] - 1.0)
  }

  lemma {:induction false} GrowthPositive(rs: seq<real>)
    requires AboveMinusOne(rs)
    ensures Growth(rs) > 0.0
  {
    if rs != [] {
      var pre := rs[..|rs| - 1];
      assert AboveMinusOne(pre) by {
        forall k | 0 <= k < |pre| ensures pre[k] > -1.0 { assert pre[k] == rs[k]; }
      }
      GrowthPositive(pre);
      PositiveProduct(Growth(pre), 1.0 + rs[|rs| - 1]);
    }
  }

  lemma PositiveProduct(a: real, b: real)
    requires a > 0.0 && b > 0.0
    ensures a * b > 0.0
  {
  }

  /** Every compounded value is positive when every return is above -1. */
  lemma {:induction false} CumPositive(rs: seq<real>)
    requires AboveMinusOne(rs)
    ensures forall k :: 0 <= k < |rs| ==> CumReturns(rs)[k] > 0.0
  {
    forall k | 0 <= k < |rs| ensures CumReturns(rs)[k] > 0.0 {
      var pre := rs[..k + 1];
      assert AboveMinusOne(pre) by {
        forall j | 0 <= j < |pre| ensures pre[j] > -1.0 { assert pre[j] == rs[j]; }
      }
      GrowthPositive(pre);
    }
  }

  /** The compounded value starts at `1 + r0` and each date multiplies the
      previous one by `1 + r`. */
  lemma {:induction false} CumStep(rs: seq<real>, k: nat)
    requires k < |rs|
    ensures CumReturns(rs)[k] == (if k == 0 then 1.0 else CumReturns(rs)[k - 1]) * (1.0 + rs[k])
  {
    var w := rs[..k + 1];
    assert w[..k] == rs[..k] && w[k] == rs[k];
    assert Growth(w) == Growth(rs[..k]) * (1.0 + rs[k]);
    if k == 0 {
      assert rs[..0] == [];
    }
  }

  /** The peak is at least the compounded value at every date and is reached
      by some date up to it. */
  lemma {:induction false} PeakAboveCum(cs: seq<real>, k: nat)
    requires k < |cs|
    ensures cs[k] <= Peaks(cs)[k]
    ensures exists j :: 0 <= j <= k && cs[j] == Peaks(cs)[k]
  {
    var w := cs[..k + 1];
    assert w[k] == cs[k];
    var j :| 0 <= j < |w| && w[j] == SeqMax(w);
    assert cs[j] == w[j];
  }

  /** The peak never decreases over time. */
  lemma {:induction false} PeakMonotone(cs: seq<real>, i: nat, k: nat)
    requires i <= k < |cs|
    ensures Peaks(cs)[i] <= Peaks(cs)[k]
  {
    var u := cs[..i + 1];
    var w := cs[..k + 1];
    var j :| 0 <= j < |u| && u[j] == SeqMax(u);
    assert w[j] == u[j];
  }

  /** The peak is updated like an accumulator: the larger of the previous
      peak and today's compounded value. */
  lemma {:induction false} PeakStep(cs: seq<real>, k: nat)
    requires 0 < k < |cs|
    ensures Peaks(cs)[k] == if cs[k] > Peaks(cs)[k - 1] then cs[k] else Peaks(cs)[k - 1]
  {
    var w := cs[..k + 1];
    assert w[..k] == cs[..k];
    assert w[k] == cs[k];
  }

  /** The worst drawdown of one ticker's returns in Date order. */
  function MaxDrawdown(rs: seq<real>): real
    requires |rs| > 0 && AboveMinusOne(rs)
  {
    var cs := CumReturns(rs);
    CumPositive(rs);
    PeaksPositive(cs);
    SeqMin(Drawdowns(cs, Peaks(cs)))
  }

  lemma {:induction false} PeaksPositive(cs: seq<real>)
    requires forall k :: 0 <= k < |cs| ==> cs[k] > 0.0
    ensures forall k :: 0 <= k < |cs| ==> Peaks(cs)[k] >= cs[k] > 0.0
  {
    forall k | 0 <= k < |cs| ensures Peaks(cs)[k] >= cs[k] {
      PeakAboveCum(cs, k);
    }
  }

  /** A ratio of a positive value to a value at least as large lies in (0, 1]. */
  lemma RatioBounds(c: real, p: real)
    requires 0.0 < c <= p
    ensures 0.0 < c / p <= 1.0
  {
  }

  /** `MIN(cum_return / peak - 1)` lies in (-1, 0]: a ticker never loses all
      of its value, and a drawdown is never a gain. */
  lemma {:induction false} MaxDrawdownBounds(rs: seq<real>)
    requires |rs| > 0 && AboveMinusOne(rs)
    ensures -1.0 < MaxDrawdown(rs) <= 0.0
  {
    var cs := CumReturns(rs);
    CumPositive(rs);
    PeaksPositive(cs);
    var ps := Peaks(cs);
    var ds := Drawdowns(cs, ps);
    var j :| 0 <= j < |ds| && ds[j] == SeqMin(ds);
    RatioBounds(cs[j], ps[j]);
  }

  lemma GrowthNotBelow(c: real, f: real)
    requires c > 0.0 && f >= 1.0
    ensures c * f >= c
  {
    assert c * f - c == c * (f - 1.0);
    if f > 1.0 {
      PositiveProduct(c, f - 1.0);
    }
  }

  /** Without negative returns the compounded value never falls. */
  lemma {:induction false} CumNonDecreasing(rs: seq<real>, i: nat, k: nat)
    requires forall j :: 0 <= j < |rs| ==> rs[j] >= 0.0
    requires i <= k < |rs|
    ensures CumReturns(rs)[i] <= CumReturns(rs)[k]
    decreases k - i
  {
    if i < k {
      CumNonDecreasing(rs, i, k - 1);
      assert AboveMinusOne(rs);
      CumPositive(rs);
      CumStep(rs, k);
      GrowthNotBelow(CumReturns(rs)[k - 1], 1.0 + rs[k]);
    }
  }

  /** If every return of a ticker is non-negative, the peak is the compounded
      value itself at every date. */
  lemma {:induction false} NoLossPeaks(rs: seq<real>)
    requires forall k :: 0 <= k < |rs| ==> rs[k] >= 0.0
    ensures Peaks(CumReturns(rs)) == CumReturns(rs)
  {
    var cs := CumReturns(rs);
    var ps := Peaks(cs);
    forall k | 0 <= k < |cs| ensures ps[k] == cs[k] {
      PeakAboveCum(cs, k);
      var j :| 0 <= j <= k && cs[j] == ps[k];
      CumNonDecreasing(rs, j, k);
    }
  }

  lemma SelfRatio(c: real)
    requires c != 0.0
    ensures c / c - 1.0 == 0.0
  {
  }

  /** If every return of a ticker is non-negative, its worst drawdown is 0. */
  lemma {:induction false} NoLossNoDrawdown(rs: seq<real>)
    requires |rs| > 0 && forall k :: 0 <= k < |rs| ==> rs[k] >= 0.0
    ensures AboveMinusOne(rs)
    ensures MaxDrawdown(rs) == 0.0
  {
    var cs := CumReturns(rs);
    CumPositive(rs);
    PeaksPositive(cs);
    NoLossPeaks(rs);
    var ds := Drawdowns(cs, Peaks(cs));
    forall k | 0 <= k < |ds| ensures ds[k] == 0.0 {
      SelfRatio(cs[k]);
    }
    var j :| 0 <= j < |ds| && ds[j] == SeqMin(ds);
  }

  // ---------------------------------------------------------------------
  // The partitions in Date order (analytics/compute_kpis.py:41, 49)
  // ---------------------------------------------------------------------

  /** `ORDER BY Date` inside a partition. */
  predicate DateLe(x: DailyRow, y: DailyRow) {
    x.date <= y.date
  }

  lemma DateLeTotalPreorder()
    ensures TotalPreorder(DateLe)
  {
  }

  /** The rows of ticker `t` in Date order: the frame order of both windows. */
  function Window(daily: seq<DailyRow>, t: Ticker): seq<DailyRow> {
    SortBy(Group(daily, t), DateLe)
  }

  /** Every `1 + return` is positive, so that `LN` is defined on each row. */
  predicate GrowthDefined(daily: seq<DailyRow>) {
    forall k :: 0 <= k < |daily| ==> daily[k].ret > -1.0
  }

  /** A ticker's window holds its whole group, in Date order. */
  lemma {:induction false} WindowFacts(daily: seq<DailyRow>, t: Ticker)
    ensures |Window(daily, t)| == |Group(daily, t)|
    ensures multiset(Window(daily, t)) == multiset(Group(daily, t))
    ensures SortedBy(Window(daily, t), DateLe)
    ensures GrowthDefined(daily) ==> AboveMinusOne(Rets(Window(daily, t)))
  {
    var g := Group(daily, t);
    var w := Window(daily, t);
    DateLeTotalPreorder();
    SortBySorted(g, DateLe);
    if GrowthDefined(daily) {
      FilterMembers(daily, OfTicker(t));
      forall k | 0 <= k < |w| ensures Rets(w)[k] > -1.0 {
        assert w[k] in multiset(g);
        var i :| 0 <= i < |g| && g[i] == w[k];
        var j :| 0 <= j < |daily| && daily[j] == g[i];
      }
    }
  }

  /** One `drawdown_final` row. */
  function DrawdownFor(daily: seq<DailyRow>, t: Ticker): DrawdownRow
    requires GrowthDefined(daily) && t in Tickers(daily)
  {
    TickerHasRows(daily, t);
    WindowFacts(daily, t);
    DrawdownRow(t, MaxDrawdown(Rets(Window(daily, t))))
  }

  function DrawdownFinal(daily: seq<DailyRow>): (dd: seq<DrawdownRow>)
    requires GrowthDefined(daily)
    ensures |dd| == |Tickers(daily)|
  {
    var ts := Tickers(daily);
    seq(|ts|, i requires 0 <= i < |ts| => DrawdownFor(daily, ts[i]))
  }

  // ---------------------------------------------------------------------
  // The final SELECT (analytics/compute_kpis.py:61-70)
  // ---------------------------------------------------------------------

  /** `annual_return / NULLIF(volatility, 0)`: null when the volatility is
      null or zero. */
  function Sharpe(annualReturn: real, volatility: Option<real>): (s: Option<real>)
    ensures s.Some? <==> volatility.Some? && volatility.value != 0.0
    ensures s.Some? ==> s.value * volatility.value == annualReturn
  {
    match volatility
    case None => None
    case Some(v) => if v == 0.0 then None else Some(annualReturn / v)
  }

  /** The `drawdown_final` value matched by `ON s.ticker = d.ticker`, or null. */
  function Lookup(dd: seq<DrawdownRow>, t: Ticker): (m: Option<real>)
    ensures m.Some? <==> exists k :: 0 <= k < |dd| && dd[k].ticker == t
  {
    if dd == [] then None
    else if dd[0].ticker == t then Some(dd[0].maxDrawdown)
    else
      assert forall k :: 0 < k < |dd| ==> dd[k] == dd[1..][k - 1];
      Lookup(dd[1..], t)
  }

  /** `LEFT JOIN drawdown_final d ON s.ticker = d.ticker`, projected. */
  function Join(s: StatsRow, dd: seq<DrawdownRow>): AssetKpi {
    AssetKpi(s.ticker, s.annualReturn, s.volatility, Sharpe(s.annualReturn, s.volatility),
             Lookup(dd, s.ticker), s.nObs)
  }

  function Kpis(daily: seq<DailyRow>, sqrt: real -> real): (kpis: seq<AssetKpi>)
    requires GrowthDefined(daily)
    ensures |kpis| == |Tickers(daily)|
  {
    var stats := Stats(daily, sqrt);
    var dd := DrawdownFinal(daily);
    seq(|stats|, i requires 0 <= i < |stats| => Join(stats[i], dd))
  }

  /** The whole query over the cleaned price table.  `sqrt` stands for the
      engine's square root. */
  function ComputeKpis(prices: seq<CleanRow>, sqrt: real -> real): Result<seq<AssetKpi>, KpiError> {
    var daily := Daily(prices);
    if GrowthDefined(daily) then Success(Kpis(daily, sqrt)) else Failure(LogOfNonPositive)
  }

  // ---------------------------------------------------------------------
  // Properties of the KPI table
  // ---------------------------------------------------------------------

  /** The KPI row of ticker `t`, computed from its own group alone. */
  function KpiFor(daily: seq<DailyRow>, t: Ticker, sqrt: real -> real): AssetKpi
    requires GrowthDefined(daily) && t in Tickers(daily)
  {
    var s := StatsFor(daily, t, sqrt);
    AssetKpi(t, s.annualReturn, s.volatility, Sharpe(s.annualReturn, s.volatility),
             Some(DrawdownFor(daily, t).maxDrawdown), s.nObs)
  }

  /** With distinct tickers, the join finds the row of the ticker itself. */
  lemma {:induction false} LookupAt(dd: seq<DrawdownRow>, i: nat)
    requires i < |dd|
    requires forall a, b :: 0 <= a < b < |dd| ==> dd[a].ticker != dd[b].ticker
    ensures Lookup(dd, dd[i].ticker) == Some(dd[i].maxDrawdown)
  {
    if i > 0 {
      assert dd[0].ticker != dd[i].ticker;
      assert dd[1..][i - 1] == dd[i];
      LookupAt(dd[1..], i - 1);
    }
  }

  /** Every row of the result is its ticker's own KPI row: the LEFT JOIN
      always finds the ticker's drawdown, since both sides group the same
      `daily` rows. */
  lemma {:induction false} KpiRow(daily: seq<DailyRow>, sqrt: real -> real, i: nat)
    requires GrowthDefined(daily) && i < |Kpis(daily, sqrt)|
    ensures Kpis(daily, sqrt)[i].ticker in Tickers(daily)
    ensures Kpis(daily, sqrt)[i] == KpiFor(daily, Tickers(daily)[i], sqrt)
  {
    var ts := Tickers(daily);
    var dd := DrawdownFinal(daily);
    assert forall a :: 0 <= a < |dd| ==> dd[a].ticker == ts[a];
    LookupAt(dd, i);
  }

  /** The result has exactly one row per ticker that has at least one
      non-null return, and no other rows. */
  lemma {:induction false} OneRowPerTicker(prices: seq<CleanRow>, sqrt: real -> real)
    requires ComputeKpis(prices, sqrt).Success?
    ensures var kpis := ComputeKpis(prices, sqrt).value;
      forall i, j :: 0 <= i < j < |kpis| ==> kpis[i].ticker != kpis[j].ticker
    ensures var kpis := ComputeKpis(prices, sqrt).value;
      forall t :: (exists i :: 0 <= i < |kpis| && kpis[i].ticker == t) <==> Count(prices, HasReturnFor(t)) > 0
  {
    var daily := Daily(prices);
    var kpis := Kpis(daily, sqrt);
    var ts := Tickers(daily);
    forall i | 0 <= i < |kpis| ensures kpis[i].ticker == ts[i] {
      KpiRow(daily, sqrt, i);
    }
    forall t ensures (exists i :: 0 <= i < |kpis| && kpis[i].ticker == t) <==> Count(prices, HasReturnFor(t)) > 0 {
      GroupCount(prices, t);
      CountPositive(daily, OfTicker(t));
      if t in ts {
        var i :| 0 <= i < |ts| && ts[i] == t;
        assert kpis[i].ticker == t;
      }
    }
  }

  /** The rows of ticker `t` in `daily` are as many as its non-null returns. */
  lemma GroupCount(prices: seq<CleanRow>, t: Ticker)
    ensures |Group(Daily(prices), t)| == Count(prices, HasReturnFor(t))
    ensures Count(Daily(prices), OfTicker(t)) == Count(prices, HasReturnFor(t))
  {
    GroupReturns(prices, t);
  }

  /** Each row of the result holds its ticker's statistics: `n_obs` counts
      its non-null returns, `annual_return` is 252 times their mean, the
      volatility and Sharpe ratio are those of the same returns, and the
      drawdown is the worst fall of the returns compounded in Date order. */
  lemma {:induction false} KpiRowFacts(prices: seq<CleanRow>, sqrt: real -> real, i: nat)
    requires ComputeKpis(prices, sqrt).Success? && i < |ComputeKpis(prices, sqrt).value|
    ensures var r := ComputeKpis(prices, sqrt).value[i];
      && r.nObs == Count(prices, HasReturnFor(r.ticker)) == |NonNullReturns(prices, r.ticker)| > 0
      && r.annualReturn == Mean(NonNullReturns(prices, r.ticker)) * TradingDays
      && r.volatility == Volatility(NonNullReturns(prices, r.ticker), sqrt)
      && r.sharpe == Sharpe(r.annualReturn, r.volatility)
      && r.maxDrawdown.Some?
      && -1.0 < r.maxDrawdown.value <= 0.0
  {
    var daily := Daily(prices);
    var r := Kpis(daily, sqrt)[i];
    KpiRow(daily, sqrt, i);
    var t := r.ticker;
    TickerHasRows(daily, t);
    GroupReturns(prices, t);
    WindowFacts(daily, t);
    MaxDrawdownBounds(Rets(Window(daily, t)));
  }

  /** `LN(1 + return)` is defined on every `daily` row exactly when every
      non-null return of the price table is above -1. */
  lemma {:induction false} GrowthDefinedIff(prices: seq<CleanRow>)
    ensures GrowthDefined(Daily(prices)) <==>
      forall k :: 0 <= k < |prices| && prices[k].ret.Some? ==> prices[k].ret.value > -1.0
  {
    var daily := Daily(prices);
    DailyFromPrices(prices);
    if !GrowthDefined(daily) {
      var k :| 0 <= k < |daily| && daily[k].ret <= -1.0;
      assert KeptFrom(daily[k], prices);
      var j :| 0 <= j < |prices| && IsDailyOf(daily[k], prices[j]);
    }
    if exists k :: 0 <= k < |prices| && prices[k].ret.Some? && prices[k].ret.value <= -1.0 {
      var k :| 0 <= k < |prices| && prices[k].ret.Some? && prices[k].ret.value <= -1.0;
      PriceInDaily(prices, k);
      var j :| 0 <= j < |daily| && daily[j] == DailyRow(prices[k].ticker, prices[k].date, prices[k].ret.value);
    }
  }

  /** The query fails exactly when some non-null return is -1 or below, where
      `LN(1 + return)` is undefined. */
  lemma ComputeKpisFails(prices: seq<CleanRow>, sqrt: real -> real)
    ensures ComputeKpis(prices, sqrt).Failure? <==>
      exists k :: 0 <= k < |prices| && prices[k].ret.Some? && prices[k].ret.value <= -1.0
  {
    GrowthDefinedIff(prices);
  }

  /** Every price row with a non-null return reaches `daily` as its ticker,
      Date and return. */
  lemma {:induction false} PriceInDaily(prices: seq<CleanRow>, k: nat)
    requires k < |prices| && prices[k].ret.Some?
    ensures DailyRow(prices[k].ticker, prices[k].date, prices[k].ret.value) in Daily(prices)
  {
    var pre := prices[..|prices| - 1];
    var x := prices[|prices| - 1];
    var d := Daily(prices);
    var tail := if x.ret.Some? then [DailyRow(x.ticker, x.date, x.ret.value)] else [];
    assert d == Daily(pre) + tail;
    if k < |pre| {
      assert prices[k] == pre[k];
      PriceInDaily(pre, k);
    } else {
      assert d[|d| - 1] == tail[0];
    }
  }

  /** A price row of another ticker. */
  function RowOf(t: Ticker): CleanRow -> bool {
    (x: CleanRow) => x.ticker == t
  }

  lemma DailySnoc(pre: seq<CleanRow>, x: CleanRow)
    ensures Daily(pre + [x]) == Daily(pre) + (if x.ret.Some? then [DailyRow(x.ticker, x.date, x.ret.value)] else [])
  {
    assert (pre + [x])[..|pre|] == pre;
  }

  lemma FilterSnoc<T>(pre: seq<T>, x: T, p: T -> bool)
    ensures Filter(pre + [x], p) == Filter(pre, p) + (if p(x) then [x] else [])
  {
    assert (pre + [x])[..|pre|] == pre;
  }

  /** Grouping `daily` by ticker is the same as keeping the ticker's price
      rows first. */
  lemma {:induction false} GroupOfDaily(prices: seq<CleanRow>, t: Ticker)
    ensures Group(Daily(prices), t) == Daily(Filter(prices, RowOf(t)))
  {
    if prices == [] {
      assert Daily(prices) == [];
    } else {
      var pre := prices[..|prices| - 1];
      var x := prices[|prices| - 1];
      assert prices == pre + [x];
      var fpre := Filter(pre, RowOf(t));
      GroupOfDaily(pre, t);
      DailySnoc(pre, x);
      FilterSnoc(pre, x, RowOf(t));
      if x.ret.Some? {
        var row := DailyRow(x.ticker, x.date, x.ret.value);
        FilterSnoc(Daily(pre), row, OfTicker(t));
        if x.ticker == t {
          DailySnoc(fpre, x);
          calc {
            Group(Daily(prices), t);
            Filter(Daily(pre) + [row], OfTicker(t));
            Group(Daily(pre), t) + [row];
            Daily(fpre) + [row];
            Daily(fpre + [x]);
            Daily(Filter(prices, RowOf(t)));
          }
        } else {
          assert fpre + [] == fpre;
          calc {
            Group(Daily(prices), t);
            Filter(Daily(pre) + [row], OfTicker(t));
            Group(Daily(pre), t);
            Daily(fpre);
            Daily(Filter(prices, RowOf(t)));
          }
        }
      } else {
        assert Daily(pre) + [] == Daily(pre);
        assert fpre + [] == fpre;
        if x.ticker == t {
          DailySnoc(fpre, x);
          calc {
            Group(Daily(prices), t);
            Group(Daily(pre), t);
            Daily(fpre);
            Daily(fpre + [x]);
            Daily(Filter(prices, RowOf(t)));
          }
        } else {
          calc {
            Group(Daily(prices), t);
            Group(Daily(pre), t);
            Daily(fpre);
            Daily(Filter(prices, RowOf(t)));
          }
        }
      }
    }
  }

  /** The KPI row of a ticker is a function of its group alone. */
  lemma KpiForGroupOnly(da: seq<DailyRow>, db: seq<DailyRow>, t: Ticker, sqrt: real -> real)
    requires GrowthDefined(da) && GrowthDefined(db) && t in Tickers(da) && t in Tickers(db)
    requires Group(da, t) == Group(db, t)
    ensures KpiFor(da, t, sqrt) == KpiFor(db, t, sqrt)
  {
    assert Rets(Group(da, t)) == Rets(Group(db, t));
    assert StatsFor(da, t, sqrt) == StatsFor(db, t, sqrt);
    assert Window(da, t) == Window(db, t);
    assert DrawdownFor(da, t) == DrawdownFor(db, t);
  }

  /** A ticker's KPI row depends only on that ticker's own price rows:
      changing or removing the rows of other tickers leaves it unchanged. */
  lemma {:induction false} KpisIgnoreOtherTickers(a: seq<CleanRow>, b: seq<CleanRow>, sqrt: real -> real, i: nat, j: nat)
    requires ComputeKpis(a, sqrt).Success? && ComputeKpis(b, sqrt).Success?
    requires i < |ComputeKpis(a, sqrt).value| && j < |ComputeKpis(b, sqrt).value|
    requires ComputeKpis(a, sqrt).value[i].ticker == ComputeKpis(b, sqrt).value[j].ticker
    requires Filter(a, RowOf(ComputeKpis(a, sqrt).value[i].ticker)) == Filter(b, RowOf(ComputeKpis(a, sqrt).value[i].ticker))
    ensures ComputeKpis(a, sqrt).value[i] == ComputeKpis(b, sqrt).value[j]
  {
    var da := Daily(a);
    var db := Daily(b);
    var t := Kpis(da, sqrt)[i].ticker;
    KpiRow(da, sqrt, i);
    KpiRow(db, sqrt, j);
    GroupOfDaily(a, t);
    GroupOfDaily(b, t);
    KpiForGroupOnly(da, db, t, sqrt);
  }

  /** The Sharpe ratio of a ticker is null exactly when it has a single
      return or all its returns are equal (zero volatility); otherwise it is
      the annual return over the volatility. */
  lemma SharpeNull(rs: seq<real>, sqrt: real -> real)
    requires IsSqrt(sqrt) && |rs| > 0
    ensures var annual := Mean(rs) * TradingDays;
      Sharpe(annual, Volatility(rs, sqrt)).None? <==>
        |rs| < 2 || forall k :: 0 <= k < |rs| ==> rs[k] == rs[0]
  {
    if |rs| >= 2 {
      VolatilityZero(rs, sqrt);
      VarianceZeroIffConstant(rs);
    }
  }

  // ---------------------------------------------------------------------
  // The cleaning stage feeding the KPI stage
  // ---------------------------------------------------------------------

  /** The query never fails on the output of the cleaning stage, whose
      returns all come from positive prices. */
  lemma CleanPipelineSucceeds(w: WideTable, sqrt: real -> real)
    requires WellFormed(w)
    ensures ComputeKpis(CleanPrices.CleanPrices(w), sqrt).Success?
  {
    var prices := CleanPrices.CleanPrices(w);
    CleanReturnsAboveMinusOne(w);
    ComputeKpisFails(prices, sqrt);
    forall k | 0 <= k < |prices| && prices[k].ret.Some? ensures prices[k].ret.value > -1.0 {
      assert prices[k] in prices;
    }
  }

  /** With no missing prices over at least two dates, every ticker of the
      wide table gets a KPI row counting one fewer observations than dates. */
  lemma {:induction false} CleanPipelineObservations(w: WideTable, sqrt: real -> real, t: Ticker)
    requires WellFormed(w) && DistinctTickers(w) && NoMissingPrices(w)
    requires t in w.tickers && |w.rows| >= 2
    ensures ComputeKpis(CleanPrices.CleanPrices(w), sqrt).Success?
    ensures var kpis := ComputeKpis(CleanPrices.CleanPrices(w), sqrt).value;
      exists i :: 0 <= i < |kpis| && kpis[i].ticker == t && kpis[i].nObs == |w.rows| - 1
  {
    var prices := CleanPrices.CleanPrices(w);
    CleanPipelineSucceeds(w, sqrt);
    NonNullReturnCount(w, t);
    OneRowPerTicker(prices, sqrt);
    var kpis := ComputeKpis(prices, sqrt).value;
    var i :| 0 <= i < |kpis| && kpis[i].ticker == t;
    KpiRowFacts(prices, sqrt, i);
  }
}
