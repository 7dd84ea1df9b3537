# Asset allocation platform: cleaning, KPIs and scoring

This project models the three analytic stages of the asset allocation
platform and proves properties of them.

1. **Price cleaning** (`processing/clean_prices.py`). The wide table of daily
   close prices has one row per date and one column per ticker. It is melted
   into long `(Date, ingestion_date, ticker, price)` rows and sorted by
   `(ticker, Date)`. Each row then gets the simple return of its ticker's price
   since that ticker's previous row (`groupby("ticker").pct_change()`).
2. **KPIs** (`analytics/compute_kpis.py`). A chain of SQL common table
   expressions runs over the cleaned rows:
   - `daily` drops null returns.
   - `stats` computes the annualised mean (`AVG * 252`), the annualised sample
     standard deviation (`STDDEV * SQRT(252)`) and the observation count per
     ticker.
   - Cumulative growth `EXP(SUM(LN(1 + r)))` runs over each ticker's days in
     date order, next to its running peak.
   - The maximum drawdown is `MIN(cum / peak - 1)`.
   - The final select joins stats and drawdowns with a `LEFT JOIN`. The Sharpe
     ratio is `annual_return / NULLIF(volatility, 0)`.
3. **Scoring** (`models/asset_scoring.py`, `compute_asset_score`).
   - The Sharpe ratio and annual return are min-max normalised.
   - Volatility and max drawdown are negated and then min-max normalised.
   - The four scaled columns combine into
     `0.4 s + 0.3 r + 0.2 v + 0.1 d`.
   - The result is written as a `score` column into the caller's frame.
   - A copy of the frame, sorted by descending score, is returned.

## Layout

- `tables.dfy` (module `Tables`): nullable cells (`Option`), results that can
  fail (`Result`), and whole-column operations with their lemmas:
  - counting and filtering;
  - column minimum and maximum;
  - sorting by a total preorder.
- `clean_prices.dfy` (module `CleanPrices`): the cleaning stage, written as
  functions (the script is a chain of pure table transformations).
- `compute_kpis.dfy` (module `ComputeKpis`): each CTE as a function over the
  cleaned rows, with the lemmas about the KPI table.
- `asset_scoring.dfy` (module `AssetScoring`):
  - min-max scaling and the score column;
  - the class `KpiFrame`, standing for the caller's data frame that the
    function updates in place;
  - the method `ComputeAssetScore`.

## Decisions where the code is followed

- **Drawdown sign.** The comment in `models/asset_scoring.py:66` says both
  negated columns are "to minimise". Max drawdown is already at most 0,
  however, so after negation the *deepest* drawdown becomes the largest value
  and scales to 1. The model follows the code; `DeepestDrawdownScaledToOne`
  states the consequence. Read with `ScoreDominance`, a deeper drawdown never
  lowers the score.
- **Failed logarithm.** `LN(1 + r)` fails for a return of -1 or less. The whole
  query then raises an error, which the model gives as `Failure(LogOfNonPositive)`.
  `CleanPipelineSucceeds` shows that this cannot happen on the output of the
  cleaning stage, because prices are positive.
- **Single observation.** `STDDEV` of one value is NULL, so that volatility and
  its Sharpe ratio are null.
- **Empty frame.** `MinMaxScaler.fit_transform` rejects a frame with no rows;
  the model returns `Failure(EmptyFrame)` and leaves the frame unchanged.
- **Nulls in scaling.** The scaler ignores nulls when it fits and passes them
  through when it transforms. A zero range is replaced by 1, so a constant
  column scales to 0. A null in any of the four scaled columns makes the score
  null.
- **Nulls in ranking.** `sort_values(ascending=False)` puts null scores last.

## Model

| member | source | states |
|---|---|---|
| `Tables.SortBySorted` | processing/clean_prices.py:16 | sorting returns exactly the input rows (same multiset), ordered by the key relation |
| `CleanPrices.Column` | processing/clean_prices.py:10-14 | one ticker column melts to one long row per wide row; positive and present prices stay so |
| `CleanPrices.Melt` | processing/clean_prices.py:10-14 | the melted table keeps every price positive, and has no null price when the wide table has none |
| `CleanPrices.MeltLength` | processing/clean_prices.py:10-14 | the melted table has (number of tickers) × (number of dates) rows |
| `CleanPrices.MeltCell` | processing/clean_prices.py:10-14 | the cell of date row i and ticker column c becomes the row at c·rows + i, carrying that row's Date and ingestion stamp, the column's ticker and the cell's price |
| `CleanPrices.MeltTickerCount` | processing/clean_prices.py:10-14 | with distinct column names each ticker occurs in exactly one melted row per date |
| `CleanPrices.KeyLeTotalPreorder` | processing/clean_prices.py:16 | ordering by (ticker, Date) is total and transitive |
| `CleanPrices.LastIndexOf` | processing/clean_prices.py:17 | a row's group predecessor is the last earlier row of the same ticker, and there is none exactly when no earlier row has that ticker |
| `CleanPrices.Pct` | processing/clean_prices.py:17 | a return is present exactly when both prices are present |
| `CleanPrices.PctGrowth` | processing/clean_prices.py:17 | applying the return to the previous price gives the current price: prev·(1 + r) = cur |
| `CleanPrices.AttachReturnsKeepsColumns` | processing/clean_prices.py:17 | adding the return column leaves Date, ingestion stamp, ticker and price of every row unchanged |
| `CleanPrices.CleanPricesReshape` | processing/clean_prices.py:10-16 | the cleaned table has tickers × dates rows, holds exactly the melted rows and is sorted by (ticker, Date) |
| `CleanPrices.SortedPredecessor` | processing/clean_prices.py:16-17 | in the sorted table a ticker's rows are contiguous: the group predecessor is the row just above when it has the same ticker, and there is none otherwise |
| `CleanPrices.SortedFirstReturns` | processing/clean_prices.py:16-17 | in the sorted table each ticker's first row gets a null return |
| `CleanPrices.SortedLaterReturns` | processing/clean_prices.py:16-17 | in the sorted table every later row of a ticker has a return exactly when both prices are present, and it carries the previous price to the current one |
| `CleanPrices.SortedLaterReturnAt` | processing/clean_prices.py:16-17 | the same fact for one row |
| `CleanPrices.CleanPricesReturns` | processing/clean_prices.py:10-17 | cleaned output: each ticker's first return is null, and each later one is price / previous price − 1 (as prev·(1 + r) = cur), null when a price is missing |
| `CleanPrices.ReturnsAboveMinusOne` | processing/clean_prices.py:17 | with positive prices every present return is above −1 |
| `CleanPrices.CleanReturnsAboveMinusOne` | processing/clean_prices.py:10-17 | no cleaned return is −1 or below |
| `CleanPrices.LastIndexOfTickersOnly` | processing/clean_prices.py:17 | the group predecessor depends on the ticker column alone |
| `CleanPrices.ReturnsIgnoreOtherTickers` | processing/clean_prices.py:17 | a ticker's returns do not depend on the prices of other tickers |
| `CleanPrices.ReturnPresentAt` | processing/clean_prices.py:17 | with no missing price, a row has a return exactly when an earlier row has its ticker |
| `CleanPrices.ReturnCountPrefix` | processing/clean_prices.py:17 | with no missing price, a prefix holds one non-null return per row of the ticker except that ticker's first |
| `CleanPrices.NonNullReturnCount` | processing/clean_prices.py:10-17 | with distinct tickers and no missing price, each ticker has (number of dates − 1) non-null returns |
| `ComputeKpis.Daily` | analytics/compute_kpis.py:19-26 | `daily` has one row per price row whose return is not null |
| `ComputeKpis.DailyFromPrices` | analytics/compute_kpis.py:19-26 | every `daily` row is a price row with a non-null return, with its ticker, Date and return |
| `ComputeKpis.DailySource` | analytics/compute_kpis.py:19-26 | for each `daily` row, a price row with a non-null return whose ticker, Date and return it carries |
| `ComputeKpis.PriceInDaily` | analytics/compute_kpis.py:19-26 | every price row with a non-null return is in `daily` as its own ticker, Date and return |
| `ComputeKpis.NonNullReturns` | analytics/compute_kpis.py:19-26 | a ticker's non-null returns, as many as its rows with a return |
| `ComputeKpis.Rets` | analytics/compute_kpis.py:27-35 | the return column of a group, row for row |
| `ComputeKpis.GroupReturns` | analytics/compute_kpis.py:19-35 | the `daily` returns grouped under a ticker are that ticker's non-null returns in table order |
| `ComputeKpis.GroupOfDaily` | analytics/compute_kpis.py:19-35 | taking a ticker's `daily` rows is the same as computing `daily` over that ticker's price rows |
| `ComputeKpis.GroupCount` | analytics/compute_kpis.py:27-35 | `COUNT(*)` of a ticker is its number of price rows with a non-null return |
| `ComputeKpis.Tickers` | analytics/compute_kpis.py:33-34 | `GROUP BY ticker` yields each ticker once, and exactly the tickers that have a `daily` row |
| `ComputeKpis.TickerHasRows` | analytics/compute_kpis.py:33-34 | every group is non-empty |
| `ComputeKpis.Stats` | analytics/compute_kpis.py:27-35 | one `stats` row per ticker |
| `ComputeKpis.SumSquaresZero` | analytics/compute_kpis.py:31 | the sum of squared deviations is at least 0, and 0 exactly when every value equals the centre |
| `ComputeKpis.VarianceZeroIffConstant` | analytics/compute_kpis.py:31 | the sample variance is at least 0, and 0 exactly when all returns are equal |
| `ComputeKpis.VolatilityZero` | analytics/compute_kpis.py:31 | with at least two returns the volatility is present and at least 0, and 0 exactly when the variance is 0 |
| `ComputeKpis.GrowthPositive` | analytics/compute_kpis.py:41 | with every return above −1 the compounded growth is positive |
| `ComputeKpis.CumPositive` | analytics/compute_kpis.py:36-43 | every cumulative return is positive |
| `ComputeKpis.CumStep` | analytics/compute_kpis.py:36-43 | the cumulative return is the running product: the previous one (1 on the first day) times (1 + r) |
| `ComputeKpis.CumNonDecreasing` | analytics/compute_kpis.py:36-43 | with no negative return the cumulative return never falls |
| `ComputeKpis.PeakAboveCum` | analytics/compute_kpis.py:44-51 | the peak is at least the cumulative return, and is the cumulative return of some day so far |
| `ComputeKpis.PeakMonotone` | analytics/compute_kpis.py:44-51 | the peak never decreases over the days |
| `ComputeKpis.PeakStep` | analytics/compute_kpis.py:44-51 | each peak is the larger of the previous peak and the day's cumulative return |
| `ComputeKpis.PeaksPositive` | analytics/compute_kpis.py:44-51 | peaks are at least the cumulative returns and positive |
| `ComputeKpis.NoLossPeaks` | analytics/compute_kpis.py:44-51 | with no negative return the peak is the cumulative return itself |
| `ComputeKpis.MaxDrawdownBounds` | analytics/compute_kpis.py:52-59 | the max drawdown lies in (−1, 0] |
| `ComputeKpis.NoLossNoDrawdown` | analytics/compute_kpis.py:52-59 | with no negative return the max drawdown is 0 |
| `ComputeKpis.DateLeTotalPreorder` | analytics/compute_kpis.py:41 | `ORDER BY Date` is total and transitive |
| `ComputeKpis.WindowFacts` | analytics/compute_kpis.py:36-51 | a ticker's window holds exactly its `daily` rows, ordered by Date; when the logarithm is defined, all its returns are above −1 |
| `ComputeKpis.DrawdownFinal` | analytics/compute_kpis.py:52-59 | one `drawdown_final` row per ticker |
| `ComputeKpis.Sharpe` | analytics/compute_kpis.py:65 | the Sharpe ratio is null exactly when the volatility is null or 0, and otherwise times the volatility gives the annual return |
| `ComputeKpis.Lookup` | analytics/compute_kpis.py:68-69 | the left join finds a drawdown exactly when `drawdown_final` has a row for the ticker |
| `ComputeKpis.LookupAt` | analytics/compute_kpis.py:68-69 | with distinct tickers the join picks that ticker's own drawdown |
| `ComputeKpis.Kpis` | analytics/compute_kpis.py:61-70 | one output row per `stats` row |
| `ComputeKpis.KpiRow` | analytics/compute_kpis.py:61-70 | output row i is the KPI row of the i-th ticker, computed from that ticker's group |
| `ComputeKpis.OneRowPerTicker` | analytics/compute_kpis.py:18-70 | the output has distinct tickers, and a ticker appears exactly when it has at least one non-null return |
| `ComputeKpis.KpiRowFacts` | analytics/compute_kpis.py:18-70 | in each row: n_obs is the ticker's count of non-null returns (> 0); annual return = 252 × their mean; the volatility is theirs; the Sharpe ratio is annual / volatility guarded by NULLIF; the drawdown is present and in (−1, 0] |
| `ComputeKpis.SharpeNull` | analytics/compute_kpis.py:31-65 | the Sharpe ratio is null exactly when there is one observation or all returns are equal |
| `ComputeKpis.GrowthDefinedIff` | analytics/compute_kpis.py:41 | the logarithm is defined for every `daily` row exactly when no non-null return is −1 or below |
| `ComputeKpis.ComputeKpisFails` | analytics/compute_kpis.py:41 | the query fails exactly when some non-null return is −1 or below |
| `ComputeKpis.KpisIgnoreOtherTickers` | analytics/compute_kpis.py:27-70 | a ticker's KPI row depends only on its own price rows: two inputs with the same rows for it give the same KPI row |
| `ComputeKpis.KpiForGroupOnly` | analytics/compute_kpis.py:27-70 | a ticker's KPI row is a function of its group of `daily` rows |
| `ComputeKpis.CleanPipelineSucceeds` | analytics/compute_kpis.py:41 | on the output of the cleaning stage the query never fails |
| `ComputeKpis.CleanPipelineObservations` | analytics/compute_kpis.py:27-35 | for a full wide table of at least two dates, each ticker's row has n_obs = dates − 1 |
| `AssetScoring.Present` | models/asset_scoring.py:62-69 | the values the scaler fits on are at most the column's rows |
| `AssetScoring.PresentMembers` | models/asset_scoring.py:62-69 | the scaler fits on exactly the non-null values of the column |
| `AssetScoring.MinMax` | models/asset_scoring.py:62-69 | scaling keeps the column's length, and a value is null after scaling exactly when it was null before |
| `AssetScoring.ScaledBounds` | models/asset_scoring.py:62-69 | a value between the fitted minimum and maximum scales into [0, 1] |
| `AssetScoring.WithinFit` | models/asset_scoring.py:62-69 | every non-null value lies between the fitted minimum and maximum |
| `AssetScoring.MinMaxBounds` | models/asset_scoring.py:62-64 | every scaled value lies in [0, 1] |
| `AssetScoring.MinMaxMonotone` | models/asset_scoring.py:62-64 | scaling preserves the order of values |
| `AssetScoring.MinMaxBottom` | models/asset_scoring.py:62-64 | the column minimum scales to 0 |
| `AssetScoring.MinMaxTop` | models/asset_scoring.py:62-64 | the column maximum scales to 1 unless all values are equal |
| `AssetScoring.NegatedScalingReverses` | models/asset_scoring.py:67-69 | after negation a lower value scales at least as high as a higher one |
| `AssetScoring.NegatedBottom` | models/asset_scoring.py:67-69 | after negation the column maximum scales to 0 |
| `AssetScoring.NegatedTop` | models/asset_scoring.py:67-69 | after negation the column minimum scales to 1 unless all values are equal |
| `AssetScoring.DeepestDrawdownScaledToOne` | models/asset_scoring.py:66-69 | the deepest (most negative) max drawdown scales to 1, as the code is written |
| `AssetScoring.ScaleColumns` | models/asset_scoring.py:59-69 | `df_scaled` has the four scaled columns, each as long as the frame |
| `AssetScoring.Combine` | models/asset_scoring.py:72-77 | a row's score is present exactly when all four scaled values are |
| `AssetScoring.Scores` | models/asset_scoring.py:72-77 | one score per row |
| `AssetScoring.ScoreBounds` | models/asset_scoring.py:72-77 | a score is present exactly when Sharpe, volatility and drawdown are, and every score lies in [0, 1] |
| `AssetScoring.ScoreDominance` | models/asset_scoring.py:72-77 | an asset with Sharpe and return not lower and volatility and drawdown not higher than another does not score lower |
| `AssetScoring.RanksBeforeTotalPreorder` | models/asset_scoring.py:79 | descending score order with nulls last is total and transitive |
| `AssetScoring.ComputeAssetScore` | models/asset_scoring.py:29-79 | an empty frame fails and is left unchanged. Otherwise the KPI rows stay as they were, the frame gains the score column, and the result is those rows with their scores sorted by descending score, nulls last |

## Left out

- Reading and writing parquet files, the DuckDB connection, directory creation and console messages are left out: they are I/O around the modelled computations.
- `ingestion/fetch_market_data.py` (the download) and `dashboards/app.py` (the web dashboard) are not part of this model.
- Floating point: all arithmetic is on exact reals. IEEE rounding, `inf` and NaN other than as a null cell are not modelled.
- `ComputeKpis.VolatilityZero`: the square root is a parameter `sqrt`. Its properties (`IsSqrt`) are required only by the lemmas that need them; `SQRT(252)` is not evaluated.
- `ComputeKpis.CumStep`: `EXP(SUM(LN(1 + r)))` is modelled as the product of `(1 + r)`, which it equals in exact arithmetic. Only the domain error of `LN` is kept.
- `CleanPrices.Pct`: a null price makes its own return and the next return null. pandas releases before 3.0 forward-fill missing prices by default in `pct_change`; that fill is not modelled.
- `CleanPrices.PricesPositive`: close prices are required to be positive. A zero price, which makes pandas divide by zero, is not modelled.
- `CleanPrices.Melt`: Date and the ingestion stamp are integers, since only their order and identity matter. Dates are assumed never null.
- `ComputeKpis.WindowFacts`: each row's window is the rows before it in date order. When a ticker has two rows with the same Date, DuckDB's default frame treats them as peers sharing one value; this is not modelled. A melted wide table with distinct dates has no such rows.
- `ComputeKpis.Kpis`: the query has no `ORDER BY`, so its row order is unspecified. The model lists tickers in their first appearance in `daily`, and the lemmas state only per-row facts.
- `AssetScoring.MinMax`: scikit-learn treats a range below ten machine epsilons as zero. The model replaces only an exact zero range.
- `AssetScoring.ComputeAssetScore`: the order among rows with equal scores is not specified. The contract states sortedness and permutation only.
