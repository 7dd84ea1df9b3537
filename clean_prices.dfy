/** The price-cleaning stage (processing/clean_prices.py): the wide table of
    close prices, one row per date and one column per ticker, is melted into
    long (Date, ingestion_date, ticker, price) rows, sorted by (ticker, Date),
    and every row gets the simple return of its ticker's price since the
    ticker's previous row. */
module CleanPrices {
  import opened Tables

  type Ticker = string

  /** A trading day as a day number: only the order of dates matters here. */
  type Date = int

  /** The ingestion timestamp that the download stamps on every wide row. */
  type Stamp = int

  /** One wide row: its date, its ingestion stamp and one price cell per
      ticker column (None for a missing price). */
  datatype WideRow = WideRow(date: Date, ingestion: Stamp, cells: seq<Option<real>>)

  /** The wide table: the ticker column names and the rows. */
  datatype WideTable = WideTable(tickers: seq<Ticker>, rows: seq<WideRow>)

  /** A melted row, with the column order pandas gives it. */
  datatype LongRow = LongRow(date: Date, ingestion: Stamp, ticker: Ticker, price: Option<real>)

  /** A melted row with its return column attached. */
  datatype CleanRow = CleanRow(date: Date, ingestion: Stamp, ticker: Ticker, price: Option<real>, ret: Option<real>)

  predicate Rectangular(w: WideTable) {
    forall i :: 0 <= i < |w.rows| ==> |w.rows[i].cells| == |w.tickers|
  }

  /** Close prices that are present are positive. */
  predicate PricesPositive(w: WideTable) {
    forall i, j :: 0 <= i < |w.rows| && 0 <= j < |w.rows[i].cells| && w.rows[i].cells[j].Some? ==>
      w.rows[i].cells[j].value > 0.0
  }

  predicate WellFormed(w: WideTable) {
    Rectangular(w) && PricesPositive(w)
  }

  /** Column names of a table are distinct. */
  predicate DistinctTickers(w: WideTable) {
    forall a, b :: 0 <= a < b < |w.tickers| ==> w.tickers[a] != w.tickers[b]
  }

  predicate NoMissingPrices(w: WideTable) {
    forall i, j :: 0 <= i < |w.rows| && 0 <= j < |w.rows[i].cells| ==> w.rows[i].cells[j].Some?
  }

  predicate PositiveRows(rows: seq<LongRow>) {
    forall x :: x in rows && x.price.Some? ==> x.price.value > 0.0
  }

  // ---------------------------------------------------------------------
  // Melt (processing/clean_prices.py:10-14)
  // ---------------------------------------------------------------------

  /** The long row for wide row `i` and ticker column `j`. */
  function Cell(w: WideTable, i: nat, j: nat): LongRow
    requires Rectangular(w) && i < |w.rows| && j < |w.tickers|
  {
    LongRow(w.rows[i].date, w.rows[i].ingestion, w.tickers[j], w.rows[i].cells[j])
  }

  /** Ticker column `j` melted: one long row per wide row, in row order. */
  function Column(w: WideTable, j: nat): (col: seq<LongRow>)
    requires Rectangular(w) && j < |w.tickers|
    ensures |col| == |w.rows|
    ensures PricesPositive(w) ==> PositiveRows(col)
    ensures NoMissingPrices(w) ==> forall x :: x in col ==> x.price.Some?
  {
    seq(|w.rows|, i requires 0 <= i < |w.rows| => Cell(w, i, j))
  }

  /** Columns `j..` melted one after the other, as `DataFrame.melt` stacks them. */
  function MeltFrom(w: WideTable, j: nat): (r: seq<LongRow>)
    requires Rectangular(w) && j <= |w.tickers|
    ensures PricesPositive(w) ==> PositiveRows(r)
    ensures NoMissingPrices(w) ==> forall x :: x in r ==> x.price.Some?
    decreases |w.tickers| - j
  {
    if j == |w.tickers| then [] else Column(w, j) + MeltFrom(w, j + 1)
  }

  function Melt(w: WideTable): (r: seq<LongRow>)
    requires Rectangular(w)
    ensures PricesPositive(w) ==> PositiveRows(r)
    ensures NoMissingPrices(w) ==> forall x :: x in r ==> x.price.Some?
  {
    MeltFrom(w, 0)
  }

  /** `n` columns of `r` rows each: where column `n` starts in the melted table. */
  function Offset(n: nat, r: nat): nat {
    if n == 0 then 0 else Offset(n - 1, r) + r
  }

  lemma {:induction false} OffsetIsProduct(n: nat, r: nat)
    ensures Offset(n, r) == n * r
  {
    if n > 0 {
      OffsetIsProduct(n - 1, r);
      assert n * r == (n - 1) * r + r;
    }
  }

  lemma {:induction false} MeltFromLength(w: WideTable, j: nat)
    requires Rectangular(w) && j <= |w.tickers|
    ensures |MeltFrom(w, j)| == Offset(|w.tickers| - j, |w.rows|)
    decreases |w.tickers| - j
  {
    if j < |w.tickers| {
      MeltFromLength(w, j + 1);
    }
  }

  lemma {:induction false} MeltFromCell(w: WideTable, j: nat, c: nat, i: nat)
    requires Rectangular(w) && j <= c < |w.tickers| && i < |w.rows|
    ensures Offset(c - j, |w.rows|) + i < |MeltFrom(w, j)|
    ensures MeltFrom(w, j)[Offset(c - j, |w.rows|) + i] == Cell(w, i, c)
    decreases |w.tickers| - j
  {
    var col := Column(w, j);
    var rest := MeltFrom(w, j + 1);
    assert MeltFrom(w, j) == col + rest;
    if c > j {
      MeltFromCell(w, j + 1, c, i);
      assert Offset(c - j, |w.rows|) == Offset(c - (j + 1), |w.rows|) + |col|;
    }
  }

  /** Melting yields one long row per (wide row, ticker column) pair. */
  lemma {:induction false} MeltLength(w: WideTable)
    requires Rectangular(w)
    ensures |Melt(w)| == |w.tickers| * |w.rows|
  {
    MeltFromLength(w, 0);
    OffsetIsProduct(|w.tickers|, |w.rows|);
  }

  /** The long row of wide row `i` and ticker column `c` sits at `c * |rows| + i`
      (columns are stacked ticker by ticker); it carries the wide row's Date and
      ingestion stamp unchanged and that ticker's cell as its price. */
  lemma {:induction false} MeltCell(w: WideTable, c: nat, i: nat)
    requires Rectangular(w) && c < |w.tickers| && i < |w.rows|
    ensures c * |w.rows| + i < |Melt(w)|
    ensures Melt(w)[c * |w.rows| + i] ==
      LongRow(w.rows[i].date, w.rows[i].ingestion, w.tickers[c], w.rows[i].cells[c])
  {
    MeltFromCell(w, 0, c, i);
    OffsetIsProduct(c, |w.rows|);
  }

  // ---------------------------------------------------------------------
  // Sort by (ticker, Date) (processing/clean_prices.py:16)
  // ---------------------------------------------------------------------

  /** Python's string order: lexicographic by code point. */
  predicate StrLe(a: string, b: string)
    decreases |a|
  {
    |a| == 0 || (|b| > 0 && (a[0] < b[0] || (a[0] == b[0] && StrLe(a[1..], b[1..]))))
  }

  lemma {:induction false} StrLeTotal(a: string, b: string)
    ensures StrLe(a, b) || StrLe(b, a)
    decreases |a|
  {
    if |a| > 0 && |b| > 0 && a[0] == b[0] {
      StrLeTotal(a[1..], b[1..]);
    }
  }

  lemma {:induction false} StrLeTransitive(a: string, b: string, c: string)
    requires StrLe(a, b) && StrLe(b, c)
    ensures StrLe(a, c)
    decreases |a|
  {
    if |a| > 0 && a[0] == b[0] && b[0] == c[0] {
      StrLeTransitive(a[1..], b[1..], c[1..]);
    }
  }

  lemma {:induction false} StrLeAntisymmetric(a: string, b: string)
    requires StrLe(a, b) && StrLe(b, a)
    ensures a == b
    decreases |a|
  {
    if |a| > 0 {
      StrLeAntisymmetric(a[1..], b[1..]);
      assert a == [a[0]] + a[1..] && b == [b[0]] + b[1..];
    }
  }

  /** The sort key of `sort_values(["ticker", "Date"])`: `x` may come before `y`. */
  predicate KeyLe(x: LongRow, y: LongRow) {
    (x.ticker != y.ticker && StrLe(x.ticker, y.ticker)) || (x.ticker == y.ticker && x.date <= y.date)
  }

  lemma {:induction false} KeyLeTotalPreorder()
    ensures TotalPreorder(KeyLe)
  {
    forall x: LongRow, y: LongRow
      ensures KeyLe(x, y) || KeyLe(y, x)
    {
      StrLeTotal(x.ticker, y.ticker);
    }
    forall x: LongRow, y: LongRow, z: LongRow | KeyLe(x, y) && KeyLe(y, z)
      ensures KeyLe(x, z)
    {
      if x.ticker != y.ticker && y.ticker != z.ticker {
        StrLeTransitive(x.ticker, y.ticker, z.ticker);
        if x.ticker == z.ticker {
          StrLeAntisymmetric(x.ticker, y.ticker);
        }
      }
    }
  }

  // ---------------------------------------------------------------------
  // Per-ticker simple returns (processing/clean_prices.py:17)
  // ---------------------------------------------------------------------

  /** Index of the last row before `n` whose ticker is `t`: the row that
      `groupby("ticker")` places just before row `n` in `t`'s group. */
  function LastIndexOf(rows: seq<LongRow>, t: Ticker, n: nat): (j: Option<nat>)
    requires n <= |rows|
    ensures j.Some? ==>
      && j.value < n && rows[j.value].ticker == t
      && forall k :: j.value < k < n ==> rows[k].ticker != t
    ensures j.None? ==> forall k :: 0 <= k < n ==> rows[k].ticker != t
  {
    if n == 0 then None
    else if rows[n - 1].ticker == t then Some(n - 1)
    else LastIndexOf(rows, t, n - 1)
  }

  /** `pct_change` of one price over the previous one: null when either is missing. */
  function Pct(prev: Option<real>, cur: Option<real>): (r: Option<real>)
    requires prev.Some? ==> prev.value > 0.0
    ensures r.Some? <==> prev.Some? && cur.Some?
  {
    if prev.Some? && cur.Some? then Some(cur.value / prev.value - 1.0) else None
  }

  /** Applying a return to the previous price gives back the current price. */
  lemma PctGrowth(prev: Option<real>, cur: Option<real>)
    requires prev.Some? && prev.value > 0.0 && cur.Some?
    ensures prev.value * (1.0 + Pct(prev, cur).value) == cur.value
  {
  }

  /** The return of row `k` within its ticker's group; null for the group's first row. */
  function PctChange(rows: seq<LongRow>, k: nat): Option<real>
    requires PositiveRows(rows) && k < |rows|
  {
    match LastIndexOf(rows, rows[k].ticker, k)
    case None => None
    case Some(j) => assert rows[j] in rows; Pct(rows[j].price, rows[k].price)
  }

  /** The long columns of clean rows (everything but the return). */
  function Longs(out: seq<CleanRow>): (r: seq<LongRow>)
    ensures |r| == |out|
  {
    seq(|out|, k requires 0 <= k < |out| => LongRow(out[k].date, out[k].ingestion, out[k].ticker, out[k].price))
  }

  /** `df_long["return"] = df_long.groupby("ticker")["price"].pct_change()`:
      attaching the return column leaves the other columns as they were. */
  function AttachReturns(rows: seq<LongRow>): (out: seq<CleanRow>)
    requires PositiveRows(rows)
    ensures |out| == |rows|
  {
    seq(|rows|, k requires 0 <= k < |rows| =>
      CleanRow(rows[k].date, rows[k].ingestion, rows[k].ticker, rows[k].price, PctChange(rows, k)))
  }

  /** Attaching the return column leaves the other columns as they were. */
  lemma {:induction false} AttachReturnsKeepsColumns(rows: seq<LongRow>)
    requires PositiveRows(rows)
    ensures Longs(AttachReturns(rows)) == rows
  {
    var out := AttachReturns(rows);
    forall k | 0 <= k < |rows| ensures Longs(out)[k] == rows[k] {
      AttachedRow(rows, k);
    }
  }

  /** The whole cleaning stage: melt, sort by (ticker, Date), attach returns. */
  function CleanPrices(w: WideTable): seq<CleanRow>
    requires WellFormed(w)
  {
    var sorted := SortBy(Melt(w), KeyLe);
    assert forall x :: x in sorted ==> x in multiset(Melt(w));
    AttachReturns(sorted)
  }

  // ---------------------------------------------------------------------
  // Properties of the cleaned table
  // ---------------------------------------------------------------------

  /** The cleaned table has one row per (date, ticker) pair, holds exactly
      the melted rows, and is ordered by (ticker, Date). */
  lemma {:induction false} CleanPricesReshape(w: WideTable)
    requires WellFormed(w)
    ensures |CleanPrices(w)| == |w.tickers| * |w.rows|
    ensures multiset(Longs(CleanPrices(w))) == multiset(Melt(w))
    ensures SortedBy(Longs(CleanPrices(w)), KeyLe)
  {
    MeltLength(w);
    CleanPricesUnfold(w);
    AttachReturnsKeepsColumns(SortBy(Melt(w), KeyLe));
  }

  /** The cleaning stage is `AttachReturns` over the melted rows in sorted order. */
  lemma {:induction false} CleanPricesUnfold(w: WideTable)
    requires WellFormed(w)
    ensures var sorted := SortBy(Melt(w), KeyLe);
      && PositiveRows(sorted)
      && SortedBy(sorted, KeyLe)
      && multiset(sorted) == multiset(Melt(w))
      && CleanPrices(w) == AttachReturns(sorted)
  {
    var sorted := SortBy(Melt(w), KeyLe);
    assert forall x :: x in sorted ==> x in multiset(Melt(w));
    KeyLeTotalPreorder();
    SortBySorted(Melt(w), KeyLe);
  }

  /** Row `k` of `AttachReturns(rows)` is row `k` of `rows` with its group return. */
  lemma {:induction false} AttachedRow(rows: seq<LongRow>, k: nat)
    requires PositiveRows(rows) && k < |rows|
    ensures |AttachReturns(rows)| == |rows|
    ensures var x := AttachReturns(rows)[k];
      && x.date == rows[k].date && x.ingestion == rows[k].ingestion
      && x.ticker == rows[k].ticker && x.price == rows[k].price
      && x.ret == PctChange(rows, k)
  {
  }

  /** In rows ordered by (ticker, Date) a ticker's rows are contiguous: the
      group predecessor of row `k` is row `k - 1` when it has the same ticker,
      and there is none otherwise. */
  lemma {:induction false} SortedPredecessor(rows: seq<LongRow>, k: nat)
    requires SortedBy(rows, KeyLe) && k < |rows|
    ensures LastIndexOf(rows, rows[k].ticker, k) ==
      if k == 0 || rows[k - 1].ticker != rows[k].ticker then None else Some(k - 1)
  {
    var t := rows[k].ticker;
    if k > 0 && rows[k - 1].ticker != t {
      var last := LastIndexOf(rows, t, k);
      if last.Some? {
        var j := last.value;
        assert KeyLe(rows[j], rows[k - 1]) && KeyLe(rows[k - 1], rows[k]);
        StrLeAntisymmetric(t, rows[k - 1].ticker);
      }
    }
  }

  /** The return of a row whose group predecessor is the row just above it. */
  lemma {:induction false} ReturnAfterPredecessor(rows: seq<LongRow>, k: nat)
    requires PositiveRows(rows) && 0 < k < |rows|
    requires LastIndexOf(rows, rows[k].ticker, k) == Some(k - 1)
    ensures var out := AttachReturns(rows);
      && (out[k].ret.Some? <==> rows[k - 1].price.Some? && rows[k].price.Some?)
      && (out[k].ret.Some? ==> rows[k - 1].price.value * (1.0 + out[k].ret.value) == rows[k].price.value)
  {
    AttachedRow(rows, k);
    assert rows[k - 1] in rows;
    if rows[k - 1].price.Some? && rows[k].price.Some? {
      PctGrowth(rows[k - 1].price, rows[k].price);
    }
  }

  /** The first row of each ticker's run has a null return (never 0). */
  ghost predicate FirstReturnsNull(out: seq<CleanRow>) {
    forall k :: 0 <= k < |out| && (k == 0 || out[k - 1].ticker != out[k].ticker) ==> out[k].ret.None?
  }

  /** Every later row of a ticker's run has a return exactly when its price
      and the previous row's price are present, and the return carries the
      previous price to the current one: `prev * (1 + r) == cur`. */
  ghost predicate LaterReturnsChain(out: seq<CleanRow>) {
    forall k :: 0 < k < |out| && out[k - 1].ticker == out[k].ticker ==>
      Carries(out[k - 1].price, out[k].price, out[k].ret)
  }

  /** `r` is the return from price `prev` to price `cur`: present exactly when
      both prices are, and then `prev * (1 + r) == cur`. */
  ghost predicate Carries(prev: Option<real>, cur: Option<real>, r: Option<real>) {
    && (r.Some? <==> prev.Some? && cur.Some?)
    && (r.Some? ==> prev.value * (1.0 + r.value) == cur.value)
  }

  /** In rows ordered by (ticker, Date), the first row of each ticker gets a
      null return. */
  lemma {:induction false} SortedFirstReturns(rows: seq<LongRow>)
    requires PositiveRows(rows) && SortedBy(rows, KeyLe)
    ensures FirstReturnsNull(AttachReturns(rows))
  {
    var out := AttachReturns(rows);
    forall k | 0 <= k < |out| && (k == 0 || out[k - 1].ticker != out[k].ticker)
      ensures out[k].ret.None?
    {
      AttachedRow(rows, k);
      if k > 0 { AttachedRow(rows, k - 1); }
      SortedPredecessor(rows, k);
    }
  }

  /** In rows ordered by (ticker, Date), every row after the first of its
      ticker gets its price over the previous row's price, minus 1. */
  lemma {:induction false} SortedLaterReturns(rows: seq<LongRow>)
    requires PositiveRows(rows) && SortedBy(rows, KeyLe)
    ensures LaterReturnsChain(AttachReturns(rows))
  {
    var out := AttachReturns(rows);
    forall k | 0 < k < |out| && out[k - 1].ticker == out[k].ticker
      ensures Carries(out[k - 1].price, out[k].price, out[k].ret)
    {
      SortedLaterReturnAt(rows, k);
    }
  }

  /** One row of `SortedLaterReturns`. */
  lemma {:induction false} SortedLaterReturnAt(rows: seq<LongRow>, k: nat)
    requires PositiveRows(rows) && SortedBy(rows, KeyLe)
    requires 0 < k < |rows| && rows[k - 1].ticker == rows[k].ticker
    ensures var out := AttachReturns(rows);
      Carries(out[k - 1].price, out[k].price, out[k].ret)
  {
    AttachedRow(rows, k);
    AttachedRow(rows, k - 1);
    SortedPredecessor(rows, k);
    ReturnAfterPredecessor(rows, k);
  }

  /** `groupby("ticker").pct_change()` on the sorted table: each ticker's
      first return is null, and each later one is its price over the
      ticker's previous price, minus 1. */
  lemma {:induction false} CleanPricesReturns(w: WideTable)
    requires WellFormed(w)
    ensures FirstReturnsNull(CleanPrices(w))
    ensures LaterReturnsChain(CleanPrices(w))
  {
    CleanPricesUnfold(w);
    SortedFirstReturns(SortBy(Melt(w), KeyLe));
    SortedLaterReturns(SortBy(Melt(w), KeyLe));
  }

  lemma PositiveFactor(p: real, f: real, c: real)
    requires p > 0.0 && p * f == c && c > 0.0
    ensures f > 0.0
  {
  }

  /** Every return is above -1: a positive price over a positive price. */
  lemma {:induction false} ReturnsAboveMinusOne(rows: seq<LongRow>)
    requires PositiveRows(rows)
    ensures forall x :: x in AttachReturns(rows) && x.ret.Some? ==> x.ret.value > -1.0
  {
    var out := AttachReturns(rows);
    forall x | x in out && x.ret.Some?
      ensures x.ret.value > -1.0
    {
      var k :| 0 <= k < |out| && out[k] == x;
      AttachedRow(rows, k);
      assert rows[k] in rows;
      var j := LastIndexOf(rows, rows[k].ticker, k).value;
      assert rows[j] in rows;
      PctGrowth(rows[j].price, rows[k].price);
      PositiveFactor(rows[j].price.value, 1.0 + x.ret.value, rows[k].price.value);
    }
  }

  /** No cleaned return is -1 or below, since close prices are positive. */
  lemma {:induction false} CleanReturnsAboveMinusOne(w: WideTable)
    requires WellFormed(w)
    ensures forall x :: x in CleanPrices(w) && x.ret.Some? ==> x.ret.value > -1.0
  {
    CleanPricesUnfold(w);
    ReturnsAboveMinusOne(SortBy(Melt(w), KeyLe));
  }

  /** Which rows precede a row in its group depends only on the ticker column. */
  lemma {:induction false} LastIndexOfTickersOnly(a: seq<LongRow>, b: seq<LongRow>, t: Ticker, n: nat)
    requires n <= |a| == |b|
    requires forall k :: 0 <= k < |a| ==> a[k].ticker == b[k].ticker
    ensures LastIndexOf(a, t, n) == LastIndexOf(b, t, n)
  {
    if n > 0 {
      LastIndexOfTickersOnly(a, b, t, n - 1);
    }
  }

  /** A ticker's returns depend only on that ticker's own prices: changing
      the prices of other tickers leaves them unchanged. */
  lemma {:induction false} ReturnsIgnoreOtherTickers(a: seq<LongRow>, b: seq<LongRow>, t: Ticker)
    requires PositiveRows(a) && PositiveRows(b)
    requires |a| == |b|
    requires forall k :: 0 <= k < |a| ==> a[k].ticker == b[k].ticker
    requires forall k :: 0 <= k < |a| && a[k].ticker == t ==> a[k].price == b[k].price
    ensures forall k :: 0 <= k < |a| && a[k].ticker == t ==> AttachReturns(a)[k].ret == AttachReturns(b)[k].ret
  {
    forall k | 0 <= k < |a| && a[k].ticker == t
      ensures AttachReturns(a)[k].ret == AttachReturns(b)[k].ret
    {
      LastIndexOfTickersOnly(a, b, t, k);
    }
  }

  // ---------------------------------------------------------------------
  // Counting returns
  // ---------------------------------------------------------------------

  function TickerIs(t: Ticker): LongRow -> bool {
    (x: LongRow) => x.ticker == t
  }

  function HasReturnFor(t: Ticker): CleanRow -> bool {
    (x: CleanRow) => x.ticker == t && x.ret.Some?
  }

  lemma {:induction false} ColumnTickerCount(w: WideTable, c: nat, t: Ticker, m: nat)
    requires Rectangular(w) && c < |w.tickers| && m <= |w.rows|
    ensures Count(Column(w, c)[..m], TickerIs(t)) == if w.tickers[c] == t then m else 0
  {
    if m > 0 {
      ColumnTickerCount(w, c, t, m - 1);
      assert Column(w, c)[..m][..m - 1] == Column(w, c)[..m - 1];
    }
  }

  lemma {:induction false} MeltFromTickerCount(w: WideTable, j: nat, t: Ticker)
    requires Rectangular(w) && j <= |w.tickers| && DistinctTickers(w)
    ensures Count(MeltFrom(w, j), TickerIs(t)) == if t in w.tickers[j..] then |w.rows| else 0
    decreases |w.tickers| - j
  {
    if j < |w.tickers| {
      MeltFromTickerCount(w, j + 1, t);
      ColumnTickerCount(w, j, t, |w.rows|);
      assert Column(w, j)[..|w.rows|] == Column(w, j);
      CountAppend(Column(w, j), MeltFrom(w, j + 1), TickerIs(t));
      assert w.tickers[j..] == [w.tickers[j]] + w.tickers[j + 1..];
      if w.tickers[j] == t {
        forall k | j + 1 <= k < |w.tickers| ensures w.tickers[k] != t { }
      }
    }
  }

  /** With no missing prices, a row of ticker `t` has a return exactly when
      some earlier row has ticker `t`. */
  lemma {:induction false} ReturnPresentAt(rows: seq<LongRow>, t: Ticker, m: nat)
    requires PositiveRows(rows) && 0 < m <= |rows| && rows[m - 1].ticker == t
    requires forall x :: x in rows ==> x.price.Some?
    ensures AttachReturns(rows)[m - 1].ret.Some? <==> Count(rows[..m - 1], TickerIs(t)) > 0
  {
    AttachedRow(rows, m - 1);
    var before := rows[..m - 1];
    CountPositive(before, TickerIs(t));
    var last := LastIndexOf(rows, t, m - 1);
    assert rows[m - 1] in rows;
    if last.Some? {
      assert rows[last.value] in rows;
      assert before[last.value] == rows[last.value];
    } else {
      forall k | 0 <= k < |before| ensures before[k].ticker != t {
        assert before[k] == rows[k];
      }
    }
  }

  /** With no missing prices, each row after the first one of its ticker in
      `rows[..m]` has a return. */
  lemma {:induction false} ReturnCountPrefix(rows: seq<LongRow>, t: Ticker, m: nat)
    requires PositiveRows(rows) && m <= |rows|
    requires forall x :: x in rows ==> x.price.Some?
    ensures Count(AttachReturns(rows)[..m], HasReturnFor(t)) ==
      if Count(rows[..m], TickerIs(t)) == 0 then 0 else Count(rows[..m], TickerIs(t)) - 1
  {
    if m > 0 {
      var out := AttachReturns(rows);
      ReturnCountPrefix(rows, t, m - 1);
      assert out[..m][..m - 1] == out[..m - 1];
      assert rows[..m][..m - 1] == rows[..m - 1];
      AttachedRow(rows, m - 1);
      if rows[m - 1].ticker == t {
        ReturnPresentAt(rows, t, m);
      }
    }
  }

  /** Melting a table with distinct ticker columns gives each ticker one row per date. */
  lemma {:induction false} MeltTickerCount(w: WideTable, t: Ticker)
    requires Rectangular(w) && DistinctTickers(w) && t in w.tickers
    ensures Count(Melt(w), TickerIs(t)) == |w.rows|
  {
    MeltFromTickerCount(w, 0, t);
    assert w.tickers[0..] == w.tickers;
  }

  /** With no missing prices, sorted rows carry every price. */
  lemma {:induction false} SortedAllPresent(w: WideTable)
    requires WellFormed(w) && NoMissingPrices(w)
    ensures forall x :: x in SortBy(Melt(w), KeyLe) ==> x.price.Some?
  {
    var sorted := SortBy(Melt(w), KeyLe);
    assert forall x :: x in sorted ==> x in multiset(Melt(w));
  }

  /** With no missing prices, every ticker of the wide table gets exactly one
      fewer returns than there are dates. */
  lemma {:induction false} NonNullReturnCount(w: WideTable, t: Ticker)
    requires WellFormed(w) && DistinctTickers(w) && NoMissingPrices(w)
    requires t in w.tickers && |w.rows| > 0
    ensures Count(CleanPrices(w), HasReturnFor(t)) == |w.rows| - 1
  {
    var sorted := SortBy(Melt(w), KeyLe);
    CleanPricesUnfold(w);
    MeltTickerCount(w, t);
    CountPermutation(Melt(w), sorted, TickerIs(t));
    SortedAllPresent(w);
    ReturnCountPrefix(sorted, t, |sorted|);
    assert sorted[..|sorted|] == sorted;
    assert AttachReturns(sorted)[..|sorted|] == AttachReturns(sorted);
  }
}
