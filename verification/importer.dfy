/**
 * The initial ledger import of init_db.py.
 *
 * The store is wiped and rebuilt from the allocation table: one holding and
 * one initial-buy transaction per row, a portfolio whose cash is the part of
 * the fixed 500,000.00 the rows did not spend, and one history point.
 */
module Import {
  import opened Wrappers
  import opened Records
  import Finalize
  import Allocation
  import Sorting

  /** The fixed value the portfolio starts at, 500,000.00. */
  const TargetPortfolioValue: Cents := 50_000_000

  /** The type recorded on every import transaction. */
  const BuyInit: string := "BUY (INIT)"

  /** The holding a row opens: bought and currently priced at its unit price, no previous price. */
  function HoldingOf(row: AllocationRow): (h: Holding)
    ensures h.ticker == row.symbol && h.quantity == row.amount && h.dividendYield == row.dividend
    ensures h.averageBuyPrice == row.pricePer && h.currentPrice == Some(row.pricePer)
    ensures h.previousPrice.None?
  {
    Holding(row.symbol, row.amount, row.pricePer, Some(row.pricePer), None, row.dividend)
  }

  /** The initial-buy log entry of a row. */
  function TransactionOf(row: AllocationRow, now: Instant): (t: Transaction)
    ensures t.timestamp == now && t.ticker == row.symbol && t.transactionType == BuyInit
    ensures t.amountShares == row.amount && t.pricePerShare == row.pricePer && t.totalValue == row.total
  {
    Transaction(now, row.symbol, BuyInit, row.amount, row.pricePer, row.total)
  }

  /** The store built from a table that commits. */
  function ImportRows(rows: seq<AllocationRow>, now: Instant): (r: Ledger)
    ensures r.portfolio.Some?
    ensures r.portfolio.value.cashBalance == TargetPortfolioValue - SumTotals(rows)
    ensures r.portfolio.value.totalNetWorth == TargetPortfolioValue
    ensures r.portfolio.value.cashBalance + SumTotals(rows) == r.portfolio.value.totalNetWorth
    ensures r.portfolio.value.lastUpdated == now
    ensures |r.holdings| == |rows| && |r.transactions| == |rows|
    ensures forall i :: 0 <= i < |rows| ==> r.holdings[i] == HoldingOf(rows[i])
    ensures forall i :: 0 <= i < |rows| ==> r.transactions[i] == TransactionOf(rows[i], now)
    ensures r.portfolioHistory == [PortfolioHistory(now, TargetPortfolioValue - SumTotals(rows), SumTotals(rows), TargetPortfolioValue)]
    ensures r.stockHistory == []
  {
    var cash := TargetPortfolioValue - SumTotals(rows);
    Ledger(
      Some(Portfolio(cash, TargetPortfolioValue, now)),
      seq(|rows|, i requires 0 <= i < |rows| => HoldingOf(rows[i])),
      seq(|rows|, i requires 0 <= i < |rows| => TransactionOf(rows[i], now)),
      [PortfolioHistory(now, cash, SumTotals(rows), TargetPortfolioValue)],
      [])
  }

  /** No two holdings share a ticker (the ticker is the Holding table's key). */
  predicate DistinctTickers(hs: seq<Holding>) {
    Sorting.DistinctBy(hs, (h: Holding) => h.ticker)
  }

  /**
   * The whole import. The prior store is deleted first, whatever it holds.
   * `csv` is None when the allocation file is missing or unreadable: the
   * tables are then created and left empty. A table naming a symbol twice
   * breaks the Holding key at commit, so nothing is written either.
   */
  function InitDatabase(prior: Ledger, csv: Option<seq<AllocationRow>>, now: Instant): (r: Ledger)
    ensures csv.None? ==> r == EmptyLedger
    ensures csv.Some? && !DistinctSymbols(csv.value) ==> r == EmptyLedger
    ensures csv.Some? && DistinctSymbols(csv.value) ==> r == ImportRows(csv.value, now)
    ensures DistinctTickers(r.holdings)
  {
    if csv.None? then EmptyLedger
    else if !DistinctSymbols(csv.value) then EmptyLedger
    else ImportRows(csv.value, now)
  }

  /** The reset is destructive: the result does not depend on the prior store. */
  lemma InitDatabaseForgetsPrior(a: Ledger, b: Ledger, csv: Option<seq<AllocationRow>>, now: Instant)
    ensures InitDatabase(a, csv, now) == InitDatabase(b, csv, now)
  {
  }

  lemma {:induction false} HoldingsValueOfRows(rows: seq<AllocationRow>, hs: seq<Holding>)
    requires RowsPriced(rows)
    requires |hs| == |rows|
    requires forall i :: 0 <= i < |rows| ==> hs[i] == HoldingOf(rows[i])
    ensures HoldingsValue(hs) == SumTotals(rows)
  {
    if |rows| > 0 {
      HoldingsValueOfRows(rows[1..], hs[1..]);
    }
  }

  /**
   * Importing a table whose TOTALs are share count times price yields a
   * consistent ledger: every holding is priced and net worth is cash plus
   * the holdings at those prices.
   */
  lemma ImportIsConsistent(rows: seq<AllocationRow>, now: Instant)
    requires RowsPriced(rows)
    ensures NetWorthConsistent(ImportRows(rows, now))
  {
    var l := ImportRows(rows, now);
    HoldingsValueOfRows(rows, l.holdings);
  }

  /**
   * Importing a table the solver saved (priced rows, distinct symbols, the
   * target spent to the cent): the import commits, leaves no cash, and the
   * ledger is consistent.
   */
  lemma ImportAfterSavedSolve(prior: Ledger, rows: seq<AllocationRow>, now: Instant)
    requires RowsPriced(rows) && DistinctSymbols(rows)
    requires SumTotals(rows) == Allocation.TargetTotal
    ensures InitDatabase(prior, Some(rows), now).portfolio == Some(Portfolio(0, TargetPortfolioValue, now))
    ensures |InitDatabase(prior, Some(rows), now).holdings| == |rows|
    ensures NetWorthConsistent(InitDatabase(prior, Some(rows), now))
  {
    ImportIsConsistent(rows, now);
  }

  /**
   * Importing what the finaliser wrote from a metrics table with distinct
   * symbols: the import commits, its cash is exactly the finaliser's
   * leftover and not negative, and the ledger is consistent.
   */
  lemma ImportAfterFinalize(prior: Ledger, metrics: seq<Finalize.MetricRow>, now: Instant)
    requires Finalize.DistinctMetricSymbols(metrics)
    requires Finalize.GenerateFinal(metrics).Success?
    ensures var l := InitDatabase(prior, Some(Finalize.GenerateFinal(metrics).value.rows), now);
            && |l.holdings| == |Finalize.GenerateFinal(metrics).value.rows|
            && l.portfolio.value.cashBalance == Finalize.GenerateFinal(metrics).value.leftover
            && l.portfolio.value.cashBalance >= 0
            && NetWorthConsistent(l)
  {
    var report := Finalize.GenerateFinal(metrics).value;
    Finalize.LeftoverNonNegative(metrics);
    Finalize.FinalRowsDistinct(metrics);
    ImportIsConsistent(report.rows, now);
  }
}
