/**
 * The record shapes of the persisted ledger (models.py) and of the
 * allocation hand-off table (the SYMBOL, PRICEPER, AMOUNT, TOTAL, DIVIDEND
 * file written by the solver and the finaliser and read by the importer).
 *
 * Money is held in integer cents, so every rounding to two decimals in the
 * program is exact here. Instants are wall-clock seconds.
 */
module Records {
  import opened Wrappers
  import Sorting

  /** An amount of money in cents. */
  type Cents = int

  /** A wall-clock instant, in seconds. */
  type Instant = int

  /** The singleton aggregate (Portfolio table). */
  datatype Portfolio = Portfolio(cashBalance: Cents, totalNetWorth: Cents, lastUpdated: Instant)

  /** One position, keyed by ticker (Holding table). */
  datatype Holding = Holding(
    ticker: string,
    quantity: int,
    averageBuyPrice: Cents,
    currentPrice: Option<Cents>,
    previousPrice: Option<Cents>,
    dividendYield: real)

  /** An entry of the append-only transaction log (Transaction table). */
  datatype Transaction = Transaction(
    timestamp: Instant,
    ticker: string,
    transactionType: string,
    amountShares: int,
    pricePerShare: Cents,
    totalValue: Cents)

  /** One point of the net-worth time series (PortfolioHistory table). */
  datatype PortfolioHistory = PortfolioHistory(date: Instant, cashBalance: Cents, assetsValue: Cents, totalValue: Cents)

  /** One point of a ticker's price series (StockHistory table). */
  datatype StockHistory = StockHistory(timestamp: Instant, ticker: string, price: Cents)

  /** The whole store. `portfolio` is None when the Portfolio table is empty. */
  datatype Ledger = Ledger(
    portfolio: Option<Portfolio>,
    holdings: seq<Holding>,
    transactions: seq<Transaction>,
    portfolioHistory: seq<PortfolioHistory>,
    stockHistory: seq<StockHistory>)

  /** A freshly created store: all tables exist and are empty. */
  const EmptyLedger := Ledger(None, [], [], [], [])

  /** One row of the allocation hand-off table. */
  datatype AllocationRow = AllocationRow(symbol: string, pricePer: Cents, amount: int, total: Cents, dividend: real)

  /** The TOTAL column of a row; the key the solver's export is sorted by. */
  function TotalOf(row: AllocationRow): Cents {
    row.total
  }

  /** The SYMBOL column of a row. */
  function SymbolOf(row: AllocationRow): string {
    row.symbol
  }

  /** One field of every record of a table, in table order. */
  function Column<T, U>(s: seq<T>, field: T -> U): (r: seq<U>)
    ensures |r| == |s|
    ensures forall i :: 0 <= i < |s| ==> r[i] == field(s[i])
  {
    seq(|s|, i requires 0 <= i < |s| => field(s[i]))
  }

  /** The set of values one field takes across a table: its symbols, when the field is the symbol. */
  function Keys<T, U>(s: seq<T>, key: T -> U): set<U> {
    set i | 0 <= i < |s| :: key(s[i])
  }

  /** The sum of the TOTAL column. */
  function SumTotals(rows: seq<AllocationRow>): Cents {
    if |rows| == 0 then 0 else rows[0].total + SumTotals(rows[1..])
  }

  /** True when a row's TOTAL is exactly its share count times its unit price. */
  predicate RowPriced(row: AllocationRow) {
    row.total == row.amount * row.pricePer
  }

  /** True when every row is priced. */
  predicate RowsPriced(rows: seq<AllocationRow>) {
    forall i :: 0 <= i < |rows| ==> RowPriced(rows[i])
  }

  /** Being priced is a property of the rows alone, not of their order. */
  lemma RowsPricedPermutation(a: seq<AllocationRow>, b: seq<AllocationRow>)
    requires multiset(a) == multiset(b)
    requires RowsPriced(a)
    ensures RowsPriced(b)
  {
    forall i | 0 <= i < |b|
      ensures RowPriced(b[i])
    {
      assert b[i] in multiset(a);
      var k :| 0 <= k < |a| && a[k] == b[i];
    }
  }

  /** True when no two rows name the same symbol. */
  predicate DistinctSymbols(rows: seq<AllocationRow>) {
    Sorting.DistinctBy(rows, SymbolOf)
  }

  /** What a holding is worth at its last known price (nothing when it has none). */
  function MarkValue(h: Holding): Cents {
    match h.currentPrice
    case Some(p) => h.quantity * p
    case None => 0
  }

  /** The sum of the holdings' values at their last known prices. */
  function HoldingsValue(hs: seq<Holding>): Cents {
    if |hs| == 0 then 0 else MarkValue(hs[0]) + HoldingsValue(hs[1..])
  }

  /**
   * The book-keeping invariant of the ledger: a portfolio exists, every
   * holding has a last known price, and net worth is cash plus the holdings
   * marked at those prices.
   */
  predicate NetWorthConsistent(l: Ledger) {
    && l.portfolio.Some?
    && (forall i :: 0 <= i < |l.holdings| ==> l.holdings[i].currentPrice.Some?)
    && l.portfolio.value.totalNetWorth == l.portfolio.value.cashBalance + HoldingsValue(l.holdings)
  }
}
