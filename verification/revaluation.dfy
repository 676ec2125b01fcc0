/**
 * The hourly revaluation of app.py (`update_market_data`) and the order in
 * which the dashboard lists holdings.
 *
 * The quote service is a parameter: for each ticker it either returns a
 * price (`Got`; zero stands for every falsy answer) or raises (`Raised`).
 */
module Revaluation {
  import opened Wrappers
  import opened Records
  import Sorting

  /** What fetching one ticker's last price produced. */
  datatype Fetch = Got(price: Cents) | Raised

  /** How a cycle ended: nothing to do, rolled back, or committed. */
  datatype Cycle = NoHoldings | Aborted | Committed

  /** A fetch that moves the price: a non-zero quote. */
  predicate Fresh(f: Fetch) {
    f.Got? && f.price != 0
  }

  /** The price the dashboard shows: the last price when it is set and non-zero, else the buy price. */
  function ShownPrice(h: Holding): (p: Cents)
    ensures h.currentPrice.Some? && h.currentPrice.value != 0 ==> p == h.currentPrice.value
    ensures h.currentPrice.None? || h.currentPrice.value == 0 ==> p == h.averageBuyPrice
  {
    if h.currentPrice.Some? && h.currentPrice.value != 0 then h.currentPrice.value else h.averageBuyPrice
  }

  /**
   * One holding after its fetch. A fresh quote becomes the current price and
   * the shown price moves to previous; otherwise the holding is untouched.
   * Quantity, buy price and yield never change.
   */
  function Revalue(h: Holding, f: Fetch): (r: Holding)
    ensures r.ticker == h.ticker && r.quantity == h.quantity
    ensures r.averageBuyPrice == h.averageBuyPrice && r.dividendYield == h.dividendYield
    ensures Fresh(f) ==> r.currentPrice == Some(f.price) && r.previousPrice == Some(ShownPrice(h))
    ensures !Fresh(f) ==> r == h
  {
    if Fresh(f) then h.(previousPrice := Some(ShownPrice(h)), currentPrice := Some(f.price)) else h
  }

  /**
   * What one holding adds to the cycle's asset value: the fresh quote times
   * the quantity, the last price times the quantity when the fetch raised,
   * and nothing for a zero quote. None when the fetch raised and there is no
   * last price to fall back on: that multiplication fails and ends the cycle.
   */
  function Contribution(h: Holding, f: Fetch): (r: Option<Cents>)
    ensures r.None? <==> f.Raised? && h.currentPrice.None?
    ensures Fresh(f) ==> r == Some(f.price * h.quantity)
    ensures f == Got(0) ==> r == Some(0)
    ensures f.Raised? && h.currentPrice.Some? ==> r == Some(h.currentPrice.value * h.quantity)
  {
    match f
    case Got(p) => if p != 0 then Some(p * h.quantity) else Some(0)
    case Raised => if h.currentPrice.Some? then Some(h.currentPrice.value * h.quantity) else None
  }

  /** Every raised fetch has a last price to fall back on. */
  predicate CanValue(hs: seq<Holding>, fetch: string -> Fetch) {
    forall i :: 0 <= i < |hs| ==> fetch(hs[i].ticker).Got? || hs[i].currentPrice.Some?
  }

  /** The cycle's asset value, None when some contribution fails. */
  function AssetsValue(hs: seq<Holding>, fetch: string -> Fetch): (r: Option<Cents>)
    ensures r.Some? <==> CanValue(hs, fetch)
  {
    if |hs| == 0 then Some(0)
    else
      match Contribution(hs[0], fetch(hs[0].ticker))
      case None => None
      case Some(c) =>
        match AssetsValue(hs[1..], fetch)
        case None =>
          assert !CanValue(hs[1..], fetch);
          var i :| 0 <= i < |hs[1..]| && !(fetch(hs[1..][i].ticker).Got? || hs[1..][i].currentPrice.Some?);
          assert hs[1..][i] == hs[i + 1];
          None
        case Some(rest) => Some(c + rest)
  }

  /** The price series rows of one cycle: one per fresh quote, in holding order, all stamped `now`. */
  function StockRows(hs: seq<Holding>, fetch: string -> Fetch, now: Instant): (r: seq<StockHistory>)
    ensures |r| <= |hs|
    ensures forall x :: x in r ==> x.timestamp == now
    ensures forall x :: x in r ==> exists i :: 0 <= i < |hs| && x.ticker == hs[i].ticker && fetch(hs[i].ticker) == Got(x.price) && x.price != 0
    ensures forall i :: 0 <= i < |hs| && Fresh(fetch(hs[i].ticker)) ==> StockHistory(now, hs[i].ticker, fetch(hs[i].ticker).price) in r
  {
    if |hs| == 0 then []
    else
      var rest := StockRows(hs[1..], fetch, now);
      var f := fetch(hs[0].ticker);
      assert forall x :: x in rest ==> exists i :: 0 <= i < |hs| && x.ticker == hs[i].ticker && fetch(hs[i].ticker) == Got(x.price) && x.price != 0 by {
        forall x | x in rest
          ensures exists i :: 0 <= i < |hs| && x.ticker == hs[i].ticker && fetch(hs[i].ticker) == Got(x.price) && x.price != 0
        {
          var j :| 0 <= j < |hs[1..]| && x.ticker == hs[1..][j].ticker && fetch(hs[1..][j].ticker) == Got(x.price) && x.price != 0;
          assert hs[j + 1] == hs[1..][j];
        }
      }
      assert forall i :: 1 <= i < |hs| ==> hs[i] == hs[1..][i - 1];
      if Fresh(f) then [StockHistory(now, hs[0].ticker, f.price)] + rest else rest
  }

  /** The number of fresh quotes among the holdings. */
  function FreshCount(hs: seq<Holding>, fetch: string -> Fetch): nat {
    if |hs| == 0 then 0 else (if Fresh(fetch(hs[0].ticker)) then 1 else 0) + FreshCount(hs[1..], fetch)
  }

  /** One price row per fresh quote and none for the others. */
  lemma {:induction false} StockRowsCount(hs: seq<Holding>, fetch: string -> Fetch, now: Instant)
    ensures |StockRows(hs, fetch, now)| == FreshCount(hs, fetch)
  {
    if |hs| > 0 {
      StockRowsCount(hs[1..], fetch, now);
    }
  }

  /** Every holding after its own fetch. */
  function RevalueAll(hs: seq<Holding>, fetch: string -> Fetch): (r: seq<Holding>)
    ensures |r| == |hs|
    ensures forall i :: 0 <= i < |hs| ==> r[i] == Revalue(hs[i], fetch(hs[i].ticker))
  {
    seq(|hs|, i requires 0 <= i < |hs| => Revalue(hs[i], fetch(hs[i].ticker)))
  }

  /**
   * One revaluation cycle at instant `now`, once the batch quote object
   * exists and answers `fetch` for each ticker. With no holdings nothing
   * happens. When a contribution fails or there is no portfolio the cycle
   * is rolled back and the store is unchanged. Otherwise the holdings are
   * revalued, net worth becomes cash plus the asset value, and one history
   * point and one price row per fresh quote are appended.
   */
  function QuoteCycle(db: Ledger, fetch: string -> Fetch, now: Instant): (r: (Ledger, Cycle))
    ensures |db.holdings| == 0 <==> r.1 == NoHoldings
    ensures r.1 == Committed <==> |db.holdings| > 0 && db.portfolio.Some? && CanValue(db.holdings, fetch)
    ensures r.1 != Committed ==> r.0 == db
    ensures r.1 == Committed ==>
      var assets := AssetsValue(db.holdings, fetch).value;
      var cash := db.portfolio.value.cashBalance;
      && r.0.portfolio == Some(Portfolio(cash, cash + assets, now))
      && r.0.holdings == RevalueAll(db.holdings, fetch)
      && r.0.transactions == db.transactions
      && r.0.portfolioHistory == db.portfolioHistory + [PortfolioHistory(now, cash, assets, cash + assets)]
      && r.0.stockHistory == db.stockHistory + StockRows(db.holdings, fetch, now)
  {
    if |db.holdings| == 0 then (db, NoHoldings)
    else
      match AssetsValue(db.holdings, fetch)
      case None => (db, Aborted)
      case Some(assets) =>
        if db.portfolio.None? then (db, Aborted)
        else
          var cash := db.portfolio.value.cashBalance;
          var ledger := Ledger(
            Some(db.portfolio.value.(totalNetWorth := cash + assets, lastUpdated := now)),
            RevalueAll(db.holdings, fetch),
            db.transactions,
            db.portfolioHistory + [PortfolioHistory(now, cash, assets, cash + assets)],
            db.stockHistory + StockRows(db.holdings, fetch, now));
          (ledger, Committed)
  }

  /**
   * The hourly job. With no holdings it returns before asking for quotes.
   * Otherwise it builds the batch quote object for the held tickers; `batch`
   * is None when that raises, and then nothing is committed. With a batch
   * it runs the quote cycle.
   */
  function UpdateMarketData(db: Ledger, batch: Option<string -> Fetch>, now: Instant): (r: (Ledger, Cycle))
    ensures |db.holdings| == 0 ==> r == (db, NoHoldings)
    ensures |db.holdings| > 0 && batch.None? ==> r == (db, Aborted)
    ensures r.1 == Committed <==> batch.Some? && |db.holdings| > 0 && db.portfolio.Some? && CanValue(db.holdings, batch.value)
    ensures r.1 != Committed ==> r.0 == db
    ensures batch.Some? ==> r == QuoteCycle(db, batch.value, now)
  {
    if |db.holdings| == 0 then (db, NoHoldings)
    else if batch.None? then (db, Aborted)
    else QuoteCycle(db, batch.value, now)
  }

  /** No fetch returns a zero quote. */
  predicate NoZeroQuotes(hs: seq<Holding>, fetch: string -> Fetch) {
    forall i :: 0 <= i < |hs| ==> fetch(hs[i].ticker) != Got(0)
  }

  /** Without zero quotes the asset value is the revalued holdings at their new prices. */
  lemma {:induction false} AssetsAreMarkValue(hs: seq<Holding>, fetch: string -> Fetch)
    requires CanValue(hs, fetch) && NoZeroQuotes(hs, fetch)
    ensures AssetsValue(hs, fetch) == Some(HoldingsValue(RevalueAll(hs, fetch)))
  {
    if |hs| > 0 {
      var tail := hs[1..];
      assert CanValue(tail, fetch) && NoZeroQuotes(tail, fetch) by {
        assert forall i :: 0 <= i < |tail| ==> tail[i] == hs[i + 1];
      }
      AssetsAreMarkValue(tail, fetch);
      assert RevalueAll(hs, fetch)[1..] == RevalueAll(tail, fetch);
    }
  }

  /**
   * Without zero quotes a committed cycle leaves a consistent ledger: every
   * holding is priced and net worth is cash plus the holdings at their
   * current prices, whatever state the store was in before.
   */
  lemma CommitWithoutZeroQuotesIsConsistent(db: Ledger, fetch: string -> Fetch, now: Instant)
    requires NoZeroQuotes(db.holdings, fetch)
    requires QuoteCycle(db, fetch, now).1 == Committed
    ensures NetWorthConsistent(QuoteCycle(db, fetch, now).0)
  {
    AssetsAreMarkValue(db.holdings, fetch);
  }

  /** What a cycle's asset value leaves out: each zero-quoted holding at its last price. */
  function ZeroQuoteLoss(hs: seq<Holding>, fetch: string -> Fetch): Cents {
    if |hs| == 0 then 0
    else (if fetch(hs[0].ticker) == Got(0) then MarkValue(hs[0]) else 0) + ZeroQuoteLoss(hs[1..], fetch)
  }

  /** The asset value falls short of the revalued holdings by exactly the zero-quoted holdings' value. */
  lemma {:induction false} AssetsShortfall(hs: seq<Holding>, fetch: string -> Fetch)
    requires CanValue(hs, fetch)
    ensures AssetsValue(hs, fetch).value + ZeroQuoteLoss(hs, fetch) == HoldingsValue(RevalueAll(hs, fetch))
  {
    if |hs| > 0 {
      var tail := hs[1..];
      assert CanValue(tail, fetch) by {
        assert forall i :: 0 <= i < |tail| ==> tail[i] == hs[i + 1];
      }
      AssetsShortfall(tail, fetch);
      assert RevalueAll(hs, fetch)[1..] == RevalueAll(tail, fetch);
    }
  }

  /**
   * As written, a committed cycle records a net worth that falls short of
   * cash plus the revalued holdings by the zero-quoted holdings' value, so a
   * zero quote for a holding worth something leaves the ledger inconsistent.
   */
  lemma ZeroQuotesUnderstateNetWorth(db: Ledger, fetch: string -> Fetch, now: Instant)
    requires QuoteCycle(db, fetch, now).1 == Committed
    ensures var l := QuoteCycle(db, fetch, now).0;
            l.portfolio.value.totalNetWorth + ZeroQuoteLoss(db.holdings, fetch) == l.portfolio.value.cashBalance + HoldingsValue(l.holdings)
    ensures ZeroQuoteLoss(db.holdings, fetch) != 0 ==> !NetWorthConsistent(QuoteCycle(db, fetch, now).0)
  {
    AssetsShortfall(db.holdings, fetch);
  }

  /**
   * A zero quote drops its holding from the asset value while its last price
   * stays in place: ten shares last priced at 10.00 and quoted at zero leave
   * net worth at the cash alone.
   */
  lemma ZeroQuoteBreaksNetWorth()
    ensures var db := Ledger(Some(Portfolio(0, 10_000, 0)), [Holding("AAPL", 10, 1_000, Some(1_000), None, 0.0)], [], [], []);
            var r := QuoteCycle(db, t => Got(0), 1);
            && NetWorthConsistent(db)
            && r.1 == Committed
            && r.0.portfolio.value.totalNetWorth == 0
            && !NetWorthConsistent(r.0)
  {
    var db := Ledger(Some(Portfolio(0, 10_000, 0)), [Holding("AAPL", 10, 1_000, Some(1_000), None, 0.0)], [], [], []);
    var fetch: string -> Fetch := t => Got(0);
    assert AssetsValue(db.holdings, fetch) == Some(0) by {
      assert AssetsValue(db.holdings[1..], fetch) == Some(0);
    }
    var r := QuoteCycle(db, fetch, 1);
    assert r.0.holdings == db.holdings;
    assert HoldingsValue(r.0.holdings) == 10_000 by {
      assert r.0.holdings[1..] == [];
    }
  }

  /** Two quote services answer alike for every held ticker. */
  predicate AgreeOn(hs: seq<Holding>, f: string -> Fetch, g: string -> Fetch) {
    forall i :: 0 <= i < |hs| ==> f(hs[i].ticker) == g(hs[i].ticker)
  }

  lemma {:induction false} AgreeOnTail(hs: seq<Holding>, f: string -> Fetch, g: string -> Fetch)
    requires |hs| > 0 && AgreeOn(hs, f, g)
    ensures AgreeOn(hs[1..], f, g)
  {
    assert forall i :: 0 <= i < |hs[1..]| ==> hs[1..][i] == hs[i + 1];
  }

  lemma {:induction false} AssetsValueAgree(hs: seq<Holding>, f: string -> Fetch, g: string -> Fetch)
    requires AgreeOn(hs, f, g)
    ensures AssetsValue(hs, f) == AssetsValue(hs, g)
  {
    if |hs| > 0 {
      AgreeOnTail(hs, f, g);
      AssetsValueAgree(hs[1..], f, g);
    }
  }

  lemma {:induction false} StockRowsAgree(hs: seq<Holding>, f: string -> Fetch, g: string -> Fetch, now: Instant)
    requires AgreeOn(hs, f, g)
    ensures StockRows(hs, f, now) == StockRows(hs, g, now)
  {
    if |hs| > 0 {
      AgreeOnTail(hs, f, g);
      StockRowsAgree(hs[1..], f, g, now);
    }
  }

  /** A cycle depends on the quote service only through the held tickers' answers. */
  lemma QuoteCycleAgree(db: Ledger, f: string -> Fetch, g: string -> Fetch, now: Instant)
    requires AgreeOn(db.holdings, f, g)
    ensures QuoteCycle(db, f, now) == QuoteCycle(db, g, now)
  {
    AssetsValueAgree(db.holdings, f, g);
    StockRowsAgree(db.holdings, f, g, now);
    assert RevalueAll(db.holdings, f) == RevalueAll(db.holdings, g);
  }

  /** A zero quote handled like a failed fetch. */
  function ZeroAsFailure(fetch: string -> Fetch): (g: string -> Fetch)
    ensures forall t :: g(t) != Got(0)
    ensures forall t :: fetch(t) != Got(0) ==> g(t) == fetch(t)
  {
    t => if fetch(t) == Got(0) then Raised else fetch(t)
  }

  /**
   * The revaluation with a zero quote falling back to the last price, as a
   * raising fetch does. A committed cycle always leaves a consistent ledger.
   */
  function QuoteCycleIntended(db: Ledger, fetch: string -> Fetch, now: Instant): (r: (Ledger, Cycle))
    ensures r.1 == Committed ==> NetWorthConsistent(r.0)
    ensures r.1 != Committed ==> r.0 == db
    ensures NoZeroQuotes(db.holdings, fetch) ==> r == QuoteCycle(db, fetch, now)
  {
    var g := ZeroAsFailure(fetch);
    var r := QuoteCycle(db, g, now);
    assert NoZeroQuotes(db.holdings, fetch) ==> r == QuoteCycle(db, fetch, now) by {
      if NoZeroQuotes(db.holdings, fetch) {
        QuoteCycleAgree(db, g, fetch, now);
      }
    }
    if r.1 == Committed then
      CommitWithoutZeroQuotesIsConsistent(db, g, now);
      r
    else r
  }

  /** The dashboard's sort key: quantity times the shown price. */
  function DisplayValue(h: Holding): Cents {
    h.quantity * ShownPrice(h)
  }

  /**
   * The dashboard order: largest displayed value first; holdings of equal
   * value keep the order the store returned them in.
   */
  function DashboardOrder(hs: seq<Holding>): (r: seq<Holding>)
    ensures Sorting.SortedDesc(r, DisplayValue)
    ensures multiset(r) == multiset(hs)
    ensures forall v :: Sorting.WithKey(r, DisplayValue, v) == Sorting.WithKey(hs, DisplayValue, v)
  {
    var r := Sorting.SortDesc(hs, DisplayValue);
    forall v
      ensures Sorting.WithKey(r, DisplayValue, v) == Sorting.WithKey(hs, DisplayValue, v)
    {
      Sorting.SortDescStable(hs, DisplayValue, v);
    }
    r
  }
}
