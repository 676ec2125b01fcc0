/**
 * The market-hours pruning of clean_db.py.
 *
 * The exchange calendar is a parameter: `schedule` gives a trading day's
 * opening and closing instants, or None when the exchange is closed that
 * day, and `dateOf` gives the exchange-local date of an instant. Lookups are
 * memoised in a cache keyed by date.
 */
module MarketHours {
  import opened Wrappers
  import opened Records

  /** An exchange-local calendar date. */
  type Day = int

  /** A trading day's opening and closing instants. */
  datatype Session = Session(open: Instant, close: Instant)

  /** The memo of schedule lookups made so far. */
  type Cache = map<Day, Option<Session>>

  /** The uncached answer: the day has a session and `t` lies in it, both ends included. */
  predicate OpenAt(dateOf: Instant -> Day, schedule: Day -> Option<Session>, t: Instant) {
    match schedule(dateOf(t))
    case None => false
    case Some(s) => s.open <= t <= s.close
  }

  /** Every cached entry is what the schedule says for that date. */
  predicate CacheAgrees(cache: Cache, schedule: Day -> Option<Session>) {
    forall d :: d in cache ==> cache[d] == schedule(d)
  }

  /**
   * Whether the market is open at `t`, and the cache afterwards. A date is
   * looked up in the schedule only on its first query; cached entries never
   * change.
   */
  function IsMarketOpen(cache: Cache, dateOf: Instant -> Day, schedule: Day -> Option<Session>, t: Instant): (r: (bool, Cache))
    ensures r.1.Keys == cache.Keys + {dateOf(t)}
    ensures forall d :: d in cache ==> r.1[d] == cache[d]
    ensures dateOf(t) !in cache ==> r.1[dateOf(t)] == schedule(dateOf(t))
    ensures r.1[dateOf(t)].None? ==> !r.0
    ensures r.1[dateOf(t)].Some? ==> (r.0 <==> r.1[dateOf(t)].value.open <= t <= r.1[dateOf(t)].value.close)
    ensures CacheAgrees(cache, schedule) ==> CacheAgrees(r.1, schedule) && r.0 == OpenAt(dateOf, schedule, t)
  {
    var day := dateOf(t);
    var filled := if day in cache then cache else cache[day := schedule(day)];
    match filled[day]
    case None => (false, filled)
    case Some(s) => (s.open <= t <= s.close, filled)
  }

  /** The records whose stamp falls inside market hours, in their original order. */
  function KeepOpen<T(!new)>(rows: seq<T>, stamp: T -> Instant, dateOf: Instant -> Day, schedule: Day -> Option<Session>): (r: seq<T>)
    ensures |r| <= |rows|
  {
    if |rows| == 0 then []
    else
      var last := rows[|rows| - 1];
      KeepOpen(rows[..|rows| - 1], stamp, dateOf, schedule) + (if OpenAt(dateOf, schedule, stamp(last)) then [last] else [])
  }

  /** A record survives pruning exactly when its stamp is inside market hours. */
  lemma {:induction false} KeepOpenMembers<T(!new)>(rows: seq<T>, stamp: T -> Instant, dateOf: Instant -> Day, schedule: Day -> Option<Session>)
    ensures forall x :: x in KeepOpen(rows, stamp, dateOf, schedule) <==> x in rows && OpenAt(dateOf, schedule, stamp(x))
  {
    if |rows| > 0 {
      var front := rows[..|rows| - 1];
      KeepOpenMembers(front, stamp, dateOf, schedule);
      assert rows == front + [rows[|rows| - 1]];
    }
  }

  /** Every record's stamp is inside market hours. */
  predicate AllOpen<T>(rows: seq<T>, stamp: T -> Instant, dateOf: Instant -> Day, schedule: Day -> Option<Session>) {
    forall i :: 0 <= i < |rows| ==> OpenAt(dateOf, schedule, stamp(rows[i]))
  }

  lemma AllOpenSnoc<T>(rows: seq<T>, stamp: T -> Instant, dateOf: Instant -> Day, schedule: Day -> Option<Session>)
    requires |rows| > 0
    ensures AllOpen(rows, stamp, dateOf, schedule)
            <==> AllOpen(rows[..|rows| - 1], stamp, dateOf, schedule) && OpenAt(dateOf, schedule, stamp(rows[|rows| - 1]))
  {
    var front := rows[..|rows| - 1];
    assert forall i :: 0 <= i < |front| ==> front[i] == rows[i];
  }

  /** A table wholly inside market hours is kept as it is. */
  lemma {:induction false} KeepOpenFull<T(!new)>(rows: seq<T>, stamp: T -> Instant, dateOf: Instant -> Day, schedule: Day -> Option<Session>)
    requires AllOpen(rows, stamp, dateOf, schedule)
    ensures KeepOpen(rows, stamp, dateOf, schedule) == rows
  {
    if |rows| > 0 {
      AllOpenSnoc(rows, stamp, dateOf, schedule);
      KeepOpenFull(rows[..|rows| - 1], stamp, dateOf, schedule);
      assert rows == rows[..|rows| - 1] + [rows[|rows| - 1]];
    }
  }

  /** A table with a record outside market hours loses at least one record. */
  lemma {:induction false} KeepOpenShrinks<T(!new)>(rows: seq<T>, stamp: T -> Instant, dateOf: Instant -> Day, schedule: Day -> Option<Session>)
    requires !AllOpen(rows, stamp, dateOf, schedule)
    ensures |KeepOpen(rows, stamp, dateOf, schedule)| < |rows|
  {
    AllOpenSnoc(rows, stamp, dateOf, schedule);
    var front := rows[..|rows| - 1];
    if AllOpen(front, stamp, dateOf, schedule) {
      assert |KeepOpen(front, stamp, dateOf, schedule)| <= |front|;
    } else {
      KeepOpenShrinks(front, stamp, dateOf, schedule);
    }
  }

  /** Pruning deletes nothing exactly when every record is inside market hours, and then it keeps the table as it is. */
  lemma KeepOpenAll<T(!new)>(rows: seq<T>, stamp: T -> Instant, dateOf: Instant -> Day, schedule: Day -> Option<Session>)
    ensures |KeepOpen(rows, stamp, dateOf, schedule)| == |rows| <==> AllOpen(rows, stamp, dateOf, schedule)
    ensures |KeepOpen(rows, stamp, dateOf, schedule)| == |rows| ==> KeepOpen(rows, stamp, dateOf, schedule) == rows
  {
    if AllOpen(rows, stamp, dateOf, schedule) {
      KeepOpenFull(rows, stamp, dateOf, schedule);
    } else {
      KeepOpenShrinks(rows, stamp, dateOf, schedule);
    }
  }

  /** Pruning twice is pruning once. */
  lemma {:induction false} KeepOpenIdempotent<T(!new)>(rows: seq<T>, stamp: T -> Instant, dateOf: Instant -> Day, schedule: Day -> Option<Session>)
    ensures KeepOpen(KeepOpen(rows, stamp, dateOf, schedule), stamp, dateOf, schedule) == KeepOpen(rows, stamp, dateOf, schedule)
  {
    var kept := KeepOpen(rows, stamp, dateOf, schedule);
    assert AllOpen(kept, stamp, dateOf, schedule) by {
      KeepOpenMembers(rows, stamp, dateOf, schedule);
      forall i | 0 <= i < |kept|
        ensures OpenAt(dateOf, schedule, stamp(kept[i]))
      {
        assert kept[i] in kept;
      }
    }
    KeepOpenAll(kept, stamp, dateOf, schedule);
    assert |KeepOpen(kept, stamp, dateOf, schedule)| == |kept|;
  }

  /**
   * One scan of a history table: asks whether the market was open at each
   * record's stamp, in order, and deletes the records for which it was not.
   */
  method Prune<T(!new)>(rows: seq<T>, stamp: T -> Instant, cache0: Cache, dateOf: Instant -> Day, schedule: Day -> Option<Session>)
    returns (kept: seq<T>, deleted: nat, cache: Cache)
    requires CacheAgrees(cache0, schedule)
    ensures kept == KeepOpen(rows, stamp, dateOf, schedule)
    ensures deleted == |rows| - |kept|
    ensures CacheAgrees(cache, schedule)
    ensures cache0.Keys <= cache.Keys
    ensures forall i :: 0 <= i < |rows| ==> dateOf(stamp(rows[i])) in cache
  {
    kept, deleted, cache := [], 0, cache0;
    var i := 0;
    while i < |rows|
      invariant 0 <= i <= |rows|
      invariant kept == KeepOpen(rows[..i], stamp, dateOf, schedule)
      invariant deleted == i - |kept|
      invariant CacheAgrees(cache, schedule)
      invariant cache0.Keys <= cache.Keys
      invariant forall j :: 0 <= j < i ==> dateOf(stamp(rows[j])) in cache
    {
      var answer := IsMarketOpen(cache, dateOf, schedule, stamp(rows[i]));
      cache := answer.1;
      assert rows[..i + 1][..i] == rows[..i];
      if answer.0 {
        kept := kept + [rows[i]];
      } else {
        deleted := deleted + 1;
      }
      i := i + 1;
    }
    assert rows[..|rows|] == rows;
  }

  function PortfolioStamp(h: PortfolioHistory): Instant {
    h.date
  }

  function StockStamp(h: StockHistory): Instant {
    h.timestamp
  }

  /**
   * The cleanup: both history tables are pruned to market hours, and the
   * change is committed only when at least one record was deleted. Either
   * way the store ends up holding exactly the records inside market hours;
   * nothing outside the two history tables changes.
   */
  method CleanDatabase(db: Ledger, cache0: Cache, dateOf: Instant -> Day, schedule: Day -> Option<Session>)
    returns (r: Ledger, portfolioDeleted: nat, stockDeleted: nat, committed: bool, cache: Cache)
    requires CacheAgrees(cache0, schedule)
    ensures portfolioDeleted == |db.portfolioHistory| - |KeepOpen(db.portfolioHistory, PortfolioStamp, dateOf, schedule)|
    ensures stockDeleted == |db.stockHistory| - |KeepOpen(db.stockHistory, StockStamp, dateOf, schedule)|
    ensures committed <==> portfolioDeleted > 0 || stockDeleted > 0
    ensures !committed ==> r == db
    ensures r.portfolioHistory == KeepOpen(db.portfolioHistory, PortfolioStamp, dateOf, schedule)
    ensures r.stockHistory == KeepOpen(db.stockHistory, StockStamp, dateOf, schedule)
    ensures r.portfolio == db.portfolio && r.holdings == db.holdings && r.transactions == db.transactions
    ensures CacheAgrees(cache, schedule)
  {
    var keptPortfolio, keptStock;
    keptPortfolio, portfolioDeleted, cache := Prune(db.portfolioHistory, PortfolioStamp, cache0, dateOf, schedule);
    keptStock, stockDeleted, cache := Prune(db.stockHistory, StockStamp, cache, dateOf, schedule);
    committed := portfolioDeleted > 0 || stockDeleted > 0;
    if committed {
      r := db.(portfolioHistory := keptPortfolio, stockHistory := keptStock);
    } else {
      KeepOpenAll(db.portfolioHistory, PortfolioStamp, dateOf, schedule);
      KeepOpenAll(db.stockHistory, StockStamp, dateOf, schedule);
      r := db;
    }
  }

  /** A second cleanup right after a first deletes nothing and commits nothing. */
  lemma CleanupIsIdempotent(db: Ledger, dateOf: Instant -> Day, schedule: Day -> Option<Session>)
    ensures var once := KeepOpen(db.portfolioHistory, PortfolioStamp, dateOf, schedule);
            |KeepOpen(once, PortfolioStamp, dateOf, schedule)| == |once|
    ensures var once := KeepOpen(db.stockHistory, StockStamp, dateOf, schedule);
            |KeepOpen(once, StockStamp, dateOf, schedule)| == |once|
  {
    KeepOpenIdempotent(db.portfolioHistory, PortfolioStamp, dateOf, schedule);
    KeepOpenIdempotent(db.stockHistory, StockStamp, dateOf, schedule);
  }
}
