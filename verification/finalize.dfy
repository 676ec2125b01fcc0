/**
 * The equal-split finaliser of init/finalize.py.
 *
 * The metrics table is filtered to a fixed list of twenty tickers, and each
 * surviving row buys as many whole shares as fit in an equal twentieth of
 * the capital. Whatever the shares do not use stays as leftover cash.
 */
module Finalize {
  import opened Wrappers
  import opened Records
  import Sorting

  /** The fixed list of twenty tickers. */
  const TargetTickers: seq<string> := [
    "MSFT", "AAPL", "NVDA", "GOOGL", "AMZN",
    "JNJ", "KO", "PG", "JPM", "CVX",
    "STRL", "AMBA", "CROX", "HALO",
    "BLBD", "PL", "TGTX", "SITM",
    "BITF", "DTST"]

  /** The capital to spread, 500,000.00. */
  const TotalCapital: Cents := 50_000_000

  /** Each ticker's budget: the capital over the length of the fixed list, not over the surviving rows. */
  const TargetPerStock: Cents := TotalCapital / |TargetTickers|

  /** A row of the metrics table: symbol, current price in cents, dividend yield. */
  datatype MetricRow = MetricRow(symbol: string, currentPrice: nat, dividendYield: real)

  /** A surviving row has price zero: the floor of an infinite quotient raises. */
  datatype FinalizeError = InfiniteShareCount

  /** The written table, the sum of its TOTAL column, and the cash left over. */
  datatype FinalReport = FinalReport(rows: seq<AllocationRow>, invested: Cents, leftover: Cents)

  /** The rows whose symbol is on the fixed list, in their original order. */
  function FilterTargets(rows: seq<MetricRow>): (r: seq<MetricRow>)
    ensures |r| <= |rows|
    ensures forall x :: x in r <==> x in rows && x.symbol in TargetTickers
  {
    if |rows| == 0 then []
    else
      assert rows == [rows[0]] + rows[1..];
      if rows[0].symbol in TargetTickers then [rows[0]] + FilterTargets(rows[1..])
      else FilterTargets(rows[1..])
  }

  /** Filtering keeps the relative order of rows: it distributes over concatenation. */
  lemma {:induction false} FilterTargetsAppend(a: seq<MetricRow>, b: seq<MetricRow>)
    ensures FilterTargets(a + b) == FilterTargets(a) + FilterTargets(b)
  {
    if |a| == 0 {
      assert a + b == b;
    } else {
      assert (a + b)[0] == a[0];
      assert (a + b)[1..] == a[1..] + b;
      FilterTargetsAppend(a[1..], b);
    }
  }

  /** Whole shares that fit in one ticker's budget: the floor of budget over price. */
  function SharesFor(price: nat): (n: nat)
    requires price > 0
    ensures n * price <= TargetPerStock < (n + 1) * price
  {
    TargetPerStock / price
  }

  /** The output row of one surviving metrics row. */
  function FinalRow(m: MetricRow): (row: AllocationRow)
    requires m.currentPrice > 0
    ensures row.symbol == m.symbol && row.pricePer == m.currentPrice && row.dividend == m.dividendYield
    ensures row.amount >= 0 && row.total == row.amount * row.pricePer
    ensures 0 <= row.total <= TargetPerStock < row.total + row.pricePer
  {
    var n := SharesFor(m.currentPrice);
    AllocationRow(m.symbol, m.currentPrice, n, n * m.currentPrice, m.dividendYield)
  }

  /** Every row has a non-zero price. */
  predicate AllPriced(rows: seq<MetricRow>) {
    forall i :: 0 <= i < |rows| ==> rows[i].currentPrice > 0
  }

  /** One output row per surviving row, in order. */
  function FinalRows(rows: seq<MetricRow>): (r: seq<AllocationRow>)
    requires AllPriced(rows)
    ensures |r| == |rows|
    ensures forall i :: 0 <= i < |rows| ==> r[i] == FinalRow(rows[i])
  {
    seq(|rows|, i requires 0 <= i < |rows| => FinalRow(rows[i]))
  }

  /** Rows that each cost between 0 and `cap` cost at most `cap` per row in all. */
  lemma {:induction false} SumTotalsBound(rows: seq<AllocationRow>, cap: Cents)
    requires forall i :: 0 <= i < |rows| ==> 0 <= rows[i].total <= cap
    ensures 0 <= SumTotals(rows) <= cap * |rows|
  {
    if |rows| > 0 {
      SumTotalsBound(rows[1..], cap);
    }
  }

  /** The finaliser: filter, buy the whole shares, and account for the leftover cash. */
  function GenerateFinal(rows: seq<MetricRow>): (r: Result<FinalReport, FinalizeError>)
    ensures r.Success? <==> AllPriced(FilterTargets(rows))
    ensures r.Success? ==> |r.value.rows| == |FilterTargets(rows)|
    ensures r.Success? ==> forall i :: 0 <= i < |r.value.rows| ==> r.value.rows[i] == FinalRow(FilterTargets(rows)[i])
    ensures r.Success? ==> RowsPriced(r.value.rows)
    ensures r.Success? ==> r.value.invested == SumTotals(r.value.rows)
    ensures r.Success? ==> r.value.leftover == TotalCapital - r.value.invested
    ensures r.Success? ==> 0 <= r.value.invested <= TargetPerStock * |r.value.rows|
  {
    var filtered := FilterTargets(rows);
    if !AllPriced(filtered) then Failure(InfiniteShareCount)
    else
      var out := FinalRows(filtered);
      SumTotalsBound(out, TargetPerStock);
      var invested := SumTotals(out);
      Success(FinalReport(out, invested, TotalCapital - invested))
  }

  function MetricSymbol(row: MetricRow): string {
    row.symbol
  }

  /** No two metrics rows name the same symbol. */
  predicate DistinctMetricSymbols(rows: seq<MetricRow>) {
    Sorting.DistinctBy(rows, MetricSymbol)
  }

  /** A table with distinct symbols has as many symbols as rows. */
  lemma {:induction false} DistinctSymbolCount(rows: seq<MetricRow>)
    requires DistinctMetricSymbols(rows)
    ensures |Keys(rows, MetricSymbol)| == |rows|
  {
    if |rows| > 0 {
      var tail := rows[1..];
      var head := MetricSymbol(rows[0]);
      assert DistinctMetricSymbols(tail) by {
        forall i, j | 0 <= i < j < |tail|
          ensures MetricSymbol(tail[i]) != MetricSymbol(tail[j])
        {
          assert tail[i] == rows[i + 1] && tail[j] == rows[j + 1];
        }
      }
      DistinctSymbolCount(tail);
      assert Keys(rows, MetricSymbol) == {head} + Keys(tail, MetricSymbol) by {
        forall s | s in Keys(rows, MetricSymbol)
          ensures s in {head} + Keys(tail, MetricSymbol)
        {
          var i :| 0 <= i < |rows| && MetricSymbol(rows[i]) == s;
          if i > 0 { assert tail[i - 1] == rows[i]; }
        }
        forall s | s in Keys(tail, MetricSymbol)
          ensures s in Keys(rows, MetricSymbol)
        {
          var i :| 0 <= i < |tail| && MetricSymbol(tail[i]) == s;
          assert rows[i + 1] == tail[i];
        }
      }
      assert head !in Keys(tail, MetricSymbol) by {
        forall i | 0 <= i < |tail|
          ensures MetricSymbol(tail[i]) != head
        {
          assert tail[i] == rows[i + 1];
        }
      }
    }
  }

  /** A sequence has no more distinct elements than entries. */
  lemma {:induction false} ElementsSize(u: seq<string>)
    ensures |set s | s in u| <= |u|
  {
    if |u| > 0 {
      ElementsSize(u[1..]);
      assert (set s | s in u) <= {u[0]} + (set s | s in u[1..]) by {
        forall s | s in u
          ensures s in {u[0]} + (set s | s in u[1..])
        {
          var i :| 0 <= i < |u| && u[i] == s;
          if i > 0 { assert u[1..][i - 1] == s; }
        }
      }
      SubsetSize(set s | s in u, {u[0]} + (set s | s in u[1..]));
    }
  }

  /** Filtering a table with distinct symbols keeps them distinct. */
  lemma {:induction false} FilterKeepsDistinct(rows: seq<MetricRow>)
    requires DistinctMetricSymbols(rows)
    ensures DistinctMetricSymbols(FilterTargets(rows))
  {
    if |rows| > 0 {
      var tail := rows[1..];
      assert DistinctMetricSymbols(tail) by {
        forall i, j | 0 <= i < j < |tail|
          ensures tail[i].symbol != tail[j].symbol
        {
          assert tail[i] == rows[i + 1] && tail[j] == rows[j + 1];
        }
      }
      FilterKeepsDistinct(tail);
      var ft := FilterTargets(tail);
      forall x | x in ft
        ensures x.symbol != rows[0].symbol
      {
        var i :| 0 <= i < |tail| && tail[i] == x;
        assert rows[i + 1] == x;
      }
    }
  }

  /**
   * With distinct symbols at most twenty rows survive, so the shares never
   * cost more than the capital and the leftover cash is not negative.
   */
  lemma LeftoverNonNegative(rows: seq<MetricRow>)
    requires DistinctMetricSymbols(rows)
    requires GenerateFinal(rows).Success?
    ensures GenerateFinal(rows).value.invested <= TotalCapital
    ensures GenerateFinal(rows).value.leftover >= 0
  {
    var filtered := FilterTargets(rows);
    FilterKeepsDistinct(rows);
    DistinctSymbolCount(filtered);
    ElementsSize(TargetTickers);
    var targets := set s | s in TargetTickers;
    assert Keys(filtered, MetricSymbol) <= targets by {
      forall s | s in Keys(filtered, MetricSymbol)
        ensures s in targets
      {
        var i :| 0 <= i < |filtered| && filtered[i].symbol == s;
        assert filtered[i] in filtered;
      }
    }
    SubsetSize(Keys(filtered, MetricSymbol), targets);
    FundedRowsBound(rows, |filtered|);
  }

  /** Twenty target tickers split the capital into equal shares of 25,000 dollars. */
  lemma PerStockShare()
    ensures TargetPerStock == 2_500_000
  {
    assert |TargetTickers| == 20;
  }

  lemma FundedRowsBound(rows: seq<MetricRow>, n: nat)
    requires GenerateFinal(rows).Success?
    requires n == |FilterTargets(rows)| <= 20
    ensures GenerateFinal(rows).value.invested <= TotalCapital
  {
    PerStockShare();
    var invested := GenerateFinal(rows).value.invested;
    assert invested <= 2_500_000 * n;
    assert 2_500_000 * n <= 50_000_000;
  }

  /** With distinct symbols in the metrics table, the written table has distinct symbols too. */
  lemma FinalRowsDistinct(rows: seq<MetricRow>)
    requires DistinctMetricSymbols(rows)
    requires GenerateFinal(rows).Success?
    ensures DistinctSymbols(GenerateFinal(rows).value.rows)
  {
    FilterKeepsDistinct(rows);
  }

  lemma {:induction false} SubsetSize(a: set<string>, b: set<string>)
    requires a <= b
    ensures |a| <= |b|
    decreases |b|
  {
    if a != b {
      var x :| x in b && x !in a;
      SubsetSize(a, b - {x});
    }
  }

  /** k rows for one listed symbol at one price. */
  function Repeat(m: MetricRow, k: nat): (r: seq<MetricRow>)
    ensures |r| == k
    ensures forall i :: 0 <= i < k ==> r[i] == m
  {
    seq(k, i => m)
  }

  lemma {:induction false} FilterRepeat(m: MetricRow, k: nat)
    requires m.symbol in TargetTickers
    ensures FilterTargets(Repeat(m, k)) == Repeat(m, k)
  {
    if k > 0 {
      FilterRepeat(m, k - 1);
      assert Repeat(m, k)[1..] == Repeat(m, k - 1);
    }
  }

  lemma {:induction false} SumTotalsConstant(rows: seq<AllocationRow>, row: AllocationRow)
    requires forall i :: 0 <= i < |rows| ==> rows[i] == row
    ensures SumTotals(rows) == |rows| * row.total
  {
    if |rows| > 0 {
      SumTotalsConstant(rows[1..], row);
    }
  }

  lemma RepeatInvests(m: MetricRow, k: nat)
    requires m.symbol in TargetTickers && m.currentPrice > 0
    ensures GenerateFinal(Repeat(m, k)).Success?
    ensures GenerateFinal(Repeat(m, k)).value.invested == k * FinalRow(m).total
  {
    FilterRepeat(m, k);
    var out := GenerateFinal(Repeat(m, k)).value.rows;
    SumTotalsConstant(out, FinalRow(m));
  }

  /**
   * The leftover can be negative when a symbol repeats: twenty-one MSFT rows
   * at 1.00 each buy 25,000 shares, 525,000.00 in all.
   */
  lemma DuplicateSymbolsOverspend()
    ensures GenerateFinal(Repeat(MetricRow("MSFT", 100, 0.0), 21)).Success?
    ensures GenerateFinal(Repeat(MetricRow("MSFT", 100, 0.0), 21)).value.leftover == -2_500_000
  {
    var m := MetricRow("MSFT", 100, 0.0);
    RepeatInvests(m, 21);
    assert FinalRow(m).total == 2_500_000;
  }
}
