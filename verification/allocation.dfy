/**
 * The exact-total allocation solver of init/alg.py.
 *
 * A table of (SYMBOL, WEIGHT) rows is priced, a proportional baseline of
 * whole shares is computed by floor division, and a bounded local search
 * then buys, swaps and sells single shares until the invested total equals
 * the 500,000.00 target to the cent. The result is exported, sorted by
 * TOTAL, only if its sum is exactly the target.
 *
 * Money is in cents, so the program's `round(..., 2)` is exact here.
 * Weights are exact reals. The random choices of the search are supplied
 * by the caller as a sequence of `Pick`s, one per step.
 */
module Allocation {
  import opened Wrappers
  import opened Records
  import Sorting

  /** The amount to invest, 500,000.00. */
  const TargetTotal: Cents := 50_000_000

  /** The step budget of the search. */
  const MaxSteps: nat := 3_000_000

  /** The weight of a row whose WEIGHT cell is empty. */
  const DefaultWeight: real := 1.0

  /** A row of the input table; the WEIGHT cell may be empty. */
  datatype TickerRow = TickerRow(symbol: string, weight: Option<real>)

  /** A row of the input table after empty weights were filled in. */
  datatype WeightedRow = WeightedRow(symbol: string, weight: real)

  /** What the price source reports for a symbol: the last price rounded to the cent, and the dividend yield. */
  datatype Quote = Quote(price: nat, dividend: real)

  /** A row whose price could be fetched. */
  datatype PricedRow = PricedRow(symbol: string, price: nat, weight: real, dividend: real)

  /** One value of the solver's portfolio dictionary, with its key. */
  datatype Position = Position(symbol: string, price: nat, count: int, weight: real, dividend: real)

  /** The ways the run stops without a result. */
  datatype SolveError =
    | PriceApiUnavailable    // building the batch ticker object raised
    | NoPricedRows           // no price could be fetched: the weight column does not exist
    | NonFiniteAllocation    // a zero total weight or a zero price: the integer cast of inf or NaN raises

  /** The two random draws of one search step: ticker A, and ticker B for a swap. Each is reduced modulo the number of tickers. */
  datatype Pick = Pick(a: nat, b: nat)

  /** What one step of the search does to the counts. */
  datatype Move = Buy(ticker: nat) | Swap(sold: nat, bought: nat) | Sell(ticker: nat) | Stay

  /** The printed result table, the number of steps taken, and whether the table was written out. */
  datatype SolveReport = SolveReport(rows: seq<AllocationRow>, steps: nat, saved: bool)

  // ---------------------------------------------------------------- input

  /** Fills empty WEIGHT cells with the default weight. */
  function FillWeights(rows: seq<TickerRow>): (r: seq<WeightedRow>)
    ensures |r| == |rows|
    ensures forall i :: 0 <= i < |rows| ==> r[i].symbol == rows[i].symbol
    ensures forall i :: 0 <= i < |rows| && rows[i].weight.None? ==> r[i].weight == DefaultWeight
    ensures forall i :: 0 <= i < |rows| && rows[i].weight.Some? ==> r[i].weight == rows[i].weight.value
  {
    seq(|rows|, i requires 0 <= i < |rows| => WeightedRow(rows[i].symbol, rows[i].weight.WithDefault(DefaultWeight)))
  }

  /** Keeps the rows whose price could be fetched, in input order, with their quotes attached. */
  function FetchPrices(rows: seq<WeightedRow>, quote: string -> Option<Quote>): (r: seq<PricedRow>)
    ensures |r| <= |rows|
    ensures forall j :: 0 <= j < |r| ==> quote(r[j].symbol) == Some(Quote(r[j].price, r[j].dividend))
    ensures forall j :: 0 <= j < |r| ==> WeightedRow(r[j].symbol, r[j].weight) in rows
    ensures (forall i :: 0 <= i < |rows| ==> quote(rows[i].symbol).Some?) ==> |r| == |rows|
  {
    if |rows| == 0 then []
    else
      var rest := FetchPrices(rows[1..], quote);
      match quote(rows[0].symbol)
      case None => rest
      case Some(q) => [PricedRow(rows[0].symbol, q.price, rows[0].weight, q.dividend)] + rest
  }

  /** Fetching keeps the input order: it distributes over concatenation. */
  lemma {:induction false} FetchPricesAppend(a: seq<WeightedRow>, b: seq<WeightedRow>, quote: string -> Option<Quote>)
    ensures FetchPrices(a + b, quote) == FetchPrices(a, quote) + FetchPrices(b, quote)
  {
    if |a| > 0 {
      assert (a + b)[1..] == a[1..] + b;
      FetchPricesAppend(a[1..], b, quote);
    } else {
      assert a + b == b;
    }
  }

  // ------------------------------------------------------------- baseline

  /** The sum of the weight column. */
  function TotalWeight(rows: seq<PricedRow>): real {
    if |rows| == 0 then 0.0 else rows[0].weight + TotalWeight(rows[1..])
  }

  /** A row's share of the target: weight / total weight * target. */
  function AllocatedCash(weight: real, totalWeight: real): real
    requires totalWeight != 0.0
  {
    weight / totalWeight * TargetTotal as real
  }

  /** The unit price of a priced row. */
  function RowSymbol(row: PricedRow): string {
    row.symbol
  }

  function RowPrice(row: PricedRow): nat {
    row.price
  }

  /** For p > 0, floor(x / p) whole units of size p fit in x, and one more does not. */
  lemma FloorDivBounds(x: real, p: real)
    requires p > 0.0
    ensures ((x / p).Floor as real) * p <= x
    ensures x < ((x / p).Floor as real + 1.0) * p
  {
    var q := x / p;
    var f := q.Floor as real;
    assert f <= q < f + 1.0;
    assert q * p == x;
    MulStrict(q, f + 1.0, p);
    MulLe(f, q, p);
    assert x < (f + 1.0) * p;
  }

  lemma MulLe(a: real, b: real, c: real)
    requires a <= b && c > 0.0
    ensures a * c <= b * c
  {
    assert (b - a) * c >= 0.0;
  }

  lemma MulStrict(a: real, b: real, c: real)
    requires a < b && c > 0.0
    ensures a * c < b * c
  {
    assert (b - a) * c > 0.0;
  }

  /** The baseline share count of one row: floor(allocated cash / price). */
  function BaselineCount(row: PricedRow, totalWeight: real): (n: int)
    requires totalWeight != 0.0 && row.price > 0
    ensures (n * row.price) as real <= AllocatedCash(row.weight, totalWeight)
    ensures AllocatedCash(row.weight, totalWeight) < ((n + 1) * row.price) as real
  {
    var x := AllocatedCash(row.weight, totalWeight);
    var p := row.price as real;
    FloorDivBounds(x, p);
    var n := (x / p).Floor;
    assert (n * row.price) as real == (n as real) * p;
    assert ((n + 1) * row.price) as real == (n as real + 1.0) * p;
    n
  }

  /** True when the baseline can be computed: some row, a non-zero total weight and no zero price. */
  predicate BaselineDefined(rows: seq<PricedRow>) {
    && |rows| > 0
    && TotalWeight(rows) != 0.0
    && forall i :: 0 <= i < |rows| ==> rows[i].price > 0
  }

  /** The proportional baseline: one floor-divided share count per row, or the error the program dies with. */
  function Baseline(rows: seq<PricedRow>): (r: Result<seq<int>, SolveError>)
    ensures r.Success? <==> BaselineDefined(rows)
    ensures r.Failure? ==> r.error == (if |rows| == 0 then NoPricedRows else NonFiniteAllocation)
    ensures r.Success? ==> |r.value| == |rows|
    ensures r.Success? ==> forall i :: 0 <= i < |rows| ==>
              && (r.value[i] * rows[i].price) as real <= AllocatedCash(rows[i].weight, TotalWeight(rows))
              && AllocatedCash(rows[i].weight, TotalWeight(rows)) < ((r.value[i] + 1) * rows[i].price) as real
  {
    if |rows| == 0 then Failure(NoPricedRows)
    else if !BaselineDefined(rows) then Failure(NonFiniteAllocation)
    else
      var w := TotalWeight(rows);
      Success(seq(|rows|, i requires 0 <= i < |rows| => BaselineCount(rows[i], w)))
  }

  /** With no negative weight, no baseline count is negative. */
  lemma BaselineNonNegative(rows: seq<PricedRow>)
    requires Baseline(rows).Success?
    requires forall i :: 0 <= i < |rows| ==> rows[i].weight >= 0.0
    ensures forall i :: 0 <= i < |rows| ==> Baseline(rows).value[i] >= 0
  {
    NonNegativeWeightsSum(rows);
    var w := TotalWeight(rows);
    var counts := Baseline(rows).value;
    forall i | 0 <= i < |rows|
      ensures counts[i] >= 0
    {
      AllocatedNonNegative(rows[i].weight, w);
      CountNonNegative(counts[i], rows[i].price, AllocatedCash(rows[i].weight, w));
    }
  }

  lemma AllocatedNonNegative(weight: real, totalWeight: real)
    requires weight >= 0.0 && totalWeight > 0.0
    ensures AllocatedCash(weight, totalWeight) >= 0.0
  {
    assert weight / totalWeight >= 0.0;
  }

  /** A count whose next share would cost more than a non-negative amount is not negative. */
  lemma CountNonNegative(n: int, p: nat, cash: real)
    requires 0.0 <= cash < ((n + 1) * p) as real
    ensures n >= 0
  {
    NonPositiveProduct(n + 1, p);
  }

  lemma NonPositiveProduct(a: int, b: nat)
    ensures a <= 0 ==> a * b <= 0
  {
  }

  lemma {:induction false} NonNegativeWeightsSum(rows: seq<PricedRow>)
    requires forall i :: 0 <= i < |rows| ==> rows[i].weight >= 0.0
    ensures TotalWeight(rows) >= 0.0
  {
    if |rows| > 0 {
      NonNegativeWeightsSum(rows[1..]);
    }
  }

  /** The allocated cash summed over the rows, for a fixed total weight. */
  function SumAllocated(rows: seq<PricedRow>, totalWeight: real): real
    requires totalWeight != 0.0
  {
    if |rows| == 0 then 0.0 else AllocatedCash(rows[0].weight, totalWeight) + SumAllocated(rows[1..], totalWeight)
  }

  lemma {:induction false} SumAllocatedScales(rows: seq<PricedRow>, w: real)
    requires w != 0.0
    ensures SumAllocated(rows, w) == TotalWeight(rows) / w * TargetTotal as real
  {
    if |rows| > 0 {
      SumAllocatedScales(rows[1..], w);
      var a := rows[0].weight;
      var b := TotalWeight(rows[1..]);
      var t := TargetTotal as real;
      assert a / w + b / w == (a + b) / w;
      assert a / w * t + b / w * t == (a / w + b / w) * t;
    }
  }

  lemma {:induction false} CountsUnderAllocation(rows: seq<PricedRow>, counts: seq<int>, w: real)
    requires |counts| == |rows| && w != 0.0
    requires forall i :: 0 <= i < |rows| ==> (counts[i] * rows[i].price) as real <= AllocatedCash(rows[i].weight, w)
    ensures Total(Column(rows, RowPrice), counts) as real <= SumAllocated(rows, w)
  {
    if |rows| > 0 {
      assert Column(rows, RowPrice)[1..] == Column(rows[1..], RowPrice);
      CountsUnderAllocation(rows[1..], counts[1..], w);
      assert (counts[0] * rows[0].price) as real <= AllocatedCash(rows[0].weight, w);
    }
  }

  /** The baseline never over-invests: its total is at most the target. */
  lemma BaselineWithinTarget(rows: seq<PricedRow>)
    requires Baseline(rows).Success?
    ensures Total(Column(rows, RowPrice), Baseline(rows).value) <= TargetTotal
  {
    var w := TotalWeight(rows);
    var counts := Baseline(rows).value;
    CountsUnderAllocation(rows, counts, w);
    SumAllocatedScales(rows, w);
    UnitScale(w, TargetTotal as real);
    assert Total(Column(rows, RowPrice), counts) as real <= TargetTotal as real;
  }

  lemma UnitScale(w: real, t: real)
    requires w != 0.0
    ensures w / w * t == t
  {
    assert w / w == 1.0;
  }

  // ---------------------------------------------------- portfolio dictionary

  /** The dictionary value built from a table row and its baseline count. */
  function PositionOf(row: PricedRow, count: int): Position {
    Position(row.symbol, row.price, count, row.weight, row.dividend)
  }

  /** No two positions share a symbol: they are the entries of a dictionary. */
  predicate DistinctPositions(ps: seq<Position>) {
    Sorting.DistinctBy(ps, PositionSymbol)
  }

  /** No later row repeats the symbol of row i. */
  predicate LastOfSymbol(rows: seq<PricedRow>, i: int)
    requires 0 <= i < |rows|
  {
    forall j :: i < j < |rows| ==> rows[j].symbol != rows[i].symbol
  }

  /** The index of the first entry with symbol `s`, or |ps| when there is none. */
  function Find(ps: seq<Position>, s: string): (i: nat)
    ensures i <= |ps|
    ensures i < |ps| ==> ps[i].symbol == s
    ensures forall j :: 0 <= j < i ==> ps[j].symbol != s
  {
    if |ps| == 0 then 0
    else if ps[0].symbol == s then 0
    else 1 + Find(ps[1..], s)
  }

  /**
   * Dictionary assignment `d[p.symbol] = p`: an existing key keeps its
   * place and takes the new value; a new key goes to the end.
   */
  function Upsert(ps: seq<Position>, p: Position): seq<Position> {
    var i := Find(ps, p.symbol);
    if i < |ps| then ps[i := p] else ps + [p]
  }

  /** Assignment adds the key, keeps every other entry where it was, and keeps keys unique. */
  lemma UpsertFacts(ps: seq<Position>, p: Position)
    ensures Keys(Upsert(ps, p), PositionSymbol) == Keys(ps, PositionSymbol) + {p.symbol}
    ensures p in Upsert(ps, p)
    ensures |Upsert(ps, p)| >= |ps|
    ensures forall j :: 0 <= j < |ps| && ps[j].symbol != p.symbol ==> Upsert(ps, p)[j] == ps[j]
    ensures forall q :: q in Upsert(ps, p) ==> q == p || q in ps
    ensures DistinctPositions(ps) ==> DistinctPositions(Upsert(ps, p))
    ensures p.symbol !in Keys(ps, PositionSymbol) ==> Upsert(ps, p) == ps + [p]
  {
    var i := Find(ps, p.symbol);
    var r := Upsert(ps, p);
    if i < |ps| {
      assert forall k :: 0 <= k < |r| ==> r[k].symbol == ps[k].symbol;
      forall s | s in Keys(ps, PositionSymbol) ensures s in Keys(r, PositionSymbol) {
        var k :| 0 <= k < |ps| && ps[k].symbol == s;
        assert r[k].symbol == s;
      }
      forall q | q in r ensures q == p || q in ps {
        var k :| 0 <= k < |r| && r[k] == q;
        if k != i { assert r[k] == ps[k]; }
      }
    } else {
      forall s | s in Keys(ps, PositionSymbol) ensures s in Keys(r, PositionSymbol) {
        var k :| 0 <= k < |ps| && ps[k].symbol == s;
        assert r[k].symbol == s;
      }
      assert r[|ps|].symbol == p.symbol;
    }
  }

  lemma RowSymbolsSnoc(rows: seq<PricedRow>)
    requires |rows| > 0
    ensures Keys(rows, RowSymbol) == Keys(rows[..|rows| - 1], RowSymbol) + {rows[|rows| - 1].symbol}
  {
    var n := |rows| - 1;
    forall s | s in Keys(rows, RowSymbol)
      ensures s in Keys(rows[..n], RowSymbol) + {rows[n].symbol}
    {
      var i :| 0 <= i < |rows| && rows[i].symbol == s;
      if i < n { assert rows[..n][i] == rows[i]; }
    }
    forall s | s in Keys(rows[..n], RowSymbol)
      ensures s in Keys(rows, RowSymbol)
    {
      var i :| 0 <= i < n && rows[..n][i].symbol == s;
      assert rows[i] == rows[..n][i];
    }
  }

  /** The portfolio dictionary, built by assigning each table row in order: its keys are the table's symbols. */
  function BuildPortfolio(rows: seq<PricedRow>, counts: seq<int>): (r: seq<Position>)
    requires |counts| == |rows|
    ensures DistinctPositions(r)
    ensures Keys(r, PositionSymbol) == Keys(rows, RowSymbol)
  {
    if |rows| == 0 then []
    else
      var n := |rows| - 1;
      var prev := BuildPortfolio(rows[..n], counts[..n]);
      RowSymbolsSnoc(rows);
      UpsertFacts(prev, PositionOf(rows[n], counts[n]));
      Upsert(prev, PositionOf(rows[n], counts[n]))
  }

  /** Position `q` is built from some row of the table and that row's count. */
  predicate FromSomeRow(rows: seq<PricedRow>, counts: seq<int>, q: Position)
    requires |counts| == |rows|
  {
    exists i :: 0 <= i < |rows| && q == PositionOf(rows[i], counts[i])
  }

  lemma FromSomeRowPrefix(rows: seq<PricedRow>, counts: seq<int>, n: nat, q: Position)
    requires |counts| == |rows| && n <= |rows|
    requires FromSomeRow(rows[..n], counts[..n], q)
    ensures FromSomeRow(rows, counts, q)
  {
    var i :| 0 <= i < n && q == PositionOf(rows[..n][i], counts[..n][i]);
    assert rows[..n][i] == rows[i] && counts[..n][i] == counts[i];
  }

  /** Every dictionary entry is built from some row of the table. */
  lemma {:induction false} BuildPortfolioEntries(rows: seq<PricedRow>, counts: seq<int>)
    requires |counts| == |rows|
    ensures forall q :: q in BuildPortfolio(rows, counts) ==> FromSomeRow(rows, counts, q)
  {
    if |rows| > 0 {
      var n := |rows| - 1;
      BuildPortfolioEntries(rows[..n], counts[..n]);
      var prev := BuildPortfolio(rows[..n], counts[..n]);
      var p := PositionOf(rows[n], counts[n]);
      var r := BuildPortfolio(rows, counts);
      assert r == Upsert(prev, p);
      UpsertFacts(prev, p);
      forall q | q in r
        ensures FromSomeRow(rows, counts, q)
      {
        var k :| 0 <= k < |r| && r[k] == q;
        if q == p {
          assert q == PositionOf(rows[n], counts[n]);
        } else {
          assert q in prev;
          FromSomeRowPrefix(rows, counts, n, q);
        }
      }
    }
  }

  /** For a repeated symbol the last row wins: its position is in the dictionary. */
  lemma {:induction false} BuildPortfolioLastWins(rows: seq<PricedRow>, counts: seq<int>, i: nat)
    requires |counts| == |rows| && i < |rows|
    requires LastOfSymbol(rows, i)
    ensures PositionOf(rows[i], counts[i]) in BuildPortfolio(rows, counts)
  {
    var n := |rows| - 1;
    var prev := BuildPortfolio(rows[..n], counts[..n]);
    var p := PositionOf(rows[n], counts[n]);
    assert BuildPortfolio(rows, counts) == Upsert(prev, p);
    UpsertFacts(prev, p);
    if i < n {
      assert rows[..n][i] == rows[i] && counts[..n][i] == counts[i];
      assert LastOfSymbol(rows[..n], i);
      BuildPortfolioLastWins(rows[..n], counts[..n], i);
      var k :| 0 <= k < |prev| && prev[k] == PositionOf(rows[i], counts[i]);
      assert rows[i].symbol != p.symbol;
    }
  }

  /** No two rows of the table name the same symbol. */
  predicate DistinctRowSymbols(rows: seq<PricedRow>) {
    Sorting.DistinctBy(rows, RowSymbol)
  }

  /** One position per row, in table order. */
  function RowPositions(rows: seq<PricedRow>, counts: seq<int>): (r: seq<Position>)
    requires |counts| == |rows|
    ensures |r| == |rows|
    ensures forall i :: 0 <= i < |rows| ==> r[i] == PositionOf(rows[i], counts[i])
  {
    seq(|rows|, i requires 0 <= i < |rows| => PositionOf(rows[i], counts[i]))
  }

  lemma RowPositionsSnoc(rows: seq<PricedRow>, counts: seq<int>)
    requires |counts| == |rows| > 0
    ensures RowPositions(rows, counts)
         == RowPositions(rows[..|rows| - 1], counts[..|rows| - 1]) + [PositionOf(rows[|rows| - 1], counts[|rows| - 1])]
  {
    var n := |rows| - 1;
    var whole := RowPositions(rows, counts);
    var parts := RowPositions(rows[..n], counts[..n]) + [PositionOf(rows[n], counts[n])];
    forall i | 0 <= i < n
      ensures whole[i] == parts[i]
    {
      assert rows[..n][i] == rows[i] && counts[..n][i] == counts[i];
    }
  }

  lemma DistinctRowSymbolsPrefix(rows: seq<PricedRow>, n: nat)
    requires n <= |rows| && DistinctRowSymbols(rows)
    ensures DistinctRowSymbols(rows[..n])
  {
    forall i, j | 0 <= i < j < n
      ensures rows[..n][i].symbol != rows[..n][j].symbol
    {
      assert rows[..n][i] == rows[i] && rows[..n][j] == rows[j];
    }
  }

  /** With distinct symbols nothing is merged: the dictionary holds exactly the table's rows, in table order. */
  lemma {:induction false} BuildPortfolioDistinct(rows: seq<PricedRow>, counts: seq<int>)
    requires |counts| == |rows|
    requires DistinctRowSymbols(rows)
    ensures BuildPortfolio(rows, counts) == RowPositions(rows, counts)
  {
    if |rows| > 0 {
      var n := |rows| - 1;
      DistinctRowSymbolsPrefix(rows, n);
      BuildPortfolioDistinct(rows[..n], counts[..n]);
      var prev := BuildPortfolio(rows[..n], counts[..n]);
      var p := PositionOf(rows[n], counts[n]);
      assert p.symbol !in Keys(prev, PositionSymbol) by {
        assert prev == RowPositions(rows[..n], counts[..n]);
        forall k | 0 <= k < |prev|
          ensures prev[k].symbol != p.symbol
        {
          assert prev[k].symbol == rows[..n][k].symbol == rows[k].symbol;
          assert rows[k].symbol != rows[n].symbol;
        }
      }
      UpsertFacts(prev, p);
      assert BuildPortfolio(rows, counts) == prev + [p];
      RowPositionsSnoc(rows, counts);
    }
  }

  // ----------------------------------------------------------------- search

  /** The invested total, the sum of price times count. */
  function Total(prices: seq<nat>, counts: seq<int>): Cents
    requires |prices| == |counts|
  {
    if |prices| == 0 then 0 else prices[0] * counts[0] + Total(prices[1..], counts[1..])
  }

  /** The number of shares held over all tickers. */
  function ShareCount(counts: seq<int>): int {
    if |counts| == 0 then 0 else counts[0] + ShareCount(counts[1..])
  }

  /** Changing one count changes the total by the price times the change. */
  lemma {:induction false} TotalUpdate(prices: seq<nat>, counts: seq<int>, i: nat, v: int)
    requires |prices| == |counts| && i < |counts|
    ensures Total(prices, counts[i := v]) == Total(prices, counts) + prices[i] * (v - counts[i])
  {
    if i > 0 {
      assert counts[i := v][1..] == counts[1..][i - 1 := v];
      TotalUpdate(prices[1..], counts[1..], i - 1, v);
    } else {
      assert counts[i := v][1..] == counts[1..];
    }
  }

  /** Changing one count changes the share count by the change. */
  lemma {:induction false} ShareCountUpdate(counts: seq<int>, i: nat, v: int)
    requires i < |counts|
    ensures ShareCount(counts[i := v]) == ShareCount(counts) + (v - counts[i])
  {
    if i > 0 {
      assert counts[i := v][1..] == counts[1..][i - 1 := v];
      ShareCountUpdate(counts[1..], i - 1, v);
    } else {
      assert counts[i := v][1..] == counts[1..];
    }
  }

  /** A move names tickers that exist and only ever sells from a count above 1. */
  predicate Legal(counts: seq<int>, m: Move) {
    match m
    case Buy(a) => a < |counts|
    case Swap(s, b) => s < |counts| && b < |counts| && s != b && counts[s] > 1
    case Sell(a) => a < |counts| && counts[a] > 1
    case Stay => true
  }

  /** The move one search step makes, given the current counts and the step's random draws. */
  function ChooseMove(prices: seq<nat>, counts: seq<int>, target: Cents, pick: Pick): (m: Move)
    requires |prices| == |counts| > 0
    ensures Legal(counts, m)
    ensures m.Buy? ==> m.ticker == pick.a % |counts| && Total(prices, counts) < target && prices[m.ticker] <= target - Total(prices, counts)
    ensures m.Swap? ==> Total(prices, counts) < target && m.bought == pick.a % |counts| && m.sold == pick.b % |counts| && Total(prices, counts) + prices[m.bought] > target
    ensures m.Sell? ==> m.ticker == pick.a % |counts| && Total(prices, counts) > target
    ensures Total(prices, counts) == target ==> m == Stay
    ensures var a, rem := pick.a % |counts|, target - Total(prices, counts);
            rem > 0 && prices[a] <= rem ==> m == Buy(a)
    ensures var a, b, rem := pick.a % |counts|, pick.b % |counts|, target - Total(prices, counts);
            rem > 0 && prices[a] > rem && b != a && counts[b] > 1 ==> m == Swap(b, a)
    ensures var a, rem := pick.a % |counts|, target - Total(prices, counts);
            rem < 0 && counts[a] > 1 ==> m == Sell(a)
  {
    var remainder := target - Total(prices, counts);
    var a := pick.a % |counts|;
    if remainder > 0 then
      if prices[a] <= remainder then Buy(a)
      else
        var b := pick.b % |counts|;
        if b != a && counts[b] > 1 then Swap(b, a) else Stay
    else if remainder < 0 then
      if counts[a] > 1 then Sell(a) else Stay
    else Stay
  }

  /** The counts after a legal move. */
  function Apply(counts: seq<int>, m: Move): (r: seq<int>)
    requires Legal(counts, m)
    ensures |r| == |counts|
    ensures forall i :: 0 <= i < |r| ==> counts[i] - 1 <= r[i] <= counts[i] + 1
    ensures forall i :: 0 <= i < |r| && r[i] < counts[i] ==> r[i] >= 1
  {
    match m
    case Buy(a) => counts[a := counts[a] + 1]
    case Swap(s, b) => counts[s := counts[s] - 1][b := counts[b] + 1]
    case Sell(a) => counts[a := counts[a] - 1]
    case Stay => counts
  }

  /** A move touches only the tickers it names. */
  lemma MoveIsLocal(counts: seq<int>, m: Move)
    requires Legal(counts, m)
    ensures m.Buy? ==> forall i :: 0 <= i < |counts| && i != m.ticker ==> Apply(counts, m)[i] == counts[i]
    ensures m.Sell? ==> forall i :: 0 <= i < |counts| && i != m.ticker ==> Apply(counts, m)[i] == counts[i]
    ensures m.Swap? ==> forall i :: 0 <= i < |counts| && i != m.sold && i != m.bought ==> Apply(counts, m)[i] == counts[i]
    ensures m.Stay? ==> Apply(counts, m) == counts
  {
  }

  /** A swap keeps the number of shares held; a buy adds one share and a sell removes one. */
  lemma MoveShareCount(counts: seq<int>, m: Move)
    requires Legal(counts, m)
    ensures ShareCount(Apply(counts, m)) == ShareCount(counts) + (if m.Buy? then 1 else if m.Sell? then -1 else 0)
  {
    match m
    case Buy(a) =>
      ShareCountUpdate(counts, a, counts[a] + 1);
    case Sell(a) =>
      ShareCountUpdate(counts, a, counts[a] - 1);
    case Swap(s, b) =>
      var mid := counts[s := counts[s] - 1];
      ShareCountUpdate(counts, s, counts[s] - 1);
      ShareCountUpdate(mid, b, counts[b] + 1);
    case Stay =>
  }

  /** What a legal move adds to the invested total. */
  function TotalChange(prices: seq<nat>, counts: seq<int>, m: Move): int
    requires |prices| == |counts| && Legal(counts, m)
  {
    match m
    case Buy(a) => prices[a]
    case Sell(a) => -(prices[a] as int)
    case Swap(s, b) => prices[b] as int - prices[s]
    case Stay => 0
  }

  /** One more share of ticker `i` adds its unit price to the total. */
  lemma TotalIncrement(prices: seq<nat>, counts: seq<int>, i: nat)
    requires |prices| == |counts| && i < |counts|
    ensures Total(prices, counts[i := counts[i] + 1]) == Total(prices, counts) + prices[i]
  {
    TotalUpdate(prices, counts, i, counts[i] + 1);
  }

  /** One share fewer of ticker `i` takes its unit price off the total. */
  lemma TotalDecrement(prices: seq<nat>, counts: seq<int>, i: nat)
    requires |prices| == |counts| && i < |counts|
    ensures Total(prices, counts[i := counts[i] - 1]) == Total(prices, counts) - prices[i]
  {
    TotalUpdate(prices, counts, i, counts[i] - 1);
  }

  /** A buy adds the bought ticker's unit price, a sell removes the sold one's, a swap trades one for the other. */
  lemma MoveTotal(prices: seq<nat>, counts: seq<int>, m: Move)
    requires |prices| == |counts| && Legal(counts, m)
    ensures Total(prices, Apply(counts, m)) == Total(prices, counts) + TotalChange(prices, counts, m)
  {
    var after := Apply(counts, m);
    var before := Total(prices, counts);
    match m
    case Buy(a) =>
      assert after == counts[a := counts[a] + 1];
      TotalIncrement(prices, counts, a);
      assert Total(prices, after) == before + prices[a];
    case Sell(a) =>
      assert after == counts[a := counts[a] - 1];
      TotalDecrement(prices, counts, a);
      assert Total(prices, after) == before - prices[a];
    case Swap(s, b) =>
      var mid := counts[s := counts[s] - 1];
      assert mid[b] == counts[b];
      assert after == mid[b := mid[b] + 1];
      TotalDecrement(prices, counts, s);
      var between := Total(prices, mid);
      assert between == before - prices[s];
      TotalIncrement(prices, mid, b);
      assert Total(prices, after) == between + prices[b];
    case Stay =>
  }

  /** A buy raises the total by one unit price and never past the target. */
  lemma BuyStaysWithinTarget(prices: seq<nat>, counts: seq<int>, target: Cents, pick: Pick)
    requires |prices| == |counts| > 0
    requires ChooseMove(prices, counts, target, pick).Buy?
    ensures Total(prices, Apply(counts, ChooseMove(prices, counts, target, pick))) <= target
    ensures Total(prices, Apply(counts, ChooseMove(prices, counts, target, pick))) == Total(prices, counts) + prices[pick.a % |counts|]
  {
    MoveTotal(prices, counts, ChooseMove(prices, counts, target, pick));
  }

  /** A sell lowers the total by one unit price, and happens only above the target. */
  lemma SellLowersTotal(prices: seq<nat>, counts: seq<int>, target: Cents, pick: Pick)
    requires |prices| == |counts| > 0
    requires ChooseMove(prices, counts, target, pick).Sell?
    ensures Total(prices, counts) > target
    ensures Total(prices, Apply(counts, ChooseMove(prices, counts, target, pick))) == Total(prices, counts) - prices[pick.a % |counts|]
  {
    MoveTotal(prices, counts, ChooseMove(prices, counts, target, pick));
  }

  /**
   * The search as a function of its random draws, from step `step` on:
   * at most `maxSteps` steps in all, stopping as soon as the total equals
   * the target. Returns the final counts and the step counter.
   */
  function Search(prices: seq<nat>, counts: seq<int>, target: Cents, picks: seq<Pick>, step: nat, maxSteps: nat): (r: (seq<int>, nat))
    requires |prices| == |counts| > 0
    requires step <= maxSteps <= |picks|
    decreases maxSteps - step
    ensures |r.0| == |counts|
    ensures step <= r.1 <= maxSteps
    ensures r.1 < maxSteps ==> Total(prices, r.0) == target
  {
    if step == maxSteps || Total(prices, counts) == target then (counts, step)
    else Search(prices, Apply(counts, ChooseMove(prices, counts, target, picks[step])), target, picks, step + 1, maxSteps)
  }

  /** Along the whole search no count that is at least 1 drops below 1, and no count that is not negative becomes negative. */
  lemma {:induction false} SearchKeepsFloor(prices: seq<nat>, counts: seq<int>, target: Cents, picks: seq<Pick>, step: nat, maxSteps: nat)
    requires |prices| == |counts| > 0
    requires step <= maxSteps <= |picks|
    decreases maxSteps - step
    ensures forall i :: 0 <= i < |counts| && counts[i] >= 1 ==> Search(prices, counts, target, picks, step, maxSteps).0[i] >= 1
    ensures forall i :: 0 <= i < |counts| && counts[i] >= 0 ==> Search(prices, counts, target, picks, step, maxSteps).0[i] >= 0
  {
    if step < maxSteps && Total(prices, counts) != target {
      var next := Apply(counts, ChooseMove(prices, counts, target, picks[step]));
      SearchKeepsFloor(prices, next, target, picks, step + 1, maxSteps);
    }
  }

  /** The search takes a step only from a total that misses the target. */
  lemma SearchStopsAtTarget(prices: seq<nat>, counts: seq<int>, target: Cents, picks: seq<Pick>, step: nat, maxSteps: nat)
    requires |prices| == |counts| > 0
    requires step <= maxSteps <= |picks|
    requires Total(prices, counts) == target
    ensures Search(prices, counts, target, picks, step, maxSteps) == (counts, step)
  {
  }

  /**
   * The solver loop of the program: recompute the remainder, stop when it
   * is zero, otherwise make one move and count the step.
   */
  method Solve(prices: seq<nat>, start: seq<int>, target: Cents, maxSteps: nat, picks: seq<Pick>) returns (counts: seq<int>, steps: nat)
    requires |prices| == |start| > 0
    requires |picks| >= maxSteps
    ensures |counts| == |start|
    ensures steps <= maxSteps
    ensures steps < maxSteps ==> Total(prices, counts) == target
    ensures forall i :: 0 <= i < |start| && start[i] >= 1 ==> counts[i] >= 1
    ensures forall i :: 0 <= i < |start| && start[i] >= 0 ==> counts[i] >= 0
    ensures (counts, steps) == Search(prices, start, target, picks, 0, maxSteps)
  {
    ghost var outcome := Search(prices, start, target, picks, 0, maxSteps);
    SearchKeepsFloor(prices, start, target, picks, 0, maxSteps);
    counts := start;
    steps := 0;
    while steps < maxSteps
      invariant steps <= maxSteps
      invariant |counts| == |start|
      invariant outcome == Search(prices, counts, target, picks, steps, maxSteps)
    {
      var remainder := target - Total(prices, counts);
      if remainder == 0 {
        break;
      }
      var move := ChooseMove(prices, counts, target, picks[steps]);
      counts := Apply(counts, move);
      steps := steps + 1;
    }
  }

  // ----------------------------------------------------------------- export

  /** The export row of one position: its symbol, price, count and dividend, with TOTAL price times count. */
  function ExportRow(p: Position): (row: AllocationRow)
    ensures row.symbol == p.symbol && row.pricePer == p.price && row.amount == p.count && row.dividend == p.dividend
    ensures RowPriced(row)
  {
    AllocationRow(p.symbol, p.price, p.count, p.price * p.count, p.dividend)
  }

  /** The export rows in dictionary order. */
  function ExportRows(ps: seq<Position>): (r: seq<AllocationRow>)
    ensures |r| == |ps|
    ensures forall i :: 0 <= i < |ps| ==> r[i] == ExportRow(ps[i])
  {
    seq(|ps|, i requires 0 <= i < |ps| => ExportRow(ps[i]))
  }

  /** The unit price of a position. */
  function PositionSymbol(p: Position): string {
    p.symbol
  }

  function PositionPrice(p: Position): nat {
    p.price
  }

  /** The share count of a position. */
  function PositionCount(p: Position): int {
    p.count
  }

  /** The positions with their counts replaced by the solver's. */
  function WithCounts(ps: seq<Position>, counts: seq<int>): (r: seq<Position>)
    requires |counts| == |ps|
    ensures |r| == |ps|
    ensures forall i :: 0 <= i < |ps| ==> r[i] == ps[i].(count := counts[i])
    ensures Keys(r, PositionSymbol) == Keys(ps, PositionSymbol)
  {
    var r := seq(|ps|, i requires 0 <= i < |ps| => ps[i].(count := counts[i]));
    assert forall i :: 0 <= i < |ps| ==> r[i].symbol == ps[i].symbol;
    r
  }

  /** The dictionary the search starts from: one position per priced row, holding its baseline count. */
  function StartPositions(priced: seq<PricedRow>): (ps: seq<Position>)
    requires BaselineDefined(priced)
    ensures |ps| > 0
    ensures DistinctPositions(ps)
    ensures Keys(ps, PositionSymbol) == Keys(priced, RowSymbol)
  {
    var start := BuildPortfolio(priced, Baseline(priced).value);
    assert priced[0].symbol in Keys(start, PositionSymbol);
    start
  }

  /**
   * The search run from the baseline dictionary: the counts it ends with and
   * the step it stopped at. Stopping early means the target was met.
   */
  function SearchedRun(priced: seq<PricedRow>, picks: seq<Pick>): (r: (seq<int>, nat))
    requires BaselineDefined(priced) && |picks| >= MaxSteps
    ensures |r.0| == |StartPositions(priced)|
    ensures r.1 <= MaxSteps
    ensures r.1 < MaxSteps ==> Total(Column(StartPositions(priced), PositionPrice), r.0) == TargetTotal
  {
    var start := StartPositions(priced);
    Search(Column(start, PositionPrice), Column(start, PositionCount), TargetTotal, picks, 0, MaxSteps)
  }

  /**
   * The dictionary once the search has run: the baseline positions with the
   * counts the search ends with.
   */
  function SearchedPositions(priced: seq<PricedRow>, picks: seq<Pick>): (ps: seq<Position>)
    requires BaselineDefined(priced) && |picks| >= MaxSteps
    ensures Keys(ps, PositionSymbol) == Keys(priced, RowSymbol)
  {
    WithCounts(StartPositions(priced), SearchedRun(priced, picks).0)
  }

  /** The TOTAL column of the export sums to the solver's invested total. */
  lemma {:induction false} ExportSumIsTotal(ps: seq<Position>)
    ensures SumTotals(ExportRows(ps)) == Total(Column(ps, PositionPrice), Column(ps, PositionCount))
  {
    if |ps| > 0 {
      assert ExportRows(ps)[1..] == ExportRows(ps[1..]);
      assert Column(ps, PositionPrice)[1..] == Column(ps[1..], PositionPrice);
      assert Column(ps, PositionCount)[1..] == Column(ps[1..], PositionCount);
      ExportSumIsTotal(ps[1..]);
    }
  }

  lemma {:induction false} InsertKeepsSum(x: AllocationRow, s: seq<AllocationRow>)
    ensures SumTotals(Sorting.Insert(x, s, TotalOf)) == x.total + SumTotals(s)
  {
    if |s| > 0 && TotalOf(s[0]) > TotalOf(x) {
      InsertKeepsSum(x, s[1..]);
      assert ([s[0]] + Sorting.Insert(x, s[1..], TotalOf))[1..] == Sorting.Insert(x, s[1..], TotalOf);
    } else if |s| > 0 {
      assert ([x] + s)[1..] == s;
    }
  }

  /** Sorting the export does not change the sum of its TOTAL column. */
  lemma {:induction false} SortKeepsSum(s: seq<AllocationRow>)
    ensures SumTotals(Sorting.SortDesc(s, TotalOf)) == SumTotals(s)
  {
    if |s| > 0 {
      SortKeepsSum(s[1..]);
      InsertKeepsSum(s[0], Sorting.SortDesc(s[1..], TotalOf));
    }
  }

  /**
   * The exported table: one row per position with TOTAL = price * count,
   * sorted by TOTAL, descending. Its TOTAL column sums to the invested total,
   * and distinct positions give distinct symbols.
   */
  function Export(ps: seq<Position>): (table: seq<AllocationRow>)
    ensures Sorting.SortedDesc(table, TotalOf)
    ensures multiset(table) == multiset(ExportRows(ps))
    ensures RowsPriced(table)
    ensures SumTotals(table) == Total(Column(ps, PositionPrice), Column(ps, PositionCount))
    ensures DistinctPositions(ps) ==> DistinctSymbols(table)
    ensures Keys(table, SymbolOf) == Keys(ps, PositionSymbol)
  {
    var unsorted := ExportRows(ps);
    var table := Sorting.SortDesc(unsorted, TotalOf);
    ExportSumIsTotal(ps);
    SortKeepsSum(unsorted);
    SortedExportPriced(ps);
    SortedExportDistinct(ps);
    PermutationKeepsSymbols(unsorted, table);
    ExportRowsSymbols(ps);
    table
  }

  /** The export rows name exactly the positions' symbols. */
  lemma ExportRowsSymbols(ps: seq<Position>)
    ensures Keys(ExportRows(ps), SymbolOf) == Keys(ps, PositionSymbol)
  {
    var rows := ExportRows(ps);
    assert forall i :: 0 <= i < |ps| ==> rows[i].symbol == ps[i].symbol;
  }

  /** A reordered table names the same symbols. */
  lemma PermutationKeepsSymbols(a: seq<AllocationRow>, b: seq<AllocationRow>)
    requires multiset(a) == multiset(b)
    ensures Keys(a, SymbolOf) == Keys(b, SymbolOf)
  {
    forall s | s in Keys(a, SymbolOf)
      ensures s in Keys(b, SymbolOf)
    {
      var i :| 0 <= i < |a| && a[i].symbol == s;
      assert a[i] in multiset(b);
      var j :| 0 <= j < |b| && b[j] == a[i];
    }
    forall s | s in Keys(b, SymbolOf)
      ensures s in Keys(a, SymbolOf)
    {
      var j :| 0 <= j < |b| && b[j].symbol == s;
      assert b[j] in multiset(a);
      var i :| 0 <= i < |a| && a[i] == b[j];
    }
  }

  lemma SortedExportPriced(ps: seq<Position>)
    ensures RowsPriced(Sorting.SortDesc(ExportRows(ps), TotalOf))
  {
    var unsorted := ExportRows(ps);
    assert RowsPriced(unsorted) by {
      forall i | 0 <= i < |unsorted|
        ensures RowPriced(unsorted[i])
      {
        assert unsorted[i] == ExportRow(ps[i]);
      }
    }
    RowsPricedPermutation(unsorted, Sorting.SortDesc(unsorted, TotalOf));
  }

  lemma SortedExportDistinct(ps: seq<Position>)
    ensures DistinctPositions(ps) ==> DistinctSymbols(Sorting.SortDesc(ExportRows(ps), TotalOf))
  {
    var unsorted := ExportRows(ps);
    var table := Sorting.SortDesc(unsorted, TotalOf);
    if DistinctPositions(ps) {
      Sorting.PermutationKeepsDistinct(unsorted, table, SymbolOf);
    }
  }

  /** Every exported row carries the quote its symbol was priced with. */
  lemma ExportedRowsAreQuoted(priced: seq<PricedRow>, counts: seq<int>, solved: seq<int>, quote: string -> Option<Quote>)
    requires |counts| == |priced|
    requires forall j :: 0 <= j < |priced| ==> quote(priced[j].symbol) == Some(Quote(priced[j].price, priced[j].dividend))
    requires |solved| == |BuildPortfolio(priced, counts)|
    ensures forall row :: row in Export(WithCounts(BuildPortfolio(priced, counts), solved)) ==> Quoted(quote, row)
  {
    var positions := BuildPortfolio(priced, counts);
    BuildPortfolioEntries(priced, counts);
    var unsorted := ExportRows(WithCounts(positions, solved));
    var table := Export(WithCounts(positions, solved));
    forall row | row in table
      ensures Quoted(quote, row)
    {
      assert row in multiset(table);
      assert row in multiset(unsorted);
      var k :| 0 <= k < |unsorted| && unsorted[k] == row;
      assert positions[k] in positions;
      assert FromSomeRow(priced, counts, positions[k]);
      var i :| 0 <= i < |priced| && positions[k] == PositionOf(priced[i], counts[i]);
      assert row.symbol == priced[i].symbol && row.pricePer == priced[i].price && row.dividend == priced[i].dividend;
    }
  }

  /** The price source reports this row's unit price and dividend for its symbol. */
  predicate Quoted(quote: string -> Option<Quote>, row: AllocationRow) {
    quote(row.symbol).Some? && quote(row.symbol).value.price == row.pricePer && quote(row.symbol).value.dividend == row.dividend
  }

  /**
   * The whole run of the program on an input table. `quote` is the price
   * source (None when the batch ticker object cannot be built); `picks`
   * are the random draws of the search.
   */
  method SolveWeightedCsv(rows: seq<TickerRow>, quote: Option<string -> Option<Quote>>, picks: seq<Pick>)
    returns (r: Result<SolveReport, SolveError>)
    requires |picks| >= MaxSteps
    ensures quote.None? ==> r == Failure(PriceApiUnavailable)
    ensures quote.Some? ==> (r.Success? <==> BaselineDefined(FetchPrices(FillWeights(rows), quote.value)))
    ensures r.Success? ==> r.value.steps <= MaxSteps
    ensures r.Success? ==> (r.value.saved <==> SumTotals(r.value.rows) == TargetTotal)
    ensures r.Success? && r.value.steps < MaxSteps ==> r.value.saved
    ensures r.Success? ==> RowsPriced(r.value.rows)
    ensures r.Success? ==> Sorting.SortedDesc(r.value.rows, TotalOf)
    ensures r.Success? ==> forall row :: row in r.value.rows ==> Quoted(quote.value, row)
    ensures r.Success? ==> DistinctSymbols(r.value.rows)
    ensures r.Success? ==> Keys(r.value.rows, SymbolOf) == Keys(FetchPrices(FillWeights(rows), quote.value), RowSymbol)
    ensures quote.Some? && r.Failure? ==> r.error == Baseline(FetchPrices(FillWeights(rows), quote.value)).error
    ensures r.Success? ==> r.value.steps == SearchedRun(FetchPrices(FillWeights(rows), quote.value), picks).1
    ensures r.Success? ==>
              multiset(r.value.rows) == multiset(ExportRows(SearchedPositions(FetchPrices(FillWeights(rows), quote.value), picks)))
  {
    if quote.None? {
      return Failure(PriceApiUnavailable);
    }
    var priced := FetchPrices(FillWeights(rows), quote.value);
    var baseline := Baseline(priced);
    if baseline.Failure? {
      return Failure(baseline.error);
    }
    var positions := StartPositions(priced);
    var counts, steps := Solve(Column(positions, PositionPrice), Column(positions, PositionCount), TargetTotal, MaxSteps, picks);
    assert (counts, steps) == SearchedRun(priced, picks);
    var solved := WithCounts(positions, counts);
    assert Column(solved, PositionPrice) == Column(positions, PositionPrice);
    assert Column(solved, PositionCount) == counts;
    assert solved == SearchedPositions(priced, picks);
    var table := Export(solved);
    ExportedRowsAreQuoted(priced, baseline.value, counts, quote.value);
    r := Success(SolveReport(table, steps, SumTotals(table) == TargetTotal));
  }
}
