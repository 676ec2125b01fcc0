# Portfolio allocation pipeline and ledger — a Dafny model

This project models the logic of a small stock-portfolio tracker in Dafny. The tracker has three parts.

- **A one-shot allocation pipeline.**
  - The exact-total solver (`init/alg.py`) or the equal-split finaliser (`init/finalize.py`) turns a ticker list into an allocation table with the columns SYMBOL, PRICEPER, AMOUNT, TOTAL, DIVIDEND.
  - The importer (`init_db.py`) wipes the store and rebuilds it from that table.
- **An hourly revaluation** (`update_market_data` in `app.py`). It refreshes each holding's price, recomputes net worth and appends history rows. The dashboard lists holdings by value (`app.py`, line 27).
- **A market-hours cleanup** (`clean_db.py`). It deletes history rows stamped outside the exchange's trading sessions.

## How the model represents the program

- **Money** is integer cents (`Records.Cents`). Every `round(..., 2)` and every "equals 500,000.00" test in the program is therefore exact. The solver's weights are exact `real`s.
- **The store** (`Records.Ledger`) holds:
  - the Portfolio singleton, or None when that table is empty;
  - the Holding, Transaction, PortfolioHistory and StockHistory tables, as sequences in query order.
- **Network, random and calendar inputs are parameters.**
  - The market-data service is a function from symbol to quote. It is None when the batch quote object cannot be built.
  - The solver's calls to `random.choice` are a caller-supplied sequence of `Allocation.Pick`s. A draw is taken modulo the number of tickers.
  - The exchange calendar is a function from date to an optional session.
  - Timezone localisation is a function from instant to date.
- **Error paths are values.**
  - The solver returns a `Result`, and three situations end the run without a table.
    - A failed batch fetch: the program catches the exception, logs it and returns early (`init/alg.py`, lines 61-63).
    - An empty priced table: the pandas `KeyError` is raised.
    - A zero total weight or a zero price: the integer cast of `inf`/`NaN` raises.
  - The finaliser fails on a zero price, where `math.floor(inf)` raises.
  - A revaluation cycle that raises is rolled back (`Revaluation.Cycle.Aborted`).
  - An import whose table repeats a symbol breaks the Holding key at commit, so the store stays empty.
- **The solver's dictionary is modelled as a Python dict** (`Allocation.Upsert`). A repeated symbol keeps its first position and takes its last row's value.

Two facts about the code shape the model:

- The code has no per-trade fee and no budget planner. The solver targets exactly 500,000.00, and the importer computes cash as 500,000.00 − ΣTOTAL.
- The solver draws ticker A from all dictionary keys, including keys whose weight is zero.

## Model

| member | source | states |
|---|---|---|
| Allocation.FillWeights | init/alg.py:22-23 | an empty WEIGHT becomes 1.0, every other weight and every symbol is kept, one row per input row |
| Allocation.FetchPrices | init/alg.py:36-59 | only rows whose price could be fetched survive; each carries exactly the quote for its symbol and its own weight; nothing is dropped when every symbol is quoted |
| Allocation.FetchPricesAppend | init/alg.py:37-57 | fetching keeps the input order (it distributes over concatenation) |
| Allocation.BaselineCount | init/alg.py:71-74 | the baseline count n satisfies n·price ≤ weight/Σweight·500,000.00 < (n+1)·price, i.e. it is the floor |
| Allocation.Baseline | init/alg.py:65-74 | succeeds exactly when there is a priced row, the weights do not sum to zero and no price is zero; otherwise the error names the cause; on success one count per row with the floor bounds |
| Allocation.BaselineNonNegative | init/alg.py:74 | with non-negative weights every baseline count is ≥ 0 |
| Allocation.SumAllocatedScales | init/alg.py:69-71 | the allocated cash over all rows is Σweight/w·500,000.00, so with w = Σweight it is the whole target |
| Allocation.BaselineWithinTarget | init/alg.py:69-74 | the baseline never invests more than 500,000.00 |
| Allocation.UpsertFacts | init/alg.py:77-84 | a dictionary assignment adds its key, leaves other entries in place, appends only new keys and keeps keys unique |
| Allocation.BuildPortfolio | init/alg.py:77-84 | the solver dictionary has unique keys and exactly the table's symbols as keys |
| Allocation.BuildPortfolioEntries | init/alg.py:77-84 | every dictionary entry is some row's price, count, weight and dividend |
| Allocation.BuildPortfolioLastWins | init/alg.py:77-84 | for a repeated symbol the last row's entry is the one kept |
| Allocation.BuildPortfolioDistinct | init/alg.py:77-84 | with distinct symbols the dictionary is the table's rows, one entry each, in table order |
| Allocation.ChooseMove | init/alg.py:94-116 | with a and b the drawn tickers and rem = target − total: the move is a buy of a exactly when rem > 0 and price_a ≤ rem; a swap selling b and buying a exactly when rem > 0, price_a > rem, b ≠ a and count_b > 1; a sell of a exactly when rem < 0 and count_a > 1; otherwise, and always at the target, nothing moves |
| Allocation.Apply | init/alg.py:104-116 | a move changes each count by at most one and never lowers a count below 1 |
| Allocation.MoveIsLocal | init/alg.py:104-116 | a move changes only the tickers it names |
| Allocation.MoveShareCount | init/alg.py:104-116 | a swap keeps the number of shares; a buy adds one and a sell removes one |
| Allocation.TotalIncrement | init/alg.py:106 | one more share of a ticker adds exactly its unit price to the invested total |
| Allocation.TotalDecrement | init/alg.py:116 | one share fewer of a ticker takes exactly its unit price off the invested total |
| Allocation.MoveTotal | init/alg.py:104-116 | a buy adds the bought unit price to the total, a sell removes the sold one, a swap adds the bought price minus the sold price, staying changes nothing |
| Allocation.BuyStaysWithinTarget | init/alg.py:104-106 | a buy raises the total by one unit price and never past the target |
| Allocation.SellLowersTotal | init/alg.py:114-116 | a sell happens only above the target and lowers the total by one unit price |
| Allocation.Search | init/alg.py:89-118 | the search stops within the step budget; stopping before the budget means the total equals the target |
| Allocation.SearchKeepsFloor | init/alg.py:110-116 | over the whole search no count that is ≥ 1 drops below 1 and no non-negative count turns negative |
| Allocation.SearchStopsAtTarget | init/alg.py:93-98 | at the target the search takes no step |
| Allocation.Solve | init/alg.py:89-118 | the loop computes the search: at most max_steps steps, and an early exit only at the exact target; counts keep the floor of 1 |
| Allocation.ExportRow | init/alg.py:125-131 | an exported row carries the position's symbol as SYMBOL, its price as PRICEPER, its count as AMOUNT and its dividend as DIVIDEND, with TOTAL = PRICEPER × AMOUNT |
| Allocation.ExportSumIsTotal | init/alg.py:124-131 | the TOTAL column sums to the solver's invested total |
| Allocation.SortKeepsSum | init/alg.py:133-140 | sorting does not change the TOTAL sum that the save test checks |
| Allocation.Export | init/alg.py:122-133 | the table is sorted by TOTAL, descending, is a permutation of the dictionary's rows, names exactly the dictionary's keys, every row is priced, and its sum is the invested total |
| Allocation.SortedExportDistinct | init/alg.py:124-133 | dictionary keys are unique, so the exported symbols are distinct |
| Allocation.ExportedRowsAreQuoted | init/alg.py:124-131 | every exported row carries the price and dividend fetched for its symbol |
| Allocation.SolveWeightedCsv | init/alg.py:12-144 | a failed batch fetch ends the run as the price service's failure; an empty priced table or an undefined baseline ends it with that cause (the empty table and the non-finite allocation are told apart); otherwise it reports the step the search from the baseline stopped at, at most 3,000,000, finishing early only at the target; it saves the table exactly when ΣTOTAL is 500,000.00; the rows are priced, sorted, distinct and quoted; the table names exactly the priced symbols, one row each, and as a multiset it is the export of the dictionary built from the baseline with the counts the search ends with |
| Sorting.SortDesc | init/alg.py:133 | the result is in descending key order and a permutation of the input |
| Sorting.InsertSorted | app.py:27 | inserting into a sorted sequence keeps it sorted |
| Sorting.SortDescStable | app.py:27 | elements with equal keys keep their original relative order |
| Sorting.PermutationKeepsDistinct | init/alg.py:133 | reordering a table keeps its keys distinct |
| Finalize.FilterTargets | init/finalize.py:20 | a row survives exactly when its symbol is on the fixed list |
| Finalize.FilterTargetsAppend | init/finalize.py:20 | filtering keeps the relative order of rows |
| Finalize.SharesFor | init/finalize.py:30 | AMOUNT·price ≤ 25,000.00 < (AMOUNT+1)·price and AMOUNT ≥ 0 |
| Finalize.FinalRow | init/finalize.py:30-41 | the output row keeps symbol, price and yield, TOTAL = AMOUNT·price, and 0 ≤ TOTAL ≤ 25,000.00 < TOTAL + price |
| Finalize.GenerateFinal | init/finalize.py:14-48 | fails exactly when a surviving price is zero; otherwise one output row per surviving row, in order, invested = ΣTOTAL ≤ 25,000.00 per row, leftover = 500,000.00 − invested |
| Finalize.LeftoverNonNegative | init/finalize.py:47-48 | with distinct symbols at most 20 rows survive, so invested ≤ 500,000.00 and the leftover is ≥ 0 |
| Finalize.FinalRowsDistinct | init/finalize.py:20-36 | distinct metrics symbols give a table with distinct symbols |
| Finalize.DuplicateSymbolsOverspend | init/finalize.py:47-48 | twenty-one MSFT rows at 1.00 leave a leftover of −25,000.00 |
| Import.HoldingOf | init_db.py:61-74 | a holding has quantity AMOUNT, buy price and current price PRICEPER, no previous price, and the row's yield |
| Import.TransactionOf | init_db.py:77-85 | a transaction has type "BUY (INIT)", AMOUNT shares at PRICEPER, total TOTAL, stamped now |
| Import.ImportRows | init_db.py:40-95 | cash = 500,000.00 − ΣTOTAL and net worth = 500,000.00, so cash + ΣTOTAL = net worth; one holding and one transaction per row, in order; one history point (cash, ΣTOTAL, 500,000.00); no price rows |
| Import.InitDatabase | init_db.py:11-98 | a missing table leaves empty tables; a repeated symbol commits nothing; otherwise the store is the import; tickers are never duplicated |
| Import.InitDatabaseForgetsPrior | init_db.py:14-17 | the result does not depend on the prior store |
| Import.ImportIsConsistent | init_db.py:42-75 | importing priced rows gives a ledger whose net worth is cash plus holdings at their current prices |
| Import.ImportAfterSavedSolve | init_db.py:42-98 | a table the solver saved (priced, distinct, exact sum) imports with zero cash into a consistent ledger |
| Import.ImportAfterFinalize | init_db.py:42-98 | the finaliser's table imports with cash equal to its leftover, ≥ 0, into a consistent ledger |
| Revaluation.ShownPrice | app.py:27 | the shown price is the current price when it is set and non-zero, else the buy price |
| Revaluation.Revalue | app.py:113-125 | on a non-zero quote, current becomes the quote and previous becomes the shown price; otherwise the holding is untouched; quantity, buy price and yield never change |
| Revaluation.Contribution | app.py:116-134 | a non-zero quote adds quote·qty, a zero quote adds nothing, a raising fetch adds current·qty, and fails the cycle when there is no current price |
| Revaluation.AssetsValue | app.py:110-134 | the asset value is defined exactly when every raising fetch has a current price to fall back on |
| Revaluation.StockRows | app.py:111-129 | one price row per non-zero quote, all stamped with the cycle instant, none for other tickers |
| Revaluation.StockRowsCount | app.py:118-129 | the number of price rows is the number of non-zero quotes |
| Revaluation.QuoteCycle | app.py:110-147 | one cycle once quotes can be asked for. With no holdings nothing changes. A missing portfolio or a failed fallback rolls the cycle back; otherwise the holdings are revalued, cash is kept, net worth = cash + assets, last updated = now, one history point (cash, assets, cash + assets) and the price rows are appended, transactions are unchanged |
| Revaluation.UpdateMarketData | app.py:94-152 | with no holdings the job returns before asking for quotes; when the batch quote object cannot be built nothing is committed; otherwise it is the quote cycle; it commits exactly when there are holdings, a batch, a portfolio and a fallback for every raising fetch, and a job that does not commit leaves the store unchanged |
| Revaluation.QuoteCycleAgree | app.py:105-116 | a cycle depends on the quote service only through the held tickers |
| Revaluation.AssetsAreMarkValue | app.py:110-134 | without zero quotes the asset value equals the revalued holdings at their current prices |
| Revaluation.CommitWithoutZeroQuotesIsConsistent | app.py:110-147 | without zero quotes a committed cycle leaves net worth = cash + holdings at current prices |
| Revaluation.AssetsShortfall | app.py:118-134 | the asset value plus the zero-quoted holdings at their last prices equals the revalued holdings at their current prices |
| Revaluation.ZeroQuotesUnderstateNetWorth | app.py:118-147 | a committed cycle records net worth short of cash plus holdings by exactly the zero-quoted holdings' value, so any such value breaks consistency |
| Revaluation.ZeroQuoteBreaksNetWorth | app.py:118-131 | a zero quote commits a net worth that leaves out a priced holding |
| Revaluation.QuoteCycleIntended | app.py:113-147 | with zero quotes falling back like failed fetches, every committed cycle is consistent, and without zero quotes it is the cycle as written |
| Revaluation.DashboardOrder | app.py:27 | holdings are ordered by quantity × shown price, descending, as a permutation, with ties in store order |
| MarketHours.IsMarketOpen | clean_db.py:14-48 | a date is looked up only on its first query and cached entries never change; no session means closed; otherwise open ⇔ open ≤ t ≤ close; a cache that agrees with the calendar answers as the calendar does and keeps agreeing |
| MarketHours.KeepOpenMembers | clean_db.py:59-76 | a record survives exactly when its stamp is inside market hours |
| MarketHours.KeepOpenAll | clean_db.py:82-89 | nothing is deleted exactly when every record is inside market hours, and then the table is unchanged |
| MarketHours.KeepOpenIdempotent | clean_db.py:59-76 | pruning twice is pruning once |
| MarketHours.Prune | clean_db.py:59-76 | the scan keeps exactly the open records, counts the deleted ones and keeps the cache in agreement with the calendar |
| MarketHours.CleanDatabase | clean_db.py:50-89 | each table's deleted count is its number of records outside market hours; a commit happens exactly when something was deleted; otherwise the store is unchanged; only the history tables change |
| MarketHours.CleanupIsIdempotent | clean_db.py:50-89 | a second cleanup deletes nothing |

## Left out

- Network I/O: fetching prices and dividends from the market-data service (`init/alg.py`, `init/get_metrics.py`, `init/prices.py`). Quotes are given as a function, and `init/get_metrics.py` and `init/prices.py` are not part of this model.
- CSV and pandas reading and writing, column stripping, and all printing, including the progress line every 500,000 steps. Tables are sequences of records.
- Flask routes, the JSON/CSV endpoints and the APScheduler job in `app.py`. These are presentation and scheduling.
- SQLAlchemy session mechanics and autoincrement ids. A rolled-back cycle is modelled as the unchanged store.
- Floating point. Prices are whole cents; a sub-cent price, `NaN` or infinity is not representable. Negative prices are excluded in the solver and finaliser (`nat`).
- Timezone localisation and the NYSE calendar computation. Both are parameters.
- The probability and expected time of convergence. Only safety and the step bound are modelled.
- Clock reads. One instant `now` stands for every `datetime.now()` of a run; the program reads the clock separately per row.
- Allocation.Export: fixes the order of rows with equal TOTAL by a stable sort. pandas' default quicksort leaves that order unspecified, so the model is one of the orders the program may produce.
- Allocation.SolveWeightedCsv: requires at least 3,000,000 random draws, one per possible step.
- Finalize.LeftoverNonNegative: assumes the metrics table names each symbol once. With a repeated symbol the leftover can be negative (Finalize.DuplicateSymbolsOverspend).
- Import.InitDatabase: a failure to read the CSV file and a missing file are the same input (None). Both leave empty tables.
- MarketHours.CleanDatabase: requires that the cache agrees with the calendar when the cleanup starts. The program's cache starts empty and is only ever filled from the calendar.

## Findings

| source | as written | input that shows it | evidently intended | confidence | as-written member | corrected member |
|---|---|---|---|---|---|---|
| app.py:118-134 | a falsy quote (0 or None) without an exception leaves the holding's current price in place but adds nothing to the asset value, so net worth drops by that holding's whole value | one holding of 10 shares last priced at 10.00, cash 0, net worth 100.00; the quote comes back 0; the cycle commits net worth 0.00 while the holding still shows 10.00 | a falsy quote falls back to the last price, as a raising fetch does, so net worth stays cash plus holdings at current prices | medium, not executed | Revaluation.ZeroQuotesUnderstateNetWorth | Revaluation.QuoteCycleIntended |
