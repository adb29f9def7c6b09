# Quantum DeFi arbitrage: a verified model of the detector, the backtester and the price collector

This project models the decision logic of a small DeFi arbitrage toolkit in Dafny.

- **Price collector** (`src/data_pipeline.py`):
  - asks CoinGecko for the USD prices of four tokens;
  - names each price column `CoinGecko_<SYMBOL>`;
  - counts its API calls;
  - skips the call while the table's newest row is less than 300 seconds old, and otherwise makes one API call and, if it fetched any price, appends one row stamped with the whole second. While the clock does not go back, the stored stamps stay at least 300 seconds apart (`SaveKeepsSpacing`).
- **Opportunity detector** (`percentage_based_arbitrage` in `src/quantum_optimization.py`) works on the latest row:
  - takes the columns whose label contains `CoinGecko`;
  - compares every unordered pair of their prices as a percentage of the smaller price;
  - lists the pairs above the slippage tolerance;
  - reports the first pair with the largest difference, or the sentinel `("None", 0.0, [])`.
- **Backtester** (`classical_arbitrage`, `quantum_arbitrage` and the zero-deviation guard of `compute_sharpe_ratio` in `src/backtesting.py`):
  - replays the same formula over every row of the history, with no threshold, and keeps each row's largest difference;
  - scales those profits by 1.1;
  - computes a Sharpe ratio that is 0 when the deviation is 0.

Modules, one per source file plus two shared ones:

- `Optional` (`optional.dfy`): `Option`, standing for Python's `None`, NaN and absent values.
- `PriceRows` (`price_rows.dfy`): what the detector and the backtester share:
  - a row of the price table as labelled cells, each numeric or not;
  - the `CoinGecko` column filter;
  - the percentage-difference formula;
  - the enumeration of column pairs in the order of the two nested loops;
  - which pairs are kept, and the records made for them.
- `QuantumOptimization` (`quantum_optimization.dfy`): the detector, with its nested loops as a method and its guarantees as lemmas.
- `Backtesting` (`backtesting.dfy`): the backtest loops, the factor 1.1, and the Sharpe ratio's zero branch.
- `DataPipeline` (`data_pipeline.dfy`):
  - JSON responses, and the response-to-prices mapping;
  - the class `PriceCollector`, which holds `api_call_count` and the price table as fields;
  - the methods `FetchPrices` and `SavePrices`;
  - the throttle, append-only and spacing properties.

Each loop is a method proved equal to a specification function:

- `Scan` for the detector's outer loop and `RowScan` for its inner loop;
- `ProfitScan` and `RowProfitScan` for the backtester's loops;
- `CollectPrices` for the collector's token loop.

The properties are proved as lemmas about those functions.

Interfaces of the model:

- Prices are exact `real`s.
- An HTTP response is a parameter. `Failed` stands for a request or JSON decoding that raised.
- Both clock readings of `save_prices` are parameters, in seconds.
- The CSV file is the field `table`: `None` when the file is missing, otherwise its rows in file order.

Modelling notes:

- **Percentage difference.** The difference is taken relative to the smaller of the two prices, so prices 100 and 105 differ by exactly 5% (`QuantumOptimization.ExampleHundredAndHundredFive`).
- **Timestamps.** A row is stamped with whole seconds, because `strftime("%Y-%m-%d %H:%M:%S")` drops the fraction. The stamp is therefore the floor of the second clock reading. The throttle measures from that floored stamp, so two saves can be as little as just over 299 seconds apart by the clock. The stored stamps are still at least 300 seconds apart.

## Model

| member | source | states |
|---|---|---|
| PriceRows.ExchangeColumns | src/quantum_optimization.py:58 | the filter returns no more columns than the row has; each is a column of the row whose label contains `CoinGecko` (the same filter is on src/backtesting.py:46) |
| PriceRows.ContainsIsSubstring | src/quantum_optimization.py:58 | `"CoinGecko" in col` is the substring relation: the test holds exactly when the tag occurs in the label at some offset |
| PriceRows.ExchangeColumnsMembers | src/quantum_optimization.py:58 | the column filter keeps exactly the columns whose label contains `CoinGecko` |
| PriceRows.ExchangeColumnsAppend | src/quantum_optimization.py:58 | the filter keeps the columns' relative order (it distributes over concatenation of rows) |
| PriceRows.TimestampNeverPaired | src/quantum_optimization.py:58 | the `timestamp` column is never taken for an exchange price |
| PriceRows.PairDiff | src/quantum_optimization.py:70 | the percentage difference is never negative, and it is zero exactly when the two prices are equal |
| PriceRows.AllPairsEnumeration | src/quantum_optimization.py:64-65 | the nested loops over n columns visit exactly the pairs i < j < n, in strictly increasing lexicographic order |
| PriceRows.AllPairsOfFew | src/quantum_optimization.py:64-65 | fewer than two columns give the loops no pair to visit |
| PriceRows.IncreasingIsDuplicateFree | src/quantum_optimization.py:64-65 | a strictly increasing enumeration visits no pair twice |
| PriceRows.SelectPairs | src/quantum_optimization.py:66-73 | the kept pairs are exactly the visited pairs that pass the test (numeric prices, and above the threshold when there is one), and there are no more of them than visited pairs |
| PriceRows.SelectPairsIncreasing | src/quantum_optimization.py:64-73 | keeping a subset of the pairs preserves the loops' order |
| PriceRows.ScanAt | src/quantum_optimization.py:64-73 | the k-th record the loops append is the labels and difference of the k-th kept pair |
| PriceRows.ScanAppend | src/quantum_optimization.py:64-73 | visiting one sequence of pairs and then another records the records of the first followed by those of the second |
| PriceRows.RowScanIsScan | src/quantum_optimization.py:65-73 | the inner loop of row i records exactly what the loops record over the pairs (i, j), j > i, in order |
| PriceRows.ScanNextRow | src/quantum_optimization.py:64-73 | completing row i of the outer loop appends what its inner loop records to what the earlier rows recorded |
| PriceRows.KeptPairsCharacterization | src/quantum_optimization.py:64-73 | over a row, the kept pairs are exactly the kept pairs i < j of positions, each once, in loop order |
| PriceRows.CandidatesAt | src/quantum_optimization.py:67-73 | the k-th recorded opportunity is the k-th kept pair's labels and difference |
| QuantumOptimization.FirstMaxIndex | src/quantum_optimization.py:83 | `max(..., key=diff)` picks a largest difference, and no earlier opportunity has an equal one (first of equal maxima) |
| QuantumOptimization.FindOpportunities | src/quantum_optimization.py:63-77 | the nested loops return exactly `Opportunities(cols, tol)`: one record per pair i < j of numeric prices above the threshold, in loop order, skipping pairs with a non-numeric price |
| QuantumOptimization.PercentageBasedArbitrage | src/quantum_optimization.py:55-86 | with fewer than two exchange columns, or no opportunity, the result is `("None", 0.0, [])`; otherwise it is the label `ex1 vs ex2` and the difference of the first largest opportunity, together with the full list |
| QuantumOptimization.OpportunityStep | src/quantum_optimization.py:66-73 | one step (i, j) of the inner loop appends `(ex1, ex2, diff)` exactly when both prices are numeric and the difference exceeds tol*100 |
| QuantumOptimization.AppendRowOpportunities | src/quantum_optimization.py:65-77 | the inner loop for position i appends exactly what `RowScan` records for row i, in order |
| QuantumOptimization.TradeLabel | src/quantum_optimization.py:86 | the label is the first column label, then ` vs `, then the second label, with nothing else |
| QuantumOptimization.FewColumnsNoOpportunity | src/quantum_optimization.py:58-61 | fewer than two exchange columns yield no opportunity |
| QuantumOptimization.OpportunitiesSound | src/quantum_optimization.py:67-73 | every listed opportunity comes from a pair of positions i < j with numeric prices, carries their labels and percentage difference, and that difference exceeds tol*100 |
| QuantumOptimization.OpportunitiesComplete | src/quantum_optimization.py:64-73 | every pair i < j of numeric prices whose difference exceeds tol*100 is listed |
| QuantumOptimization.OpportunitiesInEnumerationOrder | src/quantum_optimization.py:64-65 | the listed pairs follow the loop order (the first position, then the second), so no unordered pair is listed twice |
| QuantumOptimization.BadCellSkipsOnlyItsPairs | src/quantum_optimization.py:66-77 | making one cell non-numeric removes exactly the pairs involving it; every other pair is judged as before |
| QuantumOptimization.EqualPricesNeverFlagged | src/quantum_optimization.py:72 | with a non-negative tolerance, a pair of equal prices is never listed |
| QuantumOptimization.ExampleHundredAndHundredFive | src/quantum_optimization.py:70-73 | prices 100 and 105 at tolerance 0.005 give one opportunity with a difference of exactly 5% |
| Backtesting.ProfitScanIsDiffs | src/backtesting.py:52-61 | the backtester's loops append exactly the differences the detector's loops would record with no threshold |
| Backtesting.RowProfitScanIsDiffs | src/backtesting.py:53-61 | the backtester's inner loop of row i appends exactly the differences the detector's inner loop would record with no threshold |
| Backtesting.ProfitScanNextRow | src/backtesting.py:52-61 | completing row i of the outer loop appends what its inner loop appends to the earlier rows' differences |
| Backtesting.MaxOf | src/backtesting.py:64 | `max` of a non-empty list is a member of it, and no member exceeds it |
| Backtesting.AppendRowProfits | src/backtesting.py:53-61 | the inner loop for position i appends exactly `RowProfitScan` of row i: the differences of the valid pairs (i, j), j > i, in order |
| Backtesting.RowPairProfits | src/backtesting.py:51-61 | the nested loops return the difference of every valid pair of the row, in loop order |
| Backtesting.ClassicalArbitrage | src/backtesting.py:43-66 | the loop over the rows returns exactly `ClassicalProfits(rows)`: each row in order contributes its largest pair difference, or nothing |
| Backtesting.ClassicalProfitsAppend | src/backtesting.py:45-64 | profits follow row order: the profits of `a + b` are those of `a` followed by those of `b` |
| Backtesting.ClassicalProfitsLength | src/backtesting.py:45-64 | there is at most one profit per row |
| Backtesting.PairProfitsMembers | src/backtesting.py:51-61 | a value is a row's pair profit exactly when it is the difference of some valid pair i < j (no threshold) |
| Backtesting.ClassicalProfitsNonNegative | src/backtesting.py:58 | every profit is non-negative |
| Backtesting.RowContributionIsRowMaximum | src/backtesting.py:46-64 | a row contributes exactly when it has a valid pair; it then contributes one value, the maximum difference over all its valid pairs |
| Backtesting.DetectorAgreesWithBacktest | src/backtesting.py:52-64 | when a row's largest pair difference exceeds tol*100, the detector lists something, and its best trade on the same columns has exactly that profit |
| Backtesting.QuantumArbitrage | src/backtesting.py:69-70 | the quantum profits have the same length, and each is the classical profit at that position times 1.1 |
| Backtesting.QuantumArbitrageAppend | src/backtesting.py:69-70 | the scaling works element by element, so it keeps the order of the profits |
| Backtesting.EqualValuesHaveZeroVariance | src/backtesting.py:74-76 | equal profits have their common value as mean and a population variance of zero |
| Backtesting.SharpeRatio | src/backtesting.py:73-82 | an empty list gives NaN (`None`) and only then; otherwise a zero deviation gives 0 and a non-zero one gives mean/std. The guard holds by definition; what it means is stated by SharpeOfEqualProfits, SharpeOfBacktestNonNegative and SharpeZeroOnlyWhenFlat |
| Backtesting.SharpeOfEqualProfits | src/backtesting.py:73-79 | for equal profits the standard deviation is 0 and the Sharpe ratio is 0, not a division by zero |
| Backtesting.SharpeOfBacktestNonNegative | src/backtesting.py:73-82 | for a non-empty backtest, the Sharpe ratio is defined and non-negative on both branches of the guard |
| Backtesting.ZeroSumOfNonNegative | src/backtesting.py:75 | non-negative profits whose sum is zero are all zero |
| Backtesting.SharpeZeroOnlyWhenFlat | src/backtesting.py:73-82 | for a non-empty backtest the ratio is 0 exactly when the deviation is 0: a zero ratio with a non-zero deviation is impossible, because non-negative profits with mean 0 are all 0 |
| Backtesting.QuantumKeepsEqualProfits | src/backtesting.py:69-70 | scaling keeps equal profits equal |
| Backtesting.SumScaled | src/backtesting.py:69-75 | the sum of the quantum profits is 1.1 times the sum of the classical ones |
| Backtesting.SumSquaresScaled | src/backtesting.py:69-76 | scaling the profits and the centre by 1.1 scales the sum of squared deviations by 1.21 |
| Backtesting.QuantumMeetsZeroGuard | src/backtesting.py:69-79 | the quantum backtest meets the zero guard whenever the classical one does: a classical deviation of 0 forces a quantum deviation of 0, and the quantum Sharpe ratio is then 0 |
| DataPipeline.ColumnNamesDistinct | src/data_pipeline.py:18-23 | the four tracked tokens have pairwise distinct column names, so no token's price overwrites another's |
| DataPipeline.CollectPricesSucceeds | src/data_pipeline.py:49-58 | the token loop completes exactly when every token present in the body has a usable `usd` quote; otherwise a lookup raises and the call returns `{}` |
| DataPipeline.CollectPricesKeys | src/data_pipeline.py:49-51 | every key the loop writes is `CoinGecko_<symbol>` of a tracked token |
| DataPipeline.CollectPricesEntries | src/data_pipeline.py:49-51 | the loop writes `CoinGecko_<symbol>` exactly for the tracked tokens present in the body, with the token's `usd` quote as value |
| DataPipeline.CollectPricesSpec | src/data_pipeline.py:48-58 | the three statements above together: the loop succeeds exactly when every quote is usable, and then holds each present token's quote under its column name, and nothing else |
| DataPipeline.FetchedPrices | src/data_pipeline.py:40-58 | every key of the fetched mapping is `CoinGecko_<symbol>` of a tracked token, whatever the response |
| DataPipeline.CollectPricesStaysFailed | src/data_pipeline.py:49-58 | once a lookup has raised, the later tokens do not matter |
| DataPipeline.FetchedPricesOfQuotes | src/data_pipeline.py:44-54 | for an object body without `error` and with usable quotes, the keys are exactly the column names of the tokens present; each value is `data[id]["usd"]`; absent tokens are omitted |
| DataPipeline.FetchedPricesEmpty | src/data_pipeline.py:40-58 | the result is `{}` exactly when the request failed, the body is not an object, it holds `error`, a quote is malformed, or no tracked token is present |
| DataPipeline.FetchedColumnsAreExchangeColumns | src/data_pipeline.py:51 | every fetched column name contains `CoinGecko`, so the detector and backtester filter picks it up |
| DataPipeline.LastTimestamp | src/data_pipeline.py:67 | the maximum timestamp of a non-empty table is one of its rows' timestamps, and no row's exceeds it |
| DataPipeline.Throttled | src/data_pipeline.py:65-72 | a call is throttled exactly when the table exists and some row's stamp is less than 300 s earlier than now (or later than now) |
| DataPipeline.PriceCollector.constructor | src/data_pipeline.py:26 | the call counter starts at 0 and the table is the existing file's (or absent) |
| DataPipeline.PriceCollector.FetchPrices | src/data_pipeline.py:29-58 | the counter goes up by exactly one whatever the outcome; the table is unchanged; the result is the response-to-prices mapping |
| DataPipeline.PriceCollector.SavePrices | src/data_pipeline.py:61-90 | if the table has a row less than 300 s older than now, nothing is fetched and nothing changes; otherwise one call is made, and the table becomes the old rows followed by one row stamped with the whole second and holding the prices, or is unchanged when nothing was fetched |
| DataPipeline.NextTable | src/data_pipeline.py:75-90 | the table changes exactly when something was fetched; the old rows stay as they were, in order, and exactly one row follows them, carrying the stamp and the prices |
| DataPipeline.ThrottleAfterWrite | src/data_pipeline.py:65-72 | after a row is written at second s, every call less than 300 s after s is throttled |
| DataPipeline.SaveKeepsSpacing | src/data_pipeline.py:65-90 | while the clock does not go back between the two readings, unthrottled saves keep the rows at least 300 s apart, in file order |

## Left out

- HTTP, the clock, file existence, CSV reading and writing, and printing: they are parameters (`Response`, `now`, `stampClock`, the `table` field) or are left out. `load_config` and the API-key check at import time are left out too.
- DataPipeline.PriceCollector.SavePrices: does not model how `pd.concat` aligns columns or fills missing ones with NaN. A row is kept as its mapping from column names to quotes, so the order in which `save_prices` writes the columns (the order of `COINGECKO_TOKENS`, then the union `pd.concat` forms) is not tied to the column order the detector and the backtester read. That order decides their pair enumeration, the first-max tie-break and the `ex1 vs ex2` label; they are proved for every column order.
- DataPipeline.PriceCollector.SavePrices: does not model an existing file that `read_csv` cannot parse (an empty file, or a timestamp that will not parse). These raise in the source and end the process.
- DataPipeline.Throttled: takes the maximum timestamp of a header-only file to be absent. In the source it is `NaT`, the comparison with 300 is false, and the call goes ahead. Both give the same behaviour.
- The `while True: save_prices(); time.sleep(60)` loop is left out, because it never terminates. Its effect on the table follows from `SavePrices` applied repeatedly together with `SaveKeepsSpacing`.
- Loading the latest row, `dropna`, saving the optimized trade, plotting, and `backtest()`'s result file are left out. They are I/O.
- Floating point is left out. Prices and profits are exact reals, and the factor 1.1 is the exact real 1.1. Rounding, the float overflow of `float(...)`, and the `:.4f` formatting are not modelled.
- A non-numeric cell is `NonNumeric`, standing for a value on which `float()` raises ValueError. Which strings parse is not modelled.
- QuantumOptimization.FindOpportunities: requires that no pair of numeric prices has a zero minimum. The source raises ZeroDivisionError there, and nothing catches it. The same precondition is on PercentageBasedArbitrage, Backtesting.RowPairProfits, Backtesting.AppendRowProfits and Backtesting.ClassicalArbitrage.
- Backtesting.SharpeRatio: takes the standard deviation as a parameter satisfying `IsStdDev`, and square roots are not computed. `IsStdDev` states the root's defining equation and that the root of zero is zero. The zero branch of the guard, its converse for a backtest, and the sign of the ratio are proved. No identity of the form mean/std is proved, for example the invariance of the ratio under the 1.1 scaling.
- Backtesting.SharpeRatio: an empty profit list gives `None`, standing for NaN. `np.mean` and `np.std` of an empty list are NaN, `NaN == 0` is false, and the ratio is NaN.
- Backtesting.AppendRowProfits: the inner loop of `classical_arbitrage` is a method of its own, called once per outer iteration. The computation is the same. The same holds for QuantumOptimization.AppendRowOpportunities and the inner loop of `percentage_based_arbitrage`.
- QuantumOptimization.PercentageBasedArbitrage: takes the slippage tolerance as an argument. The source's default of 0.005, used when the caller gives none, is not modelled. `ExampleHundredAndHundredFive` uses that value explicitly.
- Rows are looked up by position rather than by label. Column labels in a CSV header are unique, so the two agree.
