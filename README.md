# Trade aggregation, position matching and Kraken pair parsing

This project is a Dafny model of the bookkeeping core of a small trade-sync
tool. The tool downloads a user's fills from crypto exchanges and turns them
into orders and then into positions.

- **`aggregateTrades`** (exchanges/Exchange.ts) folds normalised trades
  (fills) into one aggregated order per order id (`ordertxid`). The first
  fill supplies the order's metadata. Each later fill is appended, its
  volume added, the price range widened and a running volume-weighted
  average price updated.
- **`aggregatePositions`** (exchanges/Exchange.ts) groups orders by trading
  pair, in first-seen pair order. Within a pair it walks the orders in
  arrival order, accumulating buy and sell volume and cost (volume times
  average price). When the two volumes are within two per cent of their
  mean, it emits a position, long when buy volume is strictly larger and
  short otherwise. It then resets its accumulators. Orders after the last
  balanced run produce nothing.
- **`parseKrakenPair` / `getKrakenFromFromPairString`**
  (exchanges/Kraken.ts) split a Kraken pair string such as `XXBTZUSD`. They
  try a fixed list of currency codes in order, and take the first code that
  is a prefix and whose removal leaves a listed code.

Modules:

- `Wrappers` holds `Option`.
- `ExchangeTypes` holds the `Trade`, `Order` and `Position` records with
  `Max`, `Min` and `Abs`.
- `TradeAggregation` models `aggregateTrades`.
- `PositionMatching` models `aggregatePositions`.
- `KrakenPairs` models the pair parsing.

Prices and volumes are `real`: the string-to-number conversions are taken as
already done. Times are `int` and strings are `seq<char>`.

Each of the two imperative operations is a method whose loop follows the
source. It is proved equal to a closed-form specification function, and the
source's promises are proved as lemmas about that function.

- **`AggregateTrades`.** A `map` plus a key list models the JavaScript
  dictionary and its insertion-ordered `Object.values`. The method is proved
  equal to `Aggregated`. `Aggregated` builds each order id's aggregate from
  the sub-sequence of trades with that id: the volume is a sum, the extreme
  prices are a maximum and a minimum, and the average is Σ price·vol / Σ vol.
- **`AggregatePositions`.** The incremental `AddOrder` callback and the
  per-pair loop `MatchOrders` are proved to compute `MatchPair`. `MatchPair`
  repeatedly cuts off the shortest non-empty prefix of a pair's orders
  whose volumes balance.

## Model

| member | source | states |
|---|---|---|
| TradeAggregation.AggregateTrades | exchanges/Exchange.ts:53-91 | the dictionary loop returns exactly `Aggregated(trades)`: one closed-form summary per order id, in first-seen order |
| TradeAggregation.NewOrder | exchanges/Exchange.ts:57-71 | the order created from an id's first trade is the closed-form summary of that one trade |
| TradeAggregation.AddTradeSummary | exchanges/Exchange.ts:73-86 | `AddTrade`, the in-place update of an existing order by a later fill (append, add volume, widen the range, running average from `totalVol - vol`) gives the summary of the extended trade list |
| TradeAggregation.RunningAverage | exchanges/Exchange.ts:83-86 | the running-average formula, fed the previous total and mean, equals the weighted mean of the extended list |
| TradeAggregation.MeanStep | exchanges/Exchange.ts:76-86 | appending a fill to a list with positive total volume turns its weighted mean into the running-average formula's value, and adds the fill's volume to the total |
| TradeAggregation.ExtremesStep | exchanges/Exchange.ts:77-81 | appending a fill to a non-empty list makes the highest price the larger, and the lowest price the smaller, of the old extreme and the fill's price |
| TradeAggregation.DictionaryAt | exchanges/Exchange.ts:54-88 | after any prefix of the trades, every dictionary entry present is the closed-form summary of the (non-empty, positive-volume) trades with that id |
| TradeAggregation.DictionaryValues | exchanges/Exchange.ts:90 | the dictionary's values in key insertion order are `Aggregated(trades)` |
| TradeAggregation.OrderIdsComplete | exchanges/Exchange.ts:57-59 | an id is among the keys exactly when some trade carries it |
| TradeAggregation.AggregatedIdsDistinct | exchanges/Exchange.ts:54-75 | no two aggregates share an order id |
| TradeAggregation.EveryTradeLands | exchanges/Exchange.ts:56-75 | every input trade appears in the aggregate of its own id, and in no aggregate of another id |
| TradeAggregation.AggregatedTrades | exchanges/Exchange.ts:65-76 | an aggregate's fills are exactly the input trades with its id, in input order, and its volume is their sum |
| TradeAggregation.AggregatedPrices | exchanges/Exchange.ts:66-86 | highest and lowest prices bound every fill and are attained by one; with positive volumes the average is Σ price·vol / Σ vol and lies between them |
| TradeAggregation.MaxPriceIsMax | exchanges/Exchange.ts:77-80 | the running maximum bounds every price and is one of them |
| TradeAggregation.MinPriceIsMin | exchanges/Exchange.ts:81 | the running minimum bounds every price from below and is one of them |
| TradeAggregation.MeanBetweenExtremes | exchanges/Exchange.ts:83-86 | with positive volumes the weighted mean lies between the minimum and the maximum price |
| TradeAggregation.SummaryPermutation | exchanges/Exchange.ts:73-86 | reordering the trades of one order leaves its total volume, highest and lowest price and average price unchanged |
| TradeAggregation.AggregatedFirstTrade | exchanges/Exchange.ts:59-71 | time, side, pair and exchange of an aggregate are those of the first trade carrying its id |
| TradeAggregation.FirstTradeOf | exchanges/Exchange.ts:57-70 | the first fill of an aggregate is the earliest input trade with that id |
| PositionMatching.AggregatePositions | exchanges/Exchange.ts:92-167 | the grouping loop and the per-pair loops return exactly `Positions(orders)` |
| PositionMatching.MatchOrders | exchanges/Exchange.ts:105-164 | the per-pair loop with its four accumulators returns exactly `MatchPair` of that pair's orders |
| PositionMatching.AddOrder | exchanges/Exchange.ts:113-162 | booking one order keeps the accumulators equal to the volumes and costs of the current run; the run is emitted as its position and cleared iff it balances, and otherwise extended |
| PositionMatching.ThresholdBalanced | exchanges/Exchange.ts:126-138 | `WithinThreshold`, the source's percentage test, and `100·\|b−s\| <= b+s` (for a positive total) agree on every input; a zero total never passes |
| PositionMatching.ThresholdBoundary | exchanges/Exchange.ts:126-136 | 100 against 98 fails the two-per-cent test and 100 against 98.1 passes |
| PositionMatching.OrdersOfMembers | exchanges/Exchange.ts:94-100 | a pair's group holds exactly the orders on that pair |
| PositionMatching.GroupStep | exchanges/Exchange.ts:95-100 | pushing one order (creating its group when the pair is new) keeps every group equal to the orders seen so far on that pair, with pairs in first-seen order |
| PositionMatching.ClosingFromLeast | exchanges/Exchange.ts:113-138 | an emission happens at the first order whose run balances; no run is emitted exactly when no prefix balances |
| PositionMatching.MatchPairRuns | exchanges/Exchange.ts:138-161 | every emitted position closes a run none of whose shorter prefixes closes, and is the position built from that run |
| PositionMatching.MatchPairPartition | exchanges/Exchange.ts:111-161 | a pair's orders are the positions' runs, in order, followed by the unmatched rest, so the runs are disjoint and together a prefix |
| PositionMatching.UnmatchedOpen | exchanges/Exchange.ts:113-163 | no non-empty prefix of the trailing unmatched orders balances, so they produce no position |
| PositionMatching.CostConservation | exchanges/Exchange.ts:116-122 | the positions' buy (sell) costs plus those of the unmatched rest are the pair's total buy (sell) cost |
| PositionMatching.RunsWithin | exchanges/Exchange.ts:113-152 | every order of an emitted position is one of the pair's orders |
| PositionMatching.PositionsAreClosedRuns | exchanges/Exchange.ts:92-167 | every position closes its run, is the position of that run, and all its orders are input orders on the position's pair |
| PositionMatching.PositionFields | exchanges/Exchange.ts:140-154 | for every position, built by `PositionOf`: long iff buy volume > sell volume (so equal volumes give short); P&L is sell−buy for long and buy−sell for short; costs are sums of volume·average price per side; time, price and pair come from the first fill of the first order |
| PositionMatching.RoundTrip | exchanges/Exchange.ts:138-143 | a buy and a sell of the same volume make one short position with P&L buy cost − sell cost; at 100 units bought at 10 and sold at 11 the P&L is −100 |
| PositionMatching.AggregatedHasTrades | exchanges/Exchange.ts:70 | every order produced by `aggregateTrades` has a fill, which `aggregatePositions` needs |
| PositionMatching.PairsOfDistinct | exchanges/Exchange.ts:96-98 | each pair gets one group |
| PositionMatching.PositionsOfPair | exchanges/Exchange.ts:94-164 | the positions on one pair are exactly the matching of that pair's orders in arrival order |
| KrakenPairs.IndexOf | exchanges/Kraken.ts:107 | a found index is the first position at or after the start where the pattern occurs; `None` means it occurs nowhere from the start on |
| KrakenPairs.Replace | exchanges/Kraken.ts:105-107 | `replace` of the first occurrence: under `startsWith(code)` it swaps exactly the prefix, and a string without an occurrence is unchanged |
| KrakenPairs.ParseFromFirst | exchanges/Kraken.ts:104-112 | the search returns the split of the first code at or after the start that splits the pair, and nothing iff none does |
| KrakenPairs.ParseFrom | exchanges/Kraken.ts:104-112 | the early-returning search over the codes from an index on: a returned split gives `from + to == pair` with both in the code list |
| KrakenPairs.ParseKrakenPair | exchanges/Kraken.ts:82-116 | `parseKrakenPair`: a successful parse gives `from + to == pair` with both in the code list |
| KrakenPairs.ParseFirstMatch | exchanges/Kraken.ts:84-115 | the parse picks the first listed code that splits the pair, and returns null exactly when no code does |
| KrakenPairs.KrakenFromPairString | exchanges/Kraken.ts:71-80 | `getKrakenFromFromPairString` returns the parsed `from` on success and null otherwise (no listed code is empty) |
| KrakenPairs.ParseExample | exchanges/Kraken.ts:84-111 | `XXBTZUSD` parses as `XXBT`/`ZUSD`, because `XXBT` precedes `XXBTZ` in the list |
| KrakenPairs.ShortPairFails | exchanges/Kraken.ts:84-115 | every code has at least three letters, so a pair shorter than six letters never parses and the getter returns null |
| KrakenPairs.BareCodeFails | exchanges/Kraken.ts:104-115 | the bare code `XBT` does not parse, because "" is not listed |

## Left out

- The `Exchange` class (ccxt client set-up, fetching, pagination and parallel fetches), the `Kraken` class (HTTP calls, HMAC signing) and `index.ts`, `notion.ts`, `trades.ts`, `balances.ts` and `exchanges/prices.ts` are network or script code. They are not part of this model.
- `console.log`/`console.error` output, the `date` fields (`new Date(...)`) and the `parseFloat`/`Number` conversions are left out. Prices and times are taken as numbers already.
- IEEE-754 doubles are modelled as exact reals, so rounding in sums, products and divisions is not captured.
- AggregateTrades: requires every trade volume to be positive, which excludes every zero or negative volume, including inputs the source handles without NaN (a single trade of volume 0 gives total 0 and average equal to its price; negative volumes give ordinary sums). It is there because a running total of zero makes the source divide by zero and store NaN or ±Infinity (NaN when the numerator `vol·(price − averagePrice)` is zero, an infinity otherwise, such as 1@10 then −1@20), which reals cannot represent, and because the bounds on the average need positive weights.
- AggregatePositions: requires every order to have at least one fill, which excludes more inputs than make the source throw. The source reads only `trades[0]` of the first order of each emitted run, so an order without fills elsewhere in a run, or in the unmatched rest, is harmless there. `AggregatedHasTrades` shows the output of `aggregateTrades` always meets this.
- The threshold test is false when buy plus sell volume is zero, which is how NaN and infinities compare in the source. A negative total passes the test, as it does in the source; it only arises with negative volumes.
- Object key order: dictionary values and keys are modelled in insertion order, as JavaScript keeps them for ordinary string keys. JavaScript lists array-index keys (canonical decimal strings of integers below 2^32 - 1) first, in ascending numeric order; an order id of that form (keys of `ordersMap`), or a pair of that form (keys of `ordersByPair`, read with `Object.keys`), would come out sorted in the source, which the model does not capture.
- Keys that collide with `Object.prototype` members (such as `"constructor"`) are not modelled: a map lookup stands in for the truthiness test on the dictionary entry.
- The aliasing of order objects between the input, `tempOrders` and emitted positions is not modelled. The source copies `tempOrders` with `slice()` before reassigning it, so values capture it.
- __tests__/createPositionsFromOrders.test.ts is not used: it exercises a function and fields that no longer exist and asserts nothing.
- The trade's `type` string is cast without checking in the source. It is kept as a plain string, and any value other than `"buy"` is booked as a sell.
- The source does not skip trades with non-positive volume; the model requires positive volumes instead (see the AggregateTrades line).
- Equal buy and sell volumes give a short position, because `buyVolume > sellVolume` is strict (exchanges/Exchange.ts:141). So buying 100 at 10 and selling 100 at 11 gives profit/loss −100, which `RoundTrip` proves.
