# Price-level limit-order book — a Dafny model

This project models the core of a latency-measuring limit-order matching engine.
The engine is written in C++ in a single file, `main.cpp`.

- **The order book.** The book keeps two sides of aggregated price levels: bids and asks.
  An incoming buy sweeps the asks from the lowest price up. It takes `min(order, level)` at each level and erases a level once it is empty.
  It stops when the order is filled, when the asks run out, or when the next ask is priced above the buy.
  Any remainder is merged into the bids at the order's price.
  A sell is the mirror image: it sweeps the bids from the highest price down and rests its remainder in the asks.
  The book can report its top: the best bid and the best ask, or nothing for an empty side.
- **The consumer step.** The single matching thread processes every dequeued order and then records exactly one latency sample.
- **The latency report.** The samples are sorted in place. The report gives count, sum, minimum, maximum and the 50th, 90th and 99th percentiles at index `count * p / 100`. With no samples it reports no data.

Modules:

- `Levels` (`levels.dfy`): one side of the book as a sequence of `Level(price, quantity)`, best price first.
  Asks run from the lowest price up (the source's `asks.begin()` order).
  Bids run from the highest price down (the source's `bids.rbegin()` order).
  This module also holds `AddLevel`, which is `book[price] += quantity`, and its lemmas.
- `Matching` (`matching.dfy`): orders and books as values.
  `Sweep` is the matching loop of both `match_buy` and `match_sell`, for a given side.
  `Process` is `process_order`.
  The lemmas state conservation, price priority, positivity, ordering and the uncrossed book.
- `Engine` (`order_book.dfy`): the `OrderBook` class. Its `bids` and `asks` fields are updated in place by `MatchBuy`, `MatchSell` and `AddToBook`.
  Each of these methods is proved equal to the `Matching` functions.
  The loops keep an index that plays the role of the source's iterator.
- `Latency` (`latency.dfy`): the in-place sort, the accumulate loop, the percentile index and the summary.
- `Consumer` (`consumer.dfy`): the per-order fold of the matching thread.
- `Wrappers` (`wrappers.dfy`): `Option`.

Two facts about the percentile lookup in main.cpp:

- main.cpp:192-194 indexes the sorted samples without clamping. `Latency.PercentileIndex` proves `count * p / 100 < count` for every `p < 100`, so the index is always in range.
- For the samples 1..10 the median is read at index 5, which holds 6 (`Latency.PercentileBoundaries`).

## Model

| member | source | states |
|---|---|---|
| `Levels.AddLevel` | main.cpp:73-78 | resting at a price gives a non-empty side whose prices are the old prices plus that price; the new best level is either the rested price or the old best |
| `Levels.AddLevelTotal` | main.cpp:73-78 | `book[price] += quantity` raises the side's total quantity by exactly that quantity |
| `Levels.AddLevelQuantity` | main.cpp:73-78 | resting merges: the level at the price grows by exactly the quantity (from 0 when absent), and every other price keeps its quantity |
| `Levels.AddLevelOrdered` | main.cpp:69-78 | resting keeps the side in strict price order (the sorted-map invariant) |
| `Levels.AddLevelPositive` | main.cpp:101-102 | resting a positive remainder keeps every level strictly positive |
| `Matching.Sweep` | main.cpp:82-124 | the matching loop of match_buy (lines 82-99) and match_sell (lines 108-124) for a given side: it never adds a level, and it stops with a remainder only when the opposite side is exhausted or its best level cannot trade with the order |
| `Matching.Process` | main.cpp:45-51 | a buy works on the asks and a sell on the bids; neither ever adds a level to the opposite side, and an order that keeps a remainder cannot trade with the opposite side's best level that is left |
| `Matching.SweepConserves` | main.cpp:90-92 | for any side and any levels, the quantity taken off the opposite side equals the quantity the order lost |
| `Matching.SweepRemaining` | main.cpp:82-92 | an order with no quantity leaves the side untouched; against positive levels, the remainder stays within `[0, qty]` |
| `Matching.SweepConsumesBestFirst` | main.cpp:82-98 | levels are consumed in best-price order: the d best levels are erased whole, all of them marketable; at most the next one is reduced, and then it is marketable and the order is filled; every other level is untouched |
| `Matching.SweepSparesUnmarketable` | main.cpp:82-88 | a level the order may not trade with (an ask above the buy price, a bid below the sell price) is still in the side afterwards, unchanged |
| `Matching.SweepKeepsOrdered` | main.cpp:94-98 | the sweep keeps the opposite side in price order |
| `Matching.SweepKeepsPositive` | main.cpp:90-98 | emptied levels are erased, so the opposite side never holds a zero-quantity level |
| `Matching.SweepFrontNotBetter` | main.cpp:82-98 | after a sweep, the opposite side's best price is the old best price or a worse one |
| `Matching.SweepLeavesNothingMarketable` | main.cpp:82-103 | when a remainder is left, no level of the opposite side can trade with it, so it rests only once that side is exhausted or no longer marketable |
| `Matching.ProcessConserves` | main.cpp:81-129 | initial quantity = matched + remainder, with the remainder in `[0, initial]`; the opposite side falls by exactly the matched quantity; the own side rises by exactly the remainder |
| `Matching.ProcessRespectsPricePriority` | main.cpp:81-129 | a buy never changes an ask priced above it; a sell never changes a bid priced below it |
| `Matching.ProcessOwnSide` | main.cpp:73-129 | the order's own side changes only at the order's price, by exactly the remainder; a fully filled order leaves it identical |
| `Matching.ProcessKeepsValid` | main.cpp:45-129 | process_order keeps both sides ordered and strictly positive, and never makes the book crossed |
| `Matching.Scenario` | main.cpp:45-129 | on an empty book: BUY 100x5 gives bids {100:5}; then SELL 100x3 gives bids {100:2}; then SELL 99x10 gives no bids and asks {99:8} |
| `Engine.OrderBook.constructor` | main.cpp:157 | a new book has no levels on either side and is valid |
| `Engine.OrderBook.ProcessOrder` | main.cpp:45-51 | the new book and the order's remainder are those of `Process` for the order's side; a valid book stays valid |
| `Engine.OrderBook.TopOfBook` | main.cpp:53-66 | a side reports none exactly when it is empty; otherwise it reports one of its levels, and, when the side is in price order, as on every valid book, no other level has a better price; on a valid book the best bid is below the best ask |
| `Engine.OrderBook.AddToBook` | main.cpp:73-79 | a buy remainder is merged into the bids and a sell remainder into the asks; the other side is unchanged |
| `Engine.OrderBook.MatchBuy` | main.cpp:81-104 | the asks afterwards and the order's remainder are `Sweep(Buy, ...)`; the bids change only by resting a positive remainder |
| `Engine.OrderBook.MatchSell` | main.cpp:106-129 | the bids afterwards and the order's remainder are `Sweep(Sell, ...)`; the asks change only by resting a positive remainder |
| `Latency.PercentileIndex` | main.cpp:192-194 | for any count > 0 and any percent < 100, the index `count * p / 100` lies in `[0, count-1]` and does not decrease as the percent grows |
| `Latency.Summary` | main.cpp:181-194 | no samples gives none; otherwise min and max are samples that bound every sample; each percentile p is the sample of rank `k = count * p / 100` (counting from 0): at most k samples are below it and more than k are at or below it; min <= p50 <= p90 <= p99 <= max; count and sum are those of the samples |
| `Latency.SummaryOfRecorded` | main.cpp:186-191 | since sorting permutes the recorded samples, the reported min and max are the least and greatest recorded latencies, count is the number recorded and sum is their sum; each percentile is the recorded latency of rank `count * p / 100`: at most that many recorded latencies are below it and more are at or below it |
| `Latency.RankedUnique` | main.cpp:192-194 | a rank names exactly one value: two values of the same rank among the same samples are equal, so each percentile is determined by its rank alone |
| `Latency.PercentileBoundaries` | main.cpp:192-194 | with one sample every percentile index is 0; with two the median index is 1; for the samples 1..10 the report is count 10, sum 55, min 1, p50 6, p90 10, p99 10, max 10 |
| `Latency.SortInPlace` | main.cpp:186 | the sample array ends up sorted and is a permutation of what it held |
| `Latency.Accumulate` | main.cpp:188 | the loop returns the sum of all samples |
| `Latency.ReportLatency` | main.cpp:181-194 | with no samples it returns none and leaves them untouched; otherwise it sorts them in place (a permutation) and returns their summary |
| `Consumer.ConsumeOrders` | main.cpp:159-171 | the book afterwards is the orders processed one after another; each order appends exactly its one latency sample; a valid book stays valid |
| `Consumer.ProcessAll` | main.cpp:159-171 | the book after the dequeued orders are processed one after another; any sequence of orders keeps a valid book valid |
| `Consumer.EmptyBookStaysValid` | main.cpp:157-171 | starting from the empty book, the book is valid after any sequence of orders |

## Left out

- Threads are not modelled: the producers, the `std::atomic` run flag, the order-id counter, and the consumer's yield loop and drain condition (main.cpp:36-37, 132-179, 207-231). Their subject is concurrency. The consumer is modelled only as its sequential per-order step, over the orders in the order they were dequeued.
- The lock-free queue (`moodycamel::ConcurrentQueue`) is an external library whose code is not part of this model. Dequeued orders arrive as a sequence.
- Random order generation (`mt19937` and its distributions) only supplies test input. Orders are parameters.
- Clock readings (`std::chrono` timestamps) are not modelled, and neither are the `Order` timestamp fields. Each latency is an integer supplied from outside.
- The floating-point mean, the microsecond conversion, `setprecision` and all console output are left out. The report returns its integer fields, including the sum from which the mean is computed.
- `Latency.PercentileIndex`: the source multiplies the count by a double (`0.50`, `0.90`, `0.99`) and truncates. The model uses integer arithmetic, `count * p / 100`. Counts at which double rounding gives a different index are not captured.
- Integer widths are not modelled. Prices and quantities are C++ `int`, and samples and their sum are `long long`. All are unbounded integers here, so bounded inputs are assumed. Overflow of `+=` in `add_to_book` is not modelled.
- `std::map` is modelled as a sequence of levels strictly ordered by price, best price first. Its tree structure and logarithmic cost are not modelled.
- `std::sort` is modelled by a selection sort. Only its contract is relied on: the result is sorted and is a permutation.
- `Engine.OrderBook.ProcessOrder` does not require a valid book, as the source does not. Positivity and the uncrossed book are promised only when they held before the call.
