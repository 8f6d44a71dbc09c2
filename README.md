# A verified model of a limit order book and its market registry

This project models the matching core of a small single-process exchange
written in Rust.

- **Order book.** Each book keeps two sides, asks and bids. Each side maps a
  fixed-point `Price` to a `Limit`, which is a FIFO queue of resting orders.
- **Posting.** `add_limit_order` appends a resting order to its own side and
  does no matching.
- **Matching.** `fill_market_order` walks the opposite side's levels best
  price first: asks cheapest first for a Bid, bids highest first for an Ask.
  At each level it drains the resting orders in arrival order, each resting
  order giving `min(incoming, resting)`. It stops as soon as the incoming
  order reaches zero. It reports the filled size, the remaining size, the
  volume-weighted average price, and one `FilledOrder` line per level that
  gave a positive amount.
- **Registry.** The `MatchingEngine` maps each `TradingPair` to its book. It
  routes resting orders to that book, or answers `Market not found: base/quote`.

## How the model is built

The model has five modules:

- `Prices` (`prices.dfy`): the price key and its derived lexicographic order. It also gives the cheapest-first listing of a set of prices (`AscendingOf`) and its reverse.
- `Orders` (`orders.dfy`): orders, sizes and liquidity. `Drain` is the value-level specification of draining one level.
- `Matching` (`matching.dfy`): the value-level specification of a whole book.
  - `BookView` holds the two sides as `map<Price, seq<Order>>`.
  - `BookView.Add` specifies posting.
  - `Walk` and `BookView.Match` specify the fill loop and its report.
  - The lemmas state conservation of size, price and time priority, the frame conditions, the report lines and the bounds on the average price.
- `Orderbook` (`orderbook.dfy`): the imperative structures of the source.
  - `Limit` is a class whose queue the fill methods update step by step in a `while` loop.
  - `OrderBook` is a class with two `map<Price, Limit>` fields.
  - `FillLevels` is the loop over the fetched limits.
  - Each method is proved against the specification functions. `OrderBook.View()` abstracts the heap to a `BookView`.
- `Engine` (`engine.dfy`): `TradingPair`, its display name, and the `MatchingEngine` registry class.

Sizes are exact non-negative reals (`Size`), so the test `size == 0.0` in `is_filled` is exact. A `Price` is the pair `(integral, fractional)` with `fractional < 100000`. The scalar 100000 is the constant `Scalar`, the same in every price. Rust's derived `Ord` on `(integral, fractional, scalar)` is therefore the lexicographic `Less`, and `LessIsNumericOrder` proves that it agrees with the numeric value.

Two details of the code shape the model:

- `place_limit_order` reports an unknown market as `Err(String)`, with the text `"Market not found: " + base + "/" + quote`. It has no dedicated error kind.
- The fill loops test `is_filled` after each step. An incoming order of zero therefore still visits the first resting order and the first level, taking nothing. `DrainZero` and `WalkZero` show that this changes nothing.

## Model

| member | source | states |
|---|---|---|
| Prices.Less | src/matching_engine/orderbook.rs:120-125 | The derived order of prices: lexicographic on (integral, fractional), the scalar being the same in every price. Its properties are stated by `LessIsStrictTotalOrder` and `LessIsNumericOrder`. |
| Prices.LessIsStrictTotalOrder | src/matching_engine/orderbook.rs:120-125 | The derived price order is irreflexive, transitive and total. |
| Prices.LessIsNumericOrder | src/matching_engine/orderbook.rs:120-141 | The structural order holds exactly when the numeric value `integral + fractional/scalar` is smaller. |
| Prices.ToRealInjective | src/matching_engine/orderbook.rs:139-141 | Two prices with the same numeric value are the same price. |
| Prices.Insert | src/matching_engine/orderbook.rs:40 | Inserting a new price into a cheapest-first listing keeps it strictly ascending. The listing gains exactly that price and grows by one. |
| Prices.AscendingOf | src/matching_engine/orderbook.rs:38-42 | The cheapest-first listing of a set of prices is strictly ascending and lists exactly that set. |
| Prices.AscendingUnique | src/matching_engine/orderbook.rs:40 | Two strictly ascending listings of the same prices are equal. Sorting by price therefore fixes the order of the levels. |
| Prices.Reverse | src/matching_engine/orderbook.rs:48 | The reversed listing has the same length and holds element `|ps|-1-i` at position `i`. |
| Prices.ReverseOfAscending | src/matching_engine/orderbook.rs:45-50 | Reversing a cheapest-first listing gives a strictly descending, highest-first listing of the same prices. |
| Orders.Order.IsFilled | src/matching_engine/orderbook.rs:231-233 | An order is filled when its remaining size is exactly zero. |
| Orders.Min | src/matching_engine/orderbook.rs:192-196 | The size one step takes: the smaller of the incoming and the resting size. |
| Orders.Liquidity | src/matching_engine/orderbook.rs:158-160 | The sum of the remaining sizes of a queue. Its properties are stated by `LiquidityZeroIffAllFilled`, `LiquidityAppend` and `LiquidityConcat`. |
| Orders.Drain | src/matching_engine/orderbook.rs:190-204 | The specification of filling against one level: each resting order in turn gives `Min(incoming, size)`, stopping right after the step at which the incoming order reaches zero. Its properties are stated by `DrainKeepsQueue`, `DrainConserves`, `DrainAmount`, `DrainIsFifo` and `DrainStopsWhenFilled`. |
| Orders.LiquidityZeroIffAllFilled | src/matching_engine/orderbook.rs:158-160 | A queue's liquidity is zero exactly when every resting order in it is filled. |
| Orders.LiquidityAppend | src/matching_engine/orderbook.rs:215-217 | Appending an order raises the liquidity by exactly its size. |
| Orders.LiquidityConcat | src/matching_engine/orderbook.rs:158-160 | Liquidity adds up over a concatenation of queues. |
| Orders.DrainKeepsQueue | src/matching_engine/orderbook.rs:191-204 | Draining keeps the queue's length and each order's side, and no resting order grows. Fully filled orders stay in place. |
| Orders.DrainConserves | src/matching_engine/orderbook.rs:190-199 | The size filled plus the size remaining equals the incoming size. The queue's liquidity falls by exactly the size filled. |
| Orders.DrainAmount | src/matching_engine/orderbook.rs:191-204 | A level gives `min(incoming, liquidity)`: either the incoming order is filled or the level is emptied. An incoming order larger than the level stays unfilled and leaves every resting order filled. |
| Orders.DrainIsFifo | src/matching_engine/orderbook.rs:191-204 | Draining keeps the queue's length, and a resting order changes only when every order ahead of it in the queue is filled. |
| Orders.DrainStopsWhenFilled | src/matching_engine/orderbook.rs:201-203 | The loop stops once the incoming order is filled: a resting order behind orders that together hold at least the incoming size keeps its size. |
| Orders.DrainZero | src/matching_engine/orderbook.rs:201-203 | An incoming order of zero takes nothing and leaves the queue as it was. |
| Orders.DrainStep | src/matching_engine/orderbook.rs:192-199 | One step takes `min(incoming, resting)` from the first resting order, then drains the rest of the queue with what remains. |
| Orders.DrainAdvanced | src/matching_engine/orderbook.rs:191-204 | The loop state of draining in place is preserved when one more resting order gives `min(remaining, size)`; the state after the step is named by the caller. Its proof is the helper `DrainAdvance`, which states the same step with the new state written out and is kept separate because that form is cheaper to prove. |
| Orders.DrainFinish | src/matching_engine/orderbook.rs:201-204 | When the loop runs out of orders, or breaks because the incoming order is filled, its state is the outcome of `Drain`. |
| Orders.SemiFillExample | src/matching_engine/orderbook.rs:283-299 | 50 against 20 and 20 leaves 10 unfilled and both resting orders at 0. |
| Orders.MultiFillExample | src/matching_engine/orderbook.rs:261-280 | Two incoming 40s against 38 and 62 are both filled: the first leaves 0 and 60, the second leaves 0 and 20. |
| Orders.TotalVolumeExample | src/matching_engine/orderbook.rs:302-313 | Two orders of 20 have a liquidity of 40. |
| Matching.Walk | src/matching_engine/orderbook.rs:94-102 | Walking the levels keeps every level of the side present. |
| Matching.WalkZero | src/matching_engine/orderbook.rs:99-101 | Walking with an incoming order of zero changes nothing and reports nothing. |
| Matching.WalkStep | src/matching_engine/orderbook.rs:94-102 | One step of the walk drains the first level, adds its line if it gave something, and continues with what remains. |
| Matching.WalkStart | src/matching_engine/orderbook.rs:90-92 | The loop state of the walk holds with all accumulators at zero and an empty report. |
| Matching.WalkAdvance | src/matching_engine/orderbook.rs:94-98 | The walk's loop state is preserved when one more level is drained and its size, value and line are accumulated. |
| Matching.WalkFinish | src/matching_engine/orderbook.rs:99-102 | When the loop runs out of levels, or breaks because the incoming order is filled, its accumulators are the outcome of `Walk`. |
| Matching.WalkFrame | src/matching_engine/orderbook.rs:94-102 | A walk changes only the levels it walks and keeps every price present. |
| Matching.WalkConserves | src/matching_engine/orderbook.rs:90-109 | Filled plus remaining equals the incoming size. The walked levels lose exactly the filled size, which is `min(incoming, their liquidity)`. |
| Matching.ShortfallEmptiesLevels | src/matching_engine/orderbook.rs:94-109 | A walk that leaves part of the order unfilled filled exactly the liquidity of the levels, which was less than the order, and left every order on them filled. |
| Matching.WalkPriority | src/matching_engine/orderbook.rs:94-102 | Price priority: a level changes only when every level before it in the walk order is emptied. |
| Matching.WalkStopsWhenFilled | src/matching_engine/orderbook.rs:99-101 | The walk stops at the level where the incoming order is filled: a level behind levels that together hold at least the incoming size is not touched. |
| Matching.WalkLinesSound | src/matching_engine/orderbook.rs:206-211 | Every report line names a walked level and holds a positive size. That size is exactly what the level lost. |
| Matching.WalkLinesComplete | src/matching_engine/orderbook.rs:206-211 | Every walked level that lost liquidity has a report line. |
| Matching.WalkLinesInOrder | src/matching_engine/orderbook.rs:94-95 | Report lines appear in the order in which the levels were walked. |
| Matching.WalkLinesSize | src/matching_engine/orderbook.rs:96 | The sizes of the report lines add up to the filled size. |
| Matching.WalkLinesValue | src/matching_engine/orderbook.rs:97 | Summed over the report lines, price times size is the accumulated total value. |
| Matching.FillsValueAbove | src/matching_engine/orderbook.rs:104-108 | If every line is priced at `lo` or more, the total value is at least `lo` times the total size. |
| Matching.FillsValueBelow | src/matching_engine/orderbook.rs:104-108 | If every line is priced at `hi` or less, the total value is at most `hi` times the total size. |
| Matching.WalkKeepsSide | src/matching_engine/orderbook.rs:191-204 | Matching never changes the side of a resting order. |
| Matching.BookView.Add | src/matching_engine/orderbook.rs:52-82 | The specification of posting: the order is appended to the queue at its price on its own side. Its properties are stated by `AddAppends` and `AddKeepsWellSided`. |
| Matching.BookView.AskPriority | src/matching_engine/orderbook.rs:38-42 | The walk order of the ask levels: the ask prices cheapest first, as `PriorityOrders` states. |
| Matching.BookView.BidPriority | src/matching_engine/orderbook.rs:45-50 | The walk order of the bid levels: the bid prices sorted and reversed, highest first, as `PriorityOrders` states. |
| Matching.PriorityOrders | src/matching_engine/orderbook.rs:38-50 | The ask walk order is strictly ascending and lists exactly the ask prices; the bid walk order is strictly descending and lists exactly the bid prices. |
| Matching.BookView.Match | src/matching_engine/orderbook.rs:84-117 | The specification of matching: an Ask walks the bids highest first, a Bid walks the asks cheapest first, and the report and the order's new size come from that walk. Its properties are stated by `MatchIsWalk`, `MatchConserves`, `MatchReportLines`, `MatchAveragePrice` and the priority lemmas. |
| Matching.AveragePrice | src/matching_engine/orderbook.rs:104-108 | When something was filled, the average times the filled size is the total value; when nothing was, the average is 0. |
| Matching.Report | src/matching_engine/orderbook.rs:109-116 | The report of a walk: its filled size, the remaining size, the average price and the report lines. |
| Matching.AddAppends | src/matching_engine/orderbook.rs:52-82 | Posting appends the order at the tail of its price's queue on its own side, creating the level when it is absent. Every other level is unchanged and the other side is unchanged. The level gains the order's size. |
| Matching.AddKeepsWellSided | src/matching_engine/orderbook.rs:54-80 | Posting keeps asks on the ask side and bids on the bid side. |
| Matching.MatchKeepsWellSided | src/matching_engine/orderbook.rs:84-102 | Matching keeps asks on the ask side and bids on the bid side. |
| Matching.Priority | src/matching_engine/orderbook.rs:85-88 | The walk order lists each price of the opposite side exactly once. |
| Matching.MatchIsWalk | src/matching_engine/orderbook.rs:84-117 | An Ask walks the bids highest first and a Bid walks the asks cheapest first. The report, the new book and the order's new size are those of that walk. |
| Matching.MatchConserves | src/matching_engine/orderbook.rs:90-116 | Filled plus remaining equals the order's size, and remaining is its new size. The filled size is `min(size, opposite liquidity)` and is exactly what the opposite side lost. The order keeps its side. The average price is 0 when nothing was filled, and an order with size remaining is not filled. |
| Matching.MatchTouchesOppositeOnly | src/matching_engine/orderbook.rs:85-88 | An Ask changes only bids and a Bid changes only asks. No level appears or disappears. |
| Matching.BidTakesCheapestFirst | src/matching_engine/orderbook.rs:37-42 | For a Bid, an ask level changes only when every cheaper ask level is emptied. |
| Matching.AskTakesHighestFirst | src/matching_engine/orderbook.rs:44-50 | For an Ask, a bid level changes only when every higher bid level is emptied. |
| Matching.BidStopsWhenFilled | src/matching_engine/orderbook.rs:87-101 | For a Bid, an ask level behind cheaper ask levels that together hold at least the order's size is not touched. |
| Matching.AskStopsWhenFilled | src/matching_engine/orderbook.rs:86-101 | For an Ask, a bid level behind higher bid levels that together hold at least the order's size is not touched. |
| Matching.InOrderAscending | src/matching_engine/orderbook.rs:38-42 | Lines taken in cheapest-first order have strictly ascending prices. |
| Matching.InOrderDescending | src/matching_engine/orderbook.rs:45-50 | Lines taken in highest-first order have strictly descending prices. |
| Matching.AverageWithin | src/matching_engine/orderbook.rs:104-108 | If the value lies between `lo` and `hi` times a positive filled size, their quotient lies between `lo` and `hi`. |
| Matching.MatchReportLines | src/matching_engine/orderbook.rs:94-116 | The report has one line per opposite level that lost liquidity, none for any other level, in best-price-first order. Each line holds what its level lost, and the lines add up to the filled size. |
| Matching.LinesPricedWithin | src/matching_engine/orderbook.rs:97 | Lines whose prices lie between `lo` and `hi` in the price order have values between those of `lo` and `hi`. |
| Matching.LinesAverage | src/matching_engine/orderbook.rs:104-108 | The volume-weighted average of lines priced within `[l, h]` lies within `[l, h]`. |
| Matching.AscendingLinesAverage | src/matching_engine/orderbook.rs:104-108 | The average of ascending lines lies between the first and the last price. |
| Matching.DescendingLinesAverage | src/matching_engine/orderbook.rs:104-108 | The average of descending lines lies between the last and the first price. |
| Matching.WalkAverageAscending | src/matching_engine/orderbook.rs:94-108 | In a cheapest-first walk that filled something, the average price lies between the first and the last price filled. |
| Matching.WalkAverageDescending | src/matching_engine/orderbook.rs:94-108 | In a highest-first walk that filled something, the average price lies between the last and the first price filled. |
| Matching.MatchAveragePrice | src/matching_engine/orderbook.rs:104-108 | When something was filled, the average fill price lies between the best and the worst price filled. For a Bid that is the first and the last line; for an Ask, the last and the first. |
| Matching.ExampleBook | src/matching_engine/orderbook.rs:242-248 | Posting bids of 40 at 1000 and 35 at 990 on an empty book gives two bid levels and no asks. |
| Matching.ExamplePriority | src/matching_engine/orderbook.rs:44-50 | Those bid levels are walked 1000 first, then 990. |
| Matching.ExampleWalk | src/matching_engine/orderbook.rs:94-102 | A sell of 30 takes 30 from the 1000 level, leaving 10 there, and stops. |
| Matching.SellIntoTwoBidsExample | src/matching_engine/orderbook.rs:240-256 | That sell is filled entirely at 1000: the report is 30 filled, 0 remaining, average 1000, one line at 1000. The 990 level is untouched. |
| Orderbook.Limit.constructor | src/matching_engine/orderbook.rs:151-156 | A new level has the given price and an empty queue. |
| Orderbook.Limit.GetLiquidity | src/matching_engine/orderbook.rs:158-160 | The level's liquidity is zero exactly when every resting order is filled. |
| Orderbook.Limit.AddOrder | src/matching_engine/orderbook.rs:215-217 | The queue becomes the old queue with the order at its tail. |
| Orderbook.Limit.FillOrder | src/matching_engine/orderbook.rs:162-183 | The in-place loop leaves the queue and the incoming size exactly as `Drain` specifies. This is the same effect as `FillOrderWithTracking`. |
| Orderbook.Limit.FillOrderWithTracking | src/matching_engine/orderbook.rs:185-213 | The in-place loop leaves the queue, the returned filled size and the incoming size exactly as `Drain` specifies. The report gains one line `(price, filled)` exactly when the filled size is positive, and nothing otherwise. |
| Orderbook.SortedPrices | src/matching_engine/orderbook.rs:39-40 | Collecting the keys in any order and sorting them gives `AscendingOf(keys)`. |
| Orderbook.LimitsAtPrices | src/matching_engine/orderbook.rs:39-40 | On a side whose levels sit under their own price, the levels fetched at the prices `ps` carry exactly the prices `ps`. |
| Orderbook.FillLevels | src/matching_engine/orderbook.rs:90-102 | The loop over the fetched levels leaves the side's queues and the size, value, report lines and remaining size exactly as `Walk` specifies. The other side is untouched. |
| Orderbook.OrderBook.constructor | src/matching_engine/orderbook.rs:30-35 | A new book is valid and empty on both sides. |
| Orderbook.OrderBook.FetchAskLimits | src/matching_engine/orderbook.rs:38-42 | The ask levels, cheapest first: their prices are `AscendingOf(asks.Keys)`, each the book's own level. |
| Orderbook.OrderBook.FetchBidLimits | src/matching_engine/orderbook.rs:45-50 | The bid levels, highest first: their prices are the reverse of `AscendingOf(bids.Keys)`, each the book's own level. |
| Orderbook.OrderBook.AddLimitOrder | src/matching_engine/orderbook.rs:52-82 | The book stays valid and its view becomes `old view.Add(price, order)`. Only new levels are allocated. |
| Orderbook.OrderBook.AddAsk | src/matching_engine/orderbook.rs:55-67 | The ask arm: the same, for an Ask. |
| Orderbook.OrderBook.AddBid | src/matching_engine/orderbook.rs:68-80 | The bid arm: the same, for a Bid. |
| Orderbook.OrderBook.FillMarketOrder | src/matching_engine/orderbook.rs:84-117 | The book's maps and levels stay the same objects and the book stays valid. The new view, the report and the order's new size are those of `old view.Match(order)`. |
| Orderbook.OrderBook.FillAgainstBids | src/matching_engine/orderbook.rs:86 | The Ask arm: the same, walking the bids highest first. |
| Orderbook.OrderBook.FillAgainstAsks | src/matching_engine/orderbook.rs:87 | The Bid arm: the same, walking the asks cheapest first. |
| Engine.TradingPair.ToString | src/matching_engine/engine.rs:15-17 | The display name is the base, then one '/', then the quote. |
| Engine.ToStringInjective | src/matching_engine/engine.rs:15-17 | When neither base contains '/', equal display names mean equal pairs. |
| Engine.ToStringAmbiguous | src/matching_engine/engine.rs:15-17 | Without that condition two different pairs ("A/B","C") and ("A","B/C") share the display name. |
| Engine.MarketNotFound | src/matching_engine/engine.rs:50 | The error text is the 18 characters `Market not found: `, then exactly the pair's display name. |
| Engine.MarketNotFoundInjective | src/matching_engine/engine.rs:50 | When neither base contains '/', equal error texts mean equal pairs, so the error identifies the pair. |
| Engine.MatchingEngine.constructor | src/matching_engine/engine.rs:25-29 | A new engine has no markets. |
| Engine.MatchingEngine.AddNewMarket | src/matching_engine/engine.rs:31-35 | The pair maps to an empty book and any existing book for it is replaced. Every other pair keeps its book. |
| Engine.MatchingEngine.PlaceLimitOrder | src/matching_engine/engine.rs:37-52 | For an unregistered pair, the result is `Err(MarketNotFound(pair))` and no book changes. For a registered pair, the result is `Ok(())` and only that pair's book changes, exactly as posting (`BookView.Add`, which `OrderBook.AddLimitOrder` implements) changes it. |

## Left out

- `Price::new` and `Price::to_f64` (orderbook.rs:128-141): the conversion from and to `f64` (truncating casts, `% 1.0`). Prices are given directly as `(integral, fractional)`, and `ToReal` is the exact value `to_f64` approximates.
- Negative sizes: nothing in the code rejects them. The model rules them out by the type `Size`, so it has no error path for them and does not describe what the code does with them.
- Floating point in general: sizes, values and the average price are exact reals, so no rounding is modelled.
- Engine.MatchingEngine.PlaceLimitOrder: takes a `Price` rather than an `f64`, because the conversion is outside the model.
- Orderbook.OrderBook.AddLimitOrder: takes a `Price` rather than an `f64`, for the same reason.
- Engine.MatchingEngine: holds each market's book as a `BookView` value and posts with `BookView.Add`, rather than holding `OrderBook` objects and calling `AddLimitOrder` on them in place.
  - The source's map owns its books by value, so no book is shared and nothing is aliased.
  - `OrderBook.AddLimitOrder` is proved to change its book's view exactly as `BookView.Add` does.
  - What the model does not capture is the in-place update of an `OrderBook` object held by the registry.
- `&mut Order` in `fill_market_order` and the fill routines: the incoming order is a value passed in and returned with its new size.
- `HashMap` internals: both sides and the registry are Dafny maps. The arbitrary iteration order of `values_mut()` is modelled by picking keys in arbitrary order before sorting.
- `TradingPair::new` and `Order::new`: the datatype constructors of `TradingPair` and `Order`, with no further behaviour.
- The empty `if !market_order.is_filled() {}` at orderbook.rs:180-182: it does nothing.
- `println!` in `add_new_market` (engine.rs:34) and all `Debug` and print output.
- The unused `LocalKey` import (engine.rs:2).
- `src/main.rs`, the command-line driver.
- Two tests are not encoded as written:
  - the test at orderbook.rs:240-258 ends by asserting `2 == 5`; `SellIntoTwoBidsExample` states the outcome of its calls instead.
  - the test at orderbook.rs:261-280 asserts that the first resting order keeps 20. The code leaves the first at 0 and the second at 20, which is what `MultiFillExample` states.
