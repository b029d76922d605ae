# hft-engine core in Dafny

A verified model of the sequential logic of hft-engine, a quote-to-order
trading pipeline. Four stages are joined by bounded lock-free queues:

- market data generates mock ticks, keeps a 10-level L2 order book and
  publishes ticks and book snapshots;
- the strategy tracks the best bid and best ask and emits a buy or sell
  signal when the spread is tight;
- risk applies a per-second rate limit and position limits and turns
  approved signals into numbered orders;
- a gateway consumes the orders.

Every stage may keep a latency tracker.

The model covers the pieces those stages are built from. Each is single
threaded, over integers and fixed arrays:

- `types.dfy`: the fixed-point `Price` and `Quantity`, which are i64
  mantissas at scale 10 000. It covers their construction, arithmetic and
  `I.FFFF` display, plus the `Timestamp` cycle count. It also holds the
  integer widths: i64 and u64 as subset types, Rust's truncating `/` and
  `%`, and u64 wrap-around written out modulo 2^64.
- `messages.dfy`: the message datatypes.
- `order_book.dfy`: the `OrderBook` class. It holds two arrays of 10
  `PriceLevel`s with a depth each, which its methods shift in place. They
  are proved against `Updated`, a function on the sequence of live levels
  whose properties are proved as lemmas:
  - order;
  - depth bound;
  - removal;
  - overwrite;
  - insertion;
  - eviction;
  - idempotence.
- `spsc.dfy`: the `SpscQueue` class, the bounded ring buffer. Its fields
  are `head` and `tail` cursors that wrap around modulo 2^64, a buffer
  array and a mask. A ghost sequence of queued values is related to the
  buffer by a ring invariant. Two client methods prove first-in first-out
  delivery across wrap-around.
- `metrics.dfy`: the `LatencyTracker` class. Its counters are related by
  `Valid` to the ghost list of recorded values.
- `risk.dfy`, `strategy.dfy` and `market_data.dfy`: the per-item step of
  each stage's loop. Each is stated as a function on a snapshot of the
  stage's variables, and performed by a method on a class holding those
  variables that is proved to agree with the function. A run of the
  market-data loop is modelled as a method over a sequence of clock
  readings.

Plain Rust `+`, `-` and `*` on fixed-width integers panic on overflow in
checked builds. So the operations modelled on them require the exact result
to fit. `wrapping_*` and the atomics' `fetch_add` are modelled modulo 2^64.
The cycle counter (`rdtsc`) is a parameter (`now`, `clock`).

## Model

| member | source | states |
|---|---|---|
| Types.TruncDiv | src/core/types.rs:117-120 | the quotient is truncated toward zero: the remainder is in [0, d) for a non-negative dividend and in (-d, 0] for a negative one |
| Types.TruncRem | src/core/types.rs:57-58 | the remainder has the dividend's sign, lies strictly between -d and d, and completes the truncated quotient to the dividend |
| Types.WrappingAdd | src/core/spsc.rs:48 | `wrapping_add` is the exact sum or the sum less 2^64 |
| Types.WrappingSub | src/core/spsc.rs:76 | `wrapping_sub` is the exact difference or the difference plus 2^64 |
| Types.Price.New | src/core/types.rs:17-19 | `new(i, f).raw() == i * 10000 + f`, with the i64 multiplication required not to overflow |
| Types.Price.Add | src/core/types.rs:37-44 | addition acts on the raw mantissas; subtracting the right operand from the result gives the left one back |
| Types.Price.Sub | src/core/types.rs:46-53 | subtraction acts on the raw mantissas; adding the right operand back gives the left one |
| Types.Quantity.New | src/core/types.rs:76-78 | `new(i, f).raw() == i * 10000 + f` |
| Types.Quantity.Add | src/core/types.rs:96-103 | addition of raw mantissas, undone by subtraction |
| Types.Quantity.Sub | src/core/types.rs:105-112 | subtraction of raw mantissas, undone by addition |
| Types.Quantity.Mul | src/core/types.rs:114-121 | the result times 10 000 is the raw product truncated toward zero: within one scale unit, on the side of zero |
| Types.Timestamp.ElapsedSince | src/core/types.rs:147-159 | `elapsed_since` and `Sub` return the cycle difference, defined only when the earlier sample is not later |
| Types.AddSubCancel | src/core/types.rs:37-53 | (p + q) - q == p |
| Types.MulExamples | src/core/types.rs:201-207 | multiplying by 1.0000 is the identity, and 2.0 x 3.0 == 6.0 |
| Types.NewDisplays | src/core/types.rs:183-190 | `new(i, f)` with parts of one sign displays as "i.ffff": 100.1234 as "100.1234", new(-50, -500) as "-50.0500" |
| Types.FormatAgreesWithSigned | src/core/types.rs:55-61 | outside (-1.0, 0) the as-written display equals the signed display |
| Types.FormatFixed | src/core/types.rs:55-61 | the `{}.{:04}` display of a mantissa, with the integer part from truncating `/` and the four digits from the absolute truncating `%`; it reads back as the mantissa itself, except on (-1.0, 0), where it reads back as its negation |
| Types.Price.Display | src/core/types.rs:55-61 | a price displays as "I.FFFF", which reads back as its raw value, except on (-1.0, 0), where the minus sign is lost |
| Types.Quantity.Display | src/core/types.rs:123-129 | a quantity displays as "I.FFFF", which reads back as its raw value, except on (-1.0, 0), where the minus sign is lost |
| Types.DisplayRoundTrip | src/core/types.rs:55-61 | outside (-1.0, 0), parsing the display "I.FFFF" gives back the raw value |
| Types.DisplayDropsSign | src/core/types.rs:55-61 | for raw in (-10000, 0) the display equals that of -raw and parses back as -raw: the sign is lost |
| Types.SignedDisplayRoundTrip | src/core/types.rs:55-61 | the corrected display parses back to the raw value for every i64 |
| Messages.Side.Code | src/messages.rs:7-10 | the u8 discriminant: Buy 0, Sell 1 |
| Messages.RejectReason.Code | src/messages.rs:164-171 | each reason's u8 discriminant: PositionLimitExceeded 0, RateLimitExceeded 1, InvalidPrice 2, InvalidQuantity 3, UnknownSymbol 4, InternalError 5, and each code belongs to that reason alone |
| Messages.CodesAreDistinct | src/messages.rs:164-171 | distinct variants of `Side` and of `RejectReason` have distinct codes |
| Messages.NewLevel | src/messages.rs:23-30 | `PriceLevel::new` stores the price and quantity with an order count of 1, so it is never empty |
| Messages.EmptyLevel | src/messages.rs:33-45 | `PriceLevel::empty` has price 0, quantity 0 and no orders, and `is_empty` holds |
| OrderBooks.Position | src/order_book.rs:102-117 | the scan stops at the first level that does not rank ahead of the price; everything before ranks ahead |
| OrderBooks.PositionFinds | src/order_book.rs:102-108 | on an ordered side the scan stops on the price exactly when a live level has it |
| OrderBooks.AdjacentOrderedIsOrdered | src/order_book.rs:182-196 | checking neighbouring levels, as `is_sorted` does, establishes strict order over all pairs |
| OrderBooks.InsertKeepsOrder | src/order_book.rs:128-132 | a level that ranks after the prefix and ahead of the suffix keeps the side strictly ordered |
| OrderBooks.RemovedWellFormed | src/order_book.rs:154-160 | removing a level keeps a side well formed |
| OrderBooks.InsertedWellFormed | src/order_book.rs:120-134 | inserting a new price at the scan position keeps a side strictly ordered, at most 10 deep, every level live |
| OrderBooks.Updated | src/order_book.rs:68-99 | `update_level` on the live levels of one side: a zero quantity removes the level at the price, another quantity overwrites it or inserts a new level at its rank; the side stays within 10 levels, a removal never grows it and an overwrite or insertion never shrinks it |
| OrderBooks.UpdateKeepsOtherLevels | src/order_book.rs:68-99 | an update creates or alters no level at another price |
| OrderBooks.UpdateKeepsWellFormed | src/order_book.rs:68-99 | every update keeps the side strictly monotonic and at most MAX_LEVELS deep |
| OrderBooks.ZeroQuantityRemoves | src/order_book.rs:71-75 | quantity 0 removes the level at the price and drops the depth by one; at an absent price it changes nothing |
| OrderBooks.UpdateExistingOverwrites | src/order_book.rs:76-77 | a non-zero quantity at a present price overwrites that quantity only, same depth and prices |
| OrderBooks.InsertAddsLevel | src/order_book.rs:120-134 | on a side with room a new price adds exactly one new level |
| OrderBooks.FullSideEvictsWorst | src/order_book.rs:121-133 | on a full side a better price evicts the worst level and the best of old best and new level heads the side |
| OrderBooks.FullSideIgnoresWorse | src/order_book.rs:121-124 | on a full side a price no better than the worst changes nothing |
| OrderBooks.LevelAtPriceIsNew | src/order_book.rs:68-82 | after a non-zero update any level at that price is one order of the new quantity |
| OrderBooks.UpdateIdempotent | src/order_book.rs:68-82 | applying the same update twice equals applying it once |
| OrderBooks.FindPosition | src/order_book.rs:102-117 | the while-loop scan returns the spec position: every earlier level ranks ahead, the one there does not |
| OrderBooks.InsertAt | src/order_book.rs:120-134 | the shifting loop leaves the live levels equal to the spec insertion, the new level at `pos`, the last one dropped on a full side |
| OrderBooks.RemoveAt | src/order_book.rs:154-160 | the shifting loop leaves the spec removal, depth one less, and the freed slot reset to `PriceLevel::empty()` |
| OrderBooks.UpdateSide | src/order_book.rs:68-82 | one side's array after an update holds `Updated` of its old live levels, and stays valid |
| OrderBooks.OrderBook.constructor | src/order_book.rs:13-20 | both sides empty, every slot `PriceLevel::empty()` |
| OrderBooks.OrderBook.Bids | src/order_book.rs:172-174 | the live bids, at most 10, strictly descending |
| OrderBooks.OrderBook.Asks | src/order_book.rs:177-179 | the live asks, at most 10, strictly ascending |
| OrderBooks.OrderBook.BestBid | src/order_book.rs:23-29 | none exactly on an empty side, else slot 0, which is above every other bid |
| OrderBooks.OrderBook.BestAsk | src/order_book.rs:32-38 | none exactly on an empty side, else slot 0, which is below every other ask |
| OrderBooks.OrderBook.Spread | src/order_book.rs:41-46 | present exactly when both bests are, and then bid + spread == ask |
| OrderBooks.OrderBook.MidPrice | src/order_book.rs:49-57 | present exactly when both bests are; (ask + bid) / 2 truncated toward zero, lying between bid and ask |
| OrderBooks.OrderBook.UpdateBid | src/order_book.rs:68-82 | the bids become `Updated` of the old bids and the book stays valid |
| OrderBooks.OrderBook.UpdateAsk | src/order_book.rs:85-99 | the asks become `Updated` of the old asks and the book stays valid |
| OrderBooks.OrderBook.UpdateLevel | src/order_book.rs:60-65 | the named side is updated and the other side's depth and every slot are unchanged |
| OrderBooks.OrderBook.IsSorted | src/order_book.rs:182-196 | true exactly when bids are strictly descending and asks strictly ascending over the live levels |
| Spsc.AndLowMask | src/core/spsc.rs:44 | `cursor & (2^k - 1)` is the cursor modulo 2^k |
| Spsc.CapacityAccepted | src/core/spsc.rs:17-19 | construction accepts exactly the powers of two, and rejects 0 with "capacity must be greater than 0" |
| Spsc.AcceptedCapacityDividesModulus | src/core/spsc.rs:17-19 | an accepted capacity divides 2^64, so slots do not jump when a cursor wraps |
| Spsc.PushKeepsRing | src/core/spsc.rs:43-48 | writing at the tail's slot and appending keeps every queued value in its slot |
| Spsc.PopKeepsRing | src/core/spsc.rs:62-67 | the head's slot holds the oldest value, and the rest stay in place after the head advances |
| Spsc.SpscQueue.constructor | src/core/spsc.rs:17-32 | an empty queue with `capacity` slots and `mask == capacity - 1` |
| Spsc.SpscQueue.Len | src/core/spsc.rs:73-77 | `tail - head` with wrap-around equals the number of queued values, within 0..=capacity |
| Spsc.SpscQueue.IsEmpty | src/core/spsc.rs:80-82 | true exactly when nothing is queued |
| Spsc.SpscQueue.Capacity | src/core/spsc.rs:85-87 | the buffer length, equal to mask + 1 and a power of two |
| Spsc.SpscQueue.Slot | src/core/spsc.rs:44 | `cursor & mask` is the cursor modulo the capacity |
| Spsc.SpscQueue.Push | src/core/spsc.rs:35-51 | a full queue returns `Err(value)` and changes nothing; otherwise `Ok`, the value appended at the back |
| Spsc.SpscQueue.Pop | src/core/spsc.rs:54-70 | an empty queue returns `None` and changes nothing; otherwise the oldest value, removed from the front |
| Spsc.SpscQueue.Drain | src/core/spsc.rs:90-94 | `Drop` pops until the queue is empty |
| Spsc.PassThrough | src/core/spsc.rs:35-70 | pushing a sequence, popping once whenever the queue is full (after which the push succeeds), then draining, yields it in order across wraps |
| Spsc.PushPopPairs | src/core/spsc.rs:103-112 | each push then pop succeeds and returns the value just pushed |
| Metrics.MinimumIsLeast | src/core/metrics.rs:43-54 | the running minimum is a recorded value and no recorded value is smaller |
| Metrics.MaximumIsGreatest | src/core/metrics.rs:56-67 | the running maximum is a recorded value and no recorded value is larger |
| Metrics.SumBetween | src/core/metrics.rs:41 | n x min <= sum <= n x max |
| Metrics.MeanBetween | src/core/metrics.rs:76 | the truncated mean of a non-empty sample lies between its min and max |
| Metrics.StatsReport | src/core/metrics.rs:70-84 | what `stats` reports on counters holding a sample (as for `Stats`) |
| Metrics.LatencyTracker.constructor | src/core/metrics.rs:29-36 | nothing recorded: count, sum and max 0, min the sentinel u64::MAX |
| Metrics.LatencyTracker.Record | src/core/metrics.rs:39-68 | the value is appended to the record; count and sum stay the record's length and sum mod 2^64, min and max its minimum and maximum |
| Metrics.LatencyTracker.Stats | src/core/metrics.rs:70-84 | the count; all zeros when empty; every recorded value within [min, max], both recorded (min 0 only for the sentinel); avg == sum / count while unwrapped |
| Metrics.LatencyTracker.Reset | src/core/metrics.rs:86-91 | back to the state of a new tracker |
| Metrics.RecordThreeThenReset | src/core/metrics.rs:151-176 | recording 100, 200, 50 reports (3, 50, 200, 116); after a reset all zeros |
| Risk.DefaultConfig | src/pipeline/risk.rs:13-21 | CPU 2, position limit 1000.0, 100 orders per window |
| Risk.SellFloor | src/pipeline/risk.rs:122 | the sell bound is the constant -1000.0, not taken from the configuration |
| Risk.InitialSnapshot | src/pipeline/risk.rs:31-38 | position 0, window count 0, window start 0, next id 1 |
| Risk.ResetWindow | src/pipeline/risk.rs:67-71 | the window restart keeps the position and the next id, and either leaves the state alone or starts a window at `now` with count 0 |
| Risk.Decide | src/pipeline/risk.rs:67-161 | one signal's decision and state: apart from the window restart, the state changes only on an approved Buy or Sell, which, and only which, uses up an order id and counts one more order in the window; a rejection carries its signal |
| Risk.WindowRestarts | src/pipeline/risk.rs:67-71 | the window restarts (count 0, start now) exactly when more than 10^9 cycles have passed, and otherwise the state is left exactly as it was |
| Risk.RateLimitFirst | src/pipeline/risk.rs:80-85 | a Buy or Sell with the window full is rejected for the rate limit whatever the position |
| Risk.BuyDecision | src/pipeline/risk.rs:80-107 | a Buy is approved iff the window has room and position + qty <= max; the order carries the next id and the signal's fields; position grows by qty |
| Risk.SellDecision | src/pipeline/risk.rs:116-143 | a Sell is approved iff the window has room and position - qty >= -1000.0; position shrinks by qty |
| Risk.RejectionKeepsState | src/pipeline/risk.rs:80-91 | a rejection returns the signal and leaves the state as the window restart left it: position and next id unchanged, and window count and start those of ResetWindow |
| Risk.ApprovalCounts | src/pipeline/risk.rs:92-104 | an approved Buy or Sell takes the next id, advances it by one and counts one more order in the window |
| Risk.CancelPassesThrough | src/pipeline/risk.rs:146-161 | a Cancel is approved as an order with its id, symbol 0, price 0, qty 0, side Buy, touching no state |
| Risk.WindowCountBounded | src/pipeline/risk.rs:67-104 | the window count never exceeds the configured maximum |
| Risk.ConsecutiveIds | src/pipeline/risk.rs:40-42 | over any run, approved Buy and Sell orders carry consecutive ids from the state's next id (mod 2^64) |
| Risk.RiskState.constructor | src/pipeline/risk.rs:31-38 | the initial snapshot |
| Risk.RiskState.GetNextOrderId | src/pipeline/risk.rs:40-42 | returns the current id and advances it by one with wrap-around |
| Risk.RiskState.Process | src/pipeline/risk.rs:67-161 | the decision and the new fields are those of `Decide` on the old fields |
| Risk.FirstTwoIds | src/pipeline/risk.rs:196-203 | a fresh state hands out ids 1 then 2 |
| Strategy.DefaultConfig | src/pipeline/strategy.rs:12-19 | CPU 1, spread threshold 0.5000 |
| Strategy.SignalQty | src/pipeline/strategy.rs:73 | every signal is for 10.0 |
| Strategy.InitialSnapshot | src/pipeline/strategy.rs:30-36 | no best bid or ask, event count 0 |
| Strategy.Track | src/pipeline/strategy.rs:52-103 | the best bid and ask after one event: a best once known stays known, and a best that changes takes its price from the event (a tick of its side, or the top level of a book update) |
| Strategy.Step | src/pipeline/strategy.rs:42-103 | one event counts one more, tracks the bests, and emits a signal only after a tick, carrying that tick's symbol and the cycle count read, a Buy at the new best ask or a Sell at the new best bid |
| Strategy.BuyTickRaisesBid | src/pipeline/strategy.rs:53-57 | a Buy tick leaves the best bid at least the tick price and the old bid, one of the two, and the ask unchanged |
| Strategy.SellTickLowersAsk | src/pipeline/strategy.rs:58-62 | a Sell tick leaves the best ask at most the tick price and the old ask, one of the two, and the bid unchanged |
| Strategy.SignalExactlyWhenTight | src/pipeline/strategy.rs:65-68 | a signal is emitted iff the event is a tick, both sides are known and ask - bid <= threshold; every event is counted |
| Strategy.SignalShape | src/pipeline/strategy.rs:69-83 | on an even count a Buy at the best ask, on an odd one a Sell at the best bid, qty 10.0, the tick's symbol |
| Strategy.BookUpdateTakesTop | src/pipeline/strategy.rs:94-101 | a book update takes each best from slot 0 only when that level is live, and emits nothing |
| Strategy.TradeChangesNothing | src/pipeline/strategy.rs:103 | a trade only counts the event |
| Strategy.BestBidIsHighestBuy | src/pipeline/strategy.rs:53-57 | over ticks and trades the best bid is the highest Buy price seen, or the starting bid |
| Strategy.StrategyState.constructor | src/pipeline/strategy.rs:30-36 | the initial snapshot |
| Strategy.StrategyState.OnEvent | src/pipeline/strategy.rs:42-103 | the signal and the new variables are those of `Step` on the old ones |
| MarketData.DefaultConfig | src/pipeline/market_data.rs:13-20 | symbol 1 on CPU 0 |
| MarketData.MockTick | src/pipeline/market_data.rs:87-102 | price in [9750, 10245] in steps of 5, whole qty in [10.0, 59.0], Buy iff the tick number is even |
| MarketData.MockTickPeriodic | src/pipeline/market_data.rs:89-93 | the mock tick repeats every 100 ticks |
| MarketData.CopyLevels | src/pipeline/market_data.rs:105-110 | the first min(len, 10) levels in order, `PriceLevel::empty()` in the rest |
| MarketData.MarketDataFeed.constructor | src/pipeline/market_data.rs:30-31 | an empty book and tick count 0 |
| MarketData.MarketDataFeed.Step | src/pipeline/market_data.rs:38-58 | the mock tick is applied to its side of the book; every tenth tick publishes the updated book, others the tick; the count goes up and stops at 100 000 |
| MarketData.BookAfter | src/pipeline/market_data.rs:38-40 | the book after mock ticks 0..n-1 has both sides well formed |
| MarketData.PublishStep | src/pipeline/market_data.rs:38-58 | one pass applies mock tick n to the book after ticks 0..n-1, giving the book after ticks 0..n, and publishes event n of the run |
| MarketData.PublishedExtend | src/pipeline/market_data.rs:35-69 | appending the event published for the next tick keeps every event of the run the one published for its tick |
| MarketData.StepFeed | src/pipeline/market_data.rs:38-69 | the feed's step as tick n of a run leaves the feed counted to n + 1 with the book after mock ticks 0..n, and publishes event n of the run |
| MarketData.Advance | src/pipeline/market_data.rs:35-69 | one pass of the loop counts one more tick, leaves the book after ticks 0..n, and appends the event published for tick n |
| MarketData.RunMarketData | src/pipeline/market_data.rs:35-78 | at most 100 000 events, one per clock reading; each event is the one published for its tick: on every tenth tick a snapshot of the book after mock ticks 0..i, otherwise mock tick i |

## Left out

- Atomics, memory orderings, `CachePadded`, `UnsafeCell`/`MaybeUninit` and the `Send`/`Sync` impls are not modelled. The queue, the tracker and the order-id counter are modelled with one thread at a time, so cross-thread visibility is not captured.
- Spsc.SpscQueue: slots never written hold the default value of the element type rather than uninitialised memory; `pop` reads only written slots.
- Metrics.LatencyTracker.Record: the compare-and-swap retry loops are replaced by their single-threaded effect, which is the first exchange succeeding.
- The thread loops themselves are not modelled: shutdown flag, spin and yield, push-retry loops, `println!`, `pin_to_cpu`, and the signal, approval and rejection counters that are only printed. Each stage's per-item step is modelled instead. The market-data shutdown flag is modelled by the end of the `clock` sequence.
- `rdtsc` is a parameter. Each step reads the counter once, so the latency a stage would record is not modelled.
- Floating point is not modelled: `from_f64`, `to_f64` and `LatencyStats::to_nanos`.
- `from_raw` and `raw()` are the datatype constructor and field, and have no members of their own.
- The derived ordering of `Price`, `Quantity` and `Timestamp` is written as a comparison of `.raw` or `.cycles` at each use.
- Memory layout (`repr(C, align(64))`, `_pad`) and the size tests are not modelled.
- The gateway, `core/thread.rs`, `main.rs`, the benches and the integration tests are not modelled.
- Types.Price.Add: plain i64 arithmetic on mantissas, and likewise `Sub`, `Mul`, `New` and the risk position sums, is modelled with a precondition that the exact result fits in an i64. The panic or wrap-around of an overflowing build is not modelled.
- Metrics.LatencyTracker.Stats: the mean is related to the true mean only while neither the count nor the sum has wrapped modulo 2^64.

## Findings

| source | as written | input that shows it | evidently intended | confidence | as-written member | corrected member |
|---|---|---|---|---|---|---|
| src/core/types.rs:55-60, 123-128 | the integer part is printed with `{}` after truncating division, so a value in (-1.0, 0) has integer part 0 and no minus sign | `Price::from_raw(-5000)` displays as "0.5000", the same as `from_raw(5000)` | "-0.5000": the sign printed whenever the value is negative | high (not executed) | Types.DisplayDropsSign | Types.SignedDisplayRoundTrip |

`Price.Display` and `Quantity.Display` keep the as-written formatting
(`FormatFixed`), since that is what the system prints. The corrected
formatting `FormatFixedSigned` reads back as its value for every i64, and
agrees with the as-written one outside (-1.0, 0) (`FormatAgreesWithSigned`).
No other member of the model depends on either formatting.
