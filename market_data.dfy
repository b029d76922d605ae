/** The market-data stage: a deterministic mock tick for each tick number,
    applied to a local order book, and published as a full book snapshot on
    every tenth tick and as the tick itself otherwise, for at most 100 000
    ticks. */
module MarketData {
  import opened Types
  import opened Messages
  import opened OrderBooks

  datatype MarketDataConfig = MarketDataConfig(symbol: u32, cpuId: u64)

  /** `MarketDataConfig::default`: symbol 1 on CPU 0. */
  function DefaultConfig(): (c: MarketDataConfig)
    ensures c.symbol == 1 && c.cpuId == 0
  {
    MarketDataConfig(1, 0)
  }

  /** The loop stops once this many ticks have been produced. */
  const MAX_TICKS: nat := 100_000

  /** `generate_mock_tick`: a price sweeping 9750..10245 raw in steps of 5
      over a period of 100 ticks, a whole quantity from 10.0 to 59.0, and
      alternating sides starting with Buy. */
  function MockTick(t: u64): (r: (Price, Quantity, Side))
    ensures 9750 <= r.0.raw <= 10245 && r.0.raw % 5 == 0
    ensures 10 * SCALE <= r.1.raw <= 59 * SCALE && r.1.raw % SCALE == 0
    ensures r.2 == Buy <==> t % 2 == 0
  {
    var variation := ((t % 100) - 50) * 5;
    var price := Price(10000 + variation);
    var qty := Quantity.New(10 + t % 50, 0);
    var side := if t % 2 == 0 then Buy else Sell;
    (price, qty, side)
  }

  /** The mock price repeats every 100 ticks and its quantity every 50. */
  lemma MockTickPeriodic(t: u64)
    requires t + 100 <= U64_MAX
    ensures MockTick(t + 100).0 == MockTick(t).0
    ensures MockTick(t + 100).1 == MockTick(t).1 && MockTick(t + 100).2 == MockTick(t).2
  {
    ModShift(t, 1, 100);
    ModShift(t, 2, 50);
    ModShift(t, 50, 2);
  }

  /** `copy_levels`: the first `min(|levels|, MAX_LEVELS)` levels in order,
      then `PriceLevel::empty()` in the remaining slots. */
  method CopyLevels(levels: seq<PriceLevel>) returns (r: Levels)
    ensures forall i :: 0 <= i < MAX_LEVELS && i < |levels| ==> r[i] == levels[i]
    ensures forall i :: |levels| <= i < MAX_LEVELS ==> r[i] == EmptyLevel()
  {
    var result := new PriceLevel[MAX_LEVELS](_ => EmptyLevel());
    var count := if |levels| < MAX_LEVELS then |levels| else MAX_LEVELS;
    for i := 0 to count
      invariant forall k :: 0 <= k < i ==> result[k] == levels[k]
      invariant forall k :: i <= k < MAX_LEVELS ==> result[k] == EmptyLevel()
    {
      result[i] := levels[i];
    }
    r := result[..];
  }

  /** The live bids and asks of the stage's book after mock ticks 0..n-1
      have been applied to an empty book, one side per tick. Every such
      side is well formed. */
  ghost function BookAfter(n: nat): (r: (seq<PriceLevel>, seq<PriceLevel>))
    requires n <= MAX_TICKS
    ensures WellFormedSide(Buy, r.0) && WellFormedSide(Sell, r.1)
  {
    if n == 0 then ([], [])
    else
      var (bids, asks) := BookAfter(n - 1);
      var (price, qty, side) := MockTick((n - 1) as u64);
      if side == Buy then
        UpdateKeepsWellFormed(Buy, bids, price, qty);
        (Updated(Buy, bids, price, qty), asks)
      else
        UpdateKeepsWellFormed(Sell, asks, price, qty);
        (bids, Updated(Sell, asks, price, qty))
  }

  /** `e` is a `BookUpdate` whose fixed arrays hold `bids` and `asks` in
      their leading slots and `PriceLevel::empty()` in the rest. */
  ghost predicate Snapshots(e: MarketEvent, bids: seq<PriceLevel>, asks: seq<PriceLevel>)
  {
    && e.BookUpdate? && |bids| <= MAX_LEVELS && |asks| <= MAX_LEVELS
    && e.bids[..|bids|] == bids && e.asks[..|asks|] == asks
    && (forall k :: |bids| <= k < MAX_LEVELS ==> e.bids[k] == EmptyLevel())
    && (forall k :: |asks| <= k < MAX_LEVELS ==> e.asks[k] == EmptyLevel())
  }

  /** The book and tick counter of `run_market_data`. */
  class MarketDataFeed {
    const config: MarketDataConfig
    const book: OrderBook
    var tickCount: u64

    ghost predicate Valid()
      reads this, book, book.bids, book.asks
    {
      book.Valid() && tickCount < MAX_TICKS
    }

    constructor (config: MarketDataConfig)
      ensures Valid() && this.config == config && tickCount == 0
      ensures fresh(book) && fresh(book.bids) && fresh(book.asks)
      ensures book.bidDepth == 0 && book.askDepth == 0
    {
      this.config := config;
      book := new OrderBook();
      tickCount := 0;
    }

    /** One pass of the stage's loop: apply mock tick
        `tickCount` to the book, publish a snapshot of the updated book on
        every tenth tick and the tick itself otherwise, count the tick, and
        report whether the 100 000-tick limit has been reached. `now` is the
        cycle counter read for the event's timestamp. */
    method Step(now: u64) returns (event: MarketEvent, stop: bool)
      requires Valid()
      modifies this, book, book.bids, book.asks
      ensures book.Valid() && tickCount == old(tickCount) + 1
      ensures stop <==> tickCount >= MAX_TICKS
      ensures !stop ==> Valid()
      ensures var (price, qty, side) := MockTick(old(tickCount));
              && (side == Buy ==> book.Bids() == Updated(Buy, old(book.Bids()), price, qty) && book.Asks() == old(book.Asks()))
              && (side == Sell ==> book.Asks() == Updated(Sell, old(book.Asks()), price, qty) && book.Bids() == old(book.Bids()))
              && (old(tickCount) % 10 != 0 ==> event == Tick(config.symbol, price, qty, side, Timestamp(now)))
      ensures old(tickCount) % 10 == 0 ==>
                && event.symbol == config.symbol && event.timestamp == Timestamp(now)
                && Snapshots(event, book.Bids(), book.Asks())
    {
      var (price, qty, side) := MockTick(tickCount);
      book.UpdateLevel(side, price, qty);
      if tickCount % 10 == 0 {
        var bids := CopyLevels(book.Bids());
        var asks := CopyLevels(book.Asks());
        event := BookUpdate(config.symbol, bids, asks, Timestamp(now));
      } else {
        event := Tick(config.symbol, price, qty, side, Timestamp(now));
      }
      tickCount := tickCount + 1;
      stop := tickCount >= MAX_TICKS;
    }
  }

  /** Event `i` of a run, published at cycle `now`, is what the stage
      publishes for tick `i`: a snapshot of the book after that tick when
      `i` is a multiple of 10, and otherwise the tick itself. */
  ghost predicate Published(config: MarketDataConfig, i: nat, now: u64, e: MarketEvent)
    requires i < MAX_TICKS
  {
    && e.symbol == config.symbol && e.timestamp == Timestamp(now)
    && (e.BookUpdate? <==> i % 10 == 0)
    && (i % 10 != 0 ==> e == Tick(config.symbol, MockTick(i).0, MockTick(i).1, MockTick(i).2, Timestamp(now)))
    && (i % 10 == 0 ==> Snapshots(e, BookAfter(i + 1).0, BookAfter(i + 1).1))
  }

  /** One pass of the loop on values: applying mock tick `n` to the book
      after ticks 0..n-1, and publishing the result as `Step` does, gives
      the book after ticks 0..n and event `n` of the run. */
  lemma PublishStep(config: MarketDataConfig, n: nat, now: u64, e: MarketEvent,
                    bids: seq<PriceLevel>, asks: seq<PriceLevel>, bids': seq<PriceLevel>, asks': seq<PriceLevel>)
    requires n < MAX_TICKS && bids == BookAfter(n).0 && asks == BookAfter(n).1
    requires var (price, qty, side) := MockTick(n);
             && (side == Buy ==> bids' == Updated(Buy, bids, price, qty) && asks' == asks)
             && (side == Sell ==> asks' == Updated(Sell, asks, price, qty) && bids' == bids)
             && (n % 10 != 0 ==> e == Tick(config.symbol, price, qty, side, Timestamp(now)))
    requires n % 10 == 0 ==> e.symbol == config.symbol && e.timestamp == Timestamp(now) && Snapshots(e, bids', asks')
    ensures bids' == BookAfter(n + 1).0 && asks' == BookAfter(n + 1).1
    ensures Published(config, n, now, e)
  {
  }

  /** Every event of `events` is the one published for its tick, each at
      its own clock reading. */
  ghost predicate PublishedUpTo(config: MarketDataConfig, clock: seq<u64>, events: seq<MarketEvent>)
  {
    && |events| <= |clock| && |events| <= MAX_TICKS
    && forall i :: 0 <= i < |events| ==> Published(config, i, clock[i], events[i])
  }

  /** Appending the event published for the next tick keeps a run's events
      the published ones. */
  lemma PublishedExtend(config: MarketDataConfig, clock: seq<u64>, events: seq<MarketEvent>, e: MarketEvent)
    requires PublishedUpTo(config, clock, events) && |events| < |clock| && |events| < MAX_TICKS
    requires Published(config, |events|, clock[|events|], e)
    ensures PublishedUpTo(config, clock, events + [e])
  {
  }

  /** The feed's state after `n` ticks of the loop: it has counted them,
      its book is the book after mock ticks 0..n-1, and the loop has
      stopped exactly when the 100 000-tick limit has been reached. */
  ghost predicate FeedAt(feed: MarketDataFeed, config: MarketDataConfig, n: nat, stop: bool)
    reads feed, feed.book, feed.book.bids, feed.book.asks
  {
    && feed.config == config
    && feed.tickCount as int == n <= MAX_TICKS
    && (stop <==> n >= MAX_TICKS)
    && (!stop ==> feed.Valid())
    && feed.book.Valid()
    && feed.book.Bids() == BookAfter(n).0 && feed.book.Asks() == BookAfter(n).1
  }

  /** The feed's step as tick `n` of a run: afterwards the feed is in its
      state after `n + 1` ticks and `e` is the event published for tick `n`. */
  method StepFeed(feed: MarketDataFeed, config: MarketDataConfig, n: nat, now: u64)
    returns (e: MarketEvent, stop: bool)
    requires FeedAt(feed, config, n, false)
    modifies feed, feed.book, feed.book.bids, feed.book.asks
    ensures FeedAt(feed, config, n + 1, stop)
    ensures n < MAX_TICKS && Published(config, n, now, e)
  {
    ghost var bids, asks := feed.book.Bids(), feed.book.Asks();
    e, stop := feed.Step(now);
    PublishStep(config, n, now, e, bids, asks, feed.book.Bids(), feed.book.Asks());
  }

  /** One pass of the loop: step the feed at the next clock reading and
      append the event it publishes. */
  method Advance(feed: MarketDataFeed, config: MarketDataConfig, clock: seq<u64>, events: seq<MarketEvent>)
    returns (events': seq<MarketEvent>, stop: bool)
    requires FeedAt(feed, config, |events|, false) && PublishedUpTo(config, clock, events) && |events| < |clock|
    modifies feed, feed.book, feed.book.bids, feed.book.asks
    ensures FeedAt(feed, config, |events'|, stop) && PublishedUpTo(config, clock, events')
    ensures |events'| == |events| + 1 && events'[..|events|] == events
  {
    var e;
    e, stop := StepFeed(feed, config, |events|, clock[|events|]);
    PublishedExtend(config, clock, events, e);
    events' := events + [e];
  }

  /** The stage's loop, one tick per reading of the cycle counter in
      `clock` (the shutdown flag stopping it when the readings run out):
      at most 100 000 events, each the one published for its tick: on every
      tenth tick a snapshot of the book after that tick, and otherwise the
      mock tick of its number. */
  method RunMarketData(config: MarketDataConfig, clock: seq<u64>) returns (events: seq<MarketEvent>)
    ensures |events| == if |clock| < MAX_TICKS then |clock| else MAX_TICKS
    ensures forall i :: 0 <= i < |events| ==> (events[i].BookUpdate? <==> i % 10 == 0)
    ensures forall i :: 0 <= i < |events| ==>
              events[i].symbol == config.symbol && events[i].timestamp == Timestamp(clock[i])
    ensures forall i :: 0 <= i < |events| && i % 10 != 0 ==>
              events[i] == Tick(config.symbol, MockTick(i).0, MockTick(i).1, MockTick(i).2, Timestamp(clock[i]))
    ensures forall i :: 0 <= i < |events| && i % 10 == 0 ==>
              Snapshots(events[i], BookAfter(i + 1).0, BookAfter(i + 1).1)
  {
    var feed := new MarketDataFeed(config);
    events := [];
    var stop := false;
    while !stop && |events| < |clock|
      invariant fresh(feed.book) && fresh(feed.book.bids) && fresh(feed.book.asks)
      invariant FeedAt(feed, config, |events|, stop) && PublishedUpTo(config, clock, events)
      decreases |clock| - |events|
    {
      events, stop := Advance(feed, config, clock, events);
    }
  }
}
