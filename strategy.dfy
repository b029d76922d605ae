/** The per-event step of the strategy stage.

    The stage tracks a best bid and a best ask: a Buy tick raises the best
    bid, a Sell tick lowers the best ask, and a book update overwrites either
    from the top level of its snapshot when that level is live. After a tick,
    when both are known and `ask - bid` is within the configured threshold,
    it emits one signal: a Buy at the ask on even event counts, a Sell at the
    bid on odd ones, always for 10.0. Trades are ignored.

    `Step` states one event on a snapshot of the loop's variables;
    `StrategyState.OnEvent` performs it on the fields and is proved to agree
    with `Step`. */
module Strategy {
  import opened Types
  import opened Wrappers
  import opened Messages

  datatype StrategyConfig = StrategyConfig(cpuId: u64, spreadThreshold: Price)

  /** `StrategyConfig::default`: CPU 1 and a threshold of 0.5000. */
  function DefaultConfig(): (c: StrategyConfig)
    ensures c.cpuId == 1 && c.spreadThreshold.raw == SCALE / 2
  {
    StrategyConfig(1, Price.New(0, 5000))
  }

  /** The size of every signal: `Quantity::new(10, 0)`. */
  function SignalQty(): (q: Quantity)
    ensures q.raw == 10 * SCALE
  {
    Quantity.New(10, 0)
  }

  /** The loop's variables `best_bid`, `best_ask` and `event_count`. */
  datatype StrategySnapshot = StrategySnapshot(bestBid: Option<Price>, bestAsk: Option<Price>, eventCount: u64)

  function InitialSnapshot(): (s: StrategySnapshot)
    ensures s.bestBid.None? && s.bestAsk.None? && s.eventCount == 0
  {
    StrategySnapshot(None, None, 0)
  }

  /** Best bid and best ask after one event: a tick moves the best of its
      own side, a book update takes each side's top live level. A best once
      known stays known, and a best that changes takes its price from the
      event. */
  function Track(bestBid: Option<Price>, bestAsk: Option<Price>, event: MarketEvent): (r: (Option<Price>, Option<Price>))
    ensures bestBid.Some? ==> r.0.Some?
    ensures bestAsk.Some? ==> r.1.Some?
    ensures r.0 != bestBid ==>
              || (event.Tick? && event.side == Buy && r.0 == Some(event.price))
              || (event.BookUpdate? && r.0 == Some(event.bids[0].price))
    ensures r.1 != bestAsk ==>
              || (event.Tick? && event.side != Buy && r.1 == Some(event.price))
              || (event.BookUpdate? && r.1 == Some(event.asks[0].price))
  {
    match event
    case Tick(_, price, _, side, _) =>
      if side == Buy then
        (if bestBid.None? || price.raw > bestBid.value.raw then Some(price) else bestBid, bestAsk)
      else
        (bestBid, if bestAsk.None? || price.raw < bestAsk.value.raw then Some(price) else bestAsk)
    case BookUpdate(_, bids, asks, _) =>
      (if !bids[0].IsEmpty() then Some(bids[0].price) else bestBid,
       if !asks[0].IsEmpty() then Some(asks[0].price) else bestAsk)
    case Trade(_, _, _, _) => (bestBid, bestAsk)
  }

  /** What the step needs: the event counter does not overflow, and after a
      tick with both sides known `ask - bid` fits in an i64. */
  predicate StepDefined(s: StrategySnapshot, event: MarketEvent)
  {
    && s.eventCount < U64_MAX
    && var (bid, ask) := Track(s.bestBid, s.bestAsk, event);
       (event.Tick? && bid.Some? && ask.Some? ==> InI64(ask.value.raw - bid.value.raw))
  }

  /** One event: the signal emitted, if any, and the variables after it.
      `now` is the cycle counter read for the signal's timestamp. */
  function Step(config: StrategyConfig, s: StrategySnapshot, event: MarketEvent, now: u64)
    : (r: (Option<SignalEvent>, StrategySnapshot))
    requires StepDefined(s, event)
    ensures r.1.eventCount == s.eventCount + 1
    ensures (r.1.bestBid, r.1.bestAsk) == Track(s.bestBid, s.bestAsk, event)
    ensures r.0.Some? ==>
              && event.Tick? && !r.0.value.CancelSignal?
              && r.0.value.symbol == event.symbol && r.0.value.timestamp == Timestamp(now)
              && (r.0.value.BuySignal? ==> r.1.bestAsk == Some(r.0.value.price))
              && (r.0.value.SellSignal? ==> r.1.bestBid == Some(r.0.value.price))
  {
    var count := s.eventCount + 1;
    var (bid, ask) := Track(s.bestBid, s.bestAsk, event);
    var t := StrategySnapshot(bid, ask, count);
    if event.Tick? && bid.Some? && ask.Some? && ask.value.Sub(bid.value).raw <= config.spreadThreshold.raw then
      if count % 2 == 0 then
        (Some(BuySignal(event.symbol, ask.value, SignalQty(), Timestamp(now))), t)
      else
        (Some(SellSignal(event.symbol, bid.value, SignalQty(), Timestamp(now))), t)
    else
      (None, t)
  }

  // ---------------------------------------------------------------------
  // Properties of one step.

  /** A Buy tick never lowers the best bid: afterwards it is at least the
      tick's price and at least the previous best bid, and it is one of the
      two. The best ask is untouched. */
  lemma BuyTickRaisesBid(config: StrategyConfig, s: StrategySnapshot, event: MarketEvent, now: u64)
    requires StepDefined(s, event) && event.Tick? && event.side == Buy
    ensures var t := Step(config, s, event, now).1;
            && t.bestBid.Some?
            && t.bestBid.value.raw >= event.price.raw
            && (s.bestBid.Some? ==> t.bestBid.value.raw >= s.bestBid.value.raw)
            && (t.bestBid == Some(event.price) || t.bestBid == s.bestBid)
            && t.bestAsk == s.bestAsk
  {
  }

  /** A Sell tick never raises the best ask, symmetrically. */
  lemma SellTickLowersAsk(config: StrategyConfig, s: StrategySnapshot, event: MarketEvent, now: u64)
    requires StepDefined(s, event) && event.Tick? && event.side == Sell
    ensures var t := Step(config, s, event, now).1;
            && t.bestAsk.Some?
            && t.bestAsk.value.raw <= event.price.raw
            && (s.bestAsk.Some? ==> t.bestAsk.value.raw <= s.bestAsk.value.raw)
            && (t.bestAsk == Some(event.price) || t.bestAsk == s.bestAsk)
            && t.bestBid == s.bestBid
  {
  }

  /** A signal is emitted exactly on a tick after which both sides are known
      and the spread is within the threshold. Every event is counted. */
  lemma SignalExactlyWhenTight(config: StrategyConfig, s: StrategySnapshot, event: MarketEvent, now: u64)
    requires StepDefined(s, event)
    ensures var (sig, t) := Step(config, s, event, now);
            && t.eventCount == s.eventCount + 1
            && (sig.Some? <==>
                  event.Tick? && t.bestBid.Some? && t.bestAsk.Some?
                  && t.bestAsk.value.raw - t.bestBid.value.raw <= config.spreadThreshold.raw)
  {
  }

  /** The signal buys at the best ask on an even count and sells at the best
      bid on an odd one, for 10.0 of the tick's symbol, stamped `now`. */
  lemma SignalShape(config: StrategyConfig, s: StrategySnapshot, event: MarketEvent, now: u64)
    requires StepDefined(s, event)
    ensures var (sig, t) := Step(config, s, event, now);
            sig.Some? ==>
              && sig.value.timestamp == Timestamp(now)
              && (t.eventCount % 2 == 0 ==>
                    sig.value == BuySignal(event.symbol, t.bestAsk.value, Quantity(10 * SCALE), Timestamp(now)))
              && (t.eventCount % 2 == 1 ==>
                    sig.value == SellSignal(event.symbol, t.bestBid.value, Quantity(10 * SCALE), Timestamp(now)))
  {
  }

  /** A book update emits nothing and takes the best bid and ask from the
      top of its snapshot, each only when that level is live. */
  lemma BookUpdateTakesTop(config: StrategyConfig, s: StrategySnapshot, event: MarketEvent, now: u64)
    requires StepDefined(s, event) && event.BookUpdate?
    ensures var (sig, t) := Step(config, s, event, now);
            && sig.None?
            && t.bestBid == (if event.bids[0].orderCount != 0 then Some(event.bids[0].price) else s.bestBid)
            && t.bestAsk == (if event.asks[0].orderCount != 0 then Some(event.asks[0].price) else s.bestAsk)
  {
  }

  /** A trade only bumps the event count. */
  lemma TradeChangesNothing(config: StrategyConfig, s: StrategySnapshot, event: MarketEvent, now: u64)
    requires StepDefined(s, event) && event.Trade?
    ensures Step(config, s, event, now) == (None, s.(eventCount := s.eventCount + 1))
  {
  }

  // ---------------------------------------------------------------------
  // A run of ticks.

  /** Best bid and best ask after a sequence of events. */
  function TrackAll(bestBid: Option<Price>, bestAsk: Option<Price>, events: seq<MarketEvent>): (Option<Price>, Option<Price>)
    decreases |events|
  {
    if events == [] then (bestBid, bestAsk)
    else
      var (b, a) := Track(bestBid, bestAsk, events[0]);
      TrackAll(b, a, events[1..])
  }

  predicate IsBuyTick(e: MarketEvent)
  {
    e.Tick? && e.side == Buy
  }

  /** Over a run of ticks and trades the best bid is the highest Buy tick
      price seen (or the starting best bid, if higher): it is at least every
      Buy tick price and every one it started from, it is one of them, and
      it is known as soon as either exists. */
  lemma {:induction false} BestBidIsHighestBuy(bestBid: Option<Price>, bestAsk: Option<Price>, events: seq<MarketEvent>)
    requires forall i :: 0 <= i < |events| ==> !events[i].BookUpdate?
    ensures var b := TrackAll(bestBid, bestAsk, events).0;
            && (b.Some? <==> bestBid.Some? || exists i :: 0 <= i < |events| && IsBuyTick(events[i]))
            && (b.Some? ==> forall i :: 0 <= i < |events| && IsBuyTick(events[i]) ==> events[i].price.raw <= b.value.raw)
            && (b.Some? && bestBid.Some? ==> bestBid.value.raw <= b.value.raw)
            && (b.Some? ==> b == bestBid || exists i :: 0 <= i < |events| && IsBuyTick(events[i]) && b == Some(events[i].price))
    decreases |events|
  {
    if events != [] {
      var e, rest := events[0], events[1..];
      var (b1, a1) := Track(bestBid, bestAsk, e);
      BestBidIsHighestBuy(b1, a1, rest);
      var b := TrackAll(bestBid, bestAsk, events).0;
      assert b == TrackAll(b1, a1, rest).0;
      assert forall i :: 0 < i < |events| ==> events[i] == rest[i - 1];
      if IsBuyTick(e) {
        assert IsBuyTick(events[0]);
      }
      if b.Some? && b != bestBid && b != b1 {
        var j :| 0 <= j < |rest| && IsBuyTick(rest[j]) && b == Some(rest[j].price);
        assert events[j + 1] == rest[j];
      }
      if exists i :: 0 <= i < |rest| && IsBuyTick(rest[i]) {
        var j :| 0 <= j < |rest| && IsBuyTick(rest[j]);
        assert events[j + 1] == rest[j];
      }
    }
  }

  // ---------------------------------------------------------------------
  // The loop's variables as the stage holds them.

  class StrategyState {
    var bestBid: Option<Price>
    var bestAsk: Option<Price>
    var eventCount: u64

    function Snapshot(): StrategySnapshot
      reads this
    {
      StrategySnapshot(bestBid, bestAsk, eventCount)
    }

    constructor ()
      ensures Snapshot() == InitialSnapshot()
    {
      bestBid, bestAsk, eventCount := None, None, 0;
    }

    /** The body of the stage's loop for one popped event: track the
        bests, count the event and emit a signal when the spread is tight. */
    method OnEvent(config: StrategyConfig, event: MarketEvent, now: u64) returns (signal: Option<SignalEvent>)
      requires StepDefined(Snapshot(), event)
      modifies this
      ensures (signal, Snapshot()) == Step(config, old(Snapshot()), event, now)
    {
      eventCount := eventCount + 1;
      signal := None;
      match event
      case Tick(symbol, price, _, side, _) =>
        match side {
          case Buy =>
            if bestBid.None? || price.raw > bestBid.value.raw {
              bestBid := Some(price);
            }
          case Sell =>
            if bestAsk.None? || price.raw < bestAsk.value.raw {
              bestAsk := Some(price);
            }
        }
        if bestBid.Some? && bestAsk.Some? {
          var bid, ask := bestBid.value, bestAsk.value;
          var spread := ask.Sub(bid);
          if spread.raw <= config.spreadThreshold.raw {
            if eventCount % 2 == 0 {
              signal := Some(BuySignal(symbol, ask, SignalQty(), Timestamp(now)));
            } else {
              signal := Some(SellSignal(symbol, bid, SignalQty(), Timestamp(now)));
            }
          }
        }
      case BookUpdate(_, bids, asks, _) =>
        if !bids[0].IsEmpty() {
          bestBid := Some(bids[0].price);
        }
        if !asks[0].IsEmpty() {
          bestAsk := Some(asks[0].price);
        }
      case Trade(_, _, _, _) =>
    }
  }
}
