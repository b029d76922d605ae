/** The per-signal step of the risk stage.

    For each signal the stage first restarts the one-second rate window when
    more than 1 000 000 000 cycles have passed since it last did, then
    decides: a Buy or Sell is rejected when the window's order count has
    reached the configured maximum, then when the resulting position would
    leave its bound (the configured maximum for a Buy, a fixed -1000.0 for a
    Sell); otherwise it is approved with the next order id, the position
    moves by the quantity and the window count goes up by one. A Cancel is
    always approved as a placeholder order carrying its order id.

    `Decide` states one step on a snapshot of the state; `RiskState.Process`
    performs it on the fields and is proved to agree with `Decide`. */
module Risk {
  import opened Types
  import opened Wrappers
  import opened Messages

  datatype RiskConfig = RiskConfig(cpuId: u64, maxPosition: Quantity, maxOrdersPerSecond: u64)

  /** `RiskConfig::default`: CPU 2, a position limit of 1000.0, 100 orders per window. */
  function DefaultConfig(): (c: RiskConfig)
    ensures c.cpuId == 2 && c.maxOrdersPerSecond == 100
    ensures c.maxPosition.raw == 1000 * SCALE
  {
    RiskConfig(2, Quantity.New(1000, 0), 100)
  }

  /** Length of the rate window in cycles. */
  const WINDOW_CYCLES: int := 1_000_000_000

  /** The lowest position a Sell may leave: `Quantity::new(-1000, 0)`, not configurable. */
  function SellFloor(): (q: Quantity)
    ensures q.raw == -1000 * SCALE
  {
    Quantity.New(-1000, 0)
  }

  /** The fields of `RiskState`. */
  datatype RiskSnapshot = RiskSnapshot(position: Quantity, windowCount: u64, lastReset: u64, nextId: u64)

  /** `RiskState::new`: flat, nothing sent, the window starting at cycle 0, ids from 1. */
  function InitialSnapshot(): (s: RiskSnapshot)
    ensures s.position.raw == 0 && s.windowCount == 0 && s.lastReset == 0 && s.nextId == 1
  {
    RiskSnapshot(Quantity.New(0, 0), 0, 0, 1)
  }

  /** The window restart at the top of the stage's step: when more than a
      window's worth of cycles has passed, a fresh window starts now with no
      orders counted. The position and the next id are never touched. */
  function ResetWindow(s: RiskSnapshot, now: u64): (w: RiskSnapshot)
    requires s.lastReset <= now
    ensures w.position == s.position && w.nextId == s.nextId
    ensures w == s || (w.windowCount == 0 && w.lastReset == now)
    ensures s.lastReset <= w.lastReset <= now
  {
    if now - s.lastReset > WINDOW_CYCLES then s.(windowCount := 0, lastReset := now) else s
  }

  /** What the step needs so that no u64 subtraction underflows and no
      position sum leaves i64: time does not run backwards, and the position
      arithmetic that is actually reached fits. */
  predicate StepDefined(config: RiskConfig, s: RiskSnapshot, signal: SignalEvent, now: u64)
  {
    && s.lastReset <= now
    && var w := ResetWindow(s, now);
       (w.windowCount < config.maxOrdersPerSecond ==>
          match signal
          case BuySignal(_, _, qty, _) => InI64(w.position.raw + qty.raw)
          case SellSignal(_, _, qty, _) => InI64(w.position.raw - qty.raw)
          case CancelSignal(_, _) => true)
  }

  /** One signal: the decision and the state after it. Beyond the window
      restart, the state changes only when a Buy or Sell is approved: then,
      and only then, an order id is used up and the window counts one more
      order. A rejection carries the signal it rejects. */
  function Decide(config: RiskConfig, s: RiskSnapshot, signal: SignalEvent, now: u64): (r: (RiskDecision, RiskSnapshot))
    requires StepDefined(config, s, signal, now)
    ensures r.0.Reject? ==> r.0.originalSignal == signal
    ensures r.1.lastReset == ResetWindow(s, now).lastReset
    ensures (r.0.Approve? && !signal.CancelSignal?) <==> r.1.nextId != s.nextId
    ensures r.1.windowCount == ResetWindow(s, now).windowCount + (if r.1.nextId != s.nextId then 1 else 0)
    ensures r.1.nextId == s.nextId ==> r.1.position == s.position
  {
    var w := ResetWindow(s, now);
    match signal
    case BuySignal(symbol, price, qty, timestamp) =>
      if w.windowCount >= config.maxOrdersPerSecond then
        (Reject(RateLimitExceeded, signal), w)
      else if w.position.Add(qty).raw > config.maxPosition.raw then
        (Reject(PositionLimitExceeded, signal), w)
      else
        (Approve(Order(w.nextId, symbol, price, qty, Buy, timestamp)),
         w.(position := w.position.Add(qty), windowCount := w.windowCount + 1,
            nextId := WrappingAdd(w.nextId, 1)))
    case SellSignal(symbol, price, qty, timestamp) =>
      if w.windowCount >= config.maxOrdersPerSecond then
        (Reject(RateLimitExceeded, signal), w)
      else if w.position.Sub(qty).raw < SellFloor().raw then
        (Reject(PositionLimitExceeded, signal), w)
      else
        (Approve(Order(w.nextId, symbol, price, qty, Sell, timestamp)),
         w.(position := w.position.Sub(qty), windowCount := w.windowCount + 1,
            nextId := WrappingAdd(w.nextId, 1)))
    case CancelSignal(orderId, timestamp) =>
      (Approve(Order(orderId, 0, Price.New(0, 0), Quantity.New(0, 0), Buy, timestamp)), w)
  }

  // ---------------------------------------------------------------------
  // Properties of one step.

  /** The window restarts exactly when more than WINDOW_CYCLES have passed,
      and then the decision is taken against a count of 0; otherwise the
      decision sees the state as it was. */
  lemma WindowRestarts(config: RiskConfig, s: RiskSnapshot, signal: SignalEvent, now: u64)
    requires StepDefined(config, s, signal, now)
    ensures var (_, t) := Decide(config, s, signal, now);
            && t.lastReset == (if now - s.lastReset > WINDOW_CYCLES then now else s.lastReset)
            && (now - s.lastReset > WINDOW_CYCLES ==> ResetWindow(s, now).windowCount == 0)
            && (now - s.lastReset <= WINDOW_CYCLES ==> ResetWindow(s, now) == s)
  {
  }

  /** For a Buy or a Sell the rate limit is checked first: a full window
      rejects with RateLimitExceeded whatever the position. */
  lemma RateLimitFirst(config: RiskConfig, s: RiskSnapshot, signal: SignalEvent, now: u64)
    requires StepDefined(config, s, signal, now) && !signal.CancelSignal?
    requires ResetWindow(s, now).windowCount >= config.maxOrdersPerSecond
    ensures Decide(config, s, signal, now).0 == Reject(RateLimitExceeded, signal)
  {
  }

  /** A Buy is approved exactly when the window has room and the new
      position stays within the configured maximum; the order carries the
      next id and the signal's fields, and the position grows by the
      quantity. A Buy refused with room in the window is refused for its
      position. */
  lemma BuyDecision(config: RiskConfig, s: RiskSnapshot, signal: SignalEvent, now: u64)
    requires StepDefined(config, s, signal, now) && signal.BuySignal?
    ensures var w := ResetWindow(s, now);
            var (d, t) := Decide(config, s, signal, now);
            && (d.Approve? <==>
                  w.windowCount < config.maxOrdersPerSecond
                  && w.position.raw + signal.qty.raw <= config.maxPosition.raw)
            && (d.Approve? ==>
                  && d.order == Order(w.nextId, signal.symbol, signal.price, signal.qty, Buy, signal.timestamp)
                  && t.position.raw == w.position.raw + signal.qty.raw)
            && (d.Reject? && w.windowCount < config.maxOrdersPerSecond ==> d.reason == PositionLimitExceeded)
  {
  }

  /** A Sell is approved exactly when the window has room and the new
      position stays at or above -1000.0; the position shrinks by the
      quantity. */
  lemma SellDecision(config: RiskConfig, s: RiskSnapshot, signal: SignalEvent, now: u64)
    requires StepDefined(config, s, signal, now) && signal.SellSignal?
    ensures var w := ResetWindow(s, now);
            var (d, t) := Decide(config, s, signal, now);
            && (d.Approve? <==>
                  w.windowCount < config.maxOrdersPerSecond
                  && w.position.raw - signal.qty.raw >= -1000 * SCALE)
            && (d.Approve? ==>
                  && d.order == Order(w.nextId, signal.symbol, signal.price, signal.qty, Sell, signal.timestamp)
                  && t.position.raw == w.position.raw - signal.qty.raw)
            && (d.Reject? && w.windowCount < config.maxOrdersPerSecond ==> d.reason == PositionLimitExceeded)
  {
  }

  /** A rejection hands the signal back and changes nothing beyond the
      window restart: position, window count and next id stay. */
  lemma RejectionKeepsState(config: RiskConfig, s: RiskSnapshot, signal: SignalEvent, now: u64)
    requires StepDefined(config, s, signal, now)
    ensures var (d, t) := Decide(config, s, signal, now);
            d.Reject? ==> d.originalSignal == signal && t == ResetWindow(s, now)
  {
  }

  /** An approved Buy or Sell takes the next id, advances it by one and
      counts one more order in the window. */
  lemma ApprovalCounts(config: RiskConfig, s: RiskSnapshot, signal: SignalEvent, now: u64)
    requires StepDefined(config, s, signal, now) && !signal.CancelSignal?
    ensures var w := ResetWindow(s, now);
            var (d, t) := Decide(config, s, signal, now);
            d.Approve? ==>
              && d.order.id == w.nextId == s.nextId
              && t.nextId == WrappingAdd(s.nextId, 1)
              && t.windowCount == w.windowCount + 1
  {
  }

  /** A Cancel is always approved as an order with the cancel's id, symbol
      0, price 0, quantity 0 and side Buy, and touches neither the position
      nor the window count nor the ids. */
  lemma CancelPassesThrough(config: RiskConfig, s: RiskSnapshot, signal: SignalEvent, now: u64)
    requires StepDefined(config, s, signal, now) && signal.CancelSignal?
    ensures var (d, t) := Decide(config, s, signal, now);
            && d == Approve(Order(signal.orderId, 0, Price(0), Quantity(0), Buy, signal.timestamp))
            && t == ResetWindow(s, now)
  {
  }

  /** The window count never exceeds the configured maximum. */
  lemma WindowCountBounded(config: RiskConfig, s: RiskSnapshot, signal: SignalEvent, now: u64)
    requires StepDefined(config, s, signal, now) && s.windowCount <= config.maxOrdersPerSecond
    ensures Decide(config, s, signal, now).1.windowCount <= config.maxOrdersPerSecond
  {
  }

  // ---------------------------------------------------------------------
  // A run of signals.

  /** Every step of the run is defined, each on the state the previous one left. */
  predicate RunDefined(config: RiskConfig, s: RiskSnapshot, signals: seq<SignalEvent>, times: seq<u64>)
    decreases |signals|
  {
    && |signals| == |times|
    && (signals != [] ==>
          && StepDefined(config, s, signals[0], times[0])
          && RunDefined(config, Decide(config, s, signals[0], times[0]).1, signals[1..], times[1..]))
  }

  /** The decisions for `signals` arriving at `times`, and the final state. */
  function Run(config: RiskConfig, s: RiskSnapshot, signals: seq<SignalEvent>, times: seq<u64>)
    : (r: (seq<RiskDecision>, RiskSnapshot))
    requires RunDefined(config, s, signals, times)
    ensures |r.0| == |signals|
    decreases |signals|
  {
    if signals == [] then ([], s)
    else
      var (d, t) := Decide(config, s, signals[0], times[0]);
      var (ds, f) := Run(config, t, signals[1..], times[1..]);
      ([d] + ds, f)
  }

  /** The ids of the approved Buy and Sell orders, in order. */
  function IssuedIds(signals: seq<SignalEvent>, decisions: seq<RiskDecision>): seq<u64>
    requires |signals| == |decisions|
  {
    if signals == [] then []
    else
      var rest := IssuedIds(signals[1..], decisions[1..]);
      if !signals[0].CancelSignal? && decisions[0].Approve? then [decisions[0].order.id] + rest else rest
  }

  /** Approved Buy and Sell orders carry consecutive ids (modulo 2^64, the
      width of `fetch_add`) starting at the state's next id, and the run
      leaves the next id just past the last one issued. */
  lemma {:induction false} ConsecutiveIds(config: RiskConfig, s: RiskSnapshot, signals: seq<SignalEvent>, times: seq<u64>)
    requires RunDefined(config, s, signals, times)
    ensures var (ds, f) := Run(config, s, signals, times);
            var ids := IssuedIds(signals, ds);
            && f.nextId as int == (s.nextId + |ids|) % U64_MODULUS
            && forall i :: 0 <= i < |ids| ==> ids[i] as int == (s.nextId + i) % U64_MODULUS
    decreases |signals|
  {
    if signals != [] {
      var (d, t) := Decide(config, s, signals[0], times[0]);
      var (ds, f) := Run(config, t, signals[1..], times[1..]);
      assert Run(config, s, signals, times).0 == [d] + ds;
      assert ([d] + ds)[1..] == ds;
      ConsecutiveIds(config, t, signals[1..], times[1..]);
      var rest := IssuedIds(signals[1..], ds);
      if !signals[0].CancelSignal? && d.Approve? {
        ApprovalCounts(config, s, signals[0], times[0]);
        assert t.nextId as int == (s.nextId + 1) % U64_MODULUS;
        forall i | 0 <= i < |rest| ensures rest[i] as int == (s.nextId + (i + 1)) % U64_MODULUS {
          AddMod(s.nextId + 1, i);
        }
        AddMod(s.nextId + 1, |rest|);
      } else {
        assert t.nextId == s.nextId;
      }
    }
  }

  // ---------------------------------------------------------------------
  // The state as the stage holds it.

  class RiskState {
    var currentPosition: Quantity
    var orderCountThisSecond: u64
    var lastResetTime: u64
    var nextOrderId: u64

    function Snapshot(): RiskSnapshot
      reads this
    {
      RiskSnapshot(currentPosition, orderCountThisSecond, lastResetTime, nextOrderId)
    }

    /** `RiskState::new`. */
    constructor ()
      ensures Snapshot() == InitialSnapshot()
    {
      currentPosition := Quantity.New(0, 0);
      orderCountThisSecond := 0;
      lastResetTime := 0;
      nextOrderId := 1;
    }

    /** `get_next_order_id`: `fetch_add(1)`, returning the previous value. */
    method GetNextOrderId() returns (id: u64)
      modifies this`nextOrderId
      ensures id == old(nextOrderId) && nextOrderId == WrappingAdd(id, 1)
    {
      id := nextOrderId;
      nextOrderId := WrappingAdd(nextOrderId, 1);
    }

    /** The body of the stage's loop for one popped signal: the window
        restart, the decision and its bookkeeping. */
    method Process(config: RiskConfig, signal: SignalEvent, now: u64) returns (decision: RiskDecision)
      requires StepDefined(config, Snapshot(), signal, now)
      modifies this
      ensures (decision, Snapshot()) == Decide(config, old(Snapshot()), signal, now)
    {
      if now - lastResetTime > WINDOW_CYCLES {
        orderCountThisSecond := 0;
        lastResetTime := now;
      }
      match signal
      case BuySignal(symbol, price, qty, timestamp) =>
        if orderCountThisSecond >= config.maxOrdersPerSecond {
          decision := Reject(RateLimitExceeded, signal);
        } else if currentPosition.Add(qty).raw > config.maxPosition.raw {
          decision := Reject(PositionLimitExceeded, signal);
        } else {
          var id := GetNextOrderId();
          decision := Approve(Order(id, symbol, price, qty, Buy, timestamp));
          currentPosition := currentPosition.Add(qty);
          orderCountThisSecond := orderCountThisSecond + 1;
        }
      case SellSignal(symbol, price, qty, timestamp) =>
        if orderCountThisSecond >= config.maxOrdersPerSecond {
          decision := Reject(RateLimitExceeded, signal);
        } else if currentPosition.Sub(qty).raw < SellFloor().raw {
          decision := Reject(PositionLimitExceeded, signal);
        } else {
          var id := GetNextOrderId();
          decision := Approve(Order(id, symbol, price, qty, Sell, timestamp));
          currentPosition := currentPosition.Sub(qty);
          orderCountThisSecond := orderCountThisSecond + 1;
        }
      case CancelSignal(orderId, timestamp) =>
        decision := Approve(Order(orderId, 0, Price.New(0, 0), Quantity.New(0, 0), Buy, timestamp));
    }
  }

  /** A fresh state hands out ids 1 and then 2. */
  method FirstTwoIds() returns (id1: u64, id2: u64)
    ensures id1 == 1 && id2 == 2
  {
    var state := new RiskState();
    id1 := state.GetNextOrderId();
    id2 := state.GetNextOrderId();
  }
}
