/** The fixed-size messages that cross the pipeline's channels.

    The Rust accessors `MarketEvent::symbol`, `MarketEvent::timestamp` and
    `SignalEvent::timestamp` match on the variant and return the field every
    variant carries; here each such field has the same name in every
    constructor, so the destructor `e.symbol` / `e.timestamp` is that accessor. */
module Messages {
  import opened Types

  /** Depth of each side of the order book. */
  const MAX_LEVELS: nat := 10

  datatype Side = Buy | Sell
  {
    /** The `#[repr(u8)]` discriminant. */
    function Code(): (c: u8)
      ensures c < 2
      ensures (c == 0) == (this == Buy)
    {
      match this
      case Buy => 0
      case Sell => 1
    }
  }

  /** Aggregated resting size at one price. */
  datatype PriceLevel = PriceLevel(price: Price, qty: Quantity, orderCount: u32)
  {
    predicate IsEmpty()
    {
      orderCount == 0
    }
  }

  /** `PriceLevel::new`: one order at the given price and size. */
  function NewLevel(price: Price, qty: Quantity): (l: PriceLevel)
    ensures l.price == price && l.qty == qty && l.orderCount == 1
    ensures !l.IsEmpty()
  {
    PriceLevel(price, qty, 1)
  }

  /** `PriceLevel::empty`: the placeholder in unused slots. */
  function EmptyLevel(): (l: PriceLevel)
    ensures l.IsEmpty()
    ensures l.price == Price.New(0, 0) && l.qty == Quantity.New(0, 0)
  {
    PriceLevel(Price(0), Quantity(0), 0)
  }

  /** A full `[PriceLevel; MAX_LEVELS]` snapshot. */
  type Levels = s: seq<PriceLevel> | |s| == MAX_LEVELS
    witness seq(MAX_LEVELS, _ => EmptyLevel())

  datatype MarketEvent =
    | Tick(symbol: u32, price: Price, qty: Quantity, side: Side, timestamp: Timestamp)
    | Trade(symbol: u32, price: Price, qty: Quantity, timestamp: Timestamp)
    | BookUpdate(symbol: u32, bids: Levels, asks: Levels, timestamp: Timestamp)

  /** The strategy's output; `Buy`/`Sell`/`Cancel` in the Rust enum. */
  datatype SignalEvent =
    | BuySignal(symbol: u32, price: Price, qty: Quantity, timestamp: Timestamp)
    | SellSignal(symbol: u32, price: Price, qty: Quantity, timestamp: Timestamp)
    | CancelSignal(orderId: u64, timestamp: Timestamp)

  /** `Order::new` is the constructor: each argument lands in its field. */
  datatype Order = Order(id: u64, symbol: u32, price: Price, qty: Quantity, side: Side, timestamp: Timestamp)

  datatype RejectReason =
    | PositionLimitExceeded
    | RateLimitExceeded
    | InvalidPrice
    | InvalidQuantity
    | UnknownSymbol
    | InternalError
  {
    /** The `#[repr(u8)]` discriminant, in declaration order from 0. */
    function Code(): (c: u8)
      ensures c <= 5
      ensures (c == 0 <==> this == PositionLimitExceeded) && (c == 1 <==> this == RateLimitExceeded)
      ensures (c == 2 <==> this == InvalidPrice) && (c == 3 <==> this == InvalidQuantity)
      ensures (c == 4 <==> this == UnknownSymbol) && (c == 5 <==> this == InternalError)
    {
      match this
      case PositionLimitExceeded => 0
      case RateLimitExceeded => 1
      case InvalidPrice => 2
      case InvalidQuantity => 3
      case UnknownSymbol => 4
      case InternalError => 5
    }
  }

  datatype RiskDecision =
    | Approve(order: Order)
    | Reject(reason: RejectReason, originalSignal: SignalEvent)

  /** Distinct variants have distinct discriminants. */
  lemma CodesAreDistinct(a: Side, b: Side, x: RejectReason, y: RejectReason)
    ensures a.Code() == b.Code() ==> a == b
    ensures x.Code() == y.Code() ==> x == y
  {
  }
}
