/** The nouns of the order book: orders, trades, events, commands and errors (src/domain, src/error.rs). */
module Domain {

  /** Rust's `u64`. Every arithmetic result stored in one is checked to be in range. */
  type U64 = x: int | 0 <= x <= 0xFFFF_FFFF_FFFF_FFFF

  const U64_MAX: U64 := 0xFFFF_FFFF_FFFF_FFFF

  type OrderId = U64
  type Price = U64
  type Quantity = U64

  datatype Option<+T> = None | Some(value: T)

  datatype Result<+T, +E> = Ok(value: T) | Err(error: E)

  datatype Side = Buy | Sell {
    function Opposite(): Side {
      if Buy? then Sell else Buy
    }
  }

  datatype Order = Order(id: OrderId, side: Side, price: Price, remainingQty: Quantity) {
    predicate IsFilled() {
      remainingQty == 0
    }
  }

  /** A trade names the resting order first and always happens at the resting order's price. */
  datatype Trade = Trade(makerOrderId: OrderId, takerOrderId: OrderId, price: Price, quantity: Quantity)

  datatype BookEvent =
    | OrderAccepted(order: Order)
    | OrderCancelled(orderId: OrderId)
    | OrderModified(modifiedId: OrderId, newPrice: Price, newQuantity: Quantity)
    | TradeExecuted(trade: Trade)

  datatype OrderBookError = ZeroQuantity | DuplicateOrderId | UnknownOrderId

  /** Prices paired with the orders queued there, best price first on each side. */
  datatype BookSnapshot = BookSnapshot(bids: seq<(Price, seq<Order>)>, asks: seq<(Price, seq<Order>)>)

  datatype EventMode = Full | TradesOnly | Disabled

  /** One instruction to the book (src/simulator/scenario.rs). */
  datatype Command =
    | Add(order: Order)
    | Cancel(orderId: OrderId)
    | Modify(modifyId: OrderId, newPrice: Price, newQuantity: Quantity)

  function Min(a: Quantity, b: Quantity): Quantity {
    if a <= b then a else b
  }

  function Max(a: nat, b: nat): nat {
    if a <= b then b else a
  }

  /** `s` with the element at `i` taken out. */
  function Without<T>(s: seq<T>, i: nat): (r: seq<T>)
    requires i < |s|
    ensures |r| == |s| - 1
  {
    s[..i] + s[i + 1..]
  }

  lemma Assoc<T>(a: seq<T>, b: seq<T>, c: seq<T>)
    ensures (a + b) + c == a + (b + c)
  {
  }
}
