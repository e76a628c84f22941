/**
 The meaning of the order book, with none of its data structures.

 A book is one flat sequence of resting orders in order of arrival (a modified order arrives again),
 plus the set of ids ever accepted. Price levels, queues, slots and the id index do not occur here:
 matching repeatedly picks, out of the whole sequence, the best-priced order the taker crosses, the
 earliest one on ties.
 */
module FlatBook {
  import opened Domain

  datatype Book = Book(resting: seq<Order>, seen: set<OrderId>)

  /** A fresh book. */
  const EMPTY: Book := Book([], {})

  /** Price `p` is strictly more attractive than `q` to someone trading against orders of `side`. */
  predicate Better(side: Side, p: Price, q: Price) {
    if side.Buy? then p > q else p < q
  }

  /** `taker` is willing to trade at the price of `maker`. */
  predicate Crosses(taker: Order, maker: Order) {
    && maker.side == taker.side.Opposite()
    && (if taker.side.Buy? then maker.price <= taker.price else maker.price >= taker.price)
  }

  /** Price priority first, arrival priority on ties. */
  ghost predicate IsBest(resting: seq<Order>, taker: Order, i: nat) {
    && i < |resting|
    && Crosses(taker, resting[i])
    && (forall j :: 0 <= j < i && Crosses(taker, resting[j])
                    ==> Better(resting[i].side, resting[i].price, resting[j].price))
    && (forall j :: i < j < |resting| && Crosses(taker, resting[j])
                    ==> !Better(resting[i].side, resting[j].price, resting[i].price))
  }

  function Best(resting: seq<Order>, taker: Order): (r: Option<nat>)
    ensures r.Some? ==> r.value < |resting| && IsBest(resting, taker, r.value)
    ensures r.None? ==> forall o :: o in resting ==> !Crosses(taker, o)
  {
    if resting == [] then None
    else
      var last := |resting| - 1;
      var r := Best(resting[..last], taker);
      if Crosses(taker, resting[last])
         && (r.None? || Better(resting[last].side, resting[last].price, resting[r.value].price))
      then Some(last) else r
  }

  /** Take `q` from the order at `i`, which leaves the book when nothing of it is left. */
  function Take(resting: seq<Order>, i: nat, q: Quantity): seq<Order>
    requires i < |resting| && q <= resting[i].remainingQty
  {
    if q == resting[i].remainingQty then Without(resting, i)
    else resting[i := resting[i].(remainingQty := resting[i].remainingQty - q)]
  }

  datatype Matched = Matched(resting: seq<Order>, remaining: Quantity, trades: seq<Trade>)

  function Match(resting: seq<Order>, taker: Order): Matched
    decreases |resting|, taker.remainingQty
  {
    if taker.IsFilled() then Matched(resting, 0, [])
    else
      match Best(resting, taker)
      case None => Matched(resting, taker.remainingQty, [])
      case Some(i) =>
        var q := Min(taker.remainingQty, resting[i].remainingQty);
        var rest := Match(Take(resting, i, q), taker.(remainingQty := taker.remainingQty - q));
        rest.(trades := [Trade(resting[i].id, taker.id, resting[i].price, q)] + rest.trades)
  }

  /** A taker that crosses somebody first trades with the best maker. */
  lemma MatchStep(resting: seq<Order>, taker: Order, i: nat)
    requires !taker.IsFilled() && Best(resting, taker) == Some(i)
    ensures var q := Min(taker.remainingQty, resting[i].remainingQty);
            var rest := Match(Take(resting, i, q), taker.(remainingQty := taker.remainingQty - q));
            Match(resting, taker)
            == Matched(rest.resting, rest.remaining,
                       [Trade(resting[i].id, taker.id, resting[i].price, q)] + rest.trades)
  {
    hide Best, IsBest, Take;
  }

  /** No trade is at a worse price than the limit of an order of `side`. */
  predicate WithinLimit(side: Side, limit: Price, trades: seq<Trade>) {
    forall t :: t in trades ==> if side.Buy? then t.price <= limit else t.price >= limit
  }

  /** The trades keep within a limit on the side of a resting order called `id`. */
  ghost predicate WithinNewLimit(resting: seq<Order>, id: OrderId, limit: Price, trades: seq<Trade>) {
    exists o :: o in resting && o.id == id && WithinLimit(o.side, limit, trades)
  }

  /** Every resting order of the side opposite to `side` is priced beyond the limit. */
  predicate BeyondLimit(side: Side, limit: Price, resting: seq<Order>) {
    forall o :: o in resting && o.side != side ==> if side.Buy? then o.price > limit else o.price < limit
  }

  /** What one command does: the new book, the reply, and the events of the full log, in order. */
  datatype Outcome = Outcome(book: Book, result: Result<seq<Trade>, OrderBookError>, events: seq<BookEvent>)

  function Reject(book: Book, error: OrderBookError): Outcome {
    Outcome(book, Err(error), [])
  }

  function TradeEvents(trades: seq<Trade>): seq<BookEvent> {
    seq(|trades|, i requires 0 <= i < |trades| => TradeExecuted(trades[i]))
  }

  lemma TradeEventsConcat(a: seq<Trade>, b: seq<Trade>)
    ensures TradeEvents(a + b) == TradeEvents(a) + TradeEvents(b)
  {
  }

  lemma TradeEventsPush(trades: seq<Trade>, t: Trade)
    ensures TradeEvents(trades + [t]) == TradeEvents(trades) + [TradeExecuted(t)]
    ensures TradeEvents([t] + trades) == [TradeExecuted(t)] + TradeEvents(trades)
  {
  }

  /** What is left of an order after matching joins the back of the book. */
  function Rest(m: Matched, order: Order): seq<Order> {
    if m.remaining == 0 then m.resting else m.resting + [order.(remainingQty := m.remaining)]
  }

  function Enter(book: Book, order: Order, entry: BookEvent): Outcome {
    var m := Match(book.resting, order);
    Outcome(book.(resting := Rest(m, order)), Ok(m.trades), [entry] + TradeEvents(m.trades))
  }

  /** Where the order called `id` rests. */
  function Find(resting: seq<Order>, id: OrderId): (r: Option<nat>)
    ensures r.Some? ==> r.value < |resting| && resting[r.value].id == id
    ensures r.None? ==> forall o :: o in resting ==> o.id != id
  {
    if resting == [] then None
    else if resting[|resting| - 1].id == id then Some(|resting| - 1)
    else Find(resting[..|resting| - 1], id)
  }

  function AddOrder(book: Book, order: Order): Outcome {
    if order.remainingQty == 0 then Reject(book, ZeroQuantity)
    else if order.id in book.seen then Reject(book, DuplicateOrderId)
    else Enter(book.(seen := book.seen + {order.id}), order, OrderAccepted(order))
  }

  function CancelOrder(book: Book, id: OrderId): Outcome {
    match Find(book.resting, id)
    case None => Reject(book, UnknownOrderId)
    case Some(i) => Outcome(book.(resting := Without(book.resting, i)), Ok([]), [OrderCancelled(id)])
  }

  /** A modify is a removal followed by re-entry at the back, under the same id and side. */
  function ModifyOrder(book: Book, id: OrderId, price: Price, quantity: Quantity): Outcome {
    if quantity == 0 then Reject(book, ZeroQuantity)
    else
      match Find(book.resting, id)
      case None => Reject(book, UnknownOrderId)
      case Some(i) =>
        Enter(book.(resting := Without(book.resting, i)), Order(id, book.resting[i].side, price, quantity),
              OrderModified(id, price, quantity))
  }

  function Step(book: Book, command: Command): Outcome {
    match command
    case Add(order) => AddOrder(book, order)
    case Cancel(id) => CancelOrder(book, id)
    case Modify(id, price, quantity) => ModifyOrder(book, id, price, quantity)
  }

  /** The part of the full log that a book in the given mode keeps. */
  function Observe(mode: EventMode, events: seq<BookEvent>): seq<BookEvent> {
    match mode
    case Full => events
    case TradesOnly => OnlyTrades(events)
    case Disabled => []
  }

  function OnlyTrades(events: seq<BookEvent>): seq<BookEvent> {
    if events == [] then []
    else
      var last := |events| - 1;
      OnlyTrades(events[..last]) + if events[last].TradeExecuted? then [events[last]] else []
  }

  // ---- One price level, as a filter of the flat book ----

  function LevelOrders(resting: seq<Order>, side: Side, price: Price): seq<Order> {
    if resting == [] then []
    else
      var last := |resting| - 1;
      LevelOrders(resting[..last], side, price)
      + if resting[last].side == side && resting[last].price == price then [resting[last]] else []
  }

  function TotalQuantity(orders: seq<Order>): nat {
    if orders == [] then 0
    else TotalQuantity(orders[..|orders| - 1]) + orders[|orders| - 1].remainingQty
  }

  /** The cached `u64` total of every level is exact, and every slot number fits in a `u32`. */
  ghost predicate Fits(resting: seq<Order>) {
    && |resting| <= 0x1_0000_0000
    && forall side, price :: TotalQuantity(LevelOrders(resting, side, price)) <= U64_MAX
  }

  // ---- What every book reached by commands satisfies ----

  ghost predicate DistinctIds(resting: seq<Order>) {
    forall i, j :: 0 <= i < j < |resting| ==> resting[i].id != resting[j].id
  }

  ghost predicate Positive(resting: seq<Order>) {
    forall o :: o in resting ==> o.remainingQty > 0
  }

  /** No resting bid could trade with a resting ask. */
  ghost predicate Uncrossed(resting: seq<Order>) {
    forall bid, ask :: bid in resting && ask in resting && bid.side.Buy? && ask.side.Sell?
                       ==> bid.price < ask.price
  }

  ghost predicate Sound(resting: seq<Order>) {
    DistinctIds(resting) && Positive(resting) && Uncrossed(resting)
  }

  ghost predicate Wf(book: Book) {
    Sound(book.resting) && forall o :: o in book.resting ==> o.id in book.seen
  }

  // ---- Whole runs: rejected commands are skipped ----

  datatype RunState = RunState(book: Book, log: seq<BookEvent>)

  function Run(commands: seq<Command>): RunState {
    if commands == [] then RunState(EMPTY, [])
    else
      var last := |commands| - 1;
      var st := Run(commands[..last]);
      var o := Step(st.book, commands[last]);
      RunState(o.book, st.log + o.events)
  }
}
