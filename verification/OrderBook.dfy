/**
 The order book as it is implemented: two price ladders, an arena, one linked queue per price level and an
 id index, updated in place (src/engine/order_book.rs, src/engine/matching.rs). Every operation is proved
 to do to the flat book exactly what FlatBook says.
 */
module OrderBook {
  import opened Domain
  import opened Arena
  import opened Level
  import BV = BookView
  import FB = FlatBook
  import MP = MatchProgress
  import FBI = FlatBookInvariants
  import EventModes
  import SN = Snapshots

  // ---- The ladder keys in order: the first and last key of a sorted map ----

  lemma LowestOf(keys: set<Price>) returns (p: Price)
    requires keys != {}
    ensures p in keys && forall q :: q in keys ==> p <= q
  {
    p :| p in keys;
    if keys != {p} {
      var r := LowestOf(keys - {p});
      assert forall q :: q in keys ==> q == p || q in keys - {p};
      p := if r <= p then r else p;
    }
  }

  lemma HighestOf(keys: set<Price>) returns (p: Price)
    requires keys != {}
    ensures p in keys && forall q :: q in keys ==> p >= q
  {
    p :| p in keys;
    if keys != {p} {
      var r := HighestOf(keys - {p});
      assert forall q :: q in keys ==> q == p || q in keys - {p};
      p := if r >= p then r else p;
    }
  }

  lemma EndsExist(keys: set<Price>)
    requires keys != {}
    ensures exists p :: p in keys && forall q :: q in keys ==> p <= q
    ensures exists p :: p in keys && forall q :: q in keys ==> p >= q
  {
    var lo := LowestOf(keys);
    var hi := HighestOf(keys);
  }

  function Lowest(keys: set<Price>): (p: Price)
    requires keys != {}
    ensures p in keys && forall q :: q in keys ==> p <= q
  {
    EndsExist(keys);
    var p :| p in keys && forall q :: q in keys ==> p <= q;
    p
  }

  function Highest(keys: set<Price>): (p: Price)
    requires keys != {}
    ensures p in keys && forall q :: q in keys ==> p >= q
  {
    EndsExist(keys);
    var p :| p in keys && forall q :: q in keys ==> p >= q;
    p
  }

  class OrderBook {
    var bids: map<Price, PriceLevel>
    var asks: map<Price, PriceLevel>
    const arena: OrderArena
    /** The id index: `Valid()` makes its keys exactly the ids of `Resting()`. */
    var orderSlots: map<OrderId, Slot>
    var events: seq<BookEvent>
    const eventMode: EventMode
    var seenOrderIds: set<OrderId>

    /** The occupied slots in order of arrival. */
    ghost var arrival: seq<Slot>

    // ---- Abstraction and invariant ----

    /** The data structures as one value. */
    ghost function View(): BV.View
      reads this`bids, this`asks, this`orderSlots, this`arrival, arena`nodes
    {
      BV.View(arena.nodes, arrival, bids, asks, orderSlots)
    }

    /** Everything but the absence of empty levels, which the matching loop breaks for a moment. */
    ghost predicate Core()
      reads this`bids, this`asks, this`orderSlots, this`arrival, arena
    {
      arena.Valid() && arena.len == |arrival| && BV.Stored(arena.nodes, arrival) && BV.Core(View())
    }

    /** The flat sequence of resting orders this book represents. */
    ghost function Resting(): seq<Order>
      requires BV.Stored(arena.nodes, arrival)
      reads this`arrival, arena`nodes
    {
      BV.Resting(arena.nodes, arrival)
    }

    /** The flat book this book represents. */
    ghost function Book(): FB.Book
      requires BV.Stored(arena.nodes, arrival)
      reads this`arrival, this`seenOrderIds, arena`nodes
    {
      FB.Book(Resting(), seenOrderIds)
    }

    /** The structures agree, no level is empty, and the flat book is sound and uncrossed. */
    ghost predicate Valid()
      reads this, arena
    {
      Core() && BV.NoEmptyLevel(View()) && FB.Wf(Book())
    }

    constructor (mode: EventMode)
      ensures Valid() && fresh(arena)
      ensures Book() == FB.EMPTY && events == [] && eventMode == mode && |arena.entries| == 0
    {
      bids, asks, orderSlots, events, seenOrderIds, arrival := map[], map[], map[], [], {}, [];
      eventMode := mode;
      arena := new OrderArena();
    }

    // ---- Resting an order ----

    function Ladder(side: Side): map<Price, PriceLevel>
      reads this`bids, this`asks
    {
      if side.Buy? then bids else asks
    }

    /** Write a level back to its ladder. */
    method SetLevel(side: Side, price: Price, level: PriceLevel)
      modifies this`bids, this`asks
      ensures View() == BV.Relevel(old(View()), side, price, level)
    {
      if side.Buy? {
        bids := bids[price := level];
      } else {
        asks := asks[price := level];
      }
    }

    /** A new node behind the queue `q` of its level, which is made if there is none. */
    method Place(order: Order, ghost q: seq<Slot>) returns (slot: Slot, ghost level: PriceLevel)
      requires arena.Valid() && arena.len < SLOT_LIMIT
      requires BV.Joins(arena.nodes, Ladder(order.side), order.price, q)
      requires QueueTotal(arena.nodes, q) + order.remainingQty <= U64_MAX
      modifies this`bids, this`asks, arena
      ensures arena.Valid()
      ensures BV.Attached(old(arena.nodes), arena.nodes, q, slot, order) && LevelOk(arena.nodes, level, q + [slot])
      ensures View() == BV.Relevel(old(View()), order.side, order.price, level).(nodes := arena.nodes)
      ensures arena.len == old(arena.len) + 1 && |arena.entries| == Max(old(|arena.entries|), arena.len)
    {
      hide Slab, LevelOk, BV.Attached, BV.Joins, SameOrders, SameOutside, QueueTotal;
      ghost var nodes := arena.nodes;
      BV.JoinsTotal(nodes, Ladder(order.side), order.price, q);
      slot := arena.Insert(order);
      var ladder := Ladder(order.side);
      var entry := if order.price in ladder then ladder[order.price] else EMPTY_LEVEL;
      BV.JoinsAt(nodes, arena.nodes, ladder, order.price, q, entry);
      var queued := entry.PushBack(arena, slot, q);
      BV.AttachedBy(nodes, arena.nodes, q, slot, order);
      SetLevel(order.side, order.price, queued);
      level := queued;
    }

    /** Let an order rest at the back of its level and enter it in the index. */
    method RestOrder(order: Order)
      requires Core() && order.id !in orderSlots && arena.len < SLOT_LIMIT
      requires FB.TotalQuantity(FB.LevelOrders(Resting(), order.side, order.price)) + order.remainingQty <= U64_MAX
      modifies this`bids, this`asks, this`orderSlots, this`arrival, arena
      ensures Core() && Resting() == old(Resting()) + [order]
      ensures old(BV.NoEmptyLevel(View())) ==> BV.NoEmptyLevel(View())
      ensures |arena.entries| == Max(old(|arena.entries|), |Resting()|)
    {
      hide FB.LevelOrders, FB.TotalQuantity, QueueTotal, Slab, LevelOk;
      hide BV.Attached, BV.Core, BV.Joins, BV.Queue, BV.NoEmptyLevel, BV.Stored;
      ghost var v := View();
      ghost var q := v.QueueOf(order.side, order.price);
      BV.LevelTotal(v, order.side, order.price);
      BV.CoreJoins(v, order.side, order.price);
      ghost var level;
      var slot;
      slot, level := Place(order, q);
      orderSlots := orderSlots[order.id := slot];
      arrival := arrival + [slot];
      BV.AttachKeepsCore(v, View(), arena.nodes, slot, order, level);
      if BV.NoEmptyLevel(v) {
        BV.RelevelNoEmpty(v, View(), arena.nodes, order.side, order.price, level, q + [slot]);
      }
    }

    // ---- Taking orders out ----

    /** Unlink an order from its level, free its slot and forget its id. The level may be left empty. */
    method Detach(side: Side, price: Price, slot: Slot, ghost i: nat) returns (order: Order)
      requires Core() && price in Ladder(side) && i < |arrival| && arrival[i] == slot
      requires BV.OnLevel(arena.nodes, slot, side, price)
      modifies this`bids, this`asks, this`orderSlots, this`arrival, arena
      ensures Core() && Resting() == Without(old(Resting()), i) && order == old(Resting()[i])
      ensures price in Ladder(side) && BV.SameButLevel(old(View()), View(), side, price)
      ensures orderSlots == old(orderSlots) - {order.id} && |arena.entries| == old(|arena.entries|)
    {
      hide Slab, LevelOk, SameOrders, SameOutside, BV.Detached, Drop, BV.Queue, BV.Core, BV.SameButLevel, BV.OnLevel;
      ghost var v, nodes := View(), arena.nodes;
      ghost var q := v.QueueOf(side, price);
      BV.InQueue(v, side, price, i);
      BV.CoreMembers(v, i);
      var level := Ladder(side)[price].Unlink(arena, slot, q);
      BV.DetachedBy(nodes, arena.nodes, q, slot, level);
      BV.SameMember(nodes, arena.nodes, slot);
      order := arena.Remove(slot);
      SetLevel(side, price, level);
      orderSlots := orderSlots - {order.id};
      arrival := Drop(arrival, slot);
      BV.RelevelSame(v, View(), side, price, level);
      BV.DetachKeepsCore(v, View(), arena.nodes, side, price, level, i);
    }

    /** Take `q`, less than all of it, from an order, which keeps its place in its queue. */
    method Reduce(side: Side, price: Price, slot: Slot, q: Quantity, ghost i: nat)
      requires Core() && price in Ladder(side) && i < |arrival| && arrival[i] == slot
      requires BV.OnLevel(arena.nodes, slot, side, price) && q < arena.nodes[slot].order.remainingQty
      modifies this`bids, this`asks, arena`entries, arena`nodes
      ensures Core() && Resting() == FB.Take(old(Resting()), i, q)
      ensures BV.SameButLevel(old(View()), View(), side, price) && |arena.entries| == old(|arena.entries|)
    {
      hide Slab, LevelOk, BV.Queue, BV.SameButLevel, BV.Core;
      ghost var v := View();
      BV.InQueue(v, side, price, i);
      BV.CoreMembers(v, i);
      var node := arena.Get(slot);
      arena.Put(slot, node.(order := node.order.(remainingQty := node.order.remainingQty - q)));
      var level := Ladder(side)[price];
      level := level.(totalQuantity := level.totalQuantity - q);
      SetLevel(side, price, level);
      BV.RelevelSame(v, View(), side, price, level);
      BV.ReduceKeepsCore(v, View(), arena.nodes, side, price, level, q, i);
    }

    /** The one level that may have become empty goes if it did, so that no level is empty any more. */
    method RemoveIfEmpty(side: Side, price: Price, ghost v: BV.View)
      requires Core() && price in Ladder(side)
      requires BV.NoEmptyLevel(v) && BV.SameButLevel(v, View(), side, price)
      modifies this`bids, this`asks
      ensures Core() && BV.NoEmptyLevel(View())
      ensures if old(Ladder(side)[price]).IsEmpty() then price !in Ladder(side)
              else bids == old(bids) && asks == old(asks)
    {
      hide BV.NoEmptyLevel, BV.Core, BV.SameButLevel;
      BV.DelevelNoEmpty(v, View(), side, price);
      ghost var v1 := View();
      if side.Buy? {
        if bids[price].IsEmpty() {
          bids := bids - {price};
          BV.DropLevelKeepsCore(v1, side, price);
        }
      } else {
        if asks[price].IsEmpty() {
          asks := asks - {price};
          BV.DropLevelKeepsCore(v1, side, price);
        }
      }
    }

    /** The order called `orderId`, if there is one, leaves the flat book and nothing else changes. */
    method RemoveOrderById(orderId: OrderId) returns (removed: Option<Order>)
      requires Core() && BV.NoEmptyLevel(View())
      modifies this`bids, this`asks, this`orderSlots, this`arrival, arena
      ensures Core() && BV.NoEmptyLevel(View()) && |arena.entries| == old(|arena.entries|)
      ensures orderId !in orderSlots
      ensures var f := FB.Find(old(Resting()), orderId);
              if f.None? then removed.None? && Resting() == old(Resting())
              else removed == Some(old(Resting())[f.value]) && Resting() == Without(old(Resting()), f.value)
    {
      hide Slab, LevelOk, BV.NoEmptyLevel, BV.SameButLevel, BV.Core, FB.Find, BV.Stored;
      BV.IndexFinds(View(), orderId);
      if orderId !in orderSlots {
        return None;
      }
      ghost var v := View();
      ghost var i := FB.Find(Resting(), orderId).value;
      var slot := orderSlots[orderId];
      BV.CoreMembers(v, i);
      var node := arena.Get(slot);
      var order := Detach(node.order.side, node.order.price, slot, i);
      RemoveIfEmpty(node.order.side, node.order.price, v);
      removed := Some(order);
    }

    // ---- Matching ----

    /** The price of the ask level that no other ask level beats. */
    function BestAsk(): (price: Option<Price>)
      reads this`asks
      ensures price.None? <==> asks == map[]
      ensures price.Some? ==> BV.BestPrice(asks, Sell, price.value)
    {
      if asks == map[] then None else Some(Lowest(asks.Keys))
    }

    /** The price of the bid level that no other bid level beats. */
    function BestBid(): (price: Option<Price>)
      reads this`bids
      ensures price.None? <==> bids == map[]
      ensures price.Some? ==> BV.BestPrice(bids, Buy, price.value)
    {
      if bids == map[] then None else Some(Highest(bids.Keys))
    }

    /**
     Exactly one trade, with the order `i` that the flat book says is the best maker: filled, it leaves the book
     and the index; otherwise it stays where it is with less quantity.
     */
    method TradeWithHead(makerSide: Side, price: Price, incoming: Order, trades: seq<Trade>)
      returns (left: Order, trades': seq<Trade>, ghost i: nat)
      requires Core() && incoming.side == makerSide.Opposite() && !incoming.IsFilled()
      requires BV.BestPrice(Ladder(makerSide), makerSide, price) && BV.WillTradeAt(incoming, price)
      requires price in Ladder(makerSide) && Ladder(makerSide)[price].head.Some?
      modifies this`bids, this`asks, this`orderSlots, this`arrival, arena
      ensures Core() && BV.SameButLevel(old(View()), View(), makerSide, price)
      ensures i < |old(Resting())| && FB.Best(old(Resting()), incoming) == Some(i)
      ensures var maker := old(Resting())[i];
              var q := Min(incoming.remainingQty, maker.remainingQty);
              && maker.side == makerSide && maker.price == price
              && Resting() == FB.Take(old(Resting()), i, q)
              && left == incoming.(remainingQty := incoming.remainingQty - q)
              && trades' == trades + [Trade(maker.id, incoming.id, price, q)]
              && orderSlots == old(orderSlots) - if q == maker.remainingQty then {maker.id} else {}
      ensures |arena.entries| == old(|arena.entries|)
    {
      hide Slab, BV.Core, BV.SameButLevel, BV.BestPrice, BV.WillTradeAt, FB.Best;
      i := BV.HeadIsBest(View(), incoming, price);
      BV.CoreMembers(View(), i);
      var slot := Ladder(makerSide)[price].head.value;
      var resting := arena.Get(slot).order;
      var tradedQty := Min(incoming.remainingQty, resting.remainingQty);
      left := incoming.(remainingQty := incoming.remainingQty - tradedQty);
      trades' := trades + [Trade(resting.id, incoming.id, price, tradedQty)];
      if tradedQty == resting.remainingQty {
        var _ := Detach(makerSide, price, slot, i);
      } else {
        Reduce(makerSide, price, slot, tradedQty, i);
      }
    }

    /** Trades with one level until it is gone or the incoming order is filled. */
    method MatchAtLevel(makerSide: Side, price: Price, incoming: Order, ghost before: seq<Order>, ghost taker: Order,
                        trades: seq<Trade>) returns (left: Order, trades': seq<Trade>)
      requires Core() && BV.NoEmptyLevel(View()) && incoming.side == makerSide.Opposite()
      requires price in Ladder(makerSide)
               ==> BV.BestPrice(Ladder(makerSide), makerSide, price) && BV.WillTradeAt(incoming, price)
      requires MP.Continues(before, taker, trades, Resting(), incoming)
      modifies this`bids, this`asks, this`orderSlots, this`arrival, arena
      ensures Core() && BV.NoEmptyLevel(View())
      ensures MP.Continues(before, taker, trades', Resting(), left)
      ensures left == incoming.(remainingQty := left.remainingQty)
      ensures left.IsFilled() || price !in Ladder(makerSide)
      ensures old(price in Ladder(makerSide)) && !incoming.IsFilled()
              ==> |arrival| < old(|arrival|)
                  || (|arrival| == old(|arrival|) && left.remainingQty < incoming.remainingQty)
      ensures orderSlots.Keys <= old(orderSlots.Keys) && |arena.entries| == old(|arena.entries|)
    {
      hide Slab, BV.Core, BV.NoEmptyLevel, BV.WillTradeAt, MP.Continues, FB.Best, FB.Take;
      left, trades' := incoming, trades;
      if price !in Ladder(makerSide) {
        return;
      }
      ghost var v := View();
      BV.SameButLevelRefl(v, makerSide, price);
      BV.LevelHasHead(v, makerSide, price);
      while !left.IsFilled()
        invariant Core() && BV.SameButLevel(v, View(), makerSide, price)
        invariant MP.Continues(before, taker, trades', Resting(), left)
        invariant left == incoming.(remainingQty := left.remainingQty)
        invariant (View() == v && left == incoming) || |arrival| < |v.arrival|
                  || (|arrival| == |v.arrival| && left.remainingQty < incoming.remainingQty)
        invariant orderSlots.Keys <= v.slots.Keys && |arena.entries| == old(|arena.entries|)
        decreases |arrival|, left.remainingQty
      {
        if Ladder(makerSide)[price].head.None? {
          break;
        }
        ghost var now := View();
        BV.StillBest(v, now, makerSide, price, incoming, left);
        ghost var resting, incoming', made := Resting(), left, trades';
        ghost var i;
        left, trades', i := TradeWithHead(makerSide, price, left, trades');
        MP.OneTrade(before, taker, made, resting, incoming', i);
        FBI.TakeSmaller(resting, incoming', i);
        BV.SameButLevelTrans(v, now, View(), makerSide, price);
      }
      RemoveIfEmpty(makerSide, price, v);
    }

    /** `FB.Match` and `FB.Rest` of a buy order, level by level up the ask ladder. */
    method MatchBuyOrder(order: Order) returns (trades: seq<Trade>)
      requires Core() && BV.NoEmptyLevel(View()) && order.side.Buy? && order.id !in orderSlots
      requires FB.Fits(FB.Rest(FB.Match(Resting(), order), order))
      modifies this`bids, this`asks, this`orderSlots, this`arrival, arena
      ensures Core() && BV.NoEmptyLevel(View())
      ensures trades == FB.Match(old(Resting()), order).trades
      ensures forall t :: t in trades ==> t.price <= order.price
      ensures Resting() == FB.Rest(FB.Match(old(Resting()), order), order)
      ensures |arena.entries| == Max(old(|arena.entries|), |Resting()|)
    {
      hide Slab, BV.Core, BV.NoEmptyLevel, BV.BestPrice, MP.Continues, FB.Match;
      ghost var before := Resting();
      var incoming := order;
      trades := [];
      MP.NothingYet(before, order);
      FBI.MatchWithinLimit(before, order);
      while !incoming.IsFilled()
        invariant Core() && BV.NoEmptyLevel(View())
        invariant MP.Continues(before, order, trades, Resting(), incoming)
        invariant incoming == order.(remainingQty := incoming.remainingQty)
        invariant orderSlots.Keys <= old(orderSlots.Keys) && |arena.entries| == old(|arena.entries|)
        decreases |arrival|, incoming.remainingQty
      {
        var bestAskPrice := BestAsk();
        if bestAskPrice.None? {
          BV.CoreCovered(View(), Sell);
          BV.NobodyCrosses(arena.nodes, arrival, asks, incoming);
          break;
        }
        // If the best ask is beyond the limit, so is every other.
        if bestAskPrice.value > incoming.price {
          BV.CoreCovered(View(), Sell);
          BV.BeyondBest(asks, Sell, bestAskPrice.value, incoming);
          BV.NobodyCrosses(arena.nodes, arrival, asks, incoming);
          break;
        }
        BV.BestIsThere(asks, Sell, bestAskPrice.value);
        incoming, trades := MatchAtLevel(Sell, bestAskPrice.value, incoming, before, order, trades);
      }
      MP.Finished(before, order, trades, Resting(), incoming);
      RestRemainder(incoming);
    }

    /** `FB.Match` and `FB.Rest` of a sell order, level by level down the bid ladder. */
    method MatchSellOrder(order: Order) returns (trades: seq<Trade>)
      requires Core() && BV.NoEmptyLevel(View()) && order.side.Sell? && order.id !in orderSlots
      requires FB.Fits(FB.Rest(FB.Match(Resting(), order), order))
      modifies this`bids, this`asks, this`orderSlots, this`arrival, arena
      ensures Core() && BV.NoEmptyLevel(View())
      ensures trades == FB.Match(old(Resting()), order).trades
      ensures forall t :: t in trades ==> t.price >= order.price
      ensures Resting() == FB.Rest(FB.Match(old(Resting()), order), order)
      ensures |arena.entries| == Max(old(|arena.entries|), |Resting()|)
    {
      hide Slab, BV.Core, BV.NoEmptyLevel, BV.BestPrice, MP.Continues, FB.Match;
      ghost var before := Resting();
      var incoming := order;
      trades := [];
      MP.NothingYet(before, order);
      FBI.MatchWithinLimit(before, order);
      while !incoming.IsFilled()
        invariant Core() && BV.NoEmptyLevel(View())
        invariant MP.Continues(before, order, trades, Resting(), incoming)
        invariant incoming == order.(remainingQty := incoming.remainingQty)
        invariant orderSlots.Keys <= old(orderSlots.Keys) && |arena.entries| == old(|arena.entries|)
        decreases |arrival|, incoming.remainingQty
      {
        var bestBidPrice := BestBid();
        if bestBidPrice.None? {
          BV.CoreCovered(View(), Buy);
          BV.NobodyCrosses(arena.nodes, arrival, bids, incoming);
          break;
        }
        // If the best bid is beyond the limit, so is every other.
        if bestBidPrice.value < incoming.price {
          BV.CoreCovered(View(), Buy);
          BV.BeyondBest(bids, Buy, bestBidPrice.value, incoming);
          BV.NobodyCrosses(arena.nodes, arrival, bids, incoming);
          break;
        }
        BV.BestIsThere(bids, Buy, bestBidPrice.value);
        incoming, trades := MatchAtLevel(Buy, bestBidPrice.value, incoming, before, order, trades);
      }
      MP.Finished(before, order, trades, Resting(), incoming);
      RestRemainder(incoming);
    }

    /** An incoming order joins the back of the flat book, unless nothing is left of it. */
    method RestRemainder(incoming: Order)
      requires Core() && BV.NoEmptyLevel(View()) && incoming.id !in orderSlots
      requires !incoming.IsFilled() ==> FB.Fits(Resting() + [incoming])
      modifies this`bids, this`asks, this`orderSlots, this`arrival, arena
      ensures Core() && BV.NoEmptyLevel(View())
      ensures Resting() == old(Resting()) + if incoming.IsFilled() then [] else [incoming]
      ensures |arena.entries| == Max(old(|arena.entries|), |Resting()|)
    {
      hide BV.Core, BV.NoEmptyLevel;
      if incoming.IsFilled() {
        assert Resting() + [] == Resting();
      } else {
        hide Slab;
        BV.RestFits(Resting(), incoming);
        RestOrder(incoming);
      }
    }

    // ---- Recording events ----

    method RecordOrderAccepted(order: Order)
      modifies this`events
      ensures events == old(events) + FB.Observe(eventMode, [OrderAccepted(order)])
    {
      EventModes.ObserveOne(eventMode, OrderAccepted(order));
      if eventMode == Full {
        events := events + [OrderAccepted(order)];
      }
    }

    method RecordTradeExecuted(trade: Trade)
      modifies this`events
      ensures events == old(events) + FB.Observe(eventMode, [TradeExecuted(trade)])
    {
      EventModes.ObserveOne(eventMode, TradeExecuted(trade));
      match eventMode
      case Full => events := events + [TradeExecuted(trade)];
      case TradesOnly => events := events + [TradeExecuted(trade)];
      case Disabled =>
    }

    method RecordOrderCancelled(orderId: OrderId)
      modifies this`events
      ensures events == old(events) + FB.Observe(eventMode, [OrderCancelled(orderId)])
    {
      EventModes.ObserveOne(eventMode, OrderCancelled(orderId));
      if eventMode == Full {
        events := events + [OrderCancelled(orderId)];
      }
    }

    method RecordOrderModified(orderId: OrderId, newPrice: Price, newQuantity: Quantity)
      modifies this`events
      ensures events == old(events) + FB.Observe(eventMode, [OrderModified(orderId, newPrice, newQuantity)])
    {
      EventModes.ObserveOne(eventMode, OrderModified(orderId, newPrice, newQuantity));
      if eventMode == Full {
        events := events + [OrderModified(orderId, newPrice, newQuantity)];
      }
    }

    method RecordTrades(trades: seq<Trade>)
      modifies this`events
      ensures events == old(events) + FB.Observe(eventMode, FB.TradeEvents(trades))
    {
      for i := 0 to |trades|
        invariant events == old(events) + FB.Observe(eventMode, FB.TradeEvents(trades[..i]))
      {
        RecordTradeExecuted(trades[i]);
        EventModes.ObserveConcat(eventMode, FB.TradeEvents(trades[..i]), [TradeExecuted(trades[i])]);
        assert FB.TradeEvents(trades[..i + 1]) == FB.TradeEvents(trades[..i]) + [TradeExecuted(trades[i])];
      }
      assert trades[..|trades|] == trades;
    }

    // ---- Public operations ----

    /** Match a new or re-entering order and rest what is left of it. */
    method Submit(order: Order) returns (trades: seq<Trade>)
      requires Core() && BV.NoEmptyLevel(View()) && order.id !in orderSlots
      requires FB.Fits(FB.Rest(FB.Match(Resting(), order), order))
      modifies this`bids, this`asks, this`orderSlots, this`arrival, arena
      ensures Core() && BV.NoEmptyLevel(View())
      ensures trades == FB.Match(old(Resting()), order).trades
      ensures Resting() == FB.Rest(FB.Match(old(Resting()), order), order)
      ensures |arena.entries| == Max(old(|arena.entries|), |Resting()|)
    {
      match order.side
      case Buy => trades := MatchBuyOrder(order);
      case Sell => trades := MatchSellOrder(order);
    }

    /** What `FB.AddOrder` says, on the live book. */
    method AddOrder(order: Order) returns (result: Result<seq<Trade>, OrderBookError>)
      requires Valid() && FB.Fits(FB.AddOrder(Book(), order).book.resting)
      modifies this, arena
      ensures Valid()
      ensures var o := old(FB.AddOrder(Book(), order));
              Book() == o.book && result == o.result && events == old(events) + FB.Observe(eventMode, o.events)
      ensures result.Ok? ==> FB.WithinLimit(order.side, order.price, result.value)
      ensures |arena.entries| == Max(old(|arena.entries|), |Resting()|)
    {
      hide Slab, BV.Core, BV.NoEmptyLevel, FB.Match, FB.Wf, FB.Fits, FB.Observe, BV.Stored, FB.WithinLimit;
      FBI.StepKeepsWf(Book(), Add(order));
      if FB.Step(Book(), Add(order)).result.Ok? { FBI.StepWithinLimit(Book(), Add(order)); }
      NothingObserved();
      arena.LenFits();
      if order.remainingQty == 0 {
        return Err(ZeroQuantity);
      }
      if order.id in seenOrderIds {
        return Err(DuplicateOrderId);
      }
      UnseenNotIndexed(order.id);
      seenOrderIds := seenOrderIds + {order.id};
      RecordOrderAccepted(order);
      var trades := Submit(order);
      RecordTrades(trades);
      EventModes.ObserveConcat(eventMode, [OrderAccepted(order)], FB.TradeEvents(trades));
      return Ok(trades);
    }

    /** What `FB.CancelOrder` says, on the live book. */
    method CancelOrder(orderId: OrderId) returns (result: Result<(), OrderBookError>)
      requires Valid()
      modifies this, arena
      ensures Valid()
      ensures var o := old(FB.CancelOrder(Book(), orderId));
              && Book() == o.book && events == old(events) + FB.Observe(eventMode, o.events)
              && result == (if o.result.Ok? then Ok(()) else Err(o.result.error))
      ensures |arena.entries| == old(|arena.entries|) >= |Resting()|
    {
      hide Slab, BV.Core, BV.NoEmptyLevel, FB.Wf, FB.Observe, FB.Find, BV.Stored;
      FBI.StepKeepsWf(Book(), Cancel(orderId));
      NothingObserved();
      arena.LenFits();
      var removed := RemoveOrderById(orderId);
      if removed.None? {
        return Err(UnknownOrderId);
      }
      RecordOrderCancelled(orderId);
      arena.LenFits();
      return Ok(());
    }

    /** What `FB.ModifyOrder` says, on the live book. */
    method ModifyOrder(orderId: OrderId, newPrice: Price, newQuantity: Quantity)
      returns (result: Result<seq<Trade>, OrderBookError>)
      requires Valid() && FB.Fits(FB.ModifyOrder(Book(), orderId, newPrice, newQuantity).book.resting)
      modifies this, arena
      ensures Valid()
      ensures var o := old(FB.ModifyOrder(Book(), orderId, newPrice, newQuantity));
              Book() == o.book && result == o.result && events == old(events) + FB.Observe(eventMode, o.events)
      ensures result.Ok? ==> FB.WithinNewLimit(old(Resting()), orderId, newPrice, result.value)
      ensures |arena.entries| == Max(old(|arena.entries|), |Resting()|)
    {
      hide Slab, BV.Core, BV.NoEmptyLevel, FB.Match, FB.Wf, FB.Fits, FB.Observe, FB.Find, BV.Stored;
      hide FB.WithinNewLimit;
      FBI.StepKeepsWf(Book(), Modify(orderId, newPrice, newQuantity));
      if FB.Step(Book(), Modify(orderId, newPrice, newQuantity)).result.Ok? {
        FBI.StepWithinLimit(Book(), Modify(orderId, newPrice, newQuantity));
      }
      NothingObserved();
      arena.LenFits();
      if newQuantity == 0 {
        return Err(ZeroQuantity);
      }
      var oldOrder := RemoveOrderById(orderId);
      if oldOrder.None? {
        return Err(UnknownOrderId);
      }
      var updatedOrder := Order(oldOrder.value.id, oldOrder.value.side, newPrice, newQuantity);
      var trades := Submit(updatedOrder);
      RecordOrderModified(orderId, newPrice, newQuantity);
      RecordTrades(trades);
      EventModes.ObserveConcat(eventMode, [OrderModified(orderId, newPrice, newQuantity)], FB.TradeEvents(trades));
      return Ok(trades);
    }

    lemma NothingObserved()
      ensures FB.Observe(eventMode, []) == []
    {
    }

    /** Resting ids were all accepted, so an id never accepted is not in the index. */
    lemma UnseenNotIndexed(id: OrderId)
      requires Valid() && id !in seenOrderIds
      ensures id !in orderSlots
    {
      BV.IndexFinds(View(), id);
    }

    /** A live book never holds more than its counters can count. */
    lemma CurrentFits()
      requires Valid()
      ensures FB.Fits(Resting())
    {
      hide BV.Core;
      arena.LenFits();
      BV.CoreFits(View());
    }

    /** The top of book in terms of the resting orders, and that it is never crossed. */
    lemma TopOfBook()
      requires Valid()
      ensures BestBid().None? <==> forall o :: o in Resting() ==> o.side.Sell?
      ensures BestAsk().None? <==> forall o :: o in Resting() ==> o.side.Buy?
      ensures BestBid().Some? ==>
                && (exists o :: o in Resting() && o.side.Buy? && o.price == BestBid().value)
                && (forall o :: o in Resting() && o.side.Buy? ==> o.price <= BestBid().value)
      ensures BestAsk().Some? ==>
                && (exists o :: o in Resting() && o.side.Sell? && o.price == BestAsk().value)
                && (forall o :: o in Resting() && o.side.Sell? ==> o.price >= BestAsk().value)
      ensures BestBid().Some? && BestAsk().Some? ==> BestBid().value < BestAsk().value
    {
      hide BV.Core, Slab, BV.NoEmptyLevel;
      BV.OrdersHaveLevels(View(), Buy);
      BV.OrdersHaveLevels(View(), Sell);
      if BestBid().Some? {
        var bid := BV.SomeOrderAt(View(), Buy, BestBid().value);
      }
      if BestAsk().Some? {
        var ask := BV.SomeOrderAt(View(), Sell, BestAsk().value);
      }
    }

    /** The arena's counter, which is the length of the flat book. */
    function RestingOrderCount(): (count: nat)
      requires Valid()
      reads this, arena
      ensures count == |Resting()|
    {
      arena.len
    }

    // ---- Snapshots ----

    /** The orders of the queue `q`, read off the links from head to tail. */
    method LevelOrders(level: PriceLevel, ghost q: seq<Slot>) returns (orders: seq<Order>)
      requires arena.Valid() && Linked(arena.nodes, level.head, level.tail, q)
      ensures BV.Stored(arena.nodes, q) && orders == BV.Resting(arena.nodes, q)
    {
      hide Slab;
      orders := [];
      var cursor := level.head;
      ghost var k := 0;
      while cursor.Some?
        invariant 0 <= k <= |q| && cursor == At(q, k)
        invariant |orders| == k && forall i :: 0 <= i < k ==> orders[i] == arena.nodes[q[i]].order
        decreases |q| - k
      {
        var node := arena.Get(cursor.value);
        orders := orders + [node.order];
        cursor := node.next;
        k := k + 1;
      }
    }

    /** One side's levels from best price to worst: the ladder iterated in (for bids, reverse) key order. */
    method SideSnapshot(side: Side) returns (levels: SN.Levels)
      requires Valid()
      ensures SN.IsSide(levels, Resting(), side)
    {
      hide Slab, FB.Wf, BV.Core, BV.NoEmptyLevel, BV.Queue, BV.Stored, FB.LevelOrders, SN.Partial, SN.IsSide;
      levels := [];
      var todo := Ladder(side).Keys;
      SN.PartialStart(todo, Resting(), side);
      while todo != {}
        invariant SN.Partial(levels, Ladder(side).Keys, todo, Resting(), side) && todo <= Ladder(side).Keys
        decreases todo
      {
        var price := if side.Buy? then Highest(todo) else Lowest(todo);
        BV.LevelIsQueue(View(), side, price);
        var orders := LevelOrders(Ladder(side)[price], View().QueueOf(side, price));
        SN.PartialStep(levels, Ladder(side).Keys, todo, Resting(), side, price, orders);
        levels := levels + [(price, orders)];
        todo := todo - {price};
      }
      BV.OrdersHaveLevels(View(), side);
      SN.PartialDone(levels, Ladder(side).Keys, Resting(), side);
    }

    /** Both sides of the flat book by level, each from its best price. */
    method Snapshot() returns (snapshot: BookSnapshot)
      requires Valid()
      ensures SN.IsSnapshot(snapshot, Resting())
    {
      var bidLevels := SideSnapshot(Buy);
      var askLevels := SideSnapshot(Sell);
      snapshot := BookSnapshot(bidLevels, askLevels);
    }
  }
}
