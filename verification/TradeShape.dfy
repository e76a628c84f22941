/**
 What the trades of one incoming order look like as a whole: a walk down the crossing orders of the other
 side, sorted by price and then by arrival.
 */
module TradeShape {
  import opened Domain
  import opened FlatBook
  import opened FlatBookInvariants

  /** The orders the taker crosses, best first. */
  function Priority(resting: seq<Order>, taker: Order): seq<Order>
    decreases |resting|
  {
    match Best(resting, taker)
    case None => []
    case Some(i) => [resting[i]] + Priority(Without(resting, i), taker)
  }

  /** Walk down a queue until `quantity` is used up. */
  function Fill(queue: seq<Order>, takerId: OrderId, quantity: Quantity): seq<Trade> {
    if quantity == 0 || queue == [] then []
    else
      var q := Min(quantity, queue[0].remainingQty);
      [Trade(queue[0].id, takerId, queue[0].price, q)] + Fill(queue[1..], takerId, quantity - q)
  }

  /** What the walk leaves of the queue; an order only partly used up stays at the head. */
  function Leftover(queue: seq<Order>, quantity: Quantity): seq<Order> {
    if quantity == 0 || queue == [] then queue
    else if quantity < queue[0].remainingQty then
      [queue[0].(remainingQty := queue[0].remainingQty - quantity)] + queue[1..]
    else Leftover(queue[1..], quantity - queue[0].remainingQty)
  }

  /** The resting orders the taker does not cross, in order of arrival. */
  function Bystanders(resting: seq<Order>, taker: Order): seq<Order> {
    if resting == [] then []
    else
      var last := |resting| - 1;
      Bystanders(resting[..last], taker) + if Crosses(taker, resting[last]) then [] else [resting[last]]
  }

  /** `x` stands before `y`: at a better price, or at the same price and earlier. */
  ghost predicate Precedes(resting: seq<Order>, x: Order, y: Order) {
    exists i, j :: 0 <= i < |resting| && 0 <= j < |resting| && resting[i] == x && resting[j] == y
                   && ((if x.side.Buy? then x.price > y.price else x.price < y.price)
                       || (x.price == y.price && i < j))
  }

  // ---- Priority is the price-then-arrival order of exactly the crossing orders ----

  lemma {:induction false} PriorityMembers(resting: seq<Order>, taker: Order)
    ensures forall o :: o in Priority(resting, taker) <==> o in resting && Crosses(taker, o)
    decreases |resting|
  {
    var b := Best(resting, taker);
    if b.Some? {
      PriorityMembers(Without(resting, b.value), taker);
      WithoutMembers(resting, b.value);
      assert forall o :: o in resting ==> o == resting[b.value] || o in Without(resting, b.value);
    }
  }

  lemma BestPrecedes(resting: seq<Order>, taker: Order, i: nat, y: Order)
    requires IsBest(resting, taker, i) && y in Without(resting, i) && Crosses(taker, y)
    ensures Precedes(resting, resting[i], y)
  {
    var r := Without(resting, i);
    var k :| 0 <= k < |r| && r[k] == y;
    var j := if k < i then k else k + 1;
    assert resting[j] == y;
  }

  lemma PrecedesWithout(resting: seq<Order>, i: nat, x: Order, y: Order)
    requires i < |resting| && Precedes(Without(resting, i), x, y)
    ensures Precedes(resting, x, y)
  {
    var r := Without(resting, i);
    var a, b :| 0 <= a < |r| && 0 <= b < |r| && r[a] == x && r[b] == y
                && (Better(x.side, x.price, y.price) || (x.price == y.price && a < b));
    var a', b' := if a < i then a else a + 1, if b < i then b else b + 1;
    assert resting[a'] == x && resting[b'] == y;
  }

  lemma {:induction false} PrioritySorted(resting: seq<Order>, taker: Order, m: nat, n: nat)
    requires m < n < |Priority(resting, taker)|
    ensures Precedes(resting, Priority(resting, taker)[m], Priority(resting, taker)[n])
    decreases |resting|
  {
    hide Precedes, Best, IsBest, Without, Crosses;
    var i := Best(resting, taker).value;
    var rest := Priority(Without(resting, i), taker);
    assert Priority(resting, taker)[n] == rest[n - 1];
    if m == 0 {
      PriorityMembers(Without(resting, i), taker);
      assert rest[n - 1] in rest;
      BestPrecedes(resting, taker, i, rest[n - 1]);
    } else {
      assert Priority(resting, taker)[m] == rest[m - 1];
      PrioritySorted(Without(resting, i), taker, m - 1, n - 1);
      PrecedesWithout(resting, i, rest[m - 1], rest[n - 1]);
    }
  }

  lemma {:induction false} PriorityDistinct(resting: seq<Order>, taker: Order)
    requires DistinctIds(resting)
    ensures DistinctIds(Priority(resting, taker))
    decreases |resting|
  {
    var b := Best(resting, taker);
    if b.Some? {
      WithoutIds(resting, b.value);
      PriorityDistinct(Without(resting, b.value), taker);
      PriorityMembers(Without(resting, b.value), taker);
      var rest := Priority(Without(resting, b.value), taker);
      assert forall k :: 0 <= k < |rest| ==> rest[k] in rest;
    }
  }

  // ---- Quantities do not matter to who stands where ----

  lemma {:induction false} BestIgnoresQuantity(resting: seq<Order>, taker: Order, taker': Order)
    requires taker'.side == taker.side && taker'.price == taker.price
    ensures Best(resting, taker') == Best(resting, taker)
  {
    if resting != [] {
      BestIgnoresQuantity(resting[..|resting| - 1], taker, taker');
    }
  }

  lemma {:induction false} PriorityIgnoresQuantity(resting: seq<Order>, taker: Order, taker': Order)
    requires taker'.side == taker.side && taker'.price == taker.price
    ensures Priority(resting, taker') == Priority(resting, taker)
    decreases |resting|
  {
    BestIgnoresQuantity(resting, taker, taker');
    if Best(resting, taker).Some? {
      PriorityIgnoresQuantity(Without(resting, Best(resting, taker).value), taker, taker');
    }
  }

  lemma {:induction false} BestAfterUpdate(resting: seq<Order>, taker: Order, i: nat, order: Order)
    requires i < |resting| && order.side == resting[i].side && order.price == resting[i].price
    ensures Best(resting[i := order], taker) == Best(resting, taker)
  {
    var last := |resting| - 1;
    if i < last {
      BestAfterUpdate(resting[..last], taker, i, order);
      assert resting[i := order][..last] == resting[..last][i := order];
    } else {
      assert resting[i := order][..last] == resting[..last];
    }
  }

  // ---- Matching is the walk ----

  /** The trades of a match are the walk down the priority queue, and what is left of that queue is what rests. */
  lemma {:induction false} MatchIsFill(resting: seq<Order>, taker: Order)
    ensures Match(resting, taker).trades == Fill(Priority(resting, taker), taker.id, taker.remainingQty)
    ensures Priority(Match(resting, taker).resting, taker) == Leftover(Priority(resting, taker), taker.remainingQty)
    decreases |resting|, taker.remainingQty
  {
    if !taker.IsFilled() && Best(resting, taker).Some? {
      hide Match, Fill, Leftover, Priority, Best;
      var i := Best(resting, taker).value;
      if taker.remainingQty < resting[i].remainingQty {
        PartialFill(resting, taker, i);
      } else {
        var left := taker.(remainingQty := taker.remainingQty - resting[i].remainingQty);
        FullFill(resting, taker, i);
        MatchIsFill(Without(resting, i), left);
        PriorityIgnoresQuantity(Match(Without(resting, i), left).resting, taker, left);
      }
    }
  }

  /** One step of the match, and one step of the walk, past a maker that is used up. */
  lemma FullFill(resting: seq<Order>, taker: Order, i: nat)
    requires !taker.IsFilled() && Best(resting, taker) == Some(i) && resting[i].remainingQty <= taker.remainingQty
    ensures var left := taker.(remainingQty := taker.remainingQty - resting[i].remainingQty);
            var m, rest := Match(resting, taker), Match(Without(resting, i), left);
            var queue, tail := Priority(resting, taker), Priority(Without(resting, i), left);
            var t := Trade(resting[i].id, taker.id, resting[i].price, resting[i].remainingQty);
            && m.resting == rest.resting && m.trades == [t] + rest.trades
            && Fill(queue, taker.id, taker.remainingQty) == [t] + Fill(tail, taker.id, left.remainingQty)
            && Leftover(queue, taker.remainingQty) == Leftover(tail, left.remainingQty)
  {
    hide IsBest, Fill, Leftover;
    var left := taker.(remainingQty := taker.remainingQty - resting[i].remainingQty);
    assert Min(taker.remainingQty, resting[i].remainingQty) == resting[i].remainingQty;
    WalkPastHead(resting[i], Priority(Without(resting, i), taker), taker.id, taker.remainingQty);
    PriorityIgnoresQuantity(Without(resting, i), taker, left);
  }

  lemma WalkPastHead(head: Order, tail: seq<Order>, takerId: OrderId, quantity: Quantity)
    requires quantity > 0 && head.remainingQty <= quantity
    ensures Fill([head] + tail, takerId, quantity)
            == [Trade(head.id, takerId, head.price, head.remainingQty)]
               + Fill(tail, takerId, quantity - head.remainingQty)
    ensures Leftover([head] + tail, quantity) == Leftover(tail, quantity - head.remainingQty)
  {
    assert ([head] + tail)[1..] == tail;
  }

  lemma WalkWithinHead(head: Order, tail: seq<Order>, takerId: OrderId, quantity: Quantity)
    requires 0 < quantity < head.remainingQty
    ensures Fill([head] + tail, takerId, quantity) == [Trade(head.id, takerId, head.price, quantity)]
    ensures Leftover([head] + tail, quantity) == [head.(remainingQty := head.remainingQty - quantity)] + tail
  {
    assert ([head] + tail)[1..] == tail;
  }

  /** A maker that is only partly used up stays where it is, at the head of the queue. */
  lemma PartialFill(resting: seq<Order>, taker: Order, i: nat)
    requires Best(resting, taker) == Some(i) && 0 < taker.remainingQty < resting[i].remainingQty
    ensures Match(resting, taker).trades == [Trade(resting[i].id, taker.id, resting[i].price, taker.remainingQty)]
    ensures Priority(Match(resting, taker).resting, taker) == Leftover(Priority(resting, taker), taker.remainingQty)
    ensures Fill(Priority(resting, taker), taker.id, taker.remainingQty) == Match(resting, taker).trades
  {
    hide IsBest, Fill, Leftover;
    var reduced := resting[i].(remainingQty := resting[i].remainingQty - taker.remainingQty);
    BestAfterUpdate(resting, taker, i, reduced);
    assert Without(resting[i := reduced], i) == Without(resting, i);
    assert Match(resting, taker).resting == resting[i := reduced];
    WalkWithinHead(resting[i], Priority(Without(resting, i), taker), taker.id, taker.remainingQty);
  }

  lemma {:induction false} BystandersWithout(resting: seq<Order>, taker: Order, i: nat)
    requires i < |resting| && Crosses(taker, resting[i])
    ensures Bystanders(Without(resting, i), taker) == Bystanders(resting, taker)
  {
    var last := |resting| - 1;
    if i < last {
      BystandersWithout(resting[..last], taker, i);
      assert Without(resting, i)[..last - 1] == Without(resting[..last], i);
    } else {
      assert Without(resting, i) == resting[..last];
    }
  }

  lemma {:induction false} BystandersUpdate(resting: seq<Order>, taker: Order, i: nat, order: Order)
    requires i < |resting| && Crosses(taker, resting[i]) && Crosses(taker, order)
    ensures Bystanders(resting[i := order], taker) == Bystanders(resting, taker)
  {
    var last := |resting| - 1;
    if i < last {
      BystandersUpdate(resting[..last], taker, i, order);
      assert resting[i := order][..last] == resting[..last][i := order];
    } else {
      assert resting[i := order][..last] == resting[..last];
    }
  }

  lemma {:induction false} BystandersIgnoreQuantity(resting: seq<Order>, taker: Order, taker': Order)
    requires taker'.side == taker.side && taker'.price == taker.price
    ensures Bystanders(resting, taker') == Bystanders(resting, taker)
  {
    if resting != [] {
      BystandersIgnoreQuantity(resting[..|resting| - 1], taker, taker');
    }
  }

  /** Nobody else is touched: the orders the taker does not cross stay as they were, in the same order. */
  lemma {:induction false} MatchLeavesBystanders(resting: seq<Order>, taker: Order)
    ensures Bystanders(Match(resting, taker).resting, taker) == Bystanders(resting, taker)
    decreases |resting|, taker.remainingQty
  {
    if !taker.IsFilled() && Best(resting, taker).Some? {
      var i := Best(resting, taker).value;
      var q := Min(taker.remainingQty, resting[i].remainingQty);
      var left := taker.(remainingQty := taker.remainingQty - q);
      TakeSmaller(resting, taker, i);
      MatchLeavesBystanders(Take(resting, i, q), left);
      BystandersIgnoreQuantity(Take(resting, i, q), taker, left);
      BystandersIgnoreQuantity(Match(resting, taker).resting, taker, left);
      if q == resting[i].remainingQty {
        BystandersWithout(resting, taker, i);
      } else {
        BystandersUpdate(resting, taker, i, resting[i].(remainingQty := resting[i].remainingQty - q));
      }
    }
  }

  // ---- The trades one by one ----

  /** Trade `k` is with the `k`-th order of the queue, at its price; only the last may leave some of its maker. */
  ghost predicate WalksDown(trades: seq<Trade>, queue: seq<Order>, takerId: OrderId) {
    && |trades| <= |queue|
    && (forall k :: 0 <= k < |trades| ==>
          && trades[k].makerOrderId == queue[k].id
          && trades[k].takerOrderId == takerId
          && trades[k].price == queue[k].price
          && 0 < trades[k].quantity <= queue[k].remainingQty
          && (k < |trades| - 1 ==> trades[k].quantity == queue[k].remainingQty))
  }

  lemma {:induction false} FillWalksDown(queue: seq<Order>, takerId: OrderId, quantity: Quantity)
    requires Positive(queue)
    ensures WalksDown(Fill(queue, takerId, quantity), queue, takerId)
  {
    if quantity > 0 && queue != [] {
      var q := Min(quantity, queue[0].remainingQty);
      var rest := Fill(queue[1..], takerId, quantity - q);
      assert queue[0] in queue;
      FillWalksDown(queue[1..], takerId, quantity - q);
      var trades := Fill(queue, takerId, quantity);
      assert trades == [Trade(queue[0].id, takerId, queue[0].price, q)] + rest;
      forall k | 0 < k < |trades|
        ensures trades[k] == rest[k - 1] && queue[k] == queue[1..][k - 1]
      {
      }
    }
  }

  /**
   The trades of one incoming order have positive quantities and name exactly a prefix of the crossing orders
   in price-then-arrival order, each of the other side, at the maker's own price and within the taker's limit; prices
   never improve along the way, and every maker but perhaps the last is filled completely.
   */
  lemma TradesWalkPriority(resting: seq<Order>, taker: Order)
    requires Sound(resting)
    ensures var trades, queue := Match(resting, taker).trades, Priority(resting, taker);
            && WalksDown(trades, queue, taker.id)
            && (forall k :: 0 <= k < |trades| ==> queue[k] in resting && queue[k].side != taker.side)
            && WithinLimit(taker.side, taker.price, trades)
            && (forall m, n :: 0 <= m < n < |trades| ==> Precedes(resting, queue[m], queue[n]))
  {
    hide Precedes, Sound;
    var trades, queue := Match(resting, taker).trades, Priority(resting, taker);
    MatchIsFill(resting, taker);
    PriorityMembers(resting, taker);
    SoundPositive(resting, queue);
    FillWalksDown(queue, taker.id, taker.remainingQty);
    forall k | 0 <= k < |trades|
      ensures queue[k].side != taker.side && queue[k] in resting
    {
      assert queue[k] in queue;
    }
    MatchWithinLimit(resting, taker);
    forall m, n | 0 <= m < n < |trades|
      ensures Precedes(resting, queue[m], queue[n])
    {
      PrioritySorted(resting, taker, m, n);
    }
  }

  /** `x` is a better price than `y` to trade with for an order of `side`. */
  predicate Preferred(side: Side, x: Price, y: Price) {
    if side.Buy? then x < y else x > y
  }

  /**
   Nobody is passed over: whenever an order trades with `resting[b]`, everybody of the other side at a better price,
   or at the same price and there earlier, has by then been filled completely.
   */
  lemma NobodyPassedOver(resting: seq<Order>, taker: Order, k: nat, a: nat, b: nat)
    requires Sound(resting) && a < |resting| && b < |resting| && k < |Match(resting, taker).trades|
    requires Match(resting, taker).trades[k].makerOrderId == resting[b].id && resting[a].side != taker.side
    requires Preferred(taker.side, resting[a].price, resting[b].price)
             || (resting[a].price == resting[b].price && a < b)
    ensures exists j :: 0 <= j < k && Match(resting, taker).trades[j]
                                      == Trade(resting[a].id, taker.id, resting[a].price, resting[a].remainingQty)
  {
    hide Match, Priority, Precedes, Sound;
    var trades, queue := Match(resting, taker).trades, Priority(resting, taker);
    TradesWalkPriority(resting, taker);
    SoundDistinct(resting);
    SameById(resting, queue[k], b);
    assert trades[k] in trades;
    var j := QueuePlace(resting, taker, a);
    if j > k {
      PrioritySorted(resting, taker, k, j);
      NotBehind(resting, a, b);
    }
    assert trades[j] == Trade(resting[a].id, taker.id, resting[a].price, resting[a].remainingQty);
  }

  lemma SoundDistinct(resting: seq<Order>)
    requires Sound(resting)
    ensures DistinctIds(resting)
  {
  }

  /** Everybody of the other side within the limit stands in the queue. */
  lemma QueuePlace(resting: seq<Order>, taker: Order, a: nat) returns (j: nat)
    requires a < |resting| && resting[a].side != taker.side
    requires if taker.side.Buy? then resting[a].price <= taker.price else resting[a].price >= taker.price
    ensures j < |Priority(resting, taker)| && Priority(resting, taker)[j] == resting[a]
  {
    hide Priority;
    PriorityMembers(resting, taker);
    assert resting[a] in resting && Crosses(taker, resting[a]);
    j :| 0 <= j < |Priority(resting, taker)| && Priority(resting, taker)[j] == resting[a];
  }

  lemma SameById(resting: seq<Order>, o: Order, b: nat)
    requires DistinctIds(resting) && o in resting && b < |resting| && o.id == resting[b].id
    ensures o == resting[b]
  {
  }

  /** Positions tell which of two orders stands before the other. */
  lemma NotBehind(resting: seq<Order>, a: nat, b: nat)
    requires DistinctIds(resting) && a < |resting| && b < |resting| && Precedes(resting, resting[b], resting[a])
    ensures (if resting[b].side.Buy? then resting[b].price > resting[a].price else resting[b].price < resting[a].price)
            || (resting[b].price == resting[a].price && b < a)
  {
  }

  lemma SoundPositive(resting: seq<Order>, queue: seq<Order>)
    requires Sound(resting) && forall o :: o in queue ==> o in resting
    ensures Positive(queue)
  {
  }
}
