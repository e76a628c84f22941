/** Greedy price-time matching is optimal: no other way of filling the same quantity is cheaper. */
module BestExecution {
  import opened Domain
  import opened FlatBook
  import opened FlatBookInvariants
  import C = Conservation

  /** How much to take from each resting order. */
  type Allocation = Order -> nat

  function Sum(orders: seq<Order>, f: Order -> int): int {
    if orders == [] then 0 else Sum(orders[..|orders| - 1], f) + f(orders[|orders| - 1])
  }

  /** Quantity an allocation takes from the orders of one side. */
  function AllocatedQuantity(resting: seq<Order>, side: Side, alloc: Allocation): int {
    Sum(resting, QuantityOf(side, alloc))
  }

  function QuantityOf(side: Side, alloc: Allocation): Order -> int {
    (o: Order) => if o.side == side then alloc(o) else 0
  }

  /** Price times quantity of an allocation over the orders of one side. */
  function AllocatedValue(resting: seq<Order>, side: Side, alloc: Allocation): int {
    Sum(resting, ValueOf(side, alloc, 1))
  }

  function ValueOf(side: Side, alloc: Allocation, sign: int): Order -> int {
    (o: Order) => if o.side == side then alloc(o) * (sign * o.price) else 0
  }

  /** Price times quantity of some trades. */
  function TradedValue(trades: seq<Trade>, sign: int): int {
    if trades == [] then 0
    else trades[0].quantity * (sign * trades[0].price) + TradedValue(trades[1..], sign)
  }

  /** No order gives more than it has. */
  ghost predicate Feasible(resting: seq<Order>, side: Side, alloc: Allocation) {
    forall o :: o in resting && o.side == side ==> alloc(o) <= o.remainingQty
  }

  /** All quantity on the other side that is priced within the taker's limit. */
  function WithinQuantity(resting: seq<Order>, taker: Order): int {
    Sum(resting, WithinOf(taker))
  }

  function WithinOf(taker: Order): Order -> int {
    (o: Order) =>
      if o.side != taker.side && (if taker.side.Buy? then o.price <= taker.price else o.price >= taker.price)
      then o.remainingQty else 0
  }

  /** A buyer pays, a seller earns: what the taker wants small is the signed price. */
  function Sign(taker: Order): int {
    if taker.side.Buy? then 1 else -1
  }

  // ---- Sums ----

  lemma {:induction false} SumWithout(orders: seq<Order>, i: nat, f: Order -> int)
    requires i < |orders|
    ensures Sum(orders, f) == Sum(Without(orders, i), f) + f(orders[i])
  {
    var last := |orders| - 1;
    if i < last {
      SumWithout(orders[..last], i, f);
      assert Without(orders, i)[..last - 1] == Without(orders[..last], i);
      assert Without(orders, i)[last - 1] == orders[last];
    } else {
      assert Without(orders, i) == orders[..last];
    }
  }

  lemma {:induction false} SumUpdate(orders: seq<Order>, i: nat, order: Order, f: Order -> int)
    requires i < |orders|
    ensures Sum(orders[i := order], f) == Sum(orders, f) - f(orders[i]) + f(order)
  {
    var last := |orders| - 1;
    if i < last {
      SumUpdate(orders[..last], i, order, f);
      assert orders[i := order][..last] == orders[..last][i := order];
    } else {
      assert orders[i := order][..last] == orders[..last];
    }
  }

  lemma {:induction false} SumZero(orders: seq<Order>, f: Order -> int)
    requires forall o :: o in orders ==> f(o) == 0
    ensures Sum(orders, f) == 0
  {
    if orders != [] {
      SumZero(orders[..|orders| - 1], f);
      assert orders[|orders| - 1] in orders;
    }
  }

  // ---- How much is filled ----

  lemma CrossingTake(resting: seq<Order>, taker: Order, i: nat, q: Quantity)
    requires i < |resting| && Crosses(taker, resting[i]) && q <= resting[i].remainingQty
    ensures WithinQuantity(Take(resting, i, q), taker) == WithinQuantity(resting, taker) - q
  {
    if q == resting[i].remainingQty {
      SumWithout(resting, i, WithinOf(taker));
    } else {
      SumUpdate(resting, i, resting[i].(remainingQty := resting[i].remainingQty - q), WithinOf(taker));
    }
  }

  lemma {:induction false} CrossingNonNegative(resting: seq<Order>, taker: Order)
    ensures WithinQuantity(resting, taker) >= 0
  {
    if resting != [] {
      CrossingNonNegative(resting[..|resting| - 1], taker);
    }
  }

  lemma {:induction false} CrossingIgnoresQuantity(resting: seq<Order>, taker: Order, taker': Order)
    requires taker'.side == taker.side && taker'.price == taker.price
    ensures WithinQuantity(resting, taker') == WithinQuantity(resting, taker)
  {
    if resting != [] {
      CrossingIgnoresQuantity(resting[..|resting| - 1], taker, taker');
    }
  }

  /** The filled quantity is the smaller of the order's size and everything resting within its limit. */
  lemma {:induction false} FilledQuantity(resting: seq<Order>, taker: Order)
    ensures C.TradedQuantity(Match(resting, taker).trades)
            == if taker.remainingQty <= WithinQuantity(resting, taker) then taker.remainingQty
               else WithinQuantity(resting, taker)
    decreases |resting|, taker.remainingQty
  {
    hide Take, WithinQuantity, IsBest;
    CrossingNonNegative(resting, taker);
    if !taker.IsFilled() {
      var b := Best(resting, taker);
      if b.None? {
        NoneCrossing(resting, taker);
      } else {
        var q := Min(taker.remainingQty, resting[b.value].remainingQty);
        var left := taker.(remainingQty := taker.remainingQty - q);
        var rest := Match(Take(resting, b.value, q), left);
        BestCrosses(resting, taker);
        CrossingTake(resting, taker, b.value, q);
        CrossingIgnoresQuantity(Take(resting, b.value, q), taker, left);
        TakeSmaller(resting, taker, b.value);
        FilledQuantity(Take(resting, b.value, q), left);
        assert Match(resting, taker).trades[1..] == rest.trades;
      }
    }
  }

  lemma NoneCrossing(resting: seq<Order>, taker: Order)
    requires Best(resting, taker).None?
    ensures WithinQuantity(resting, taker) == 0
  {
    SumZero(resting, WithinOf(taker));
  }

  lemma BestCrosses(resting: seq<Order>, taker: Order)
    requires Best(resting, taker).Some?
    ensures Crosses(taker, resting[Best(resting, taker).value])
  {
  }

  // ---- What it costs ----

  /** Every order of `side` has a signed price of at least `p`. */
  ghost predicate AtLeast(resting: seq<Order>, side: Side, sign: int, p: int) {
    forall o :: o in resting && o.side == side ==> sign * o.price >= p
  }

  /** The best crossing order is the cheapest of its whole side, not only of the crossing part. */
  lemma BestIsCheapest(resting: seq<Order>, taker: Order, i: nat)
    requires IsBest(resting, taker, i)
    ensures AtLeast(resting, taker.side.Opposite(), Sign(taker), Sign(taker) * resting[i].price)
  {
    forall j | 0 <= j < |resting| && resting[j].side == taker.side.Opposite()
      ensures Sign(taker) * resting[j].price >= Sign(taker) * resting[i].price
    {
      if Crosses(taker, resting[j]) {
      } else {
      }
    }
  }

  lemma {:induction false} CostAtLeast(resting: seq<Order>, side: Side, alloc: Allocation, sign: int, p: int)
    requires AtLeast(resting, side, sign, p)
    ensures Sum(resting, ValueOf(side, alloc, sign)) >= p * AllocatedQuantity(resting, side, alloc)
  {
    if resting != [] {
      var last := |resting| - 1;
      CostAtLeast(resting[..last], side, alloc, sign, p);
      var o := resting[last];
      assert o in resting;
      if o.side == side {
        MulMonotone(alloc(o), p, sign * o.price);
        Distribute(p, AllocatedQuantity(resting[..last], side, alloc), alloc(o));
      }
    }
  }

  lemma MulMonotone(n: nat, a: int, b: int)
    requires a <= b
    ensures n * a <= n * b
  {
  }

  lemma Distribute(p: int, a: int, b: int)
    ensures p * (a + b) == p * a + b * p
  {
  }

  /** The arithmetic of exchanging `d` units bought elsewhere against the maker at `p0`. */
  lemma Exchange(g: nat, a: nat, d: nat, p: int, p0: int, rest: int, alloc: int)
    requires a <= g + d && p <= p0
    requires rest + (d + g - a) * p0 <= alloc
    ensures g * p0 + rest + d * p <= a * p0 + alloc
  {
    MulMonotone(d, p, p0);
    assert (d + g - a) * p0 == d * p0 + g * p0 - a * p0;
  }

  /**
   The exchange argument. Whatever an allocation takes beyond what the match fills, at a signed price of
   `p` or more, the match is still no dearer.
   */
  lemma {:induction false} GreedyIsCheapest(resting: seq<Order>, taker: Order, alloc: Allocation, p: int, d: nat)
    requires var side := taker.side.Opposite();
             Feasible(resting, side, alloc) && AtLeast(resting, side, Sign(taker), p)
             && AllocatedQuantity(resting, side, alloc) == C.TradedQuantity(Match(resting, taker).trades) + d
    ensures TradedValue(Match(resting, taker).trades, Sign(taker)) + d * p
            <= Sum(resting, ValueOf(taker.side.Opposite(), alloc, Sign(taker)))
    decreases |resting|
  {
    hide Feasible, AtLeast, IsBest, AllocatedQuantity, Sum, Sign;
    if taker.IsFilled() || Best(resting, taker).None? {
      CostAtLeast(resting, taker.side.Opposite(), alloc, Sign(taker), p);
      assert d * p == p * d;
    } else {
      var i := Best(resting, taker).value;
      if taker.remainingQty < resting[i].remainingQty {
        GreedyWithin(resting, taker, alloc, p, d, i);
      } else {
        var left := taker.(remainingQty := taker.remainingQty - resting[i].remainingQty);
        var d' := GreedyPast(resting, taker, alloc, p, d, i, left);
        GreedyIsCheapest(Without(resting, i), left, alloc, Sign(taker) * resting[i].price, d');
        var rest := Match(Without(resting, i), left);
        Exchange(resting[i].remainingQty, alloc(resting[i]), d, p, Sign(taker) * resting[i].price,
                 TradedValue(rest.trades, Sign(taker)),
                 Sum(Without(resting, i), ValueOf(taker.side.Opposite(), alloc, Sign(taker))));
      }
    }
  }

  /** The taker is filled within the best maker: one trade, and everything else costs at least as much. */
  lemma GreedyWithin(resting: seq<Order>, taker: Order, alloc: Allocation, p: int, d: nat, i: nat)
    requires Best(resting, taker) == Some(i) && 0 < taker.remainingQty < resting[i].remainingQty
    requires AtLeast(resting, taker.side.Opposite(), Sign(taker), p)
    requires AllocatedQuantity(resting, taker.side.Opposite(), alloc)
             == C.TradedQuantity(Match(resting, taker).trades) + d
    ensures TradedValue(Match(resting, taker).trades, Sign(taker)) + d * p
            <= Sum(resting, ValueOf(taker.side.Opposite(), alloc, Sign(taker)))
  {
    hide AtLeast, IsBest, AllocatedQuantity, Sum, Take, Sign;
    var q, p0 := taker.remainingQty, Sign(taker) * resting[i].price;
    var t := Trade(resting[i].id, taker.id, resting[i].price, q);
    assert Match(resting, taker).trades == [t];
    OneTrade(t, Sign(taker));
    Cheapest(resting, taker, i, p);
    CostAtLeast(resting, taker.side.Opposite(), alloc, Sign(taker), p0);
    MulMonotone(d, p, p0);
    Distribute(p0, q, d);
  }

  lemma OneTrade(t: Trade, sign: int)
    ensures C.TradedQuantity([t]) == t.quantity && TradedValue([t], sign) == t.quantity * (sign * t.price)
  {
    assert [t][1..] == [];
  }

  lemma TradeFirst(t: Trade, trades: seq<Trade>, sign: int)
    ensures C.TradedQuantity([t] + trades) == t.quantity + C.TradedQuantity(trades)
    ensures TradedValue([t] + trades, sign) == t.quantity * (sign * t.price) + TradedValue(trades, sign)
  {
    assert ([t] + trades)[1..] == trades;
  }

  lemma MatchPast(resting: seq<Order>, taker: Order, i: nat, left: Order)
    requires Best(resting, taker) == Some(i) && !taker.IsFilled() && resting[i].remainingQty <= taker.remainingQty
    requires left == taker.(remainingQty := taker.remainingQty - resting[i].remainingQty)
    ensures Match(resting, taker).trades
            == [Trade(resting[i].id, taker.id, resting[i].price, resting[i].remainingQty)]
               + Match(Without(resting, i), left).trades
  {
    hide IsBest;
    assert Min(taker.remainingQty, resting[i].remainingQty) == resting[i].remainingQty;
  }

  /** The best maker is used up: without it, the allocation is over by `d'`, at the maker's price or worse. */
  lemma GreedyPast(resting: seq<Order>, taker: Order, alloc: Allocation, p: int, d: nat, i: nat, left: Order)
    returns (d': nat)
    requires Best(resting, taker) == Some(i) && !taker.IsFilled() && resting[i].remainingQty <= taker.remainingQty
    requires left == taker.(remainingQty := taker.remainingQty - resting[i].remainingQty)
    requires Feasible(resting, taker.side.Opposite(), alloc)
    requires AtLeast(resting, taker.side.Opposite(), Sign(taker), p)
    requires AllocatedQuantity(resting, taker.side.Opposite(), alloc)
             == C.TradedQuantity(Match(resting, taker).trades) + d
    ensures d' == d + resting[i].remainingQty - alloc(resting[i])
    ensures p <= Sign(taker) * resting[i].price && Sign(left) == Sign(taker)
    ensures Feasible(Without(resting, i), taker.side.Opposite(), alloc)
    ensures AtLeast(Without(resting, i), taker.side.Opposite(), Sign(taker), Sign(taker) * resting[i].price)
    ensures var m, rest := Match(resting, taker), Match(Without(resting, i), left);
            && AllocatedQuantity(Without(resting, i), taker.side.Opposite(), alloc)
               == C.TradedQuantity(rest.trades) + d'
            && TradedValue(m.trades, Sign(taker))
               == resting[i].remainingQty * (Sign(taker) * resting[i].price) + TradedValue(rest.trades, Sign(taker))
    ensures Sum(resting, ValueOf(taker.side.Opposite(), alloc, Sign(taker)))
            == Sum(Without(resting, i), ValueOf(taker.side.Opposite(), alloc, Sign(taker)))
               + alloc(resting[i]) * (Sign(taker) * resting[i].price)
  {
    MatchPast(resting, taker, i, left);
    assert Sign(left) == Sign(taker);
    hide Feasible, AtLeast, IsBest, AllocatedQuantity, Sum, Match, Sign, TradedValue, C.TradedQuantity;
    var maker := resting[i];
    Cheapest(resting, taker, i, p);
    GreedyStep(resting, taker, alloc, i, Sign(taker) * maker.price);
    var t := Trade(maker.id, taker.id, maker.price, maker.remainingQty);
    TradeFirst(t, Match(Without(resting, i), left).trades, Sign(taker));
    d' := d + maker.remainingQty - alloc(maker);
  }

  lemma Cheapest(resting: seq<Order>, taker: Order, i: nat, p: int)
    requires Best(resting, taker) == Some(i)
    requires AtLeast(resting, taker.side.Opposite(), Sign(taker), p)
    ensures AtLeast(resting, taker.side.Opposite(), Sign(taker), Sign(taker) * resting[i].price)
    ensures p <= Sign(taker) * resting[i].price
    ensures resting[i].side == taker.side.Opposite()
  {
    BestIsCheapest(resting, taker, i);
    assert resting[i] in resting;
  }

  /** Taking the maker out of the book takes its share out of the allocation. */
  lemma GreedyStep(resting: seq<Order>, taker: Order, alloc: Allocation, i: nat, p0: int)
    requires i < |resting| && resting[i].side == taker.side.Opposite()
    requires Feasible(resting, taker.side.Opposite(), alloc)
    requires AtLeast(resting, taker.side.Opposite(), Sign(taker), p0)
    ensures Feasible(Without(resting, i), taker.side.Opposite(), alloc)
    ensures AtLeast(Without(resting, i), taker.side.Opposite(), Sign(taker), p0)
    ensures alloc(resting[i]) <= resting[i].remainingQty
    ensures AllocatedQuantity(resting, taker.side.Opposite(), alloc)
            == AllocatedQuantity(Without(resting, i), taker.side.Opposite(), alloc) + alloc(resting[i])
    ensures Sum(resting, ValueOf(taker.side.Opposite(), alloc, Sign(taker)))
            == Sum(Without(resting, i), ValueOf(taker.side.Opposite(), alloc, Sign(taker)))
               + alloc(resting[i]) * (Sign(taker) * resting[i].price)
  {
    var side := taker.side.Opposite();
    WithoutMembers(resting, i);
    assert resting[i] in resting;
    SumWithout(resting, i, QuantityOf(side, alloc));
    SumWithout(resting, i, ValueOf(side, alloc, Sign(taker)));
  }

  lemma {:induction false} SignedValue(resting: seq<Order>, side: Side, alloc: Allocation)
    ensures Sum(resting, ValueOf(side, alloc, -1)) == -AllocatedValue(resting, side, alloc)
  {
    if resting != [] {
      var o := resting[|resting| - 1];
      SignedValue(resting[..|resting| - 1], side, alloc);
      assert alloc(o) * (-1 * o.price) == -(alloc(o) * (1 * o.price));
    }
  }

  lemma {:induction false} SignedTrades(trades: seq<Trade>)
    ensures TradedValue(trades, -1) == -TradedValue(trades, 1)
  {
    if trades != [] {
      SignedTrades(trades[1..]);
      assert trades[0].quantity * (-1 * trades[0].price) == -(trades[0].quantity * (1 * trades[0].price));
    }
  }

  /** A buy pays no more than any other way of buying the same quantity from the resting asks. */
  lemma BuyIsCheapest(resting: seq<Order>, taker: Order, alloc: Allocation)
    requires taker.side.Buy? && Feasible(resting, Sell, alloc)
    requires AllocatedQuantity(resting, Sell, alloc) == C.TradedQuantity(Match(resting, taker).trades)
    ensures TradedValue(Match(resting, taker).trades, 1) <= AllocatedValue(resting, Sell, alloc)
  {
    GreedyIsCheapest(resting, taker, alloc, 0, 0);
  }

  /** A sell earns no less than any other way of selling the same quantity to the resting bids. */
  lemma SellIsDearest(resting: seq<Order>, taker: Order, alloc: Allocation)
    requires taker.side.Sell? && Feasible(resting, Buy, alloc)
    requires AllocatedQuantity(resting, Buy, alloc) == C.TradedQuantity(Match(resting, taker).trades)
    ensures TradedValue(Match(resting, taker).trades, 1) >= AllocatedValue(resting, Buy, alloc)
  {
    var highest: int := U64_MAX;
    GreedyIsCheapest(resting, taker, alloc, -highest, 0);
    SignedValue(resting, Buy, alloc);
    SignedTrades(Match(resting, taker).trades);
  }
}
