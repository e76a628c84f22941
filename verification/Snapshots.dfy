/** What a snapshot of a book is, and that a book has only one (src/engine/order_book.rs:150-182). */
module Snapshots {
  import opened Domain
  import opened FlatBook

  type Levels = seq<(Price, seq<Order>)>

  /** Levels from best price to worst. */
  ghost predicate BestFirst(levels: Levels, side: Side) {
    forall i, j :: 0 <= i < j < |levels| ==>
      if side.Buy? then levels[i].0 > levels[j].0 else levels[i].0 < levels[j].0
  }

  ghost predicate HasPrice(levels: Levels, price: Price) {
    exists i :: 0 <= i < |levels| && levels[i].0 == price
  }

  /** Exactly the non-empty levels of one side, best price first, each in order of arrival. */
  ghost predicate IsSide(levels: Levels, resting: seq<Order>, side: Side) {
    && BestFirst(levels, side)
    && (forall i :: 0 <= i < |levels| ==>
          levels[i].1 == LevelOrders(resting, side, levels[i].0) && levels[i].1 != [])
    && (forall o :: o in resting && o.side == side ==> HasPrice(levels, o.price))
  }

  ghost predicate IsSnapshot(s: BookSnapshot, resting: seq<Order>) {
    IsSide(s.bids, resting, Buy) && IsSide(s.asks, resting, Sell)
  }

  /** A level holds exactly the orders of its side and price, in order of arrival: those at the positions `at`. */
  lemma {:induction false} LevelInArrival(resting: seq<Order>, side: Side, price: Price) returns (at: seq<nat>)
    ensures var orders := LevelOrders(resting, side, price);
            && |at| == |orders|
            && (forall k :: 0 <= k < |at| ==> at[k] < |resting| && orders[k] == resting[at[k]])
    ensures forall j, k :: 0 <= j < k < |at| ==> at[j] < at[k]
    ensures forall i :: 0 <= i < |resting| ==> (i in at <==> resting[i].side == side && resting[i].price == price)
  {
    if resting == [] {
      at := [];
    } else {
      var last := |resting| - 1;
      at := LevelInArrival(resting[..last], side, price);
      if resting[last].side == side && resting[last].price == price {
        at := at + [last];
      }
    }
  }

  lemma HasPriceAfter(levels: Levels, level: (Price, seq<Order>))
    ensures HasPrice(levels + [level], level.0)
    ensures forall p :: HasPrice(levels, p) ==> HasPrice(levels + [level], p)
  {
    var r := levels + [level];
    assert r[|levels|] == level;
    forall p | HasPrice(levels, p)
      ensures HasPrice(r, p)
    {
      var i :| 0 <= i < |levels| && levels[i].0 == p;
      assert r[i] == levels[i];
    }
  }

  /** A snapshot of one side that still lacks the levels at the prices `todo`, all worse than those it has. */
  ghost predicate Partial(levels: Levels, prices: set<Price>, todo: set<Price>, resting: seq<Order>, side: Side) {
    && todo <= prices
    && BestFirst(levels, side)
    && (forall i, p :: 0 <= i < |levels| && p in todo ==> Better(side, levels[i].0, p))
    && (forall i :: 0 <= i < |levels| ==>
          levels[i].1 == LevelOrders(resting, side, levels[i].0) && levels[i].1 != [])
    && (forall p :: p in prices - todo ==> HasPrice(levels, p))
  }

  lemma PartialStart(prices: set<Price>, resting: seq<Order>, side: Side)
    ensures Partial([], prices, prices, resting, side)
  {
  }

  lemma PartialStep(levels: Levels, prices: set<Price>, todo: set<Price>, resting: seq<Order>, side: Side,
                    price: Price, orders: seq<Order>)
    requires Partial(levels, prices, todo, resting, side)
    requires price in todo && forall p :: p in todo ==> !Better(side, p, price)
    requires orders == LevelOrders(resting, side, price) && orders != []
    ensures Partial(levels + [(price, orders)], prices, todo - {price}, resting, side)
  {
    hide HasPrice, LevelOrders;
    HasPriceAfter(levels, (price, orders));
  }

  lemma PartialDone(levels: Levels, prices: set<Price>, resting: seq<Order>, side: Side)
    requires Partial(levels, prices, {}, resting, side)
    requires forall o :: o in resting && o.side == side ==> o.price in prices
    ensures IsSide(levels, resting, side)
  {
    hide HasPrice, LevelOrders;
  }

  lemma {:induction false} LevelMember(resting: seq<Order>, side: Side, price: Price, o: Order)
    requires o in LevelOrders(resting, side, price)
    ensures o in resting && o.side == side && o.price == price
  {
    var last := |resting| - 1;
    if o in LevelOrders(resting[..last], side, price) {
      LevelMember(resting[..last], side, price, o);
    }
  }

  /** The price of every level of one snapshot is the price of a level of the other. */
  lemma PriceOccurs(a: Levels, b: Levels, resting: seq<Order>, side: Side, i: nat) returns (j: nat)
    requires IsSide(a, resting, side) && IsSide(b, resting, side) && i < |a|
    ensures j < |b| && b[j].0 == a[i].0
  {
    var o := a[i].1[0];
    LevelMember(resting, side, a[i].0, o);
    j :| 0 <= j < |b| && b[j].0 == o.price;
  }

  /** The first `n` levels of two snapshots of one side agree. */
  lemma {:induction false} SidesAgree(a: Levels, b: Levels, resting: seq<Order>, side: Side, n: nat)
    requires IsSide(a, resting, side) && IsSide(b, resting, side) && n <= |a|
    ensures n <= |b| && forall i :: 0 <= i < n ==> a[i] == b[i]
  {
    if n > 0 {
      var i := n - 1;
      SidesAgree(a, b, resting, side, i);
      var j := PriceOccurs(a, b, resting, side, i);
      var k := PriceOccurs(b, a, resting, side, i);
      assert j >= i && k >= i;
    }
  }

  /** A book determines its snapshot, so equal flat books have equal snapshots. */
  lemma SnapshotUnique(s: BookSnapshot, t: BookSnapshot, resting: seq<Order>)
    requires IsSnapshot(s, resting) && IsSnapshot(t, resting)
    ensures s == t
  {
    SidesAgree(s.bids, t.bids, resting, Buy, |s.bids|);
    SidesAgree(t.bids, s.bids, resting, Buy, |t.bids|);
    SidesAgree(s.asks, t.asks, resting, Sell, |s.asks|);
    SidesAgree(t.asks, s.asks, resting, Sell, |t.asks|);
  }
}
