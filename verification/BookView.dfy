/**
 The order book's data structures as one value, and how that value represents a flat book.

 `arrival` lists the occupied slots in order of arrival. The flat book is the orders at those slots, and
 the queue of each price level is `arrival` filtered to that side and price.
 */
module BookView {
  import opened Domain
  import opened Arena
  import opened Level
  import FB = FlatBook

  /** One side's levels by price. */
  type Ladder = map<Price, PriceLevel>

  datatype View = View(nodes: Nodes, arrival: seq<Slot>, bids: Ladder, asks: Ladder, slots: map<OrderId, Slot>) {
    ghost function Ladder(side: Side): Ladder {
      if side.Buy? then bids else asks
    }

    ghost function QueueOf(side: Side, price: Price): seq<Slot> {
      Queue(nodes, arrival, side, price)
    }
  }

  /** The ladders of `v` and `v'` agree except at one level, which both have. */
  ghost predicate SameButLevel(v: View, v': View, side: Side, price: Price) {
    && price in v.Ladder(side) && price in v'.Ladder(side)
    && v'.Ladder(side) == v.Ladder(side)[price := v'.Ladder(side)[price]]
    && v'.Ladder(side.Opposite()) == v.Ladder(side.Opposite())
  }

  lemma SameButLevelTrans(a: View, b: View, c: View, side: Side, price: Price)
    requires SameButLevel(a, b, side, price) && SameButLevel(b, c, side, price)
    ensures SameButLevel(a, c, side, price)
  {
  }

  lemma RelevelSame(v: View, v': View, side: Side, price: Price, lv: PriceLevel)
    requires price in v.Ladder(side)
    requires v'.bids == Relevel(v, side, price, lv).bids && v'.asks == Relevel(v, side, price, lv).asks
    ensures SameButLevel(v, v', side, price) && v'.Ladder(side)[price] == lv
  {
  }

  /** `v` with one level set to `lv`. */
  ghost function Relevel(v: View, side: Side, price: Price, lv: PriceLevel): View {
    if side.Buy? then v.(bids := v.bids[price := lv]) else v.(asks := v.asks[price := lv])
  }

  ghost predicate OnLevel(nodes: Nodes, s: Slot, side: Side, price: Price) {
    s in nodes && nodes[s].order.side == side && nodes[s].order.price == price
  }

  ghost function Queue(nodes: Nodes, arrival: seq<Slot>, side: Side, price: Price): seq<Slot> {
    if arrival == [] then []
    else
      var last := |arrival| - 1;
      Queue(nodes, arrival[..last], side, price)
      + if OnLevel(nodes, arrival[last], side, price) then [arrival[last]] else []
  }

  ghost predicate Stored(nodes: Nodes, arrival: seq<Slot>) {
    forall s :: s in arrival ==> s in nodes
  }

  /** The flat book: the orders at the given slots. */
  ghost function Resting(nodes: Nodes, arrival: seq<Slot>): (r: seq<Order>)
    requires Stored(nodes, arrival)
    ensures |r| == |arrival| && forall i :: 0 <= i < |r| ==> r[i] == nodes[arrival[i]].order
  {
    seq(|arrival|, i requires 0 <= i < |arrival| => nodes[arrival[i]].order)
  }

  // ---- The structural invariant ----

  /** Every order of one side has a level. */
  ghost predicate Covered(nodes: Nodes, ladder: Ladder, side: Side) {
    forall s :: s in nodes && nodes[s].order.side == side ==> nodes[s].order.price in ladder
  }

  /** Every level of one side is its queue, and every order of that side has a level. */
  ghost predicate LadderOk(nodes: Nodes, arrival: seq<Slot>, ladder: Ladder, side: Side) {
    && (forall p {:trigger ladder[p]} :: p in ladder ==> LevelOk(nodes, ladder[p], Queue(nodes, arrival, side, p)))
    && Covered(nodes, ladder, side)
  }

  /** The id index is a bijection onto the occupied slots. */
  ghost predicate IndexOk(nodes: Nodes, slots: map<OrderId, Slot>) {
    && (forall s :: s in nodes ==> nodes[s].order.id in slots && slots[nodes[s].order.id] == s)
    && (forall id :: id in slots ==> slots[id] in nodes && nodes[slots[id]].order.id == id)
  }

  ghost predicate ArrivalOk(nodes: Nodes, arrival: seq<Slot>) {
    Distinct(arrival) && forall s :: s in nodes <==> s in arrival
  }

  ghost predicate LaddersOk(v: View) {
    LadderOk(v.nodes, v.arrival, v.bids, Buy) && LadderOk(v.nodes, v.arrival, v.asks, Sell)
  }

  ghost predicate Core(v: View) {
    ArrivalOk(v.nodes, v.arrival) && LaddersOk(v) && IndexOk(v.nodes, v.slots)
  }

  ghost predicate NoEmpty(ladder: Ladder) {
    forall p :: p in ladder ==> ladder[p].head.Some?
  }

  ghost predicate NoEmptyLevel(v: View) {
    NoEmpty(v.bids) && NoEmpty(v.asks)
  }

  lemma ArrivalStored(nodes: Nodes, arrival: seq<Slot>)
    requires ArrivalOk(nodes, arrival)
    ensures Stored(nodes, arrival)
  {
  }

  lemma HeadAfterPush(nodes: Nodes, level: PriceLevel, q: seq<Slot>, slot: Slot)
    requires LevelOk(nodes, level, q + [slot])
    ensures level.head.Some?
  {
  }

  // ---- Queues ----

  lemma {:induction false} QueueMembers(nodes: Nodes, arrival: seq<Slot>, side: Side, price: Price)
    ensures forall s :: s in Queue(nodes, arrival, side, price) <==> s in arrival && OnLevel(nodes, s, side, price)
  {
    if arrival != [] {
      var last := |arrival| - 1;
      QueueMembers(nodes, arrival[..last], side, price);
      assert forall s :: s in arrival <==> s in arrival[..last] || s == arrival[last];
    }
  }

  lemma {:induction false} QueueCong(a: Nodes, b: Nodes, arrival: seq<Slot>, side: Side, price: Price)
    requires forall s :: s in arrival ==> OnLevel(a, s, side, price) == OnLevel(b, s, side, price)
    ensures Queue(a, arrival, side, price) == Queue(b, arrival, side, price)
  {
    if arrival != [] {
      QueueCong(a, b, arrival[..|arrival| - 1], side, price);
    }
  }

  lemma QueuePush(nodes: Nodes, arrival: seq<Slot>, slot: Slot, side: Side, price: Price)
    ensures Queue(nodes, arrival + [slot], side, price)
            == Queue(nodes, arrival, side, price) + if OnLevel(nodes, slot, side, price) then [slot] else []
  {
    assert (arrival + [slot])[..|arrival|] == arrival;
  }

  lemma {:induction false} QueueDrop(nodes: Nodes, arrival: seq<Slot>, slot: Slot, side: Side, price: Price)
    ensures Queue(nodes, Drop(arrival, slot), side, price) == Drop(Queue(nodes, arrival, side, price), slot)
  {
    if arrival != [] {
      var last := |arrival| - 1;
      var front := arrival[..last];
      QueueDrop(nodes, front, slot, side, price);
      QueuePush(nodes, Drop(front, slot), arrival[last], side, price);
      var q := Queue(nodes, front, side, price);
      assert (q + [arrival[last]])[..|q|] == q;
      assert q + [] == q && Drop(front, slot) + [] == Drop(front, slot);
    }
  }

  /** The head of a queue is the first arrival on its level. */
  lemma {:induction false} QueueFirst(nodes: Nodes, arrival: seq<Slot>, side: Side, price: Price) returns (i: nat)
    requires Queue(nodes, arrival, side, price) != []
    ensures i < |arrival| && arrival[i] == Queue(nodes, arrival, side, price)[0]
    ensures OnLevel(nodes, arrival[i], side, price)
    ensures forall j :: 0 <= j < i ==> !OnLevel(nodes, arrival[j], side, price)
  {
    var last := |arrival| - 1;
    var front := arrival[..last];
    if Queue(nodes, front, side, price) == [] {
      QueueMembers(nodes, front, side, price);
      i := last;
      assert forall j :: 0 <= j < last ==> arrival[j] in front;
    } else {
      i := QueueFirst(nodes, front, side, price);
    }
  }

  // ---- Queues and levels of the flat book ----

  /** The orders in the queue of a level, front to back, are the flat book filtered to that level. */
  lemma {:induction false} QueueIsLevel(nodes: Nodes, arrival: seq<Slot>, side: Side, price: Price)
    requires Stored(nodes, arrival)
    ensures Stored(nodes, Queue(nodes, arrival, side, price))
    ensures Resting(nodes, Queue(nodes, arrival, side, price))
            == FB.LevelOrders(Resting(nodes, arrival), side, price)
  {
    QueueMembers(nodes, arrival, side, price);
    if arrival != [] {
      var last := |arrival| - 1;
      var front := arrival[..last];
      QueueIsLevel(nodes, front, side, price);
      assert Resting(nodes, arrival)[..last] == Resting(nodes, front);
      RestingPush(nodes, Queue(nodes, front, side, price), arrival[last]);
    }
  }

  lemma RestingPush(nodes: Nodes, q: seq<Slot>, slot: Slot)
    requires Stored(nodes, q) && slot in nodes
    ensures q + [] == q && Stored(nodes, q + [slot])
    ensures Resting(nodes, q + [slot]) == Resting(nodes, q) + [nodes[slot].order]
  {
  }

  lemma {:induction false} TotalIsQuantity(nodes: Nodes, q: seq<Slot>)
    requires Stored(nodes, q)
    ensures QueueTotal(nodes, q) == FB.TotalQuantity(Resting(nodes, q))
  {
    if q != [] {
      var front := q[..|q| - 1];
      TotalIsQuantity(nodes, front);
      assert Resting(nodes, q)[..|q| - 1] == Resting(nodes, front);
    }
  }

  /** The cached total of every level is that of the flat book filtered to it; where there is no level it is zero. */
  lemma LevelTotal(v: View, side: Side, price: Price)
    requires Core(v)
    ensures Stored(v.nodes, v.arrival)
    ensures var total := FB.TotalQuantity(FB.LevelOrders(Resting(v.nodes, v.arrival), side, price));
            && total == QueueTotal(v.nodes, v.QueueOf(side, price))
            && total == if price in v.Ladder(side) then v.Ladder(side)[price].totalQuantity else 0
  {
    QueueIsLevel(v.nodes, v.arrival, side, price);
    TotalIsQuantity(v.nodes, v.QueueOf(side, price));
    CoreJoins(v, side, price);
    hide Core, QueueTotal, Joins, Queue;
    JoinsTotal(v.nodes, v.Ladder(side), price, v.QueueOf(side, price));
  }

  /** What is known of a price before an order joins there: the level's queue, empty if there is no level. */
  ghost predicate Joins(nodes: Nodes, ladder: Ladder, price: Price, q: seq<Slot>) {
    && (forall s :: s in q ==> s in nodes)
    && if price in ladder then LevelOk(nodes, ladder[price], q) else q == []
  }

  /** The level an order joins holds its queue, also after more nodes are stored. */
  lemma JoinsAt(a: Nodes, b: Nodes, ladder: Ladder, price: Price, q: seq<Slot>, lv: PriceLevel)
    requires Joins(a, ladder, price, q) && lv == if price in ladder then ladder[price] else EMPTY_LEVEL
    requires forall s :: s in a ==> s in b && b[s] == a[s]
    ensures LevelOk(b, lv, q)
  {
    LinkedFrame(a, b, lv.head, lv.tail, q);
  }

  lemma JoinsTotal(nodes: Nodes, ladder: Ladder, price: Price, q: seq<Slot>)
    requires Joins(nodes, ladder, price, q)
    ensures (if price in ladder then ladder[price] else EMPTY_LEVEL).totalQuantity == QueueTotal(nodes, q)
    ensures forall s :: s in q ==> s in nodes
  {
  }

  lemma CoreJoins(v: View, side: Side, price: Price)
    requires Core(v)
    ensures Joins(v.nodes, v.Ladder(side), price, v.QueueOf(side, price))
    ensures forall s :: s in v.QueueOf(side, price) ==> OnLevel(v.nodes, s, side, price)
  {
    var q := v.QueueOf(side, price);
    QueueMembers(v.nodes, v.arrival, side, price);
    assert q == [] || q[0] in q;
  }

  // ---- Detaching an order ----

  /** `b` is `a` without `slot`, after relinking within the queue `q`. */
  ghost predicate Detached(a: Nodes, b: Nodes, q: seq<Slot>, slot: Slot) {
    && slot in q
    && b.Keys == a.Keys - {slot}
    && (forall s :: s in b ==> b[s].order == a[s].order)
    && (forall s :: s in b && s !in q ==> b[s] == a[s])
  }

  lemma DetachQueue(a: Nodes, b: Nodes, arrival: seq<Slot>, q: seq<Slot>, slot: Slot, side: Side, price: Price)
    requires Stored(a, arrival) && Detached(a, b, q, slot)
    ensures Queue(b, Drop(arrival, slot), side, price) == Drop(Queue(a, arrival, side, price), slot)
  {
    DropMembers(arrival, slot);
    QueueDrop(a, arrival, slot, side, price);
    QueueCong(a, b, Drop(arrival, slot), side, price);
  }

  /** A level other than the one detached from is untouched. */
  lemma DetachOther(a: Nodes, b: Nodes, arrival: seq<Slot>, slot: Slot, side: Side, price: Price,
                    lv: PriceLevel, side': Side, price': Price)
    requires Stored(a, arrival) && LevelOk(a, lv, Queue(a, arrival, side', price'))
    requires Detached(a, b, Queue(a, arrival, side, price), slot)
    requires (side', price') != (side, price)
    ensures LevelOk(b, lv, Queue(b, Drop(arrival, slot), side', price'))
  {
    var q, q' := Queue(a, arrival, side, price), Queue(a, arrival, side', price');
    QueueMembers(a, arrival, side, price);
    QueueMembers(a, arrival, side', price');
    DetachQueue(a, b, arrival, q, slot, side', price');
    DropAbsent(q', slot);
    LinkedFrame(a, b, lv.head, lv.tail, q');
  }

  lemma DetachLadder(a: Nodes, b: Nodes, arrival: seq<Slot>, slot: Slot, side: Side, price: Price,
                     ladder: Ladder, lv: PriceLevel)
    requires Stored(a, arrival) && LadderOk(a, arrival, ladder, side) && price in ladder
    requires Detached(a, b, Queue(a, arrival, side, price), slot)
    requires LevelOk(b, lv, Drop(Queue(a, arrival, side, price), slot))
    ensures LadderOk(b, Drop(arrival, slot), ladder[price := lv], side)
  {
    forall p | p in ladder[price := lv]
      ensures LevelOk(b, ladder[price := lv][p], Queue(b, Drop(arrival, slot), side, p))
    {
      if p == price {
        DetachQueue(a, b, arrival, Queue(a, arrival, side, price), slot, side, price);
      } else {
        DetachOther(a, b, arrival, slot, side, price, ladder[p], side, p);
      }
    }
  }

  lemma DetachOpposite(a: Nodes, b: Nodes, arrival: seq<Slot>, slot: Slot, side: Side, price: Price,
                       ladder: Ladder, side': Side)
    requires Stored(a, arrival) && LadderOk(a, arrival, ladder, side') && side' != side
    requires Detached(a, b, Queue(a, arrival, side, price), slot)
    ensures LadderOk(b, Drop(arrival, slot), ladder, side')
  {
    forall p | p in ladder
      ensures LevelOk(b, ladder[p], Queue(b, Drop(arrival, slot), side', p))
    {
      DetachOther(a, b, arrival, slot, side, price, ladder[p], side', p);
    }
  }

  lemma DetachIndex(nodes: Nodes, nodes': Nodes, slots: map<OrderId, Slot>, q: seq<Slot>, slot: Slot)
    requires IndexOk(nodes, slots) && Detached(nodes, nodes', q, slot) && slot in nodes
    ensures IndexOk(nodes', slots - {nodes[slot].order.id})
  {
  }

  lemma DropStored(arrival: seq<Slot>, nodes: Nodes, i: nat)
    requires ArrivalOk(nodes, arrival) && i < |arrival|
    ensures Distinct(Drop(arrival, arrival[i]))
    ensures forall s :: s in Drop(arrival, arrival[i]) <==> s in nodes && s != arrival[i]
    ensures Drop(arrival, arrival[i]) == Without(arrival, i)
  {
    DropMembers(arrival, arrival[i]);
    DropDistinct(arrival, arrival[i]);
    DropAt(arrival, i);
  }

  lemma DetachArrival(a: Nodes, b: Nodes, arrival: seq<Slot>, q: seq<Slot>, i: nat)
    requires ArrivalOk(a, arrival) && i < |arrival| && Detached(a, b, q, arrival[i])
    ensures ArrivalOk(b, Drop(arrival, arrival[i]))
    ensures Resting(b, Drop(arrival, arrival[i])) == Without(Resting(a, arrival), i)
  {
    hide Drop;
    DropStored(arrival, a, i);
    RestingWithout(a, b, arrival, i);
  }

  lemma RestingWithout(a: Nodes, b: Nodes, arrival: seq<Slot>, i: nat)
    requires Stored(a, arrival) && i < |arrival| && Stored(b, Without(arrival, i))
    requires forall s :: s in a && s in b ==> b[s].order == a[s].order
    ensures Resting(b, Without(arrival, i)) == Without(Resting(a, arrival), i)
  {
    var r, r' := Resting(b, Without(arrival, i)), Without(Resting(a, arrival), i);
    forall j | 0 <= j < |arrival| - 1
      ensures r[j] == r'[j]
    {
      assert Without(arrival, i)[j] == arrival[if j < i then j else j + 1];
    }
  }

  /** Taking one order out of its level, the arena and the index. */
  lemma DetachKeepsCore(v: View, v': View, b: Nodes, side: Side, price: Price, lv: PriceLevel, i: nat)
    requires Core(v) && i < |v.arrival| && price in v.Ladder(side)
    requires Detached(v.nodes, b, v.QueueOf(side, price), v.arrival[i])
    requires LevelOk(b, lv, Drop(v.QueueOf(side, price), v.arrival[i]))
    requires v' == Relevel(v, side, price, lv).(nodes := b, arrival := Drop(v.arrival, v.arrival[i]),
                                                slots := v.slots - {v.nodes[v.arrival[i]].order.id})
    ensures Core(v') && Stored(v'.nodes, v'.arrival)
    ensures Resting(v'.nodes, v'.arrival) == Without(Resting(v.nodes, v.arrival), i)
  {
    var slot := v.arrival[i];
    if side.Buy? {
      DetachLadder(v.nodes, b, v.arrival, slot, side, price, v.bids, lv);
      DetachOpposite(v.nodes, b, v.arrival, slot, side, price, v.asks, Sell);
    } else {
      DetachLadder(v.nodes, b, v.arrival, slot, side, price, v.asks, lv);
      DetachOpposite(v.nodes, b, v.arrival, slot, side, price, v.bids, Buy);
    }
    DetachIndex(v.nodes, b, v.slots, v.QueueOf(side, price), slot);
    DetachArrival(v.nodes, b, v.arrival, v.QueueOf(side, price), i);
  }

  lemma DropLevelLadder(nodes: Nodes, arrival: seq<Slot>, ladder: Ladder, side: Side, price: Price)
    requires ArrivalOk(nodes, arrival) && LadderOk(nodes, arrival, ladder, side)
    requires price in ladder && ladder[price].head.None?
    ensures LadderOk(nodes, arrival, ladder - {price}, side)
  {
    QueueMembers(nodes, arrival, side, price);
    assert Queue(nodes, arrival, side, price) == [];
  }

  ghost function Delevel(v: View, side: Side, price: Price): View {
    if side.Buy? then v.(bids := v.bids - {price}) else v.(asks := v.asks - {price})
  }

  /** If only one level may be empty, removing it when it is leaves none. */
  lemma DelevelNoEmpty(v: View, v': View, side: Side, price: Price)
    requires NoEmptyLevel(v) && SameButLevel(v, v', side, price)
    ensures v'.Ladder(side)[price].head.Some? ==> NoEmptyLevel(v')
    ensures NoEmptyLevel(Delevel(v', side, price))
  {
  }

  /** An empty level may leave its ladder. */
  lemma DropLevelKeepsCore(v: View, side: Side, price: Price)
    requires Core(v) && price in v.Ladder(side) && v.Ladder(side)[price].head.None?
    ensures Core(Delevel(v, side, price))
  {
    DropLevelLadder(v.nodes, v.arrival, v.Ladder(side), side, price);
  }

  /** Unlinking within `q` and then freeing the slot detaches it. */
  lemma DetachedBy(a: Nodes, b: Nodes, q: seq<Slot>, slot: Slot, lv: PriceLevel)
    requires slot in q && slot in a
    requires SameOrders(a, b) && SameOutside(a, b, q) && LevelOk(b, lv, Drop(q, slot))
    ensures Detached(a, b - {slot}, q, slot)
    ensures LevelOk(b - {slot}, lv, Drop(q, slot))
  {
    DropMembers(q, slot);
    LinkedFrame(b, b - {slot}, lv.head, lv.tail, Drop(q, slot));
  }

  /** An arrival is stored, indexed, and on a level of its ladder. */
  lemma CoreMembers(v: View, i: nat)
    requires Core(v) && i < |v.arrival|
    ensures v.arrival[i] in v.nodes
    ensures var o := v.nodes[v.arrival[i]].order;
            o.id in v.slots && v.slots[o.id] == v.arrival[i] && o.price in v.Ladder(o.side)
    ensures Resting(v.nodes, v.arrival)[i] == v.nodes[v.arrival[i]].order
  {
  }

  lemma SameMember(a: Nodes, b: Nodes, slot: Slot)
    requires SameOrders(a, b) && slot in a
    ensures slot in b && b[slot].order == a[slot].order
  {
  }

  lemma InQueue(v: View, side: Side, price: Price, i: nat)
    requires Core(v) && i < |v.arrival| && price in v.Ladder(side) && OnLevel(v.nodes, v.arrival[i], side, price)
    ensures v.arrival[i] in v.QueueOf(side, price)
    ensures LevelOk(v.nodes, v.Ladder(side)[price], v.QueueOf(side, price))
    ensures v.nodes[v.arrival[i]].order.remainingQty <= v.Ladder(side)[price].totalQuantity
  {
    QueueMembers(v.nodes, v.arrival, side, price);
    TotalDrop(v.nodes, v.QueueOf(side, price), v.arrival[i]);
  }

  // ---- Reducing an order in place ----

  /** The node at `slot` with `q` taken from its order. */
  ghost function Reduced(node: OrderNode, q: Quantity): OrderNode
    requires q <= node.order.remainingQty
  {
    node.(order := node.order.(remainingQty := node.order.remainingQty - q))
  }

  /** `b` is `a` with `q` taken from the order at `slot`. */
  ghost predicate ReducedAt(a: Nodes, b: Nodes, slot: Slot, q: Quantity) {
    slot in a && q <= a[slot].order.remainingQty && b == a[slot := Reduced(a[slot], q)]
  }

  lemma ReduceQueue(a: Nodes, b: Nodes, arrival: seq<Slot>, slot: Slot, q: Quantity, side: Side, price: Price)
    requires Distinct(Queue(a, arrival, side, price)) && slot in arrival && ReducedAt(a, b, slot, q)
    ensures Queue(b, arrival, side, price) == Queue(a, arrival, side, price)
    ensures QueueTotal(b, Queue(a, arrival, side, price))
            == QueueTotal(a, Queue(a, arrival, side, price)) - if OnLevel(a, slot, side, price) then q else 0
  {
    QueueCong(a, b, arrival, side, price);
    QueueMembers(a, arrival, side, price);
    TotalPut(a, Queue(a, arrival, side, price), slot, Reduced(a[slot], q));
  }

  lemma ReduceLinked(a: Nodes, b: Nodes, slot: Slot, q: Quantity, head: Option<Slot>, tail: Option<Slot>,
                     queue: seq<Slot>)
    requires Linked(a, head, tail, queue) && ReducedAt(a, b, slot, q)
    ensures Linked(b, head, tail, queue)
  {
  }

  lemma ReduceLevel(a: Nodes, b: Nodes, arrival: seq<Slot>, slot: Slot, q: Quantity, lv: PriceLevel, lv': PriceLevel,
                    side: Side, price: Price)
    requires slot in arrival && ReducedAt(a, b, slot, q)
    requires LevelOk(a, lv, Queue(a, arrival, side, price))
    requires lv'.head == lv.head && lv'.tail == lv.tail
    requires lv'.totalQuantity == lv.totalQuantity - if OnLevel(a, slot, side, price) then q else 0
    ensures LevelOk(b, lv', Queue(b, arrival, side, price))
  {
    ReduceQueue(a, b, arrival, slot, q, side, price);
    ReduceLinked(a, b, slot, q, lv.head, lv.tail, Queue(a, arrival, side, price));
  }

  lemma ReduceLadder(a: Nodes, b: Nodes, arrival: seq<Slot>, slot: Slot, q: Quantity, ladder: Ladder, lv: PriceLevel,
                     side: Side, price: Price)
    requires slot in arrival && ReducedAt(a, b, slot, q) && OnLevel(a, slot, side, price)
    requires LadderOk(a, arrival, ladder, side) && price in ladder
    requires lv.head == ladder[price].head && lv.tail == ladder[price].tail
    requires lv.totalQuantity == ladder[price].totalQuantity - q
    ensures LadderOk(b, arrival, ladder[price := lv], side)
  {
    var ladder' := ladder[price := lv];
    forall p | p in ladder'
      ensures LevelOk(b, ladder'[p], Queue(b, arrival, side, p))
    {
      ReduceLevel(a, b, arrival, slot, q, ladder[p], ladder'[p], side, p);
    }
    ReduceCovered(a, b, slot, q, ladder, ladder', side);
  }

  lemma ReduceOpposite(a: Nodes, b: Nodes, arrival: seq<Slot>, slot: Slot, q: Quantity, ladder: Ladder,
                       side: Side, price: Price, side': Side)
    requires slot in arrival && ReducedAt(a, b, slot, q) && OnLevel(a, slot, side, price)
    requires LadderOk(a, arrival, ladder, side') && side' != side
    ensures LadderOk(b, arrival, ladder, side')
  {
    forall p | p in ladder
      ensures LevelOk(b, ladder[p], Queue(b, arrival, side', p))
    {
      ReduceLevel(a, b, arrival, slot, q, ladder[p], ladder[p], side', p);
    }
    ReduceCovered(a, b, slot, q, ladder, ladder, side');
  }

  lemma ReduceCovered(a: Nodes, b: Nodes, slot: Slot, q: Quantity, ladder: Ladder, ladder': Ladder, side: Side)
    requires ReducedAt(a, b, slot, q) && Covered(a, ladder, side) && ladder'.Keys >= ladder.Keys
    ensures Covered(b, ladder', side)
  {
  }

  lemma ReduceIndex(a: Nodes, b: Nodes, slots: map<OrderId, Slot>, slot: Slot, q: Quantity)
    requires IndexOk(a, slots) && ReducedAt(a, b, slot, q)
    ensures IndexOk(b, slots)
  {
  }

  lemma ReduceResting(a: Nodes, b: Nodes, arrival: seq<Slot>, i: nat, q: Quantity)
    requires ArrivalOk(a, arrival) && i < |arrival| && ReducedAt(a, b, arrival[i], q)
    requires q < a[arrival[i]].order.remainingQty
    ensures ArrivalOk(b, arrival) && Resting(b, arrival) == FB.Take(Resting(a, arrival), i, q)
  {
  }

  /** Taking part of one order in place. */
  lemma ReduceKeepsCore(v: View, v': View, b: Nodes, side: Side, price: Price, lv: PriceLevel, q: Quantity, i: nat)
    requires Core(v) && i < |v.arrival| && price in v.Ladder(side)
    requires OnLevel(v.nodes, v.arrival[i], side, price)
    requires ReducedAt(v.nodes, b, v.arrival[i], q) && q < v.nodes[v.arrival[i]].order.remainingQty
    requires lv.head == v.Ladder(side)[price].head && lv.tail == v.Ladder(side)[price].tail
    requires lv.totalQuantity == v.Ladder(side)[price].totalQuantity - q
    requires v' == Relevel(v, side, price, lv).(nodes := b)
    ensures Core(v') && Stored(v'.nodes, v'.arrival)
    ensures Resting(v'.nodes, v'.arrival) == FB.Take(Resting(v.nodes, v.arrival), i, q)
  {
    var slot := v.arrival[i];
    if side.Buy? {
      ReduceLadder(v.nodes, b, v.arrival, slot, q, v.bids, lv, side, price);
      ReduceOpposite(v.nodes, b, v.arrival, slot, q, v.asks, side, price, Sell);
    } else {
      ReduceLadder(v.nodes, b, v.arrival, slot, q, v.asks, lv, side, price);
      ReduceOpposite(v.nodes, b, v.arrival, slot, q, v.bids, side, price, Buy);
    }
    ReduceIndex(v.nodes, b, v.slots, slot, q);
    ReduceResting(v.nodes, b, v.arrival, i, q);
  }

  // ---- Adding an order at the back ----

  /** Inserting and then linking a new order attaches it. */
  lemma AttachedBy(a: Nodes, b: Nodes, q: seq<Slot>, slot: Slot, order: Order)
    requires slot !in a && (forall s :: s in q ==> s in a)
    requires SameOrders(a[slot := OrderNode(order, None, None)], b)
    requires SameOutside(a[slot := OrderNode(order, None, None)], b, q + [slot])
    ensures Attached(a, b, q, slot, order)
  {
    var a' := a[slot := OrderNode(order, None, None)];
    assert a'.Keys == a.Keys + {slot};
    forall s | s in a && s !in q
      ensures b[s] == a[s]
    {
      assert s !in q + [slot];
    }
  }

  /** `b` is `a` with `order` stored at `slot`, after linking within the queue `q + [slot]`. */
  ghost predicate Attached(a: Nodes, b: Nodes, q: seq<Slot>, slot: Slot, order: Order) {
    && slot !in a
    && b.Keys == a.Keys + {slot}
    && b[slot].order == order
    && (forall s :: s in a ==> b[s].order == a[s].order)
    && (forall s :: s in a && s !in q ==> b[s] == a[s])
  }

  lemma AttachQueue(a: Nodes, b: Nodes, arrival: seq<Slot>, q: seq<Slot>, slot: Slot, order: Order, side: Side,
                    price: Price)
    requires Stored(a, arrival) && Attached(a, b, q, slot, order)
    ensures Queue(b, arrival + [slot], side, price)
            == Queue(a, arrival, side, price) + if (order.side, order.price) == (side, price) then [slot] else []
  {
    QueuePush(b, arrival, slot, side, price);
    QueueCong(a, b, arrival, side, price);
  }

  lemma AttachOther(a: Nodes, b: Nodes, arrival: seq<Slot>, slot: Slot, order: Order,
                    lv: PriceLevel, side': Side, price': Price)
    requires Stored(a, arrival) && LevelOk(a, lv, Queue(a, arrival, side', price'))
    requires Attached(a, b, Queue(a, arrival, order.side, order.price), slot, order)
    requires (side', price') != (order.side, order.price)
    ensures LevelOk(b, lv, Queue(b, arrival + [slot], side', price'))
  {
    var q, q' := Queue(a, arrival, order.side, order.price), Queue(a, arrival, side', price');
    QueueMembers(a, arrival, order.side, order.price);
    QueueMembers(a, arrival, side', price');
    AttachQueue(a, b, arrival, q, slot, order, side', price');
    assert q' + [] == q';
    LinkedFrame(a, b, lv.head, lv.tail, q');
  }

  lemma AttachCovered(a: Nodes, b: Nodes, q: seq<Slot>, slot: Slot, order: Order, ladder: Ladder, lv: PriceLevel)
    requires Attached(a, b, q, slot, order) && Covered(a, ladder, order.side)
    ensures Covered(b, ladder[order.price := lv], order.side)
  {
  }

  lemma AttachLadder(a: Nodes, b: Nodes, arrival: seq<Slot>, slot: Slot, order: Order, ladder: Ladder, lv: PriceLevel)
    requires Stored(a, arrival) && LadderOk(a, arrival, ladder, order.side)
    requires Attached(a, b, Queue(a, arrival, order.side, order.price), slot, order)
    requires LevelOk(b, lv, Queue(a, arrival, order.side, order.price) + [slot])
    ensures LadderOk(b, arrival + [slot], ladder[order.price := lv], order.side)
  {
    hide Attached, Queue, LevelOk, Covered;
    var ladder' := ladder[order.price := lv];
    AttachCovered(a, b, Queue(a, arrival, order.side, order.price), slot, order, ladder, lv);
    forall p | p in ladder'
      ensures LevelOk(b, ladder'[p], Queue(b, arrival + [slot], order.side, p))
    {
      if p == order.price {
        AttachQueue(a, b, arrival, Queue(a, arrival, order.side, order.price), slot, order, order.side, order.price);
      } else {
        AttachOther(a, b, arrival, slot, order, ladder[p], order.side, p);
      }
    }
  }

  lemma AttachOpposite(a: Nodes, b: Nodes, arrival: seq<Slot>, slot: Slot, order: Order, ladder: Ladder, side': Side)
    requires Stored(a, arrival) && LadderOk(a, arrival, ladder, side') && side' != order.side
    requires Attached(a, b, Queue(a, arrival, order.side, order.price), slot, order)
    ensures LadderOk(b, arrival + [slot], ladder, side')
  {
    forall p | p in ladder
      ensures LevelOk(b, ladder[p], Queue(b, arrival + [slot], side', p))
    {
      AttachOther(a, b, arrival, slot, order, ladder[p], side', p);
    }
  }

  lemma AttachLadders(v: View, v': View, b: Nodes, slot: Slot, order: Order, lv: PriceLevel)
    requires Stored(v.nodes, v.arrival) && LaddersOk(v)
    requires Attached(v.nodes, b, v.QueueOf(order.side, order.price), slot, order)
    requires LevelOk(b, lv, v.QueueOf(order.side, order.price) + [slot])
    requires v' == Relevel(v, order.side, order.price, lv)
                   .(nodes := b, arrival := v.arrival + [slot], slots := v'.slots)
    ensures LaddersOk(v')
  {
    hide LadderOk, LevelOk, Attached, Queue;
    if order.side.Buy? {
      AttachLadder(v.nodes, b, v.arrival, slot, order, v.bids, lv);
      AttachOpposite(v.nodes, b, v.arrival, slot, order, v.asks, Sell);
    } else {
      AttachLadder(v.nodes, b, v.arrival, slot, order, v.asks, lv);
      AttachOpposite(v.nodes, b, v.arrival, slot, order, v.bids, Buy);
    }
  }

  /** Setting a non-empty level leaves no level empty. */
  lemma RelevelNoEmpty(v: View, v': View, nodes: Nodes, side: Side, price: Price, lv: PriceLevel, q: seq<Slot>)
    requires NoEmptyLevel(v) && LevelOk(nodes, lv, q) && q != []
    requires v'.bids == Relevel(v, side, price, lv).bids && v'.asks == Relevel(v, side, price, lv).asks
    ensures NoEmptyLevel(v')
  {
  }

  /** Storing, queueing and indexing a new order. */
  lemma AttachKeepsCore(v: View, v': View, b: Nodes, slot: Slot, order: Order, lv: PriceLevel)
    requires Core(v) && order.id !in v.slots
    requires Attached(v.nodes, b, v.QueueOf(order.side, order.price), slot, order)
    requires LevelOk(b, lv, v.QueueOf(order.side, order.price) + [slot])
    requires v' == Relevel(v, order.side, order.price, lv).(nodes := b, arrival := v.arrival + [slot],
                                                            slots := v.slots[order.id := slot])
    ensures Core(v') && Stored(v'.nodes, v'.arrival)
    ensures Resting(v'.nodes, v'.arrival) == Resting(v.nodes, v.arrival) + [order]
    ensures lv.head.Some?
  {
    hide LadderOk, ArrivalOk, IndexOk, Attached, Queue, LevelOk;
    ArrivalStored(v.nodes, v.arrival);
    HeadAfterPush(b, lv, v.QueueOf(order.side, order.price), slot);
    AttachLadders(v, v', b, slot, order, lv);
    AttachArrival(v.nodes, b, v.arrival, v.QueueOf(order.side, order.price), slot, order);
    AttachIndex(v.nodes, b, v.slots, v.QueueOf(order.side, order.price), slot, order);
  }

  lemma AttachArrival(a: Nodes, b: Nodes, arrival: seq<Slot>, q: seq<Slot>, slot: Slot, order: Order)
    requires ArrivalOk(a, arrival) && Attached(a, b, q, slot, order)
    ensures ArrivalOk(b, arrival + [slot])
    ensures Resting(b, arrival + [slot]) == Resting(a, arrival) + [order]
  {
    assert forall s :: s in arrival + [slot] <==> s in arrival || s == slot;
  }

  lemma AttachIndex(a: Nodes, b: Nodes, slots: map<OrderId, Slot>, q: seq<Slot>, slot: Slot, order: Order)
    requires IndexOk(a, slots) && Attached(a, b, q, slot, order) && order.id !in slots
    ensures IndexOk(b, slots[order.id := slot])
  {
  }

  // ---- The head of the best level is the flat book's best order ----

  lemma {:induction false} BestUnique(resting: seq<Order>, taker: Order, i: nat)
    requires FB.IsBest(resting, taker, i)
    ensures FB.Best(resting, taker) == Some(i)
  {
    var r := FB.Best(resting, taker);
    assert resting[i] in resting;
  }

  /** `price` is on the maker side and no level there beats it. */
  ghost predicate BestPrice(ladder: Ladder, side: Side, price: Price) {
    price in ladder && forall p :: p in ladder ==> !FB.Better(side, p, price)
  }

  lemma FirstIsBest(nodes: Nodes, arrival: seq<Slot>, ladder: Ladder, taker: Order, price: Price, i: nat)
    requires Stored(nodes, arrival) && Covered(nodes, ladder, taker.side.Opposite())
    requires BestPrice(ladder, taker.side.Opposite(), price) && WillTradeAt(taker, price)
    requires i < |arrival| && OnLevel(nodes, arrival[i], taker.side.Opposite(), price)
    requires forall j :: 0 <= j < i ==> !OnLevel(nodes, arrival[j], taker.side.Opposite(), price)
    ensures FB.Best(Resting(nodes, arrival), taker) == Some(i)
  {
    var resting := Resting(nodes, arrival);
    forall j | 0 <= j < |resting| && FB.Crosses(taker, resting[j])
      ensures !FB.Better(resting[i].side, resting[j].price, resting[i].price)
      ensures j < i ==> FB.Better(resting[i].side, resting[i].price, resting[j].price)
    {
      assert arrival[j] in nodes;
    }
    BestUnique(resting, taker, i);
  }

  predicate WillTradeAt(taker: Order, price: Price) {
    if taker.side.Buy? then price <= taker.price else price >= taker.price
  }

  lemma HeadIsFirst(nodes: Nodes, arrival: seq<Slot>, ladder: Ladder, side: Side, price: Price) returns (i: nat)
    requires LadderOk(nodes, arrival, ladder, side) && price in ladder && ladder[price].head.Some?
    ensures i < |arrival| && Some(arrival[i]) == ladder[price].head
    ensures OnLevel(nodes, arrival[i], side, price)
    ensures forall j :: 0 <= j < i ==> !OnLevel(nodes, arrival[j], side, price)
  {
    i := QueueFirst(nodes, arrival, side, price);
  }

  /** If no level of the maker side beats `price`, its head is what the taker trades with next. */
  lemma HeadIsBest(v: View, taker: Order, price: Price) returns (i: nat)
    requires Core(v)
    requires BestPrice(v.Ladder(taker.side.Opposite()), taker.side.Opposite(), price) && WillTradeAt(taker, price)
    requires v.Ladder(taker.side.Opposite())[price].head.Some?
    ensures i < |v.arrival| && Some(v.arrival[i]) == v.Ladder(taker.side.Opposite())[price].head
    ensures OnLevel(v.nodes, v.arrival[i], taker.side.Opposite(), price)
    ensures FB.Best(Resting(v.nodes, v.arrival), taker) == Some(i)
  {
    var side := taker.side.Opposite();
    i := HeadIsFirst(v.nodes, v.arrival, v.Ladder(side), side, price);
    FirstIsBest(v.nodes, v.arrival, v.Ladder(side), taker, price, i);
  }

  /** If every level of the maker side is beyond the taker's limit, the taker trades with nobody. */
  lemma NobodyCrosses(nodes: Nodes, arrival: seq<Slot>, ladder: Ladder, taker: Order)
    requires Stored(nodes, arrival) && Covered(nodes, ladder, taker.side.Opposite())
    requires forall p :: p in ladder ==> !WillTradeAt(taker, p)
    ensures FB.Best(Resting(nodes, arrival), taker).None?
  {
    var resting := Resting(nodes, arrival);
    forall j | 0 <= j < |resting|
      ensures !FB.Crosses(taker, resting[j])
    {
      assert arrival[j] in nodes;
    }
  }

  /** The index answers exactly the flat book's search by id. */
  lemma IndexFinds(v: View, id: OrderId)
    requires Core(v)
    ensures var f := FB.Find(Resting(v.nodes, v.arrival), id);
            if id in v.slots then f.Some? && v.arrival[f.value] == v.slots[id] else f.None?
  {
    FindInIndex(v.nodes, v.arrival, v.slots, id);
  }

  lemma FindInIndex(nodes: Nodes, arrival: seq<Slot>, slots: map<OrderId, Slot>, id: OrderId)
    requires ArrivalOk(nodes, arrival) && IndexOk(nodes, slots)
    ensures var f := FB.Find(Resting(nodes, arrival), id);
            if id in slots then f.Some? && arrival[f.value] == slots[id] else f.None?
  {
    var resting := Resting(nodes, arrival);
    var f := FB.Find(resting, id);
    if f.Some? {
      assert arrival[f.value] in nodes;
    } else {
      forall i | 0 <= i < |arrival|
        ensures nodes[arrival[i]].order.id != id
      {
        assert resting[i] in resting;
      }
    }
  }

  // ---- Small facts for the matching loops ----

  lemma LevelHasHead(v: View, side: Side, price: Price)
    requires NoEmptyLevel(v) && price in v.Ladder(side)
    ensures v.Ladder(side)[price].head.Some?
  {
  }

  lemma SameButLevelRefl(v: View, side: Side, price: Price)
    requires price in v.Ladder(side)
    ensures SameButLevel(v, v, side, price)
  {
  }

  /** While the levels of a ladder stay, its best price stays, and a limit does not depend on what is left. */
  lemma StillBest(v: View, now: View, side: Side, price: Price, taker: Order, left: Order)
    requires SameButLevel(v, now, side, price) && BestPrice(v.Ladder(side), side, price)
    requires left == taker.(remainingQty := left.remainingQty)
    ensures BestPrice(now.Ladder(side), side, price)
    ensures WillTradeAt(taker, price) ==> WillTradeAt(left, price)
  {
  }

  lemma CoreCovered(v: View, side: Side)
    requires Core(v)
    ensures Stored(v.nodes, v.arrival) && Covered(v.nodes, v.Ladder(side), side)
  {
  }

  lemma BestIsThere(ladder: Ladder, side: Side, price: Price)
    requires BestPrice(ladder, side, price)
    ensures price in ladder
  {
  }

  /** If the best price is beyond the limit, so is every price. */
  lemma BeyondBest(ladder: Ladder, side: Side, price: Price, taker: Order)
    requires BestPrice(ladder, side, price) && side == taker.side.Opposite() && !WillTradeAt(taker, price)
    ensures forall p :: p in ladder ==> !WillTradeAt(taker, p)
  {
  }

  /** A book that fits leaves room for its last order. */
  lemma RestFits(resting: seq<Order>, order: Order)
    requires FB.Fits(resting + [order])
    ensures |resting| < SLOT_LIMIT
    ensures FB.TotalQuantity(FB.LevelOrders(resting, order.side, order.price)) + order.remainingQty <= U64_MAX
  {
    var r := resting + [order];
    assert r[..|resting|] == resting;
    var q := FB.LevelOrders(resting, order.side, order.price);
    assert FB.LevelOrders(r, order.side, order.price) == q + [order];
    assert (q + [order])[..|q|] == q;
  }

  // ---- Small facts for snapshots ----

  /** A level is linked, is not empty, and holds the flat book's orders at its side and price. */
  lemma LevelIsQueue(v: View, side: Side, price: Price)
    requires Core(v) && NoEmptyLevel(v) && price in v.Ladder(side)
    ensures Linked(v.nodes, v.Ladder(side)[price].head, v.Ladder(side)[price].tail, v.QueueOf(side, price))
    ensures v.QueueOf(side, price) != []
    ensures Stored(v.nodes, v.arrival) && Stored(v.nodes, v.QueueOf(side, price))
    ensures Resting(v.nodes, v.QueueOf(side, price)) == FB.LevelOrders(Resting(v.nodes, v.arrival), side, price)
  {
    QueueIsLevel(v.nodes, v.arrival, side, price);
  }

  /** Every level on a ladder holds an order of its side and price. */
  lemma SomeOrderAt(v: View, side: Side, price: Price) returns (o: Order)
    requires Core(v) && NoEmptyLevel(v) && price in v.Ladder(side)
    ensures Stored(v.nodes, v.arrival) && o in Resting(v.nodes, v.arrival)
    ensures o.side == side && o.price == price
  {
    LevelIsQueue(v, side, price);
    var s := v.QueueOf(side, price)[0];
    QueueMembers(v.nodes, v.arrival, side, price);
    assert s in v.QueueOf(side, price);
    o := v.nodes[s].order;
    var i :| 0 <= i < |v.arrival| && v.arrival[i] == s;
    assert Resting(v.nodes, v.arrival)[i] == o;
  }

  lemma OrdersHaveLevels(v: View, side: Side)
    requires Core(v)
    ensures Stored(v.nodes, v.arrival)
    ensures forall o :: o in Resting(v.nodes, v.arrival) && o.side == side ==> o.price in v.Ladder(side)
  {
    var resting := Resting(v.nodes, v.arrival);
    forall i | 0 <= i < |resting| && resting[i].side == side
      ensures resting[i].price in v.Ladder(side)
    {
      assert v.arrival[i] in v.nodes;
    }
  }

  // ---- What a consistent book says about itself ----

  /** A book that is represented at all fits: its totals are exact `u64`s and its slots are `u32`s. */
  lemma CoreFits(v: View)
    requires Core(v) && |v.arrival| <= SLOT_LIMIT
    ensures Stored(v.nodes, v.arrival) && FB.Fits(Resting(v.nodes, v.arrival))
  {
    ArrivalStored(v.nodes, v.arrival);
    hide Core, FB.LevelOrders, FB.TotalQuantity, Queue;
    forall side, price
      ensures FB.TotalQuantity(FB.LevelOrders(Resting(v.nodes, v.arrival), side, price)) <= U64_MAX
    {
      LevelTotal(v, side, price);
      CoreJoins(v, side, price);
      JoinsTotal(v.nodes, v.Ladder(side), price, v.QueueOf(side, price));
    }
  }

  /**
   The level queues are disjoint and together hold exactly the occupied slots: every occupied slot is in
   the queue of its own order's side and price, which is on the ladder, and in no other.
   */
  lemma QueuesPartitionSlots(v: View)
    requires Core(v)
    ensures forall s :: s in v.nodes ==>
              s in v.QueueOf(v.nodes[s].order.side, v.nodes[s].order.price)
              && v.nodes[s].order.price in v.Ladder(v.nodes[s].order.side)
    ensures forall side, price, s :: s in v.QueueOf(side, price) ==>
              s in v.nodes && v.nodes[s].order.side == side && v.nodes[s].order.price == price
  {
    hide Queue, LevelOk, IndexOk;
    forall side, price
      ensures forall s :: s in v.QueueOf(side, price) <==> s in v.arrival && OnLevel(v.nodes, s, side, price)
    {
      QueueMembers(v.nodes, v.arrival, side, price);
    }
  }
}
