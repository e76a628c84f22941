/** Parametric workloads and their exact outcomes for every size (src/simulator/generator.rs). */
module Generator {
  import opened Domain
  import opened FlatBook
  import opened FlatBookInvariants
  import opened Runner
  import C = Conservation
  import TS = TradeShape

  datatype GeneratorConfig = GeneratorConfig(
    orderCount: nat, startOrderId: OrderId, basePrice: Price, tickSize: Price, priceLevels: nat, quantity: Quantity)
  {
    function Levels(): (levels: nat)
      ensures levels >= 1
    {
      if priceLevels == 0 then 1 else priceLevels
    }

    /** How far from the base price order `index` is placed. */
    function Offset(index: nat): nat {
      (index % Levels() + 1) * tickSize
    }

    /** No `u64` operation of the two-sided generator overflows. */
    ghost predicate TwoSidedFits() {
      forall index: nat :: index < orderCount ==>
        && startOrderId + index <= U64_MAX
        && Offset(index) <= U64_MAX
        && (index % 2 == 1 ==> basePrice + Offset(index) <= U64_MAX)
    }

    /** No `u64` operation of the crossing generator overflows. */
    ghost predicate CrossingFits() {
      orderCount > 0 ==> startOrderId + orderCount - 1 <= U64_MAX && basePrice + Levels() * tickSize <= U64_MAX
    }

    lemma OffsetWithin(index: nat)
      ensures tickSize <= Offset(index) <= Levels() * tickSize
    {
      var level := index % Levels() + 1;
      assert 1 <= level <= Levels();
      MulWithin(level, Levels(), tickSize);
      MulWithin(1, level, tickSize);
    }
  }

  lemma MulWithin(a: nat, b: nat, n: nat)
    requires a <= b
    ensures a * n <= b * n
  {
  }

  // ---- How prices spread ----

  /**
   The distances from the base price, order by order: one tick for the first order and again after every
   `priceLevels` orders, otherwise one tick more than for the order before. Zero levels count as one.
   */
  ghost predicate Spread(config: GeneratorConfig, distance: seq<nat>) {
    forall k :: 0 <= k < |distance| ==>
      distance[k] == if k == 0 || config.priceLevels == 0 || k % config.priceLevels == 0 then config.tickSize
                     else distance[k - 1] + config.tickSize
  }

  lemma NextRemainder(k: nat, n: nat)
    requires n >= 1 && k >= 1 && k % n != 0
    ensures (k - 1) % n == k % n - 1
  {
    var q, r := k / n, k % n;
    assert k - 1 == n * q + (r - 1);
    Remainder(k - 1, n, q, r - 1);
  }

  lemma Remainder(k: nat, n: nat, q: nat, r: nat)
    requires r < n && k == n * q + r
    ensures k % n == r
  {
    var q', r' := k / n, k % n;
    assert k == n * q' + r';
    if q' < q {
      MulWithin(q' + 1, q, n);
    } else if q < q' {
      MulWithin(q + 1, q', n);
    }
  }

  lemma OffsetNext(config: GeneratorConfig, k: nat)
    ensures config.Offset(k)
            == if k == 0 || config.priceLevels == 0 || k % config.priceLevels == 0 then config.tickSize
               else config.Offset(k - 1) + config.tickSize
  {
    var levels := config.Levels();
    if k == 0 || k % levels == 0 {
      assert k % levels == 0;
    } else {
      NextRemainder(k, levels);
      assert config.Offset(k) == ((k - 1) % levels + 1) * config.tickSize + config.tickSize;
    }
  }

  lemma Distances(config: GeneratorConfig) returns (distance: seq<nat>)
    ensures |distance| == config.orderCount && Spread(config, distance)
    ensures forall k :: 0 <= k < |distance| ==> distance[k] == config.Offset(k)
  {
    distance := seq(config.orderCount, k requires 0 <= k < config.orderCount => config.Offset(k));
    forall k | 0 <= k < |distance|
      ensures distance[k] == if k == 0 || config.priceLevels == 0 || k % config.priceLevels == 0 then config.tickSize
                             else distance[k - 1] + config.tickSize
    {
      OffsetNext(config, k);
    }
  }

  function SaturatingSub(a: Price, b: Price): Price {
    if b <= a then a - b else 0
  }

  // ---- Running a list of new orders ----

  function Adds(orders: seq<Order>): (commands: seq<Command>)
    ensures |commands| == |orders|
  {
    seq(|orders|, i requires 0 <= i < |orders| => Add(orders[i]))
  }

  /** No order crosses one before it. */
  ghost predicate NeverCross(orders: seq<Order>) {
    forall i, j :: 0 <= i < j < |orders| ==> !Crosses(orders[j], orders[i])
  }

  /** The book has accepted no ids but those of the first `n` orders. */
  ghost predicate SeenFirst(book: Book, orders: seq<Order>, n: nat) {
    forall id :: id in book.seen ==> exists i :: 0 <= i < n && i < |orders| && orders[i].id == id
  }

  lemma NextUnseen(book: Book, orders: seq<Order>, n: nat)
    requires DistinctIds(orders) && n < |orders| && SeenFirst(book, orders, n)
    ensures orders[n].id !in book.seen
  {
  }

  lemma SeenNext(book: Book, book': Book, orders: seq<Order>, n: nat)
    requires n < |orders| && SeenFirst(book, orders, n) && book'.seen == book.seen + {orders[n].id}
    ensures SeenFirst(book', orders, n + 1)
  {
  }

  /** Adding an order that crosses nobody just rests it. */
  lemma AddRests(book: Book, order: Order)
    requires order.remainingQty > 0 && order.id !in book.seen
    requires forall o :: o in book.resting ==> !Crosses(order, o)
    ensures AddOrder(book, order)
            == Outcome(Book(book.resting + [order], book.seen + {order.id}), Ok([]), [OrderAccepted(order)])
  {
    assert order.(remainingQty := order.remainingQty) == order;
    assert [OrderAccepted(order)] + TradeEvents([]) == [OrderAccepted(order)];
  }

  /** The state of a scenario after one more accepted order. */
  lemma AddNext(orders: seq<Order>, n: nat)
    requires n < |orders| && Scenario(Adds(orders)[..n]).Ok?
    requires AddOrder(Scenario(Adds(orders)[..n]).value.book, orders[n]).result.Ok?
    ensures var st := Scenario(Adds(orders)[..n]).value;
            var o := AddOrder(st.book, orders[n]);
            && Scenario(Adds(orders)[..n + 1]) == Ok(RunState(o.book, st.log + o.events))
            && OnlyTrades(st.log + o.events) == OnlyTrades(st.log) + TradeEvents(o.result.value)
  {
    hide AddOrder, Scenario, OnlyTrades, TradeEvents;
    ScenarioPush(Adds(orders), n);
    var st := Scenario(Adds(orders)[..n]).value;
    EventsOfStep(st.book, Add(orders[n]));
    TradesOfEvents(st.log, OrderAccepted(orders[n]), AddOrder(st.book, orders[n]).result.value);
  }

  /** What holds after the first `n` orders if they never cross: all rest, in the order they came, without a trade. */
  ghost predicate RestedFirst(st: RunState, orders: seq<Order>, n: nat)
    requires n <= |orders|
  {
    st.book.resting == orders[..n] && OnlyTrades(st.log) == [] && SeenFirst(st.book, orders, n)
  }

  lemma {:induction false} RestAll(orders: seq<Order>, n: nat)
    requires n <= |orders| && DistinctIds(orders) && Positive(orders) && NeverCross(orders[..n])
    ensures Scenario(Adds(orders)[..n]).Ok? && RestedFirst(Scenario(Adds(orders)[..n]).value, orders, n)
  {
    if n > 0 {
      NeverCrossFront(orders, n);
      RestAll(orders, n - 1);
      RestNext(orders, n - 1);
    }
  }

  lemma NeverCrossFront(orders: seq<Order>, n: nat)
    requires 0 < n <= |orders| && NeverCross(orders[..n])
    ensures NeverCross(orders[..n - 1])
    ensures forall i {:trigger orders[i]} :: 0 <= i < n - 1 ==> !Crosses(orders[n - 1], orders[i])
  {
    var a, b := orders[..n], orders[..n - 1];
    assert forall i :: 0 <= i < n - 1 ==> b[i] == a[i] == orders[i];
    assert a[n - 1] == orders[n - 1];
  }

  lemma RestNext(orders: seq<Order>, n: nat)
    requires n < |orders| && DistinctIds(orders) && Positive(orders) && NeverCross(orders[..n + 1])
    requires Scenario(Adds(orders)[..n]).Ok? && RestedFirst(Scenario(Adds(orders)[..n]).value, orders, n)
    ensures Scenario(Adds(orders)[..n + 1]).Ok?
    ensures RestedFirst(Scenario(Adds(orders)[..n + 1]).value, orders, n + 1)
  {
    hide AddOrder, OnlyTrades, Scenario, SeenFirst, NeverCross;
    var st := Scenario(Adds(orders)[..n]).value;
    NeverCrossFront(orders, n + 1);
    NextUnseen(st.book, orders, n);
    assert orders[n] in orders;
    AddRests(st.book, orders[n]);
    AddNext(orders, n);
    SeenNext(st.book, AddOrder(st.book, orders[n]).book, orders, n);
    assert orders[..n] + [orders[n]] == orders[..n + 1];
    assert TradeEvents([]) == [];
  }

  // ---- Buyers against sellers of their own size ----

  /** Everyone resting is within the buyer's limit and offers exactly the buyer's quantity. */
  ghost predicate AllMatchable(resting: seq<Order>, buyer: Order) {
    forall o :: o in resting ==> Crosses(buyer, o) && o.remainingQty == buyer.remainingQty
  }

  lemma {:induction false} PriorityLength(resting: seq<Order>, buyer: Order)
    requires AllMatchable(resting, buyer)
    ensures |TS.Priority(resting, buyer)| == |resting|
    decreases |resting|
  {
    if resting != [] {
      MatchableHasBest(resting, buyer);
      var i := Best(resting, buyer).value;
      WithoutMembers(resting, i);
      PriorityLength(Without(resting, i), buyer);
    }
  }

  lemma MatchableHasBest(resting: seq<Order>, buyer: Order)
    requires AllMatchable(resting, buyer) && resting != []
    ensures Best(resting, buyer).Some?
  {
    assert resting[0] in resting;
  }

  /** One such buy takes out exactly the first seller in priority order. */
  lemma BuyTakesFirst(resting: seq<Order>, buyer: Order)
    requires AllMatchable(resting, buyer) && resting != [] && buyer.remainingQty > 0
    ensures var m, queue := Match(resting, buyer), TS.Priority(resting, buyer);
            && queue != [] && m.remaining == 0
            && m.trades == [Trade(queue[0].id, buyer.id, queue[0].price, buyer.remainingQty)]
            && TS.Priority(m.resting, buyer) == queue[1..]
            && |m.resting| == |resting| - 1 && AllMatchable(m.resting, buyer)
  {
    assert resting[0] in resting;
    var i := Best(resting, buyer).value;
    assert resting[i] in resting;
    WithoutMembers(resting, i);
    var m := Match(resting, buyer);
    var left := buyer.(remainingQty := 0);
    assert Match(Without(resting, i), left) == Matched(Without(resting, i), 0, []);
    assert m.resting == Without(resting, i) && m.remaining == 0;
    assert TS.Priority(resting, buyer)[1..] == TS.Priority(Without(resting, i), buyer);
  }

  /** `orders` is `half` sells that never cross, then buys alike, each for the size of every sell. */
  ghost predicate SellsThenBuys(orders: seq<Order>, half: nat, buyer: Order) {
    && half <= |orders| && DistinctIds(orders) && Positive(orders) && NeverCross(orders[..half])
    && buyer.remainingQty > 0 && AllMatchable(orders[..half], buyer)
    && forall i :: half <= i < |orders| ==> orders[i] == buyer.(id := orders[i].id)
  }

  /** Buy number `k` trades with the `k`-th sell in price-then-arrival order. */
  function PairTrade(orders: seq<Order>, half: nat, buyer: Order, k: nat): Trade
    requires half + k < |orders| && k < |TS.Priority(orders[..half], buyer)|
  {
    var maker := TS.Priority(orders[..half], buyer)[k];
    Trade(maker.id, orders[half + k].id, maker.price, buyer.remainingQty)
  }

  function PairTrades(orders: seq<Order>, half: nat, buyer: Order, k: nat): seq<Trade>
    requires half + k <= |orders| && k <= |TS.Priority(orders[..half], buyer)|
  {
    seq(k, i requires 0 <= i < k => PairTrade(orders, half, buyer, i))
  }

  /** What holds after the sells and `k` of the buys. */
  ghost predicate AfterBuys(st: RunState, orders: seq<Order>, half: nat, buyer: Order, k: nat)
    requires half + k <= |orders| && k <= |TS.Priority(orders[..half], buyer)|
  {
    && |st.book.resting| == |TS.Priority(orders[..half], buyer)| - k
    && AllMatchable(st.book.resting, buyer)
    && TS.Priority(st.book.resting, buyer) == TS.Priority(orders[..half], buyer)[k..]
    && OnlyTrades(st.log) == TradeEvents(PairTrades(orders, half, buyer, k))
    && SeenFirst(st.book, orders, half + k)
  }

  lemma MatchableIgnoresId(resting: seq<Order>, a: Order, b: Order)
    requires AllMatchable(resting, a) && b == a.(id := b.id)
    ensures AllMatchable(resting, b) && TS.Priority(resting, b) == TS.Priority(resting, a)
  {
    TS.PriorityIgnoresQuantity(resting, a, b);
  }

  /** The next buy takes the next sell. */
  lemma BuyStep(book: Book, buy: Order, buyer: Order)
    requires AllMatchable(book.resting, buyer) && book.resting != [] && buyer.remainingQty > 0
    requires buy == buyer.(id := buy.id) && buy.id !in book.seen
    ensures var o, queue := AddOrder(book, buy), TS.Priority(book.resting, buyer);
            && queue != []
            && o.result == Ok([Trade(queue[0].id, buy.id, queue[0].price, buyer.remainingQty)])
            && |o.book.resting| == |book.resting| - 1 && AllMatchable(o.book.resting, buyer)
            && TS.Priority(o.book.resting, buyer) == queue[1..] && o.book.seen == book.seen + {buy.id}
  {
    hide AllMatchable, TS.Priority, Match;
    MatchableIgnoresId(book.resting, buyer, buy);
    BuyTakesFirst(book.resting, buy);
    MatchableIgnoresId(Match(book.resting, buy).resting, buy, buyer);
  }

  lemma SellsQueue(orders: seq<Order>, half: nat, buyer: Order)
    requires SellsThenBuys(orders, half, buyer)
    ensures half <= |orders| && |TS.Priority(orders[..half], buyer)| == half
  {
    hide TS.Priority, AllMatchable, NeverCross, DistinctIds, Positive;
    PriorityLength(orders[..half], buyer);
  }

  lemma {:induction false} BuysTrade(orders: seq<Order>, half: nat, buyer: Order, k: nat)
    requires SellsThenBuys(orders, half, buyer) && half + k <= |orders| && k <= half
    ensures |TS.Priority(orders[..half], buyer)| == half
    ensures var s := Scenario(Adds(orders)[..half + k]);
            s.Ok? && AfterBuys(s.value, orders, half, buyer, k)
    decreases k
  {
    hide Scenario, TS.Priority, SellsThenBuys, AfterBuys, Adds;
    SellsQueue(orders, half, buyer);
    if k == 0 {
      NoBuysYet(orders, half, buyer);
    } else {
      BuysTrade(orders, half, buyer, k - 1);
      NextBuy(orders, half, buyer, k - 1);
    }
  }

  lemma NoBuysYet(orders: seq<Order>, half: nat, buyer: Order)
    requires SellsThenBuys(orders, half, buyer)
    requires |TS.Priority(orders[..half], buyer)| == half
    ensures var s := Scenario(Adds(orders)[..half]);
            s.Ok? && AfterBuys(s.value, orders, half, buyer, 0)
  {
    hide Scenario, Adds, TS.Priority, NeverCross, AllMatchable, SeenFirst, OnlyTrades;
    RestAll(orders, half);
    assert TS.Priority(orders[..half], buyer)[0..] == TS.Priority(orders[..half], buyer);
    assert TradeEvents(PairTrades(orders, half, buyer, 0)) == [];
  }

  lemma NextBuy(orders: seq<Order>, half: nat, buyer: Order, k: nat)
    requires SellsThenBuys(orders, half, buyer) && half + k < |orders| && k < half
    requires |TS.Priority(orders[..half], buyer)| == half
    requires Scenario(Adds(orders)[..half + k]).Ok?
    requires AfterBuys(Scenario(Adds(orders)[..half + k]).value, orders, half, buyer, k)
    ensures var s := Scenario(Adds(orders)[..half + k + 1]);
            s.Ok? && AfterBuys(s.value, orders, half, buyer, k + 1)
  {
    hide Scenario, OnlyTrades, TS.Priority, NeverCross, AllMatchable, AddOrder, SeenFirst, TradeEvents;
    var queue := TS.Priority(orders[..half], buyer);
    var st := Scenario(Adds(orders)[..half + k]).value;
    var buy := orders[half + k];
    NextUnseen(st.book, orders, half + k);
    BuyStep(st.book, buy, buyer);
    AddNext(orders, half + k);
    SeenNext(st.book, AddOrder(st.book, buy).book, orders, half + k);
    assert queue[k..][0] == queue[k] && queue[k..][1..] == queue[k + 1..];
    PairTradesNext(orders, half, buyer, k);
  }

  lemma PairTradesNext(orders: seq<Order>, half: nat, buyer: Order, k: nat)
    requires half + k < |orders| && k < |TS.Priority(orders[..half], buyer)|
    ensures TradeEvents(PairTrades(orders, half, buyer, k + 1))
            == TradeEvents(PairTrades(orders, half, buyer, k)) + TradeEvents([PairTrade(orders, half, buyer, k)])
  {
  }

  // ---- A two-sided book that never crosses ----

  function TwoSidedOrder(config: GeneratorConfig, index: nat): Order
    requires config.TwoSidedFits() && index < config.orderCount
  {
    var side := if index % 2 == 0 then Buy else Sell;
    var price := match side
      case Buy => SaturatingSub(config.basePrice, config.Offset(index))
      case Sell => config.basePrice + config.Offset(index);
    Order(config.startOrderId + index, side, price, config.quantity)
  }

  function TwoSidedOrders(config: GeneratorConfig): (orders: seq<Order>)
    requires config.TwoSidedFits()
    ensures |orders| == config.orderCount
  {
    seq(config.orderCount, index requires 0 <= index < config.orderCount => TwoSidedOrder(config, index))
  }

  /** The two-sided workload: buys and sells alternate, the buys below the base price and the sells above it. */
  function GenerateTwoSidedOrders(config: GeneratorConfig): (commands: seq<Command>)
    requires config.TwoSidedFits()
    ensures |commands| == config.orderCount
  {
    Adds(TwoSidedOrders(config))
  }

  /** Order `k` of the two-sided workload, `distance` away from the base price. Buys are cut off at zero. */
  ghost predicate IsTwoSided(config: GeneratorConfig, k: nat, distance: nat, o: Order) {
    && o.id == config.startOrderId + k && o.remainingQty == config.quantity
    && o.side == (if k % 2 == 0 then Buy else Sell)
    && o.price == if k % 2 == 1 then config.basePrice + distance
                  else if distance <= config.basePrice then config.basePrice - distance else 0
  }

  /** Ids, sides, prices and quantities of the two-sided workload, and of the orders that rest after it has run. */
  lemma TwoSidedLaw(config: GeneratorConfig) returns (distance: seq<nat>)
    requires config.TwoSidedFits()
    ensures |distance| == config.orderCount && Spread(config, distance)
    ensures var commands := GenerateTwoSidedOrders(config);
            |commands| == config.orderCount
            && forall k :: 0 <= k < |commands| ==>
                 commands[k].Add? && IsTwoSided(config, k, distance[k], commands[k].order)
    ensures config.orderCount == 0 || (config.quantity >= 1 && (config.orderCount == 1 || config.tickSize >= 1)) ==>
              var s := Scenario(GenerateTwoSidedOrders(config));
              && s.Ok? && OnlyTrades(s.value.log) == [] && |s.value.book.resting| == config.orderCount
              && forall k :: 0 <= k < config.orderCount ==> IsTwoSided(config, k, distance[k], s.value.book.resting[k])
  {
    hide Scenario, Spread, OnlyTrades;
    distance := Distances(config);
    TwoSidedOutcome(config);
    forall k | 0 <= k < config.orderCount
      ensures IsTwoSided(config, k, distance[k], TwoSidedOrders(config)[k])
    {
    }
  }

  lemma TwoSidedNeverCross(config: GeneratorConfig, i: nat, j: nat)
    requires config.TwoSidedFits() && config.tickSize >= 1
    requires i < config.orderCount && j < config.orderCount
    ensures !Crosses(TwoSidedOrder(config, i), TwoSidedOrder(config, j))
  {
    config.OffsetWithin(i);
    config.OffsetWithin(j);
  }

  /** Running the two-sided workload succeeds without a trade and leaves every order resting as generated. */
  predicate AllRest(config: GeneratorConfig)
    requires config.TwoSidedFits()
  {
    var s := Scenario(GenerateTwoSidedOrders(config));
    s.Ok? && OnlyTrades(s.value.log) == [] && s.value.book.resting == TwoSidedOrders(config)
  }

  /**
   For every size, all of the two-sided workload rests exactly when its orders are for something and, if there
   are two or more, the tick is at least one. Buy prices that saturate at zero do no harm.
   */
  lemma TwoSidedOutcome(config: GeneratorConfig)
    requires config.TwoSidedFits()
    ensures AllRest(config)
            <==> config.orderCount == 0
                 || (config.quantity >= 1 && (config.orderCount == 1 || config.tickSize >= 1))
  {
    if config.orderCount == 0 || (config.quantity >= 1 && (config.orderCount == 1 || config.tickSize >= 1)) {
      TwoSidedRests(config);
    } else if AllRest(config) {
      TwoSidedCannotRest(config);
    }
  }

  lemma TwoSidedRests(config: GeneratorConfig)
    requires config.TwoSidedFits()
    requires config.orderCount == 0 || config.quantity >= 1
    requires config.orderCount <= 1 || config.tickSize >= 1
    ensures AllRest(config)
  {
    var orders := TwoSidedOrders(config);
    forall i, j | 0 <= i < j < |orders|
      ensures !Crosses(orders[j], orders[i]) && orders[i].id != orders[j].id
    {
      TwoSidedNeverCross(config, j, i);
    }
    assert orders[..|orders|] == orders && Adds(orders)[..|orders|] == Adds(orders);
    hide Scenario, TwoSidedOrders;
    RestAll(orders, |orders|);
  }

  lemma RestingIsSound(config: GeneratorConfig)
    requires config.TwoSidedFits() && AllRest(config)
    ensures Sound(TwoSidedOrders(config))
  {
    hide Scenario, Run, GenerateTwoSidedOrders, TwoSidedOrders, OnlyTrades, Sound;
    ScenarioIsRun(GenerateTwoSidedOrders(config));
    RunWf(GenerateTwoSidedOrders(config));
  }

  /** No book rests an order for nothing, or a buy and a sell at one price. */
  lemma TwoSidedCannotRest(config: GeneratorConfig)
    requires config.TwoSidedFits() && AllRest(config)
    ensures config.orderCount == 0 || config.quantity >= 1
    ensures config.orderCount <= 1 || config.tickSize >= 1
  {
    hide AllRest, Sound, TwoSidedOrder;
    var orders := TwoSidedOrders(config);
    RestingIsSound(config);
    TwoSidedTouch(config);
    if config.orderCount >= 1 { PairIsSound(orders, 0, 0); }
    if config.orderCount >= 2 { PairIsSound(orders, 0, 1); }
  }

  lemma PairIsSound(orders: seq<Order>, i: nat, j: nat)
    requires Sound(orders) && i < |orders| && j < |orders|
    ensures orders[i].remainingQty > 0
    ensures orders[i].side.Buy? && orders[j].side.Sell? ==> orders[i].price < orders[j].price
  {
    assert orders[i] in orders && orders[j] in orders;
  }

  /** Without a tick, the first sell is at the price of the first buy. */
  lemma TwoSidedTouch(config: GeneratorConfig)
    requires config.TwoSidedFits()
    ensures config.tickSize == 0 && config.orderCount >= 2 ==>
              var buy, sell := TwoSidedOrder(config, 0), TwoSidedOrder(config, 1);
              buy.side.Buy? && sell.side.Sell? && buy.price == sell.price
    ensures config.orderCount >= 1 ==> TwoSidedOrder(config, 0).remainingQty == config.quantity
  {
    config.OffsetWithin(0);
    config.OffsetWithin(1);
  }

  // ---- A workload that crosses the spread ----

  function CrossingSell(config: GeneratorConfig, index: nat): Order
    requires config.CrossingFits() && index < config.orderCount
  {
    config.OffsetWithin(index);
    Order(config.startOrderId + index, Sell, config.basePrice + config.Offset(index), config.quantity)
  }

  function CrossingBuy(config: GeneratorConfig, index: nat): Order
    requires config.CrossingFits() && index < config.orderCount
  {
    Order(config.startOrderId + index, Buy, config.basePrice + config.Levels() * config.tickSize, config.quantity)
  }

  function CrossingOrder(config: GeneratorConfig, index: nat): Order
    requires config.CrossingFits() && index < config.orderCount
  {
    if index < config.orderCount / 2 then CrossingSell(config, index) else CrossingBuy(config, index)
  }

  function CrossingOrders(config: GeneratorConfig, n: nat): (orders: seq<Order>)
    requires config.CrossingFits() && n <= config.orderCount
    ensures |orders| == n
  {
    seq(n, index requires 0 <= index < n => CrossingOrder(config, index))
  }

  lemma CrossingPush(config: GeneratorConfig, n: nat)
    requires config.CrossingFits() && n < config.orderCount
    ensures Adds(CrossingOrders(config, n + 1)) == Adds(CrossingOrders(config, n)) + [Add(CrossingOrder(config, n))]
  {
  }

  /**
   Order `k` of the crossing workload: in the first half a sell, `distance` above the base price; then buys at the
   price of the farthest level. Zero levels count as one.
   */
  ghost predicate IsCrossing(config: GeneratorConfig, k: nat, distance: nat, o: Order) {
    && o.id == config.startOrderId + k && o.remainingQty == config.quantity
    && if k < config.orderCount / 2 then o.side.Sell? && o.price == config.basePrice + distance
       else
         var levels := if config.priceLevels == 0 then 1 else config.priceLevels;
         o.side.Buy? && o.price == config.basePrice + levels * config.tickSize
  }

  lemma CrossingLaw(config: GeneratorConfig) returns (distance: seq<nat>)
    requires config.CrossingFits()
    ensures |distance| == config.orderCount && Spread(config, distance)
    ensures var orders := CrossingOrders(config, config.orderCount);
            forall k :: 0 <= k < config.orderCount ==> IsCrossing(config, k, distance[k], orders[k])
  {
    hide Spread;
    distance := Distances(config);
  }

  /** Two loops build the crossing workload: the sells, then the buys. */
  method GenerateCrossingOrders(config: GeneratorConfig) returns (commands: seq<Command>, ghost distance: seq<nat>)
    requires config.CrossingFits()
    ensures commands == Adds(CrossingOrders(config, config.orderCount))
    ensures |distance| == config.orderCount && Spread(config, distance)
    ensures |commands| == config.orderCount
            && forall k :: 0 <= k < |commands| ==>
                 commands[k].Add? && IsCrossing(config, k, distance[k], commands[k].order)
  {
    distance := CrossingLaw(config);
    var priceLevels := config.Levels();
    var split := config.orderCount / 2;
    commands := [];
    assert Adds(CrossingOrders(config, 0)) == [];
    hide Adds, CrossingOrders, Spread, IsCrossing;
    for index := 0 to split
      invariant commands == Adds(CrossingOrders(config, index))
    {
      CrossingPush(config, index);
      config.OffsetWithin(index);
      var orderId := config.startOrderId + index;
      var level := index % priceLevels + 1;
      var price := config.basePrice + level * config.tickSize;
      commands := commands + [Add(Order(orderId, Sell, price, config.quantity))];
    }
    for index := split to config.orderCount
      invariant commands == Adds(CrossingOrders(config, index))
    {
      CrossingPush(config, index);
      var orderId := config.startOrderId + index;
      commands := commands
                  + [Add(Order(orderId, Buy, config.basePrice + priceLevels * config.tickSize, config.quantity))];
    }
    AddsAt(CrossingOrders(config, config.orderCount));
  }

  lemma AddsAt(orders: seq<Order>)
    ensures forall k :: 0 <= k < |orders| ==> Adds(orders)[k] == Add(orders[k])
  {
  }

  lemma CrossingIds(config: GeneratorConfig)
    requires config.CrossingFits() && config.quantity >= 1 && config.orderCount >= 1
    ensures var orders := CrossingOrders(config, config.orderCount);
            forall a, b :: 0 <= a < b < |orders| ==> orders[a].id < orders[b].id
    ensures CrossingBuy(config, 0).side.Buy? && CrossingBuy(config, 0).remainingQty == config.quantity
  {
  }

  lemma CrossingAt(config: GeneratorConfig, i: nat)
    requires config.CrossingFits() && i < config.orderCount
    ensures var orders := CrossingOrders(config, config.orderCount);
            && orders[i].id == config.startOrderId + i
            && (i < config.orderCount / 2 ==> orders[i].price == CrossingSell(config, i).price)
  {
  }

  lemma CrossingIsSellsThenBuys(config: GeneratorConfig)
    requires config.CrossingFits() && config.quantity >= 1 && config.orderCount >= 1
    ensures SellsThenBuys(CrossingOrders(config, config.orderCount), config.orderCount / 2, CrossingBuy(config, 0))
  {
    var half, buyer := config.orderCount / 2, CrossingBuy(config, 0);
    var orders := CrossingOrders(config, config.orderCount);
    forall i | 0 <= i < half
      ensures Crosses(buyer, orders[..half][i])
    {
      config.OffsetWithin(i);
    }
  }

  /**
   Running the crossing workload of any size succeeds with exactly half as many trades as orders, rounded down, and
   leaves nothing resting when the count is even and the last buy when it is odd; unless its orders are for nothing,
   in which case the first is rejected.
   */
  lemma CrossingOutcome(config: GeneratorConfig)
    requires config.CrossingFits()
    ensures config.orderCount == 0 ==> Scenario(Adds(CrossingOrders(config, 0))) == Ok(RunState(EMPTY, []))
    ensures config.orderCount >= 1 && config.quantity == 0
            ==> Scenario(Adds(CrossingOrders(config, config.orderCount))) == Err(ZeroQuantity)
    ensures config.orderCount >= 1 && config.quantity >= 1 ==>
            var n, half := config.orderCount, config.orderCount / 2;
            var orders, buyer := CrossingOrders(config, n), CrossingBuy(config, 0);
            var s := Scenario(Adds(orders));
            && |TS.Priority(orders[..half], buyer)| == half
            && s.Ok? && OnlyTrades(s.value.log) == TradeEvents(PairTrades(orders, half, buyer, half))
            && s.value.book.resting == if n % 2 == 0 then [] else [orders[n - 1]]
  {
    if config.orderCount == 0 {
      return;
    }
    var n, half := config.orderCount, config.orderCount / 2;
    var orders, buyer := CrossingOrders(config, n), CrossingBuy(config, 0);
    if config.quantity == 0 {
      hide Scenario;
      FirstRejected(orders);
      return;
    }
    CrossingIsSellsThenBuys(config);
    LastIsBuy(config);
    hide CrossingOrders, CrossingBuy, SellsThenBuys, Scenario, TS.Priority, PairTrades, TradeEvents, OnlyTrades, Adds;
    PairsOutcome(orders, half, buyer);
  }

  lemma FirstRejected(orders: seq<Order>)
    requires orders != [] && orders[0].remainingQty == 0
    ensures Scenario(Adds(orders)) == Err(ZeroQuantity)
  {
    assert Adds(orders)[..0] == [];
    ScenarioPush(Adds(orders), 0);
    ScenarioStops(Adds(orders), 1);
  }

  lemma LastIsBuy(config: GeneratorConfig)
    requires config.CrossingFits() && config.orderCount >= 1
    ensures CrossingOrders(config, config.orderCount)[config.orderCount - 1]
            == CrossingBuy(config, config.orderCount - 1)
  {
  }

  /** As many sells as buys, or one buy more: every sell is traded, and the odd buy rests. */
  lemma PairsOutcome(orders: seq<Order>, half: nat, buyer: Order)
    requires SellsThenBuys(orders, half, buyer) && half == |orders| / 2
    ensures |TS.Priority(orders[..half], buyer)| == half
    ensures var s := Scenario(Adds(orders));
            && s.Ok? && OnlyTrades(s.value.log) == TradeEvents(PairTrades(orders, half, buyer, half))
            && s.value.book.resting == if |orders| % 2 == 0 then [] else [orders[|orders| - 1]]
  {
    hide Scenario, OnlyTrades, SellsThenBuys, TS.Priority, TradeEvents, SeenFirst, PairTrades;
    BuysTrade(orders, half, buyer, half);
    if |orders| % 2 == 0 {
      assert Adds(orders)[..half + half] == Adds(orders);
    } else {
      LastBuyRests(orders, half, buyer);
    }
  }

  /** A buy more than there are sells rests. */
  lemma LastBuyRests(orders: seq<Order>, half: nat, buyer: Order)
    requires SellsThenBuys(orders, half, buyer) && |orders| == 2 * half + 1
    requires |TS.Priority(orders[..half], buyer)| == half
    requires Scenario(Adds(orders)[..2 * half]).Ok?
    requires AfterBuys(Scenario(Adds(orders)[..2 * half]).value, orders, half, buyer, half)
    ensures var st, s := Scenario(Adds(orders)[..2 * half]).value, Scenario(Adds(orders));
            s.Ok? && s.value.book.resting == [orders[2 * half]] && OnlyTrades(s.value.log) == OnlyTrades(st.log)
  {
    hide Scenario, OnlyTrades, SeenFirst, TS.Priority, NeverCross;
    var st := Scenario(Adds(orders)[..2 * half]).value;
    assert st.book.resting == [];
    NextUnseen(st.book, orders, 2 * half);
    AddRests(st.book, orders[2 * half]);
    AddNext(orders, 2 * half);
    assert Adds(orders)[..2 * half + 1] == Adds(orders);
    assert TradeEvents([]) == [];
  }

  /** The pairs of the crossing workload: one of its sells, at its price, and the next buy, in full. */
  lemma CrossingPairShape(config: GeneratorConfig, k: nat)
    requires config.CrossingFits() && config.quantity >= 1 && k < config.orderCount / 2
    ensures |TS.Priority(CrossingOrders(config, config.orderCount)[..config.orderCount / 2], CrossingBuy(config, 0))|
            == config.orderCount / 2
    ensures var half := config.orderCount / 2;
            var t := PairTrade(CrossingOrders(config, config.orderCount), half, CrossingBuy(config, 0), k);
            && t.takerOrderId == config.startOrderId + half + k && t.quantity == config.quantity
            && config.startOrderId <= t.makerOrderId < config.startOrderId + half
            && t.price == CrossingSell(config, t.makerOrderId - config.startOrderId).price
  {
    hide SellsThenBuys, TS.Priority, CrossingOrders, CrossingSell;
    var half, buyer := config.orderCount / 2, CrossingBuy(config, 0);
    var orders := CrossingOrders(config, config.orderCount);
    CrossingIsSellsThenBuys(config);
    SellsQueue(orders, half, buyer);
    var i := PairMaker(orders, half, buyer, k);
    CrossingAt(config, i);
    CrossingAt(config, half + k);
  }

  /** The pairs come in price-then-id order. */
  lemma CrossingPairsInOrder(config: GeneratorConfig, j: nat, k: nat)
    requires config.CrossingFits() && config.quantity >= 1 && j < k < config.orderCount / 2
    ensures |TS.Priority(CrossingOrders(config, config.orderCount)[..config.orderCount / 2], CrossingBuy(config, 0))|
            == config.orderCount / 2
    ensures var half, orders := config.orderCount / 2, CrossingOrders(config, config.orderCount);
            var u := PairTrade(orders, half, CrossingBuy(config, 0), j);
            var t := PairTrade(orders, half, CrossingBuy(config, 0), k);
            u.price < t.price || (u.price == t.price && u.makerOrderId < t.makerOrderId)
  {
    CrossingIds(config);
    hide SellsThenBuys, TS.Priority, CrossingOrders, CrossingBuy;
    var half, buyer := config.orderCount / 2, CrossingBuy(config, 0);
    var orders := CrossingOrders(config, config.orderCount);
    CrossingIsSellsThenBuys(config);
    SellsQueue(orders, half, buyer);
    PairsInOrder(orders, half, buyer, j, k);
  }

  /**
   The trades of a run of the crossing workload: half as many as orders, each the next buy with one of the sells, in
   full and at that sell's price. They come strictly in price-then-id order, so that every sell trades exactly once.
   */
  lemma CrossingTrades(config: GeneratorConfig) returns (distance: seq<nat>)
    requires config.CrossingFits() && config.quantity >= 1 && config.orderCount >= 1
    ensures |distance| == config.orderCount && Spread(config, distance)
    ensures var half, s := config.orderCount / 2, Scenario(Adds(CrossingOrders(config, config.orderCount)));
            s.Ok? && |OnlyTrades(s.value.log)| == half
    ensures var half, s := config.orderCount / 2, Scenario(Adds(CrossingOrders(config, config.orderCount)));
            var trades := OnlyTrades(s.value.log);
            forall k :: 0 <= k < half ==>
              && trades[k].TradeExecuted?
              && var t := trades[k].trade;
                 && t.takerOrderId == config.startOrderId + half + k && t.quantity == config.quantity
                 && config.startOrderId <= t.makerOrderId < config.startOrderId + half
                 && t.price == config.basePrice + distance[t.makerOrderId - config.startOrderId]
    ensures var half, s := config.orderCount / 2, Scenario(Adds(CrossingOrders(config, config.orderCount)));
            var trades := OnlyTrades(s.value.log);
            forall j, k :: 0 <= j < k < half ==>
              var u, t := trades[j].trade, trades[k].trade;
              u.price < t.price || (u.price == t.price && u.makerOrderId < t.makerOrderId)
    ensures var n, s := config.orderCount, Scenario(Adds(CrossingOrders(config, config.orderCount)));
            if n % 2 == 0 then s.value.book.resting == []
            else |s.value.book.resting| == 1 && IsCrossing(config, n - 1, distance[n - 1], s.value.book.resting[0])
  {
    hide Scenario, OnlyTrades, TS.Priority, Spread, PairTrade, CrossingOrders, CrossingBuy;
    distance := CrossingLaw(config);
    CrossingOutcome(config);
    var half, orders := config.orderCount / 2, CrossingOrders(config, config.orderCount);
    forall k | 0 <= k < half
      ensures k < |TS.Priority(orders[..half], CrossingBuy(config, 0))|
      ensures var t := PairTrade(orders, half, CrossingBuy(config, 0), k);
              && t.takerOrderId == config.startOrderId + half + k && t.quantity == config.quantity
              && config.startOrderId <= t.makerOrderId < config.startOrderId + half
              && t.price == config.basePrice + distance[t.makerOrderId - config.startOrderId]
    {
      CrossingPairShape(config, k);
      CrossingAt(config, PairTrade(orders, half, CrossingBuy(config, 0), k).makerOrderId - config.startOrderId);
    }
    forall j, k | 0 <= j < k < half
      ensures k < |TS.Priority(orders[..half], CrossingBuy(config, 0))|
      ensures var u := PairTrade(orders, half, CrossingBuy(config, 0), j);
              var t := PairTrade(orders, half, CrossingBuy(config, 0), k);
              u.price < t.price || (u.price == t.price && u.makerOrderId < t.makerOrderId)
    {
      CrossingPairsInOrder(config, j, k);
    }
  }

  /** The maker of a pair is one of the sells, and its price is the trade's. */
  lemma PairMaker(orders: seq<Order>, half: nat, buyer: Order, k: nat) returns (i: nat)
    requires SellsThenBuys(orders, half, buyer) && half + k < |orders| && k < |TS.Priority(orders[..half], buyer)|
    ensures i < half && orders[i].id == PairTrade(orders, half, buyer, k).makerOrderId
    ensures orders[i].price == PairTrade(orders, half, buyer, k).price
  {
    var queue := TS.Priority(orders[..half], buyer);
    TS.PriorityMembers(orders[..half], buyer);
    assert queue[k] in queue;
    i :| 0 <= i < half && orders[..half][i] == queue[k];
  }

  /** Pairs come in the order of their sells' prices, and at one price in the order the sells came. */
  lemma PairsInOrder(orders: seq<Order>, half: nat, buyer: Order, j: nat, k: nat)
    requires SellsThenBuys(orders, half, buyer) && half + k < |orders| && j < k < |TS.Priority(orders[..half], buyer)|
    requires buyer.side.Buy? && forall a, b :: 0 <= a < b < half ==> orders[a].id < orders[b].id
    ensures var u, t := PairTrade(orders, half, buyer, j), PairTrade(orders, half, buyer, k);
            u.price < t.price || (u.price == t.price && u.makerOrderId < t.makerOrderId)
  {
    hide TS.Priority, SellsThenBuys, TS.Precedes;
    var sells := orders[..half];
    var queue := TS.Priority(sells, buyer);
    TS.PriorityMembers(sells, buyer);
    assert queue[j] in queue;
    TS.PrioritySorted(sells, buyer, j, k);
    SellsPrecede(sells, queue[j], queue[k]);
  }

  lemma SellsPrecede(sells: seq<Order>, x: Order, y: Order)
    requires TS.Precedes(sells, x, y) && x.side.Sell?
    requires forall a, b :: 0 <= a < b < |sells| ==> sells[a].id < sells[b].id
    ensures x.price < y.price || (x.price == y.price && x.id < y.id)
  {
    var a, b :| 0 <= a < |sells| && 0 <= b < |sells| && sells[a] == x && sells[b] == y
                && (Better(x.side, x.price, y.price) || (x.price == y.price && a < b));
  }

  // ---- What running a workload needs ----

  lemma {:induction false} MatchKeepsLength(resting: seq<Order>, taker: Order)
    ensures |Match(resting, taker).resting| <= |resting|
    decreases |resting|, taker.remainingQty
  {
    hide IsBest, Take;
    if !taker.IsFilled() && Best(resting, taker).Some? {
      var i := Best(resting, taker).value;
      var q := Min(taker.remainingQty, resting[i].remainingQty);
      TakeSmaller(resting, taker, i);
      MatchKeepsLength(Take(resting, i, q), taker.(remainingQty := taker.remainingQty - q));
    }
  }

  lemma {:induction false} LevelAtMostAll(resting: seq<Order>, side: Side, price: Price)
    ensures TotalQuantity(LevelOrders(resting, side, price)) <= TotalQuantity(resting)
  {
    if resting != [] {
      var front, last := resting[..|resting| - 1], resting[|resting| - 1];
      LevelAtMostAll(front, side, price);
      C.TotalPush(LevelOrders(front, side, price), last);
      assert LevelOrders(front, side, price) + [] == LevelOrders(front, side, price);
    }
  }

  lemma {:induction false} PrefixTotal(orders: seq<Order>, n: nat)
    requires n <= |orders|
    ensures TotalQuantity(orders[..n]) <= TotalQuantity(orders)
  {
    if n < |orders| {
      PrefixTotal(orders[..|orders| - 1], n);
      assert orders[..|orders| - 1][..n] == orders[..n];
    } else {
      assert orders[..n] == orders;
    }
  }

  /** An added order makes the book longer by at most one order, and larger by at most its size. */
  lemma AddGrows(book: Book, order: Order)
    ensures var resting := AddOrder(book, order).book.resting;
            && |resting| <= |book.resting| + 1
            && TotalQuantity(resting) <= TotalQuantity(book.resting) + order.remainingQty
  {
    C.StepConserves(book, Add(order));
    MatchKeepsLength(book.resting, order);
    hide Match, TotalQuantity;
  }

  lemma AddsPrefix(orders: seq<Order>, n: nat)
    requires 0 < n <= |orders| && Scenario(Adds(orders)[..n]).Ok?
    ensures Scenario(Adds(orders)[..n - 1]).Ok?
    ensures Scenario(Adds(orders)[..n]).value.book
            == AddOrder(Scenario(Adds(orders)[..n - 1]).value.book, orders[n - 1]).book
  {
    hide AddOrder;
    assert Adds(orders)[..n][..n - 1] == Adds(orders)[..n - 1];
  }

  /** If the first `n` orders are accepted, no more rests than came. */
  ghost predicate StaysWithin(orders: seq<Order>, n: nat)
    requires n <= |orders|
  {
    Scenario(Adds(orders)[..n]).Ok? ==>
      var resting := Scenario(Adds(orders)[..n]).value.book.resting;
      |resting| <= n && TotalQuantity(resting) <= TotalQuantity(orders[..n])
  }

  lemma StaysWithinNext(orders: seq<Order>, n: nat)
    requires n < |orders| && StaysWithin(orders, n)
    ensures StaysWithin(orders, n + 1)
  {
    hide AddOrder, TotalQuantity, Scenario, Adds;
    if Scenario(Adds(orders)[..n + 1]).Ok? {
      AddsPrefix(orders, n + 1);
      AddGrows(Scenario(Adds(orders)[..n]).value.book, orders[n]);
      C.TotalPush(orders[..n], orders[n]);
      assert orders[..n] + [orders[n]] == orders[..n + 1];
    }
  }

  lemma {:induction false} AddsStayWithin(orders: seq<Order>, n: nat)
    requires n <= |orders|
    ensures StaysWithin(orders, n)
    decreases n
  {
    if n == 0 {
      assert orders[..0] == [];
    } else {
      hide StaysWithin;
      AddsStayWithin(orders, n - 1);
      StaysWithinNext(orders, n - 1);
    }
  }

  /** Adding at most 2^32 orders of at most `u64::MAX` in total overflows nothing. */
  lemma AddsFit(orders: seq<Order>)
    requires |orders| <= 0x1_0000_0000 && TotalQuantity(orders) <= U64_MAX
    ensures ScenarioFits(Adds(orders))
  {
    hide Scenario, Adds, TotalQuantity, LevelOrders;
    forall k | 0 <= k <= |orders| && Scenario(Adds(orders)[..k]).Ok?
      ensures Fits(Scenario(Adds(orders)[..k]).value.book.resting)
    {
      var resting := Scenario(Adds(orders)[..k]).value.book.resting;
      AddsStayWithin(orders, k);
      PrefixTotal(orders, k);
      forall side, price
        ensures TotalQuantity(LevelOrders(resting, side, price)) <= U64_MAX
      {
        LevelAtMostAll(resting, side, price);
      }
    }
  }

  lemma {:induction false} EqualTotal(orders: seq<Order>, quantity: Quantity)
    requires forall i :: 0 <= i < |orders| ==> orders[i].remainingQty == quantity
    ensures TotalQuantity(orders) == |orders| * quantity
  {
    if orders != [] {
      EqualTotal(orders[..|orders| - 1], quantity);
    }
  }

  /** A two-sided workload of at most 2^32 orders can be run if its total quantity fits in a `u64`. */
  lemma TwoSidedRuns(config: GeneratorConfig)
    requires config.TwoSidedFits()
    requires config.orderCount <= 0x1_0000_0000 && config.orderCount * config.quantity <= U64_MAX
    ensures ScenarioFits(GenerateTwoSidedOrders(config))
  {
    EqualTotal(TwoSidedOrders(config), config.quantity);
    AddsFit(TwoSidedOrders(config));
  }

  /** A crossing workload of at most 2^32 orders can be run if its total quantity fits in a `u64`. */
  lemma CrossingRuns(config: GeneratorConfig)
    requires config.CrossingFits()
    requires config.orderCount <= 0x1_0000_0000 && config.orderCount * config.quantity <= U64_MAX
    ensures ScenarioFits(Adds(CrossingOrders(config, config.orderCount)))
  {
    EqualTotal(CrossingOrders(config, config.orderCount), config.quantity);
    AddsFit(CrossingOrders(config, config.orderCount));
  }
}
