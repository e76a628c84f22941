/**
 Buying and selling are mirror images: exchanging the sides and reversing the price axis of a command stream
 does the same to everything the book does.
 */
module Mirror {
  import opened Domain
  import opened FlatBook
  import FBI = FlatBookInvariants
  import SN = Snapshots

  function FlipPrice(p: Price): Price {
    U64_MAX - p
  }

  function FlipOrder(o: Order): Order {
    Order(o.id, o.side.Opposite(), FlipPrice(o.price), o.remainingQty)
  }

  function FlipOrders(s: seq<Order>): (r: seq<Order>)
    ensures |r| == |s| && forall i :: 0 <= i < |s| ==> r[i] == FlipOrder(s[i])
  {
    seq(|s|, i requires 0 <= i < |s| => FlipOrder(s[i]))
  }

  function FlipTrade(t: Trade): Trade {
    t.(price := FlipPrice(t.price))
  }

  function FlipTrades(s: seq<Trade>): (r: seq<Trade>)
    ensures |r| == |s| && forall i :: 0 <= i < |s| ==> r[i] == FlipTrade(s[i])
  {
    seq(|s|, i requires 0 <= i < |s| => FlipTrade(s[i]))
  }

  function FlipEvent(e: BookEvent): BookEvent {
    match e
    case OrderAccepted(order) => OrderAccepted(FlipOrder(order))
    case OrderCancelled(_) => e
    case OrderModified(id, price, quantity) => OrderModified(id, FlipPrice(price), quantity)
    case TradeExecuted(t) => TradeExecuted(FlipTrade(t))
  }

  function FlipEvents(s: seq<BookEvent>): (r: seq<BookEvent>)
    ensures |r| == |s| && forall i :: 0 <= i < |s| ==> r[i] == FlipEvent(s[i])
  {
    seq(|s|, i requires 0 <= i < |s| => FlipEvent(s[i]))
  }

  function FlipCommand(c: Command): Command {
    match c
    case Add(order) => Add(FlipOrder(order))
    case Cancel(_) => c
    case Modify(id, price, quantity) => Modify(id, FlipPrice(price), quantity)
  }

  function FlipCommands(s: seq<Command>): (r: seq<Command>)
    ensures |r| == |s| && forall i :: 0 <= i < |s| ==> r[i] == FlipCommand(s[i])
  {
    seq(|s|, i requires 0 <= i < |s| => FlipCommand(s[i]))
  }

  function FlipBook(b: Book): Book {
    Book(FlipOrders(b.resting), b.seen)
  }

  function FlipResult(r: Result<seq<Trade>, OrderBookError>): Result<seq<Trade>, OrderBookError> {
    match r
    case Ok(trades) => Ok(FlipTrades(trades))
    case Err(e) => Err(e)
  }

  function FlipOutcome(o: Outcome): Outcome {
    Outcome(FlipBook(o.book), FlipResult(o.result), FlipEvents(o.events))
  }

  lemma {:induction false} BestFlips(resting: seq<Order>, taker: Order)
    ensures Best(FlipOrders(resting), FlipOrder(taker)) == Best(resting, taker)
  {
    if resting != [] {
      var last := |resting| - 1;
      BestFlips(resting[..last], taker);
      assert FlipOrders(resting)[..last] == FlipOrders(resting[..last]);
    }
  }

  lemma TakeFlips(resting: seq<Order>, i: nat, q: Quantity)
    requires i < |resting| && q <= resting[i].remainingQty
    ensures FlipOrders(Take(resting, i, q)) == Take(FlipOrders(resting), i, q)
  {
    assert FlipOrders(Without(resting, i)) == Without(FlipOrders(resting), i);
  }

  lemma FlipTradesPush(t: Trade, trades: seq<Trade>)
    ensures FlipTrades([]) == [] && FlipTrades([t] + trades) == [FlipTrade(t)] + FlipTrades(trades)
  {
  }

  lemma {:induction false} MatchFlips(resting: seq<Order>, taker: Order)
    ensures var m := Match(resting, taker);
            Match(FlipOrders(resting), FlipOrder(taker))
            == Matched(FlipOrders(m.resting), m.remaining, FlipTrades(m.trades))
    decreases |resting|, taker.remainingQty
  {
    hide Take, Best, IsBest, FlipTrades;
    BestFlips(resting, taker);
    if taker.IsFilled() || Best(resting, taker).None? {
      assert FlipTrades([]) == [];
    } else {
      hide Match;
      var i := Best(resting, taker).value;
      var q := Min(taker.remainingQty, resting[i].remainingQty);
      var left := taker.(remainingQty := taker.remainingQty - q);
      var rest := Match(Take(resting, i, q), left);
      var t := Trade(resting[i].id, taker.id, resting[i].price, q);
      MatchStep(resting, taker, i);
      MatchStep(FlipOrders(resting), FlipOrder(taker), i);
      TakeFlips(resting, i, q);
      FBI.TakeSmaller(resting, taker, i);
      MatchFlips(Take(resting, i, q), left);
      FlipTradesPush(t, rest.trades);
    }
  }

  lemma EnterFlips(book: Book, order: Order, entry: BookEvent)
    ensures Enter(FlipBook(book), FlipOrder(order), FlipEvent(entry)) == FlipOutcome(Enter(book, order, entry))
  {
    var m := Match(book.resting, order);
    hide Match;
    MatchFlips(book.resting, order);
    var rest := order.(remainingQty := m.remaining);
    assert FlipOrders(m.resting + [rest]) == FlipOrders(m.resting) + [FlipOrder(rest)];
    assert FlipEvents([entry] + TradeEvents(m.trades)) == [FlipEvent(entry)] + TradeEvents(FlipTrades(m.trades));
  }

  lemma {:induction false} FindFlips(resting: seq<Order>, id: OrderId)
    ensures Find(FlipOrders(resting), id) == Find(resting, id)
  {
    if resting != [] {
      var last := |resting| - 1;
      FindFlips(resting[..last], id);
      assert FlipOrders(resting)[..last] == FlipOrders(resting[..last]);
    }
  }

  lemma WithoutFlips(resting: seq<Order>, i: nat)
    requires i < |resting|
    ensures FlipOrders(Without(resting, i)) == Without(FlipOrders(resting), i)
  {
  }

  /** One command on the mirrored book is the mirror of the command on the book. */
  lemma StepFlips(book: Book, command: Command)
    ensures Step(FlipBook(book), FlipCommand(command)) == FlipOutcome(Step(book, command))
  {
    hide Match, Enter, Find;
    assert FlipEvents([]) == [] && FlipTrades([]) == [];
    match command
    case Add(order) =>
      EnterFlips(book.(seen := book.seen + {order.id}), order, OrderAccepted(order));
    case Cancel(id) =>
      FindFlips(book.resting, id);
      var f := Find(book.resting, id);
      if f.Some? {
        WithoutFlips(book.resting, f.value);
        assert FlipEvents([OrderCancelled(id)]) == [OrderCancelled(id)];
      }
    case Modify(id, price, quantity) =>
      FindFlips(book.resting, id);
      var f := Find(book.resting, id);
      if f.Some? {
        WithoutFlips(book.resting, f.value);
        EnterFlips(book.(resting := Without(book.resting, f.value)),
                   Order(id, book.resting[f.value].side, price, quantity), OrderModified(id, price, quantity));
      }
  }

  lemma EventsConcat(a: seq<BookEvent>, b: seq<BookEvent>)
    ensures FlipEvents(a + b) == FlipEvents(a) + FlipEvents(b)
  {
    hide FlipEvent;
  }

  /** Mirroring a whole command stream mirrors the final book and every event of its log. */
  lemma {:induction false} RunFlips(commands: seq<Command>)
    ensures Run(FlipCommands(commands)).book == FlipBook(Run(commands).book)
    ensures Run(FlipCommands(commands)).log == FlipEvents(Run(commands).log)
  {
    if commands == [] {
      assert FlipOrders([]) == [] && FlipEvents([]) == [];
    } else {
      hide Step, FlipEvents;
      var last := |commands| - 1;
      var st := Run(commands[..last]);
      var o := Step(st.book, commands[last]);
      RunFlips(commands[..last]);
      assert FlipCommands(commands)[..last] == FlipCommands(commands[..last]);
      StepFlips(st.book, commands[last]);
      EventsConcat(st.log, o.events);
    }
  }

  // ---- Snapshots ----

  function FlipLevels(levels: SN.Levels): (r: SN.Levels)
    ensures |r| == |levels|
    ensures forall i :: 0 <= i < |r| ==> r[i] == (FlipPrice(levels[i].0), FlipOrders(levels[i].1))
  {
    seq(|levels|, i requires 0 <= i < |levels| => (FlipPrice(levels[i].0), FlipOrders(levels[i].1)))
  }

  lemma {:induction false} LevelFlips(resting: seq<Order>, side: Side, price: Price)
    ensures LevelOrders(FlipOrders(resting), side.Opposite(), FlipPrice(price))
            == FlipOrders(LevelOrders(resting, side, price))
  {
    if resting == [] {
      assert FlipOrders([]) == [];
    } else {
      var last := |resting| - 1;
      var front := resting[..last];
      LevelFlips(front, side, price);
      assert FlipOrders(resting)[..last] == FlipOrders(front);
      var q := LevelOrders(front, side, price);
      assert FlipOrders(q + [resting[last]]) == FlipOrders(q) + [FlipOrder(resting[last])];
      assert FlipOrders(q + []) == FlipOrders(q) + [];
    }
  }

  lemma SideFlips(levels: SN.Levels, resting: seq<Order>, side: Side)
    requires SN.IsSide(levels, resting, side)
    ensures SN.IsSide(FlipLevels(levels), FlipOrders(resting), side.Opposite())
  {
    hide LevelOrders;
    var flipped := FlipLevels(levels);
    forall i | 0 <= i < |flipped|
      ensures flipped[i].1 == LevelOrders(FlipOrders(resting), side.Opposite(), flipped[i].0) && flipped[i].1 != []
    {
      LevelFlips(resting, side, levels[i].0);
    }
    forall i | 0 <= i < |resting| && FlipOrder(resting[i]).side == side.Opposite()
      ensures SN.HasPrice(flipped, FlipOrder(resting[i]).price)
    {
      assert resting[i] in resting;
      var k :| 0 <= k < |levels| && levels[k].0 == resting[i].price;
      assert flipped[k].0 == FlipOrder(resting[i]).price;
    }
  }

  /** The snapshot of the mirrored book is the mirrored snapshot with bids and asks exchanged. */
  lemma SnapshotFlips(commands: seq<Command>, s: BookSnapshot, t: BookSnapshot)
    requires SN.IsSnapshot(s, Run(commands).book.resting)
    requires SN.IsSnapshot(t, Run(FlipCommands(commands)).book.resting)
    ensures t == BookSnapshot(FlipLevels(s.asks), FlipLevels(s.bids))
  {
    var resting := Run(commands).book.resting;
    RunFlips(commands);
    SideFlips(s.bids, resting, Buy);
    SideFlips(s.asks, resting, Sell);
    SN.SnapshotUnique(t, BookSnapshot(FlipLevels(s.asks), FlipLevels(s.bids)), FlipOrders(resting));
  }

  // ---- Bounds ----

  lemma {:induction false} TotalFlips(orders: seq<Order>)
    ensures TotalQuantity(FlipOrders(orders)) == TotalQuantity(orders)
  {
    if orders != [] {
      var last := |orders| - 1;
      TotalFlips(orders[..last]);
      assert FlipOrders(orders)[..last] == FlipOrders(orders[..last]);
    }
  }

  /** Where a book overflows nothing, neither does the mirrored one. */
  lemma FitsFlips(resting: seq<Order>)
    requires Fits(resting)
    ensures Fits(FlipOrders(resting))
  {
    hide LevelOrders, TotalQuantity;
    forall side: Side, price: Price
      ensures TotalQuantity(LevelOrders(FlipOrders(resting), side, price)) <= U64_MAX
    {
      LevelFlips(resting, side.Opposite(), FlipPrice(price));
      TotalFlips(LevelOrders(resting, side.Opposite(), FlipPrice(price)));
    }
  }
}
