/** Quantity is neither created nor lost over any run. */
module Conservation {
  import opened Domain
  import opened FlatBook
  import opened FlatBookInvariants

  function TradedQuantity(trades: seq<Trade>): nat {
    if trades == [] then 0 else trades[0].quantity + TradedQuantity(trades[1..])
  }

  /** What an accepted command brings into the book: the size of a new order, or the new size of a modified one. */
  function Entering(book: Book, command: Command): nat {
    if Step(book, command).result.Err? then 0
    else
      match command
      case Add(order) => order.remainingQty
      case Cancel(_) => 0
      case Modify(_, _, quantity) => quantity
  }

  /** What an accepted command withdraws: the remainder of the order it cancels or replaces. */
  function Leaving(book: Book, command: Command): nat {
    if Step(book, command).result.Err? then 0
    else
      match command
      case Add(_) => 0
      case Cancel(id) => RemainderOf(book, id)
      case Modify(id, _, _) => RemainderOf(book, id)
  }

  function RemainderOf(book: Book, id: OrderId): nat {
    match Find(book.resting, id)
    case None => 0
    case Some(i) => book.resting[i].remainingQty
  }

  function Trading(book: Book, command: Command): nat {
    match Step(book, command).result
    case Err(_) => 0
    case Ok(trades) => TradedQuantity(trades)
  }

  datatype Flow = Flow(entered: nat, left: nat, traded: nat)

  /** Totals over a whole run. */
  function RunFlow(commands: seq<Command>): Flow {
    if commands == [] then Flow(0, 0, 0)
    else
      var last := |commands| - 1;
      var f := RunFlow(commands[..last]);
      var book := Run(commands[..last]).book;
      Flow(f.entered + Entering(book, commands[last]), f.left + Leaving(book, commands[last]),
           f.traded + Trading(book, commands[last]))
  }

  lemma {:induction false} TotalWithout(orders: seq<Order>, i: nat)
    requires i < |orders|
    ensures TotalQuantity(orders) == TotalQuantity(Without(orders, i)) + orders[i].remainingQty
  {
    var last := |orders| - 1;
    if i == last {
      assert Without(orders, i) == orders[..last];
    } else {
      TotalWithout(orders[..last], i);
      assert Without(orders, i)[..last - 1] == Without(orders[..last], i);
      assert Without(orders, i)[last - 1] == orders[last];
    }
  }

  lemma {:induction false} TotalUpdate(orders: seq<Order>, i: nat, order: Order)
    requires i < |orders|
    ensures TotalQuantity(orders[i := order]) == TotalQuantity(orders) - orders[i].remainingQty + order.remainingQty
  {
    var last := |orders| - 1;
    if i == last {
      assert orders[i := order][..last] == orders[..last];
    } else {
      TotalUpdate(orders[..last], i, order);
      assert orders[i := order][..last] == orders[..last][i := order];
    }
  }

  lemma TotalPush(orders: seq<Order>, order: Order)
    ensures TotalQuantity(orders + [order]) == TotalQuantity(orders) + order.remainingQty
  {
    assert (orders + [order])[..|orders|] == orders;
  }

  lemma TotalTake(resting: seq<Order>, i: nat, q: Quantity)
    requires i < |resting| && q <= resting[i].remainingQty
    ensures TotalQuantity(Take(resting, i, q)) == TotalQuantity(resting) - q
  {
    if q == resting[i].remainingQty {
      TotalWithout(resting, i);
    } else {
      TotalUpdate(resting, i, resting[i].(remainingQty := resting[i].remainingQty - q));
    }
  }

  /** A trade takes its quantity once from the maker and once from the taker. */
  lemma {:induction false} MatchConserves(resting: seq<Order>, taker: Order)
    ensures var m := Match(resting, taker);
            TotalQuantity(resting) + taker.remainingQty
            == TotalQuantity(m.resting) + m.remaining + 2 * TradedQuantity(m.trades)
    decreases |resting|, taker.remainingQty
  {
    hide TotalQuantity, Take, IsBest;
    if !taker.IsFilled() && Best(resting, taker).Some? {
      var i := Best(resting, taker).value;
      var q := Min(taker.remainingQty, resting[i].remainingQty);
      var left := taker.(remainingQty := taker.remainingQty - q);
      var rest := Match(Take(resting, i, q), left);
      TotalTake(resting, i, q);
      TakeSmaller(resting, taker, i);
      MatchConserves(Take(resting, i, q), left);
      assert Match(resting, taker).trades[1..] == rest.trades;
    }
  }

  lemma EnterConserves(resting: seq<Order>, order: Order)
    ensures var m := Match(resting, order);
            TotalQuantity(resting) + order.remainingQty
            == TotalQuantity(Rest(m, order)) + 2 * TradedQuantity(m.trades)
  {
    var m := Match(resting, order);
    MatchConserves(resting, order);
    TotalPush(m.resting, order.(remainingQty := m.remaining));
  }

  lemma StepConserves(book: Book, command: Command)
    ensures TotalQuantity(book.resting) + Entering(book, command)
            == TotalQuantity(Step(book, command).book.resting) + Leaving(book, command) + 2 * Trading(book, command)
  {
    hide TotalQuantity, Match, Rest;
    match command
    case Add(order) =>
      EnterConserves(book.resting, order);
    case Cancel(id) =>
      var f := Find(book.resting, id);
      if f.Some? { TotalWithout(book.resting, f.value); }
    case Modify(id, price, quantity) =>
      var f := Find(book.resting, id);
      if quantity > 0 && f.Some? {
        TotalWithout(book.resting, f.value);
        EnterConserves(Without(book.resting, f.value), Order(id, book.resting[f.value].side, price, quantity));
      }
  }

  /**
   Over every run: what entered is what was withdrawn, plus what still rests, plus twice what was traded.
   */
  lemma {:induction false} RunConserves(commands: seq<Command>)
    ensures var f := RunFlow(commands);
            f.entered == f.left + TotalQuantity(Run(commands).book.resting) + 2 * f.traded
  {
    if commands != [] {
      var last := |commands| - 1;
      RunConserves(commands[..last]);
      StepConserves(Run(commands[..last]).book, commands[last]);
    }
  }
}
