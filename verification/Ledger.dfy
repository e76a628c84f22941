/**
 An independent reconstruction of the book from its full event log. Unlike replay it never matches: it
 believes the trade events. It agrees with the live book after every command, which depends on the book
 logging an acceptance or a modification before the trades it causes.
 */
module Ledger {
  import opened Domain
  import opened FlatBook
  import opened FlatBookInvariants

  /** Subtract a traded quantity from the order called `id`, dropping it when nothing is left. */
  function Reduce(ledger: seq<Order>, id: OrderId, q: Quantity): seq<Order> {
    match Find(ledger, id)
    case None => ledger
    case Some(i) =>
      if ledger[i].remainingQty <= q then Without(ledger, i)
      else ledger[i := ledger[i].(remainingQty := ledger[i].remainingQty - q)]
  }

  function Apply(ledger: seq<Order>, event: BookEvent): seq<Order> {
    match event
    case OrderAccepted(order) => ledger + [order]
    case OrderCancelled(id) =>
      (match Find(ledger, id)
       case None => ledger
       case Some(i) => Without(ledger, i))
    case OrderModified(id, price, quantity) =>
      (match Find(ledger, id)
       case None => ledger
       case Some(i) => Without(ledger, i) + [Order(id, ledger[i].side, price, quantity)])
    case TradeExecuted(t) => Reduce(Reduce(ledger, t.makerOrderId, t.quantity), t.takerOrderId, t.quantity)
  }

  function Fold(ledger: seq<Order>, events: seq<BookEvent>): seq<Order> {
    if events == [] then ledger
    else Apply(Fold(ledger, events[..|events| - 1]), events[|events| - 1])
  }

  lemma {:induction false} FoldConcat(ledger: seq<Order>, a: seq<BookEvent>, b: seq<BookEvent>)
    ensures Fold(ledger, a + b) == Fold(Fold(ledger, a), b)
  {
    hide Apply;
    if b == [] {
      assert a + b == a;
    } else {
      var last := |b| - 1;
      FoldConcat(ledger, a, b[..last]);
      assert (a + b)[..|a + b| - 1] == a + b[..last];
      assert (a + b)[|a + b| - 1] == b[last];
    }
  }

  lemma FoldOne(ledger: seq<Order>, event: BookEvent)
    ensures Fold(ledger, [event]) == Apply(ledger, event)
  {
    assert [event][..0] == [];
  }

  lemma FoldNone(ledger: seq<Order>)
    ensures Fold(ledger, TradeEvents([])) == ledger
  {
  }

  lemma FindLast(front: seq<Order>, order: Order)
    ensures Find(front + [order], order.id) == Some(|front|)
  {
  }

  lemma FindAt(front: seq<Order>, order: Order, i: nat)
    requires DistinctIds(front) && i < |front| && front[i].id != order.id
    ensures Find(front, front[i].id) == Some(i)
    ensures Find(front + [order], front[i].id) == Some(i)
  {
    var id := front[i].id;
    assert (front + [order])[..|front|] == front;
    assert front[i] in front;
  }

  lemma ReduceMaker(resting: seq<Order>, taker: Order, i: nat, q: Quantity)
    requires DistinctIds(resting) && i < |resting| && resting[i].id != taker.id && q <= resting[i].remainingQty
    ensures Reduce(resting + [taker], resting[i].id, q) == Take(resting, i, q) + [taker]
  {
    hide Find;
    FindAt(resting, taker, i);
    assert (resting + [taker])[i] == resting[i];
    assert Without(resting + [taker], i) == Without(resting, i) + [taker];
  }

  lemma ReduceTaker(front: seq<Order>, taker: Order, q: Quantity)
    requires q <= taker.remainingQty
    ensures var left := taker.(remainingQty := taker.remainingQty - q);
            Reduce(front + [taker], taker.id, q) == front + if left.IsFilled() then [] else [left]
  {
    hide Find;
    FindLast(front, taker);
    assert (front + [taker])[|front|] == taker;
    assert Without(front + [taker], |front|) == front + [];
  }

  /** One trade with the best maker, seen from the ledger, where the taker stands at the back. */
  lemma ApplyTrade(resting: seq<Order>, taker: Order, i: nat)
    requires Sound(resting) && !taker.IsFilled() && i < |resting|
    requires forall o :: o in resting ==> o.id != taker.id
    ensures var q := Min(taker.remainingQty, resting[i].remainingQty);
            var left := taker.(remainingQty := taker.remainingQty - q);
            Apply(resting + [taker], TradeExecuted(Trade(resting[i].id, taker.id, resting[i].price, q)))
            == Take(resting, i, q) + if left.IsFilled() then [] else [left]
  {
    hide Reduce, Take;
    var q := Min(taker.remainingQty, resting[i].remainingQty);
    assert resting[i] in resting;
    ReduceMaker(resting, taker, i, q);
    ReduceTaker(Take(resting, i, q), taker, q);
  }

  /** Folding the trades of a taker that stands at the back of the ledger does what matching does. */
  lemma {:induction false} FoldTrades(resting: seq<Order>, taker: Order)
    requires Sound(resting) && !taker.IsFilled()
    requires forall o :: o in resting ==> o.id != taker.id
    ensures Fold(resting + [taker], TradeEvents(Match(resting, taker).trades)) == Rest(Match(resting, taker), taker)
    decreases |resting|, taker.remainingQty
  {
    hide Sound, Apply, Best, IsBest, Take, Fold, TradeEvents;
    if Best(resting, taker).Some? {
      var i := Best(resting, taker).value;
      var q := Min(taker.remainingQty, resting[i].remainingQty);
      var left := taker.(remainingQty := taker.remainingQty - q);
      var rest := Match(Take(resting, i, q), left);
      var t := Trade(resting[i].id, taker.id, resting[i].price, q);
      MatchStep(resting, taker, i);
      ApplyTrade(resting, taker, i);
      TakeSound(resting, i, q);
      TakeSmaller(resting, taker, i);
      ShrunkIds(resting, Take(resting, i, q), taker.id);
      FoldOne(resting + [taker], TradeExecuted(t));
      FoldConcat(resting + [taker], [TradeExecuted(t)], TradeEvents(rest.trades));
      TradeEventsPush(rest.trades, t);
      if left.IsFilled() {
        assert Take(resting, i, q) + [] == Take(resting, i, q);
        FoldNone(Take(resting, i, q));
      } else {
        FoldTrades(Take(resting, i, q), left);
      }
    } else {
      FoldNone(resting + [taker]);
    }
  }

  /** The events of one command turn the ledger of the book before it into that of the book after it. */
  lemma FoldStep(book: Book, command: Command)
    requires Wf(book)
    ensures Fold(book.resting, Step(book, command).events) == Step(book, command).book.resting
  {
    var o := Step(book, command);
    match command
    case Add(order) =>
      if o.result.Ok? {
        FoldEntry(book.resting, book.resting, order, OrderAccepted(order));
      }
    case Cancel(id) =>
      if o.result.Ok? {
        FoldOne(book.resting, OrderCancelled(id));
      }
    case Modify(id, price, quantity) =>
      if o.result.Ok? {
        var i := Find(book.resting, id).value;
        CancelKeepsWf(book, i);
        FoldEntry(book.resting, Without(book.resting, i), Order(id, book.resting[i].side, price, quantity),
                  OrderModified(id, price, quantity));
      }
  }

  lemma FoldEntry(ledger: seq<Order>, resting: seq<Order>, order: Order, entry: BookEvent)
    requires Sound(resting) && !order.IsFilled()
    requires forall o :: o in resting ==> o.id != order.id
    requires Apply(ledger, entry) == resting + [order]
    ensures Fold(ledger, [entry] + TradeEvents(Match(resting, order).trades)) == Rest(Match(resting, order), order)
  {
    FoldTrades(resting, order);
    FoldOne(ledger, entry);
    FoldConcat(ledger, [entry], TradeEvents(Match(resting, order).trades));
  }

  /**
   After any commands, accepted or rejected, the ledger of the log is the live book: the same orders, the
   same remaining quantities, in the same order of arrival.
   */
  lemma {:induction false} LedgerIsBook(commands: seq<Command>)
    ensures Fold([], Run(commands).log) == Run(commands).book.resting
  {
    if commands != [] {
      var last := |commands| - 1;
      var st := Run(commands[..last]);
      LedgerIsBook(commands[..last]);
      RunWf(commands[..last]);
      FoldStep(st.book, commands[last]);
      FoldConcat([], st.log, Step(st.book, commands[last]).events);
    }
  }
}
