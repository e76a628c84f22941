/** What every command keeps: distinct ids, positive quantities, an uncrossed book; and single-use ids. */
module FlatBookInvariants {
  import opened Domain
  import opened FlatBook

  /** Each order of `after` is an order of `before`, possibly with less quantity. */
  ghost predicate Shrunk(before: seq<Order>, after: seq<Order>) {
    forall o :: o in after ==> exists b :: b in before && SameOrder(b, o)
  }

  ghost predicate SameOrder(b: Order, o: Order) {
    b.id == o.id && b.side == o.side && b.price == o.price && o.remainingQty <= b.remainingQty
  }

  lemma ShrunkRefl(a: seq<Order>)
    ensures Shrunk(a, a)
  {
    assert forall o :: o in a ==> SameOrder(o, o);
  }

  /** Each trade removes the maker or fills the taker, so matching terminates. */
  lemma TakeSmaller(resting: seq<Order>, taker: Order, i: nat)
    requires i < |resting| && !taker.IsFilled()
    ensures var q := Min(taker.remainingQty, resting[i].remainingQty);
            && (|Take(resting, i, q)| < |resting|
                || (|Take(resting, i, q)| == |resting| && q == taker.remainingQty))
  {
  }

  lemma ShrunkIds(a: seq<Order>, b: seq<Order>, id: OrderId)
    requires Shrunk(a, b) && forall o :: o in a ==> o.id != id
    ensures forall o :: o in b ==> o.id != id
  {
  }

  lemma ShrunkTrans(a: seq<Order>, b: seq<Order>, c: seq<Order>)
    requires Shrunk(a, b) && Shrunk(b, c)
    ensures Shrunk(a, c)
  {
    forall o | o in c
      ensures exists x :: x in a && SameOrder(x, o)
    {
      var y :| y in b && SameOrder(y, o);
      var x :| x in a && SameOrder(x, y);
      assert SameOrder(x, o);
    }
  }

  lemma WithoutMembers<T>(s: seq<T>, i: nat)
    requires i < |s|
    ensures forall x :: x in Without(s, i) ==> x in s
    ensures forall j :: 0 <= j < |s| && j != i ==> s[j] in Without(s, i)
  {
    var r := Without(s, i);
    forall j | 0 <= j < |s| && j != i
      ensures s[j] in r
    {
      if j < i { assert r[j] == s[j]; } else { assert r[j - 1] == s[j]; }
    }
  }

  lemma ShrunkUncrossed(a: seq<Order>, b: seq<Order>)
    requires Uncrossed(a) && Shrunk(a, b)
    ensures Uncrossed(b)
  {
    forall bid, ask | bid in b && ask in b && bid.side.Buy? && ask.side.Sell?
      ensures bid.price < ask.price
    {
      var x :| x in a && SameOrder(x, bid);
      var y :| y in a && SameOrder(y, ask);
    }
  }

  lemma WithoutIds(resting: seq<Order>, i: nat)
    requires i < |resting| && DistinctIds(resting)
    ensures DistinctIds(Without(resting, i))
    ensures forall o :: o in Without(resting, i) ==> o.id != resting[i].id
  {
    var r := Without(resting, i);
    assert forall j :: 0 <= j < |r| ==> r[j] == resting[if j < i then j else j + 1];
  }

  lemma WithoutSound(resting: seq<Order>, i: nat)
    requires i < |resting| && Sound(resting)
    ensures Sound(Without(resting, i)) && Shrunk(resting, Without(resting, i))
  {
    var r := Without(resting, i);
    WithoutIds(resting, i);
    WithoutMembers(resting, i);
    assert forall o :: o in r ==> SameOrder(o, o);
    ShrunkUncrossed(resting, r);
  }

  lemma TakeSound(resting: seq<Order>, i: nat, q: Quantity)
    requires i < |resting| && q <= resting[i].remainingQty && Sound(resting)
    ensures Sound(Take(resting, i, q)) && Shrunk(resting, Take(resting, i, q))
  {
    if q == resting[i].remainingQty {
      WithoutSound(resting, i);
    } else {
      var r := Take(resting, i, q);
      assert forall j :: 0 <= j < |r| ==> SameOrder(resting[j], r[j]);
      ShrunkUncrossed(resting, r);
    }
  }

  /** Matching keeps the book sound and leaves nothing behind that the taker still crosses. */
  lemma {:induction false} MatchSound(resting: seq<Order>, taker: Order)
    requires Sound(resting)
    ensures var m := Match(resting, taker);
            && Sound(m.resting) && Shrunk(resting, m.resting)
            && (m.remaining > 0 ==> forall o :: o in m.resting ==> !Crosses(taker, o))
    decreases |resting|, taker.remainingQty
  {
    hide Sound, Shrunk, Take, IsBest;
    var m := Match(resting, taker);
    ShrunkRefl(resting);
    if !taker.IsFilled() && Best(resting, taker).Some? {
      var i := Best(resting, taker).value;
      var q := Min(taker.remainingQty, resting[i].remainingQty);
      var left := Take(resting, i, q);
      var taker' := taker.(remainingQty := taker.remainingQty - q);
      TakeSound(resting, i, q);
      TakeSmaller(resting, taker, i);
      MatchSound(left, taker');
      ShrunkTrans(resting, left, m.resting);
      assert forall o :: Crosses(taker', o) <==> Crosses(taker, o);
    }
  }

  /**
   A buy pays at most its limit and a sell gets at least its limit in every trade; and something of the order is left
   only if everybody on the other side is beyond the limit.
   */
  lemma {:induction false} MatchWithinLimit(resting: seq<Order>, taker: Order)
    ensures WithinLimit(taker.side, taker.price, Match(resting, taker).trades)
    ensures Match(resting, taker).remaining > 0
            ==> BeyondLimit(taker.side, taker.price, Match(resting, taker).resting)
    decreases |resting|, taker.remainingQty
  {
    hide Match, Best, IsBest, Take, WithinLimit, BeyondLimit;
    if taker.IsFilled() || Best(resting, taker).None? {
      MatchesNobody(resting, taker);
    } else {
      var i := Best(resting, taker).value;
      var q := Min(taker.remainingQty, resting[i].remainingQty);
      var left := taker.(remainingQty := taker.remainingQty - q);
      MatchStep(resting, taker, i);
      TakeSmaller(resting, taker, i);
      BestWithinLimit(resting, taker, i);
      MatchWithinLimit(Take(resting, i, q), left);
      LimitPush(taker.side, taker.price, Trade(resting[i].id, taker.id, resting[i].price, q),
                Match(Take(resting, i, q), left).trades);
    }
  }

  lemma MatchesNobody(resting: seq<Order>, taker: Order)
    requires taker.IsFilled() || Best(resting, taker).None?
    ensures WithinLimit(taker.side, taker.price, Match(resting, taker).trades)
    ensures Match(resting, taker).remaining > 0
            ==> BeyondLimit(taker.side, taker.price, Match(resting, taker).resting)
  {
    hide Best;
  }

  lemma BestWithinLimit(resting: seq<Order>, taker: Order, i: nat)
    requires Best(resting, taker) == Some(i)
    ensures if taker.side.Buy? then resting[i].price <= taker.price else resting[i].price >= taker.price
  {
    hide Best;
  }

  lemma LimitPush(side: Side, limit: Price, t: Trade, trades: seq<Trade>)
    requires WithinLimit(side, limit, trades) && if side.Buy? then t.price <= limit else t.price >= limit
    ensures WithinLimit(side, limit, [t] + trades)
  {
  }

  /** The trades of a new order, and of a modified one at its new price, are within the limit. */
  lemma StepWithinLimit(book: Book, command: Command)
    requires Step(book, command).result.Ok?
    ensures var trades := Step(book, command).result.value;
            match command
            case Add(order) => WithinLimit(order.side, order.price, trades)
            case Cancel(_) => trades == []
            case Modify(id, price, _) => WithinNewLimit(book.resting, id, price, trades)
  {
    hide Match, WithinLimit, Find;
    match command
    case Add(order) =>
      MatchWithinLimit(book.resting, order);
    case Cancel(_) =>
    case Modify(id, price, quantity) =>
      var i := Find(book.resting, id).value;
      var o := book.resting[i];
      assert o in book.resting && o.id == id;
      MatchWithinLimit(Without(book.resting, i), Order(id, o.side, price, quantity));
  }

  /** An order that crosses nothing may join the book. */
  lemma AppendSound(resting: seq<Order>, order: Order)
    requires Sound(resting) && order.remainingQty > 0
    requires forall o :: o in resting ==> o.id != order.id && !Crosses(order, o)
    ensures Sound(resting + [order])
  {
    var r := resting + [order];
    assert forall o :: o in r ==> o in resting || o == order;
  }

  lemma EnterKeepsWf(book: Book, order: Order, entry: BookEvent)
    requires Wf(book) && order.remainingQty > 0 && order.id in book.seen
    requires forall o :: o in book.resting ==> o.id != order.id
    ensures Wf(Enter(book, order, entry).book)
  {
    hide Match, Sound;
    var m := Match(book.resting, order);
    MatchSound(book.resting, order);
    forall o | o in m.resting
      ensures o.id in book.seen && o.id != order.id
    {
      var b :| b in book.resting && SameOrder(b, o);
    }
    if m.remaining > 0 {
      var rest := order.(remainingQty := m.remaining);
      assert forall o :: o in m.resting ==> Crosses(rest, o) == Crosses(order, o);
      AppendSound(m.resting, rest);
    }
  }

  lemma CancelKeepsWf(book: Book, i: nat)
    requires Wf(book) && i < |book.resting|
    ensures Wf(book.(resting := Without(book.resting, i)))
    ensures forall o :: o in Without(book.resting, i) ==> o.id != book.resting[i].id
  {
    WithoutSound(book.resting, i);
    WithoutIds(book.resting, i);
    WithoutMembers(book.resting, i);
  }

  /** Every command, accepted or rejected, keeps the book well-formed; in particular uncrossed. */
  lemma StepKeepsWf(book: Book, command: Command)
    requires Wf(book)
    ensures Wf(Step(book, command).book)
    ensures book.seen <= Step(book, command).book.seen
  {
    match command
    case Add(order) =>
      if AddOrder(book, order).result.Ok? {
        EnterKeepsWf(book.(seen := book.seen + {order.id}), order, OrderAccepted(order));
      }
    case Cancel(id) =>
      var f := Find(book.resting, id);
      if f.Some? { CancelKeepsWf(book, f.value); }
    case Modify(id, price, quantity) =>
      var f := Find(book.resting, id);
      if quantity > 0 && f.Some? {
        CancelKeepsWf(book, f.value);
        EnterKeepsWf(book.(resting := Without(book.resting, f.value)),
                     Order(id, book.resting[f.value].side, price, quantity), OrderModified(id, price, quantity));
      }
  }

  lemma {:induction false} RunWf(commands: seq<Command>)
    ensures Wf(Run(commands).book)
  {
    if commands != [] {
      var last := |commands| - 1;
      RunWf(commands[..last]);
      StepKeepsWf(Run(commands[..last]).book, commands[last]);
    }
  }

  /** Whatever commands a fresh book is given, its best bid stays strictly below its best ask. */
  lemma NeverCrossed(commands: seq<Command>, bid: Order, ask: Order)
    requires bid in Run(commands).book.resting && bid.side.Buy?
    requires ask in Run(commands).book.resting && ask.side.Sell?
    ensures bid.price < ask.price
  {
    RunWf(commands);
  }

  /** The event that asks for a command. */
  function EntryOf(command: Command): BookEvent {
    match command
    case Add(order) => OrderAccepted(order)
    case Cancel(id) => OrderCancelled(id)
    case Modify(id, price, quantity) => OrderModified(id, price, quantity)
  }

  /** An accepted command logs the event that asks for it first, and then exactly the trades it returns. */
  lemma EventsOfStep(book: Book, command: Command)
    requires Step(book, command).result.Ok?
    ensures Step(book, command).events == [EntryOf(command)] + TradeEvents(Step(book, command).result.value)
  {
    hide Match, Rest;
    if command.Cancel? {
      assert TradeEvents([]) == [];
    }
  }

  /**
   A modify is a cancel followed by adding the order anew, as if its id were free again: it trades like a new
   order, and whatever does not trade at once stands behind everything that was resting.
   */
  lemma ModifyIsReentry(book: Book, id: OrderId, price: Price, quantity: Quantity)
    requires Wf(book) && ModifyOrder(book, id, price, quantity).result.Ok?
    ensures CancelOrder(book, id).result.Ok?
    ensures var cancelled := CancelOrder(book, id).book;
            var side := book.resting[Find(book.resting, id).value].side;
            var added := AddOrder(cancelled.(seen := cancelled.seen - {id}), Order(id, side, price, quantity));
            var modified := ModifyOrder(book, id, price, quantity);
            && modified.result == added.result && modified.book == added.book
            && (forall o :: o in modified.book.resting && o.id == id
                            ==> o == modified.book.resting[|modified.book.resting| - 1])
  {
    var i := Find(book.resting, id).value;
    var left := Without(book.resting, i);
    var order := Order(id, book.resting[i].side, price, quantity);
    CancelKeepsWf(book, i);
    assert book.resting[i] in book.resting;
    assert (book.seen - {id}) + {id} == book.seen;
    MatchSound(left, order);
    hide Match, Sound, Shrunk, IsBest;
    ShrunkIds(left, Match(left, order).resting, id);
  }

  /** A rejected command changes nothing and is not logged. */
  lemma RejectedChangesNothing(book: Book, command: Command)
    requires Step(book, command).result.Err?
    ensures Step(book, command).book == book && Step(book, command).events == []
  {
  }
}
