/** Order ids are single-use over every run, and trades name two different accepted orders. */
module SingleUse {
  import opened Domain
  import opened FlatBook
  import opened FlatBookInvariants

  /** The accepted ids of a log, in order. */
  function AcceptedIds(log: seq<BookEvent>): seq<OrderId> {
    if log == [] then []
    else
      var last := |log| - 1;
      AcceptedIds(log[..last]) + if log[last].OrderAccepted? then [log[last].order.id] else []
  }

  ghost predicate NoRepeats(ids: seq<OrderId>) {
    forall i, j :: 0 <= i < j < |ids| ==> ids[i] != ids[j]
  }

  /** Both sides of a trade were accepted earlier in the log, and they are different orders. */
  ghost predicate NamesEarlier(log: seq<BookEvent>, k: nat)
    requires k < |log| && log[k].TradeExecuted?
  {
    && log[k].trade.makerOrderId in AcceptedIds(log[..k])
    && log[k].trade.takerOrderId in AcceptedIds(log[..k])
    && log[k].trade.makerOrderId != log[k].trade.takerOrderId
  }

  lemma {:induction false} AcceptedConcat(a: seq<BookEvent>, b: seq<BookEvent>)
    ensures AcceptedIds(a + b) == AcceptedIds(a) + AcceptedIds(b)
  {
    if b == [] {
      assert a + b == a;
    } else {
      var last := |b| - 1;
      AcceptedConcat(a, b[..last]);
      assert (a + b)[..|a + b| - 1] == a + b[..last];
      assert (a + b)[|a + b| - 1] == b[last];
      var e := if b[last].OrderAccepted? then [b[last].order.id] else [];
      assert AcceptedIds(a) + (AcceptedIds(b[..last]) + e) == (AcceptedIds(a) + AcceptedIds(b[..last])) + e;
    }
  }

  lemma {:induction false} TradesAcceptNothing(trades: seq<Trade>)
    ensures AcceptedIds(TradeEvents(trades)) == []
  {
    if trades != [] {
      var last := |trades| - 1;
      TradesAcceptNothing(trades[..last]);
      assert TradeEvents(trades)[..last] == TradeEvents(trades[..last]);
    }
  }

  /** The ids accepted by the events of one command. */
  lemma AcceptedByStep(book: Book, command: Command)
    ensures AcceptedIds(Step(book, command).events)
            == if command.Add? && Step(book, command).result.Ok? then [command.order.id] else []
  {
    var o := Step(book, command);
    if o.result.Ok? {
      EventsOfStep(book, command);
      AcceptedConcat([EntryOf(command)], TradeEvents(o.result.value));
      TradesAcceptNothing(o.result.value);
      assert [EntryOf(command)][..0] == [];
    }
  }

  /** Every trade of a match names a resting order and the taker. */
  lemma {:induction false} MatchNames(resting: seq<Order>, taker: Order, t: Trade)
    requires t in Match(resting, taker).trades
    ensures t.takerOrderId == taker.id && exists o :: o in resting && o.id == t.makerOrderId
    decreases |resting|, taker.remainingQty
  {
    hide IsBest, Take;
    var i := Best(resting, taker).value;
    var q := Min(taker.remainingQty, resting[i].remainingQty);
    var left := Take(resting, i, q);
    var rest := Match(left, taker.(remainingQty := taker.remainingQty - q));
    var first := Trade(resting[i].id, taker.id, resting[i].price, q);
    assert Match(resting, taker).trades == [first] + rest.trades;
    if t in rest.trades {
      TakeSmaller(resting, taker, i);
      MatchNames(left, taker.(remainingQty := taker.remainingQty - q), t);
      var o :| o in left && o.id == t.makerOrderId;
      TakeIds(resting, i, q, o);
    } else {
      assert resting[i] in resting && resting[i].id == t.makerOrderId;
    }
  }

  lemma TakeIds(resting: seq<Order>, i: nat, q: Quantity, o: Order)
    requires i < |resting| && q <= resting[i].remainingQty && o in Take(resting, i, q)
    ensures exists b :: b in resting && b.id == o.id
  {
    if o in resting {
    } else {
      assert resting[i] in resting;
    }
  }

  /** The trades of one command name orders seen before it or accepted by it, and never an order with itself. */
  lemma StepNames(book: Book, command: Command, t: Trade)
    requires Wf(book) && Step(book, command).result.Ok? && t in Step(book, command).result.value
    ensures t.makerOrderId in book.seen && t.makerOrderId != t.takerOrderId
    ensures t.takerOrderId in book.seen || (command.Add? && t.takerOrderId == command.order.id)
  {
    match command
    case Add(order) =>
      MatchNames(book.resting, order, t);
    case Cancel(id) =>
    case Modify(id, price, quantity) =>
      var i := Find(book.resting, id).value;
      var left := Without(book.resting, i);
      MatchNames(left, Order(id, book.resting[i].side, price, quantity), t);
      CancelKeepsWf(book, i);
      assert book.resting[i] in book.resting;
  }

  /** The book remembers exactly the ids it accepts, and accepts none that it remembers. */
  lemma SeenByStep(book: Book, command: Command)
    ensures var fresh' := command.Add? && Step(book, command).result.Ok?;
            && Step(book, command).book.seen == book.seen + (if fresh' then {command.order.id} else {})
            && (fresh' ==> command.order.id !in book.seen)
  {
  }

  /** Accepted ids are pairwise distinct over every run, and the book remembers exactly those. */
  lemma {:induction false} AcceptedOnce(commands: seq<Command>)
    ensures NoRepeats(AcceptedIds(Run(commands).log))
    ensures forall id :: id in Run(commands).book.seen <==> id in AcceptedIds(Run(commands).log)
  {
    if commands != [] {
      var last := |commands| - 1;
      var st := Run(commands[..last]);
      AcceptedOnce(commands[..last]);
      AcceptedByStep(st.book, commands[last]);
      SeenByStep(st.book, commands[last]);
      hide Step;
      AcceptedConcat(st.log, Step(st.book, commands[last]).events);
    }
  }

  /**
   Exactly when a command is rejected after a run: an add without quantity or with an id accepted before, even
   if that order is long gone; a modify without quantity; a cancel or modify of an id that is not resting.
   */
  lemma RejectedExactlyWhen(commands: seq<Command>, command: Command)
    ensures var st := Run(commands);
            var result := Step(st.book, command).result;
            match command
            case Add(order) =>
              && (result == Err(ZeroQuantity) <==> order.remainingQty == 0)
              && (result == Err(DuplicateOrderId) <==> order.remainingQty > 0 && order.id in AcceptedIds(st.log))
              && result != Err(UnknownOrderId)
            case Cancel(id) =>
              && (result == Err(UnknownOrderId) <==> forall o :: o in st.book.resting ==> o.id != id)
              && result != Err(ZeroQuantity) && result != Err(DuplicateOrderId)
            case Modify(id, _, quantity) =>
              && (result == Err(ZeroQuantity) <==> quantity == 0)
              && (result == Err(UnknownOrderId) <==> quantity > 0 && forall o :: o in st.book.resting ==> o.id != id)
              && result != Err(DuplicateOrderId)
  {
    AcceptedOnce(commands);
    var resting := Run(commands).book.resting;
    match command
    case Add(order) =>
    case Cancel(id) =>
      var f := Find(resting, id);
      assert f.Some? ==> resting[f.value] in resting;
    case Modify(id, price, quantity) =>
      var f := Find(resting, id);
      assert f.Some? ==> resting[f.value] in resting;
  }

  /** No id rests twice, whatever was filled, cancelled or re-entered before, and every resting id was accepted. */
  lemma RestingIdsAccepted(commands: seq<Command>)
    ensures DistinctIds(Run(commands).book.resting)
    ensures forall o :: o in Run(commands).book.resting ==> o.id in AcceptedIds(Run(commands).log)
  {
    RunWf(commands);
    AcceptedOnce(commands);
  }

  /** Every trade of every run names two different orders, both accepted earlier in the log. */
  lemma {:induction false} TradesNameAccepted(commands: seq<Command>, k: nat)
    requires k < |Run(commands).log| && Run(commands).log[k].TradeExecuted?
    ensures NamesEarlier(Run(commands).log, k)
  {
    var last := |commands| - 1;
    var st := Run(commands[..last]);
    var o := Step(st.book, commands[last]);
    var log := st.log + o.events;
    if k < |st.log| {
      TradesNameAccepted(commands[..last], k);
      assert log[..k] == st.log[..k];
    } else {
      RunWf(commands[..last]);
      AcceptedOnce(commands[..last]);
      StepNamesEarlier(st, commands[last], k);
    }
  }

  lemma StepNamesEarlier(st: RunState, command: Command, k: nat)
    requires Wf(st.book) && forall id :: id in st.book.seen <==> id in AcceptedIds(st.log)
    requires var log := st.log + Step(st.book, command).events;
             |st.log| <= k < |log| && log[k].TradeExecuted?
    ensures NamesEarlier(st.log + Step(st.book, command).events, k)
  {
    OnlyAcceptedSteps(st.book, command);
    EventsOfStep(st.book, command);
    var entry, trades := EntryOf(command), Step(st.book, command).result.value;
    hide Step, Wf, AcceptedIds, TradeEvents, NamesEarlier, NamesKnown, EntryOf;
    forall t | t in trades
      ensures NamesKnown(st.log, entry, t)
    {
      StepNamesKnown(st, command, t);
    }
    EventsNameEarlier(st.log, entry, trades, k);
  }

  /** `t` names two different orders: the maker was accepted in `log`, and the taker too or by `entry`. */
  ghost predicate NamesKnown(log: seq<BookEvent>, entry: BookEvent, t: Trade) {
    && t.makerOrderId in AcceptedIds(log) && t.makerOrderId != t.takerOrderId
    && (t.takerOrderId in AcceptedIds(log) || (entry.OrderAccepted? && t.takerOrderId == entry.order.id))
  }

  lemma StepNamesKnown(st: RunState, command: Command, t: Trade)
    requires Wf(st.book) && forall id :: id in st.book.seen <==> id in AcceptedIds(st.log)
    requires Step(st.book, command).result.Ok? && t in Step(st.book, command).result.value
    ensures NamesKnown(st.log, EntryOf(command), t)
  {
    hide Step, Wf, AcceptedIds;
    StepNames(st.book, command, t);
  }

  lemma EventsNameEarlier(log: seq<BookEvent>, entry: BookEvent, trades: seq<Trade>, k: nat)
    requires !entry.TradeExecuted? && forall t :: t in trades ==> NamesKnown(log, entry, t)
    requires var all := log + ([entry] + TradeEvents(trades)); |log| <= k < |all| && all[k].TradeExecuted?
    ensures NamesEarlier(log + ([entry] + TradeEvents(trades)), k)
  {
    hide AcceptedIds, TradeEvents, NamesEarlier, NamesKnown;
    var n := TradePosition(log, entry, trades, k);
    assert trades[n] in trades;
    NamesAfterEntry(log, entry, trades, n);
  }

  /** A trade among the events of a command is one of the trades it returned. */
  lemma TradePosition(log: seq<BookEvent>, entry: BookEvent, trades: seq<Trade>, k: nat) returns (n: nat)
    requires !entry.TradeExecuted?
    requires var all := log + ([entry] + TradeEvents(trades)); |log| <= k < |all| && all[k].TradeExecuted?
    ensures n < |trades| && k == |log| + 1 + n
  {
    var all := log + ([entry] + TradeEvents(trades));
    assert all[|log|] == entry;
    n := k - |log| - 1;
  }

  lemma OnlyAcceptedSteps(book: Book, command: Command)
    requires Step(book, command).events != []
    ensures Step(book, command).result.Ok? && !EntryOf(command).TradeExecuted?
  {
  }

  /** What stands before the `n`-th trade of a command. */
  lemma BeforeTrade(log: seq<BookEvent>, entry: BookEvent, trades: seq<Trade>, n: nat)
    requires n < |trades|
    ensures var all := log + ([entry] + TradeEvents(trades));
            && |log| + 1 + n < |all| && all[|log| + 1 + n] == TradeExecuted(trades[n])
            && all[..|log| + 1 + n] == (log + [entry]) + TradeEvents(trades[..n])
  {
  }

  /** The ids accepted before the `n`-th trade of a command: those before the command, and its own. */
  lemma AcceptedBefore(log: seq<BookEvent>, entry: BookEvent, trades: seq<Trade>)
    ensures AcceptedIds((log + [entry]) + TradeEvents(trades))
            == AcceptedIds(log) + if entry.OrderAccepted? then [entry.order.id] else []
  {
    TradesAcceptNothing(trades);
    AcceptedConcat(log + [entry], TradeEvents(trades));
    AcceptedConcat(log, [entry]);
    assert [entry][..0] == [];
  }

  /** Seen from the `n`-th trade of a command, the orders it names were accepted earlier. */
  lemma NamesAfterEntry(log: seq<BookEvent>, entry: BookEvent, trades: seq<Trade>, n: nat)
    requires n < |trades| && NamesKnown(log, entry, trades[n])
    ensures var all := log + ([entry] + TradeEvents(trades));
            |log| + 1 + n < |all| && all[|log| + 1 + n].TradeExecuted? && NamesEarlier(all, |log| + 1 + n)
  {
    BeforeTrade(log, entry, trades, n);
    AcceptedBefore(log, entry, trades[..n]);
    hide AcceptedIds, TradeEvents;
  }
}
