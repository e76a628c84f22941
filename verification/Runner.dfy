/**
 Commands on a live book: the scenario runner (src/simulator/runner.rs), and how many arena entries a run needs.
 */
module Runner {
  import opened Domain
  import opened FlatBook
  import EventModes
  import opened FlatBookInvariants
  import Arena
  import BV = BookView
  import OB = OrderBook

  // ---- Scenarios stop at the first rejected command ----

  function Scenario(commands: seq<Command>): Result<RunState, OrderBookError> {
    if commands == [] then Ok(RunState(EMPTY, []))
    else
      var last := |commands| - 1;
      match Scenario(commands[..last])
      case Err(e) => Err(e)
      case Ok(st) =>
        var o := Step(st.book, commands[last]);
        match o.result
        case Err(e) => Err(e)
        case Ok(_) => Ok(RunState(o.book, st.log + o.events))
  }

  /** As long as commands are accepted, no level total and no slot number overflows. */
  ghost predicate ScenarioFits(commands: seq<Command>) {
    forall k :: 0 <= k <= |commands| && Scenario(commands[..k]).Ok? ==> Fits(Scenario(commands[..k]).value.book.resting)
  }

  lemma ScenarioPush(commands: seq<Command>, i: nat)
    requires i < |commands| && Scenario(commands[..i]).Ok?
    ensures var st, o := Scenario(commands[..i]).value, Step(Scenario(commands[..i]).value.book, commands[i]);
            Scenario(commands[..i + 1])
            == match o.result
               case Err(e) => Err(e)
               case Ok(_) => Ok(RunState(o.book, st.log + o.events))
  {
    assert commands[..i + 1][..i] == commands[..i];
  }

  lemma {:induction false} ScenarioStops(commands: seq<Command>, i: nat)
    requires i <= |commands| && Scenario(commands[..i]).Err?
    ensures Scenario(commands) == Scenario(commands[..i])
  {
    hide Step;
    if i < |commands| {
      var last := |commands| - 1;
      assert commands[..last][..i] == commands[..i];
      ScenarioStops(commands[..last], i);
    } else {
      assert commands[..i] == commands;
    }
  }

  /** A scenario that succeeds is the run in which nothing was rejected. */
  lemma {:induction false} ScenarioIsRun(commands: seq<Command>)
    requires Scenario(commands).Ok?
    ensures Scenario(commands).value == Run(commands)
  {
    if commands != [] {
      ScenarioIsRun(commands[..|commands| - 1]);
    }
  }

  /** As long as a scenario has succeeded, its next command decides whether it goes on. */
  lemma ScenarioNext(commands: seq<Command>, command: Command)
    ensures Scenario(commands + [command])
            == match Scenario(commands)
               case Err(e) => Err(e)
               case Ok(st) =>
                 var o := Step(st.book, command);
                 match o.result
                 case Err(e) => Err(e)
                 case Ok(_) => Ok(RunState(o.book, st.log + o.events))
  {
    hide Step;
    assert (commands + [command])[..|commands|] == commands;
  }

  /** The largest number of orders resting after any prefix of a run. */
  function Peak(commands: seq<Command>): nat {
    if commands == [] then 0
    else Max(Peak(commands[..|commands| - 1]), |Run(commands).book.resting|)
  }

  lemma {:induction false} PeakIsLargest(commands: seq<Command>)
    ensures forall k :: 0 <= k <= |commands| ==> |Run(commands[..k]).book.resting| <= Peak(commands)
    ensures exists k :: 0 <= k <= |commands| && |Run(commands[..k]).book.resting| == Peak(commands)
  {
    assert commands[..|commands|] == commands;
    if commands != [] {
      hide Run;
      var front := commands[..|commands| - 1];
      PeakIsLargest(front);
      forall k | 0 <= k <= |commands|
        ensures |Run(commands[..k]).book.resting| <= Peak(commands)
      {
        if k < |commands| { assert front[..k] == commands[..k]; }
      }
      if Peak(commands) == Peak(front) {
        var k :| 0 <= k <= |front| && |Run(front[..k]).book.resting| == Peak(front);
        assert front[..k] == commands[..k];
      }
    }
  }

  lemma PeakPush(commands: seq<Command>, i: nat)
    requires i < |commands|
    ensures Peak(commands[..i + 1]) == Max(Peak(commands[..i]), |Run(commands[..i + 1]).book.resting|)
  {
    assert commands[..i + 1][..i] == commands[..i];
  }

  /** The trades a command returns are the trades among its events. */
  lemma TradesOfStep(book: Book, command: Command, log: seq<BookEvent>, trades: seq<Trade>)
    requires Step(book, command).result.Ok? && TradeEvents(trades) == OnlyTrades(log)
    ensures TradeEvents(trades + Step(book, command).result.value) == OnlyTrades(log + Step(book, command).events)
  {
    var more := Step(book, command).result.value;
    EventsOfStep(book, command);
    hide Step, OnlyTrades, TradeEvents, EntryOf;
    TradesOfEvents(log, EntryOf(command), more);
    TradeEventsConcat(trades, more);
  }

  lemma TradesOfEvents(log: seq<BookEvent>, entry: BookEvent, more: seq<Trade>)
    requires !entry.TradeExecuted?
    ensures OnlyTrades(log + ([entry] + TradeEvents(more))) == OnlyTrades(log) + TradeEvents(more)
  {
    hide OnlyTrades, TradeEvents;
    EventModes.OnlyTradesConcat(log, [entry] + TradeEvents(more));
    EventModes.OnlyTradesConcat([entry], TradeEvents(more));
    EventModes.OnlyTradesOfTrades(more);
    EventModes.ObserveOne(TradesOnly, entry);
  }

  lemma NothingYet()
    ensures Scenario([]) == Ok(RunState(EMPTY, [])) && OnlyTrades([]) == TradeEvents([]) == [] && Peak([]) == 0
  {
  }

  datatype ScenarioResult = ScenarioResult(book: OB.OrderBook, trades: seq<Trade>, events: seq<BookEvent>)

  /** What `Step` says, on a live book in any mode. */
  method ApplyCommand(book: OB.OrderBook, command: Command) returns (result: Result<seq<Trade>, OrderBookError>)
    requires book.Valid() && (Step(book.Book(), command).result.Ok? ==> Fits(Step(book.Book(), command).book.resting))
    modifies book, book.arena
    ensures book.Valid()
    ensures var o := old(Step(book.Book(), command));
            && book.Book() == o.book && result == o.result
            && book.events == old(book.events) + Observe(book.eventMode, o.events)
    ensures |book.arena.entries| == Max(old(|book.arena.entries|), |book.Resting()|)
  {
    hide BV.Core, BV.NoEmptyLevel, Arena.Slab, Wf, Fits;
    book.CurrentFits();
    if Step(book.Book(), command).result.Err? {
      RejectedChangesNothing(book.Book(), command);
    }
    match command
    case Add(order) => result := book.AddOrder(order);
    case Cancel(id) =>
      var r := book.CancelOrder(id);
      result := match r case Ok(_) => Ok([]) case Err(e) => Err(e);
    case Modify(id, price, quantity) => result := book.ModifyOrder(id, price, quantity);
  }

  /** A live Full-mode book that ends where `Scenario` says, or the first error `Scenario` meets. */
  method RunScenario(commands: seq<Command>) returns (result: Result<ScenarioResult, OrderBookError>)
    requires ScenarioFits(commands)
    ensures match Scenario(commands)
            case Err(e) => result == Err(e)
            case Ok(st) =>
              && result.Ok? && fresh(result.value.book) && fresh(result.value.book.arena)
              && result.value.book.Valid() && result.value.book.Book() == st.book
              && result.value.events == st.log == result.value.book.events
              && TradeEvents(result.value.trades) == OnlyTrades(result.value.events)
              && |result.value.book.arena.entries| == Peak(commands)
  {
    hide BV.Core, BV.NoEmptyLevel, Arena.Slab, Wf, Fits, Step, Scenario, Run, Peak, OnlyTrades, TradeEvents;
    NothingYet();
    var book := new OB.OrderBook(Full);
    var allTrades := [];
    for i := 0 to |commands|
      invariant fresh(book) && fresh(book.arena) && book.eventMode == Full && book.Valid()
      invariant Scenario(commands[..i]) == Ok(RunState(book.Book(), book.events))
      invariant TradeEvents(allTrades) == OnlyTrades(book.events)
      invariant |book.arena.entries| == Peak(commands[..i])
    {
      ScenarioPush(commands, i);
      ScenarioIsRun(commands[..i]);
      ghost var before, log := book.Book(), book.events;
      var r := ApplyCommand(book, commands[i]);
      if r.Err? {
        ScenarioStops(commands, i + 1);
        return Err(r.error);
      }
      TradesOfStep(before, commands[i], log, allTrades);
      allTrades := allTrades + r.value;
      ScenarioIsRun(commands[..i + 1]);
      PeakPush(commands, i);
    }
    assert commands[..|commands|] == commands;
    result := Ok(ScenarioResult(book, allTrades, book.events));
  }
}
