/** Rebuilding a live order book from a log (src/replay/engine.rs). */
module Replay {
  import opened Domain
  import opened FlatBook
  import RS = ReplaySpec
  import Arena
  import BV = BookView
  import OB = OrderBook
  import Runner

  /** Replaying one more event, which overflows nothing. */
  lemma ReplayNext(events: seq<BookEvent>, i: nat)
    requires RS.ReplayFits(events) && i < |events| && RS.Replay(events[..i]).Ok?
    ensures RS.Replay(events[..i + 1]) == RS.ReplayEvent(RS.Replay(events[..i]).value, events[i])
    ensures RS.Replay(events[..i + 1]).Ok? ==> Fits(RS.Replay(events[..i + 1]).value.book.resting)
  {
    hide Fits;
    assert events[..i + 1][..i] == events[..i];
  }

  lemma {:induction false} ReplayStops(events: seq<BookEvent>, i: nat)
    requires i <= |events| && RS.Replay(events[..i]).Err?
    ensures RS.Replay(events) == RS.Replay(events[..i])
  {
    if i < |events| {
      var last := |events| - 1;
      assert events[..last][..i] == events[..i];
      ReplayStops(events[..last], i);
    } else {
      assert events[..i] == events;
    }
  }

  /**
   Replaying any log at all, even one no book produced, is running the commands its events ask for as a scenario: it
   ends in the same state or stops at the first rejected one with the same error.
   */
  lemma {:induction false} ReplayIsScenario(log: seq<BookEvent>)
    ensures RS.Replay(log) == Runner.Scenario(RS.CommandsOf(log))
  {
    if log != [] {
      hide Step, Runner.Scenario;
      var front, last := log[..|log| - 1], log[|log| - 1];
      ReplayIsScenario(front);
      match RS.CommandOf(last)
      case None =>
      case Some(command) => Runner.ScenarioNext(RS.CommandsOf(front), command);
    } else {
      assert RS.Replay(log) == Runner.Scenario([]);
    }
  }

  /** What `RS.ReplayEvent` does, on a live book. Trades change nothing. */
  method ApplyEvent(book: OB.OrderBook, event: BookEvent) returns (error: Option<OrderBookError>)
    requires book.Valid() && book.eventMode == Full
    requires var r := RS.ReplayEvent(RunState(book.Book(), book.events), event);
             r.Ok? ==> Fits(r.value.book.resting)
    modifies book, book.arena
    ensures book.Valid()
    ensures match old(RS.ReplayEvent(RunState(book.Book(), book.events), event))
            case Err(e) => error == Some(e)
            case Ok(st) => error.None? && st == RunState(book.Book(), book.events)
  {
    hide BV.Core, BV.NoEmptyLevel, Arena.Slab, Wf, Fits, Step;
    if event.TradeExecuted? {
      return None;
    }
    var r := Runner.ApplyCommand(book, RS.CommandOf(event).value);
    error := if r.Err? then Some(r.error) else None;
  }

  /** A live Full-mode book that ends where `RS.Replay` says, or the first error `RS.Replay` meets. */
  method ReplayEvents(events: seq<BookEvent>) returns (result: Result<OB.OrderBook, OrderBookError>)
    requires RS.ReplayFits(events)
    ensures match RS.Replay(events)
            case Err(e) => result == Err(e)
            case Ok(st) =>
              && result.Ok? && fresh(result.value) && fresh(result.value.arena)
              && result.value.Valid() && result.value.Book() == st.book && result.value.events == st.log
    ensures match Runner.Scenario(RS.CommandsOf(events))
            case Err(e) => result == Err(e)
            case Ok(st) => result.Ok? && result.value.Book() == st.book && result.value.events == st.log
  {
    ReplayIsScenario(events);
    assert RS.Replay([]) == Ok(RunState(EMPTY, []));
    hide BV.Core, BV.NoEmptyLevel, Arena.Slab, Wf, Fits, RS.Replay, RS.ReplayFits, RS.ReplayEvent;
    hide Runner.Scenario, RS.CommandsOf;
    var book := new OB.OrderBook(Full);
    for i := 0 to |events|
      invariant fresh(book) && fresh(book.arena) && book.eventMode == Full && book.Valid()
      invariant RS.Replay(events[..i]) == Ok(RunState(book.Book(), book.events))
    {
      ReplayNext(events, i);
      var error := ApplyEvent(book, events[i]);
      if error.Some? {
        ReplayStops(events, i + 1);
        return Err(error.value);
      }
    }
    assert events[..|events|] == events;
    result := Ok(book);
  }
}
