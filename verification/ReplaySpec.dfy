/** Replaying a log re-runs its commands and ignores its trades (src/replay/engine.rs). */
module ReplaySpec {
  import opened Domain
  import opened FlatBook
  import opened FlatBookInvariants

  /** The command an event asks for, if it is not a trade. */
  function CommandOf(event: BookEvent): Option<Command> {
    match event
    case OrderAccepted(order) => Some(Add(order))
    case OrderCancelled(id) => Some(Cancel(id))
    case OrderModified(id, price, quantity) => Some(Modify(id, price, quantity))
    case TradeExecuted(_) => None
  }

  /** One event of a log applied to a book: its new book and log, or the first error. */
  function ReplayEvent(st: RunState, event: BookEvent): Result<RunState, OrderBookError> {
    match CommandOf(event)
    case None => Ok(st)
    case Some(command) =>
      var o := Step(st.book, command);
      if o.result.Ok? then Ok(RunState(o.book, st.log + o.events)) else Err(o.result.error)
  }

  function Replay(log: seq<BookEvent>): Result<RunState, OrderBookError> {
    if log == [] then Ok(RunState(EMPTY, []))
    else
      match Replay(log[..|log| - 1])
      case Err(e) => Err(e)
      case Ok(st) => ReplayEvent(st, log[|log| - 1])
  }

  /** The commands that the events of a log ask for, in order. */
  function CommandsOf(log: seq<BookEvent>): seq<Command> {
    if log == [] then []
    else
      var front, last := CommandsOf(log[..|log| - 1]), log[|log| - 1];
      match last
      case OrderAccepted(order) => front + [Add(order)]
      case OrderCancelled(id) => front + [Cancel(id)]
      case OrderModified(id, price, quantity) => front + [Modify(id, price, quantity)]
      case TradeExecuted(_) => front
  }

  /** What the caller of a replay must know: no level total and no slot number overflows on the way. */
  ghost predicate ReplayFits(log: seq<BookEvent>) {
    forall k :: 0 <= k <= |log| && Replay(log[..k]).Ok? ==> Fits(Replay(log[..k]).value.book.resting)
  }

  ghost predicate RunFits(commands: seq<Command>) {
    forall k :: 0 <= k <= |commands| ==> Fits(Run(commands[..k]).book.resting)
  }

  function EraseTrades(log: seq<BookEvent>): seq<BookEvent> {
    if log == [] then []
    else
      var last := |log| - 1;
      EraseTrades(log[..last]) + if log[last].TradeExecuted? then [] else [log[last]]
  }

  lemma ReplayPush(log: seq<BookEvent>, event: BookEvent)
    requires Replay(log).Ok?
    ensures Replay(log + [event]) == ReplayEvent(Replay(log).value, event)
  {
    assert (log + [event])[..|log|] == log;
  }

  /** Trade events in the log are ignored. */
  lemma {:induction false} ReplayTrades(log: seq<BookEvent>, trades: seq<Trade>)
    requires Replay(log).Ok?
    ensures Replay(log + TradeEvents(trades)) == Replay(log)
  {
    if trades == [] {
      assert log + TradeEvents(trades) == log;
    } else {
      hide Replay, TradeEvents, Step;
      var last := |trades| - 1;
      var front := TradeEvents(trades[..last]);
      ReplayTrades(log, trades[..last]);
      assert trades == trades[..last] + [trades[last]];
      TradeEventsPush(trades[..last], trades[last]);
      Assoc(log, front, [TradeExecuted(trades[last])]);
      ReplayPush(log + front, TradeExecuted(trades[last]));
    }
  }

  /** Replaying the event that asks for a command carries the command out, trades included. */
  lemma EntryReplays(st: RunState, command: Command)
    requires Replay(st.log) == Ok(st) && Step(st.book, command).result.Ok?
    ensures var o := Step(st.book, command);
            Replay(st.log + [EntryOf(command)]) == Ok(RunState(o.book, st.log + o.events))
  {
    hide Step, Replay;
    ReplayPush(st.log, EntryOf(command));
  }

  /** Replaying the event that asks for a command, and any number of its trades, carries out the command. */
  lemma StepReplays(st: RunState, command: Command, n: nat)
    requires Replay(st.log) == Ok(st) && Step(st.book, command).result.Ok?
    requires n <= |Step(st.book, command).result.value|
    ensures var o := Step(st.book, command);
            Replay((st.log + [EntryOf(command)]) + TradeEvents(o.result.value[..n]))
            == Ok(RunState(o.book, st.log + o.events))
  {
    hide Step, Replay, ReplayEvent, TradeEvents, EntryOf;
    EntryReplays(st, command);
    ReplayTrades(st.log + [EntryOf(command)], Step(st.book, command).result.value[..n]);
  }

  /** Replaying the full log of any run, rejected commands included, rebuilds the same book and the same log. */
  lemma {:induction false} ReplayRebuilds(commands: seq<Command>)
    ensures Replay(Run(commands).log) == Ok(Run(commands))
  {
    if commands != [] {
      var last := |commands| - 1;
      var st := Run(commands[..last]);
      var o := Step(st.book, commands[last]);
      ReplayRebuilds(commands[..last]);
      if o.result.Ok? {
        StepReplays(st, commands[last], |o.result.value|);
        EventsOfStep(st.book, commands[last]);
        assert o.result.value[..|o.result.value|] == o.result.value;
        assert st.log + o.events == (st.log + [EntryOf(commands[last])]) + TradeEvents(o.result.value);
      } else {
        RejectedChangesNothing(st.book, commands[last]);
        assert st.log + [] == st.log;
      }
    }
  }

  lemma {:induction false} EraseConcat(a: seq<BookEvent>, b: seq<BookEvent>)
    ensures EraseTrades(a + b) == EraseTrades(a) + EraseTrades(b)
  {
    if b == [] {
      assert a + b == a;
    } else {
      var last := |b| - 1;
      EraseConcat(a, b[..last]);
      assert (a + b)[..|a + b| - 1] == a + b[..last];
      assert (a + b)[|a + b| - 1] == b[last];
      var e := if b[last].TradeExecuted? then [] else [b[last]];
      assert EraseTrades(a) + (EraseTrades(b[..last]) + e) == (EraseTrades(a) + EraseTrades(b[..last])) + e;
    }
  }

  lemma {:induction false} EraseAllTrades(trades: seq<Trade>)
    ensures EraseTrades(TradeEvents(trades)) == []
  {
    if trades != [] {
      var last := |trades| - 1;
      EraseAllTrades(trades[..last]);
      assert TradeEvents(trades)[..last] == TradeEvents(trades[..last]);
    }
  }

  lemma EraseOne(entry: BookEvent)
    requires !entry.TradeExecuted?
    ensures EraseTrades([entry]) == [entry]
  {
    assert [entry][..0] == [];
  }

  lemma EraseStep(book: Book, command: Command, entry: BookEvent)
    requires Step(book, command).result.Ok? && CommandOf(entry) == Some(command)
    ensures EraseTrades(Step(book, command).events) == [entry]
  {
    hide Step, TradeEvents;
    var trades := Step(book, command).result.value;
    EventsOfStep(book, command);
    assert EntryOf(command) == entry;
    EraseConcat([entry], TradeEvents(trades));
    EraseAllTrades(trades);
    EraseOne(entry);
  }

  /**
   For any log at all, even one no book produced: if replay succeeds, the rebuilt log agrees with the given
   one on everything but the trades, so the given trades are never trusted.
   */
  lemma {:induction false} ReplayKeepsCommands(log: seq<BookEvent>)
    requires Replay(log).Ok?
    ensures EraseTrades(Replay(log).value.log) == EraseTrades(log)
  {
    if log != [] {
      var last := |log| - 1;
      var st := Replay(log[..last]).value;
      ReplayKeepsCommands(log[..last]);
      var c := CommandOf(log[last]);
      if c.Some? {
        EraseStep(st.book, c.value, log[last]);
        EraseConcat(st.log, Step(st.book, c.value).events);
      } else {
        assert EraseTrades(log[..last]) + [] == EraseTrades(log[..last]);
      }
    }
  }

  /** Every prefix of a run's log replays to a book that the run itself went through. */
  lemma {:induction false} PrefixIsVisited(commands: seq<Command>, m: nat) returns (k: nat)
    requires m <= |Run(commands).log|
    ensures k <= |commands| && Replay(Run(commands).log[..m]) == Ok(Run(commands[..k]))
  {
    hide Step, ReplayEvent, TradeEvents;
    if commands == [] {
      k := 0;
      assert Run(commands).log[..m] == [] && commands[..0] == [];
    } else {
      var last := |commands| - 1;
      var st := Run(commands[..last]);
      var log := Run(commands).log;
      if m <= |st.log| {
        k := PrefixIsVisited(commands[..last], m);
        assert log[..m] == st.log[..m];
        assert commands[..last][..k] == commands[..k];
      } else {
        k := |commands|;
        assert commands[..k] == commands;
        ReplayRebuilds(commands[..last]);
        StepPrefix(st, commands[last], m);
      }
    }
  }

  /** However many of a command's own events are replayed, as soon as the first is, all of it has happened. */
  lemma StepPrefix(st: RunState, command: Command, m: nat)
    requires Replay(st.log) == Ok(st)
    requires |st.log| < m <= |st.log + Step(st.book, command).events|
    ensures var o := Step(st.book, command);
            Replay((st.log + o.events)[..m]) == Ok(RunState(o.book, st.log + o.events))
  {
    var o := Step(st.book, command);
    if o.result.Err? {
      RejectedChangesNothing(st.book, command);
      assert false;
    }
    EventsOfStep(st.book, command);
    hide Step, Replay, ReplayEvent;
    PrefixOfEvents(st.log, EntryOf(command), o.result.value, m);
    StepReplays(st, command, m - |st.log| - 1);
  }

  lemma PrefixOfEvents(log: seq<BookEvent>, entry: BookEvent, trades: seq<Trade>, m: nat)
    requires |log| < m <= |log + ([entry] + TradeEvents(trades))|
    ensures m - |log| - 1 <= |trades|
    ensures (log + ([entry] + TradeEvents(trades)))[..m]
            == (log + [entry]) + TradeEvents(trades[..m - |log| - 1])
  {
  }

  /** If nothing overflowed while the book was live, nothing overflows when its log is replayed. */
  lemma RunFitsReplayFits(commands: seq<Command>)
    requires RunFits(commands)
    ensures ReplayFits(Run(commands).log)
  {
    var log := Run(commands).log;
    forall m | 0 <= m <= |log| && Replay(log[..m]).Ok?
      ensures Fits(Replay(log[..m]).value.book.resting)
    {
      var k := PrefixIsVisited(commands, m);
    }
  }
}
