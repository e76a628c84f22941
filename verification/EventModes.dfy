/** What each event mode keeps of the full log, and that modes only observe (src/engine/config.rs). */
module EventModes {
  import opened Domain
  import opened FlatBook

  lemma {:induction false} OnlyTradesConcat(a: seq<BookEvent>, b: seq<BookEvent>)
    ensures OnlyTrades(a + b) == OnlyTrades(a) + OnlyTrades(b)
  {
    if b == [] {
      assert a + b == a;
    } else {
      var last := |b| - 1;
      OnlyTradesConcat(a, b[..last]);
      assert (a + b)[..|a + b| - 1] == a + b[..last];
      assert (a + b)[|a + b| - 1] == b[last];
      var e := if b[last].TradeExecuted? then [b[last]] else [];
      assert OnlyTrades(a) + (OnlyTrades(b[..last]) + e) == (OnlyTrades(a) + OnlyTrades(b[..last])) + e;
    }
  }

  lemma {:induction false} OnlyTradesOfTrades(trades: seq<Trade>)
    ensures OnlyTrades(TradeEvents(trades)) == TradeEvents(trades)
  {
    if trades != [] {
      var last := |trades| - 1;
      OnlyTradesOfTrades(trades[..last]);
      assert TradeEvents(trades)[..last] == TradeEvents(trades[..last]);
    }
  }

  /** Each mode keeps its part of a log event by event. */
  lemma ObserveConcat(mode: EventMode, a: seq<BookEvent>, b: seq<BookEvent>)
    ensures Observe(mode, a + b) == Observe(mode, a) + Observe(mode, b)
  {
    OnlyTradesConcat(a, b);
  }

  lemma ObserveOne(mode: EventMode, event: BookEvent)
    ensures Observe(mode, [event])
            == if mode.Full? || (mode.TradesOnly? && event.TradeExecuted?) then [event] else []
  {
    assert OnlyTrades([event][..0]) == [];
  }
}
