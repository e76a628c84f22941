/** Matching as a run of single trades: what the loops of the engine keep invariant. */
module MatchProgress {
  import opened Domain
  import opened FlatBook

  /**
   After `trades`, matching `incoming` against `now` finishes what matching `taker` against `before`
   started.
   */
  ghost predicate Continues(before: seq<Order>, taker: Order, trades: seq<Trade>, now: seq<Order>, incoming: Order) {
    var m, n := Match(before, taker), Match(now, incoming);
    && incoming == taker.(remainingQty := incoming.remainingQty)
    && m.resting == n.resting && m.remaining == n.remaining && m.trades == trades + n.trades
  }

  lemma NothingYet(resting: seq<Order>, taker: Order)
    ensures Continues(resting, taker, [], resting, taker)
  {
    assert [] + Match(resting, taker).trades == Match(resting, taker).trades;
  }

  /** One trade with the best maker. */
  lemma OneTrade(before: seq<Order>, taker: Order, trades: seq<Trade>, now: seq<Order>, incoming: Order, i: nat)
    requires Continues(before, taker, trades, now, incoming)
    requires !incoming.IsFilled() && Best(now, incoming) == Some(i)
    ensures var q := Min(incoming.remainingQty, now[i].remainingQty);
            Continues(before, taker, trades + [Trade(now[i].id, incoming.id, now[i].price, q)],
                      Take(now, i, q), incoming.(remainingQty := incoming.remainingQty - q))
  {
    hide Match, Best, IsBest, Take;
    var q := Min(incoming.remainingQty, now[i].remainingQty);
    var rest := Match(Take(now, i, q), incoming.(remainingQty := incoming.remainingQty - q));
    MatchStep(now, incoming, i);
    Assoc(trades, [Trade(now[i].id, incoming.id, now[i].price, q)], rest.trades);
  }

  /** Once the taker is filled or crosses nobody, the trades made are all of them. */
  lemma Finished(before: seq<Order>, taker: Order, trades: seq<Trade>, now: seq<Order>, incoming: Order)
    requires Continues(before, taker, trades, now, incoming)
    requires incoming.IsFilled() || Best(now, incoming).None?
    ensures Match(before, taker) == Matched(now, incoming.remainingQty, trades)
  {
    assert trades + [] == trades;
  }
}
