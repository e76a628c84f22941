/**
 Live books over whole runs, rejected commands included, in any event mode: they end where the flat book says,
 the mode shows in nothing but the log, and the full log replays to an equal book.
 */
module LiveRuns {
  import opened Domain
  import opened FlatBook
  import opened Runner
  import Arena
  import BV = BookView
  import EventModes
  import M = Mirror
  import OB = OrderBook
  import R = Replay
  import RS = ReplaySpec
  import SN = Snapshots

  type Reply = Result<seq<Trade>, OrderBookError>

  /** The reply to each command of a run. */
  function Replies(commands: seq<Command>): seq<Reply> {
    if commands == [] then []
    else
      var last := |commands| - 1;
      Replies(commands[..last]) + [Step(Run(commands[..last]).book, commands[last]).result]
  }

  lemma RunPush(commands: seq<Command>, i: nat)
    requires i < |commands|
    ensures var st, o := Run(commands[..i]), Step(Run(commands[..i]).book, commands[i]);
            && Run(commands[..i + 1]) == RunState(o.book, st.log + o.events)
            && Replies(commands[..i + 1]) == Replies(commands[..i]) + [o.result]
  {
    hide Step;
    assert commands[..i + 1][..i] == commands[..i];
  }

  /** The `k`-th reply answers the `k`-th command after the ones before it. */
  lemma {:induction false} ReplyAt(commands: seq<Command>, k: nat)
    requires k < |commands|
    ensures |Replies(commands)| == |commands|
    ensures Replies(commands)[k] == Step(Run(commands[..k]).book, commands[k]).result
    decreases |commands|
  {
    hide Step, Run;
    var last := |commands| - 1;
    if k < last {
      ReplyAt(commands[..last], k);
      assert commands[..last][..k] == commands[..k];
    } else if last > 0 {
      ReplyAt(commands[..last], 0);
    }
  }

  /** `outcome` is an error exactly if some reply is, and then it is that of the first. */
  ghost predicate IsFirstError(outcome: Result<RunState, OrderBookError>, replies: seq<Reply>) {
    && (outcome.Ok? <==> forall k :: 0 <= k < |replies| ==> replies[k].Ok?)
    && forall k :: 0 <= k < |replies| && replies[k].Err? && (forall j :: 0 <= j < k ==> replies[j].Ok?)
                   ==> outcome == Err(replies[k].error)
  }

  lemma FirstErrorPush(outcome: Result<RunState, OrderBookError>, replies: seq<Reply>,
                       outcome': Result<RunState, OrderBookError>, reply: Reply)
    requires IsFirstError(outcome, replies)
    requires outcome.Err? ==> outcome' == outcome
    requires outcome.Ok? && reply.Err? ==> outcome' == Err(reply.error)
    requires outcome.Ok? && reply.Ok? ==> outcome'.Ok?
    ensures IsFirstError(outcome', replies + [reply])
  {
    var replies' := replies + [reply];
    assert forall j :: 0 <= j < |replies| ==> replies'[j] == replies[j];
    assert replies'[|replies|] == reply;
  }

  /**
   A scenario fails exactly if some command of the run is rejected, with the error of the first that is; otherwise it
   ends where the run does.
   */
  lemma {:induction false} ScenarioIsFirstError(commands: seq<Command>)
    ensures |Replies(commands)| == |commands| && IsFirstError(Scenario(commands), Replies(commands))
    ensures Scenario(commands).Ok? ==> Scenario(commands).value == Run(commands)
  {
    if commands != [] {
      hide Step, Run, IsFirstError;
      var front, last := commands[..|commands| - 1], commands[|commands| - 1];
      ScenarioIsFirstError(front);
      if Scenario(commands).Ok? { ScenarioIsRun(commands); }
      FirstErrorPush(Scenario(front), Replies(front), Scenario(commands), Step(Run(front).book, last).result);
    }
  }

  lemma NothingRun(mode: EventMode)
    ensures Run([]) == RunState(EMPTY, []) && Replies([]) == [] && Peak([]) == 0 && Observe(mode, []) == []
  {
  }

  /** A live book in the given mode through a run that overflows nothing. */
  method RunAll(mode: EventMode, commands: seq<Command>) returns (book: OB.OrderBook, replies: seq<Reply>)
    requires RS.RunFits(commands)
    ensures fresh(book) && fresh(book.arena) && book.Valid() && book.eventMode == mode
    ensures book.Book() == Run(commands).book && replies == Replies(commands)
    ensures book.events == Observe(mode, Run(commands).log)
    ensures |book.arena.entries| == Peak(commands)
  {
    hide BV.Core, BV.NoEmptyLevel, Arena.Slab, Wf, Fits, Step, Run, Replies, Peak, Observe;
    NothingRun(mode);
    book := new OB.OrderBook(mode);
    replies := [];
    for i := 0 to |commands|
      invariant fresh(book) && fresh(book.arena) && book.eventMode == mode && book.Valid()
      invariant book.Book() == Run(commands[..i]).book && replies == Replies(commands[..i])
      invariant book.events == Observe(mode, Run(commands[..i]).log)
      invariant |book.arena.entries| == Peak(commands[..i])
    {
      RunPush(commands, i);
      PeakPush(commands, i);
      EventModes.ObserveConcat(mode, Run(commands[..i]).log, Step(book.Book(), commands[i]).events);
      var reply := ApplyCommand(book, commands[i]);
      replies := replies + [reply];
    }
    assert commands[..|commands|] == commands;
  }

  /**
   Event modes only observe: of two live books given the same commands, one of them logging everything, both give
   the same replies, end with equal snapshots and need as many arena entries. The other's log is the mode's part
   of the full log.
   */
  method ModesOnlyObserve(mode: EventMode, commands: seq<Command>)
    returns (full: OB.OrderBook, other: OB.OrderBook, replies: seq<Reply>, replies': seq<Reply>,
             snapshot: BookSnapshot, snapshot': BookSnapshot)
    requires RS.RunFits(commands)
    ensures fresh(full) && full.Valid() && full.eventMode == Full
    ensures fresh(other) && other.Valid() && other.eventMode == mode && full != other
    ensures replies == replies' == Replies(commands)
    ensures full.Book() == other.Book() == Run(commands).book
    ensures full.events == Run(commands).log && other.events == Observe(mode, full.events)
    ensures snapshot == snapshot' && SN.IsSnapshot(snapshot, full.Resting())
    ensures |full.arena.entries| == |other.arena.entries|
  {
    hide BV.Core, BV.NoEmptyLevel, Arena.Slab, Wf, Run, Replies, Peak, SN.IsSnapshot, RS.RunFits;
    full, replies := RunAll(Full, commands);
    other, replies' := RunAll(mode, commands);
    snapshot := full.Snapshot();
    snapshot' := other.Snapshot();
    SN.SnapshotUnique(snapshot, snapshot', full.Resting());
  }

  /**
   The round trip of a live book: replaying its full log succeeds, and the rebuilt book has the same orders, ids
   and log, and the same snapshot.
   */
  method RoundTrip(commands: seq<Command>)
    returns (live: OB.OrderBook, rebuilt: OB.OrderBook, before: BookSnapshot, after: BookSnapshot)
    requires RS.RunFits(commands)
    ensures fresh(live) && live.Valid() && live.Book() == Run(commands).book && live.events == Run(commands).log
    ensures fresh(rebuilt) && rebuilt.Valid() && rebuilt.Book() == live.Book() && rebuilt.events == live.events
    ensures before == after && SN.IsSnapshot(before, live.Resting())
  {
    hide BV.Core, BV.NoEmptyLevel, Arena.Slab, Wf, Run, Replies, Peak, SN.IsSnapshot;
    hide RS.RunFits, RS.ReplayFits, RS.Replay;
    var replies;
    live, replies := RunAll(Full, commands);
    RS.RunFitsReplayFits(commands);
    RS.ReplayRebuilds(commands);
    var replayed := R.ReplayEvents(live.events);
    rebuilt := replayed.value;
    before := live.Snapshot();
    after := rebuilt.Snapshot();
    SN.SnapshotUnique(before, after, live.Resting());
  }

  // ---- The mirror ----

  function FlipReplies(replies: seq<Reply>): (r: seq<Reply>)
    ensures |r| == |replies| && forall i :: 0 <= i < |r| ==> r[i] == M.FlipResult(replies[i])
  {
    seq(|replies|, i requires 0 <= i < |replies| => M.FlipResult(replies[i]))
  }

  /** Mirroring a command stream mirrors every reply. */
  lemma {:induction false} RepliesFlip(commands: seq<Command>)
    ensures Replies(M.FlipCommands(commands)) == FlipReplies(Replies(commands))
  {
    if commands != [] {
      hide Step, M.FlipBook, M.FlipResult, M.FlipCommand, Run;
      var last := |commands| - 1;
      var front := commands[..last];
      RepliesFlip(front);
      assert M.FlipCommands(commands)[..last] == M.FlipCommands(front);
      M.RunFlips(front);
      M.StepFlips(Run(front).book, commands[last]);
    }
  }

  lemma RunFitsFlips(commands: seq<Command>)
    requires RS.RunFits(commands)
    ensures RS.RunFits(M.FlipCommands(commands))
  {
    hide Run, Fits;
    forall k | 0 <= k <= |commands|
      ensures Fits(Run(M.FlipCommands(commands)[..k]).book.resting)
    {
      assert M.FlipCommands(commands)[..k] == M.FlipCommands(commands[..k]);
      M.RunFlips(commands[..k]);
      M.FitsFlips(Run(commands[..k]).book.resting);
    }
  }

  /**
   Two live books, one given a command stream and one its mirror image: the second ends in the mirror image of the
   first, and so are its replies, its log and its snapshot. It overflows nothing if the first does not.
   */
  method MirrorRun(commands: seq<Command>)
    returns (book: OB.OrderBook, mirrored: OB.OrderBook, replies: seq<Reply>, replies': seq<Reply>,
             snapshot: BookSnapshot, snapshot': BookSnapshot)
    requires RS.RunFits(commands)
    ensures fresh(book) && book.Valid() && book.Book() == Run(commands).book && replies == Replies(commands)
    ensures fresh(mirrored) && mirrored.Valid() && mirrored.Book() == M.FlipBook(book.Book())
    ensures replies' == FlipReplies(replies) && mirrored.events == M.FlipEvents(book.events)
    ensures SN.IsSnapshot(snapshot, book.Resting())
    ensures snapshot' == BookSnapshot(M.FlipLevels(snapshot.asks), M.FlipLevels(snapshot.bids))
  {
    hide BV.Core, BV.NoEmptyLevel, Arena.Slab, Wf, Run, Replies, Peak, SN.IsSnapshot;
    hide RS.RunFits, M.FlipCommands, FlipReplies, M.FlipEvents, M.FlipLevels, M.FlipOrders;
    RunFitsFlips(commands);
    M.RunFlips(commands);
    RepliesFlip(commands);
    book, replies := RunAll(Full, commands);
    mirrored, replies' := RunAll(Full, M.FlipCommands(commands));
    snapshot := book.Snapshot();
    snapshot' := mirrored.Snapshot();
    M.SnapshotFlips(commands, snapshot, snapshot');
  }
}
