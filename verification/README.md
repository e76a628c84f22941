# A verified model of the limit order book

This project models the in-memory matching engine of the HFT-style limit order book, its event log with replay
and scenario runner, its workload generators, and the API's token-bucket rate limiter. `dafny verify
dfyconfig.toml` checks the whole project.

## How the model is built

Two layers describe the book.

* **The flat book** (`FlatBook.dfy`) is the meaning: one sequence of resting orders in order of arrival plus the
  set of ids ever accepted. Matching repeatedly picks, from the whole sequence, the best-priced order the taker
  crosses, the earliest on ties. It knows nothing of levels, queues, slots or indexes.
* **The live book** (`Arena.dfy`, `Level.dfy`, `OrderBook.dfy`) is the implementation: a slab with an intrusive
  LIFO free list, doubly linked FIFO queues threaded through it, two price ladders with cached totals, an id
  index, and the nested matching loops, all updated in place. Its extra state is ghost: `arrival`, the occupied
  slots in order of arrival, and in the arena `nodes`, which slots hold which nodes, and `free`, the vacant slots in
  order of reuse. The flat book it represents is the orders at the slots of `arrival`, and the queue of every level
  is `arrival` filtered to that side and price (`BookView.dfy`).

Every public operation of the live book is proved to return what the flat book says, to end in the flat book's
next state, to log what the event mode keeps of the flat book's events, and to keep the whole structural invariant
(`Valid`), under which the code's panics on vacant slots cannot be reached. All loops and recursions are proved to
terminate. Proofs use `hide` statements to keep definitions they do not need away from the solver. Whole-run
properties are then proved about the flat book, over every command stream, and `LiveRuns.dfy` drives live books
through such runs, in every event mode, through replay and beside their mirror images.

The limiter is likewise a class with the code's map of buckets, updated in place. `Buckets` and `Grants` are what it
stores and decides after any calls; the class is proved to do just that, so what is said of them is said of the live
limiter. Its only extra state is the ghost `calls`, every call so far. Beside it stands a reference that never forgets
a bucket, proved to decide like a limiter that serves one client alone.

| file | contents |
|---|---|
| `Domain`, `FlatBook`, `FlatBookInvariants` | types, the flat book, and what every command keeps |
| `Arena`, `Level`, `BookView`, `MatchProgress`, `OrderBook` | the live book and its refinement of the flat book |
| `Snapshots`, `EventModes` | snapshots, event modes |
| `TradeShape`, `BestExecution` | the trades of one order as a whole; optimality of greedy matching |
| `Ledger`, `SingleUse`, `Conservation`, `Mirror` | properties of whole runs |
| `ReplaySpec`, `Replay`, `Runner`, `LiveRuns`, `Generator` | replay, scenarios, arena size, live runs, workloads |
| `TokenBucket`, `RateLimiter`, `LimiterBounds` | one bucket, the limiter, which calls it admits and how often |

## Hypotheses

* `u64` and `u32` are range types, so every addition, subtraction and cast is checked. Only two bounds are asked of
  callers, both through `FlatBook.Fits` of the book *after* the command: the remaining quantities resting at one
  price sum to at most `u64::MAX` (src/engine/level.rs:24), and at most 2^32 orders rest (src/engine/arena.rs:46).
  Everything else, subtractions included, is proved in range.
* The limiter uses exact reals instead of `f64` and takes calls in lock order. Their times may go back, since the
  middleware reads the clock before it takes the lock (src/api/rate_limit.rs:119 and 74-77), and its class asks
  nothing of callers. A call is *in time* if it cannot notice that a bucket was forgotten: nobody else has been yet, or
  the refill rate is not negative and the call is not timed before the last pass that forgot somebody else, or nothing
  refills, or nothing is ever allowed (`AllInTime`; that no weaker condition protects every bucket is
  `ForgettingIsSafe`). Calls in order and calls of fewer than 10,000 clients are in time. Statements that need calls in
  time, or a refill rate of at least zero, say so.

Some comments in the repository describe an earlier design; the model follows the code. They are
src/domain/snapshot.rs:7, src/error.rs:5-7 and src/engine/order_book.rs:743-744. docs/RATE_LIMITING.md:42 calls the
limiter's memory bounded; the code drops only refilled buckets and then inserts regardless, so no bound is claimed.

## Model

| member | source | states |
|---|---|---|
| OrderBook.OrderBook.constructor | src/engine/order_book.rs:32-42 | a fresh book is valid, empty, has no events and no arena entries |
| OrderBook.OrderBook.AddOrder | src/engine/order_book.rs:45-67 | for every valid book: result, trades, next book, logged events are those of the flat book, errors included; the invariant is kept; the arena grows only to the larger of its size and the number now resting; a buy trades at most at its price and a sell at least at its price |
| OrderBook.OrderBook.CancelOrder | src/engine/order_book.rs:85-91 | the same for a cancel; the arena never grows |
| OrderBook.OrderBook.ModifyOrder | src/engine/order_book.rs:115-142 | the same for a modify: removal, re-entry at the back under the same id and side, modification logged before its trades; the trades keep within the new price on the order's own side |
| OrderBook.OrderBook.RemoveOrderById | src/engine/order_book.rs:94-113 | removes exactly the order with that id, or nothing if it does not rest; no level is left empty |
| OrderBook.OrderBook.RestOrder | src/engine/order_book.rs:184-199 | appends the order to the flat book, reusing a free slot if there is one |
| OrderBook.OrderBook.MatchBuyOrder | src/engine/matching.rs:7-30 | the nested loops over ask levels give exactly the flat book's trades and leave exactly its resting orders; no trade is above the limit |
| OrderBook.OrderBook.MatchSellOrder | src/engine/matching.rs:33-56 | the same for the separately written loop over bid levels; no trade is below the limit |
| OrderBook.OrderBook.MatchAtLevel | src/engine/matching.rs:61-104 | trading through one level's queue is a run of best-first flat trades, ends with the taker filled or the level gone, and always makes progress |
| OrderBook.OrderBook.TradeWithHead | src/engine/matching.rs:77-99 | exactly one trade, with the flat book's best crossing order, of the smaller of the two quantities at that order's price; a filled maker leaves the flat book and the index, a partly filled one keeps its position with the rest |
| OrderBook.OrderBook.BestAsk | src/engine/order_book.rs:75-77 | none exactly when the ladder is empty, else its lowest price |
| OrderBook.OrderBook.BestBid | src/engine/order_book.rs:70-72 | none exactly when the ladder is empty, else its highest price |
| OrderBook.OrderBook.TopOfBook | src/engine/order_book.rs:70-77 | best bid and ask are the extreme prices of the resting orders of each side, and the bid is strictly below the ask |
| OrderBook.OrderBook.RestingOrderCount | src/engine/order_book.rs:80-82 | the arena's counter is the number of resting orders |
| OrderBook.OrderBook.RecordTrades | src/engine/order_book.rs:62-64 | the log gains the trades in order, or nothing when events are disabled |
| OrderBook.OrderBook.LevelOrders | src/engine/order_book.rs:171-182 | walking the links from the head copies the queue in order |
| OrderBook.OrderBook.Snapshot | src/engine/order_book.rs:153-168 | exactly the non-empty levels of each side, best price first, each in order of arrival |
| Snapshots.SnapshotUnique | src/engine/order_book.rs:149-168 | the resting orders determine the snapshot |
| Snapshots.LevelInArrival | src/engine/order_book.rs:171-182 | a level of a snapshot holds exactly the orders of its side and price, in increasing positions of the order of arrival |
| Arena.OrderArena.Insert | src/engine/arena.rs:37-57 | stores the order at a slot that was vacant: the most recently freed one, else a new one at the end; nothing else changes |
| Arena.OrderArena.Remove | src/engine/arena.rs:60-75 | gives back exactly the stored order and puts its slot first on the free list |
| Arena.OrderArena.Put | src/engine/arena.rs:84-89 | a write through a node reference changes that node only |
| Level.PriceLevel.PushBack | src/engine/level.rs:20-31 | the queue gains the slot at its back, links stay mirrored, the cached total stays the sum, no other node changes |
| Level.PriceLevel.Unlink | src/engine/level.rs:34-47 | the queue loses the slot from any position, links stay mirrored, the cached total stays the sum without underflow, nodes outside the queue are untouched |
| BookView.HeadIsBest | src/engine/matching.rs:10-20 | the head of the best-priced level is the flat book's best crossing order |
| BookView.QueueIsLevel | src/engine/order_book.rs:171-182 | a level's queue holds, in order, the flat book filtered to its side and price |
| BookView.LevelTotal | src/engine/level.rs:9-16 | the flat book filtered to any side and price has the total that the level there caches, and total zero where there is no level |
| BookView.QueuesPartitionSlots | src/engine/order_book.rs:10-24 | every occupied slot is in the queue of its own side and price, whose level exists, and in no other |
| BookView.CoreFits | src/engine/level.rs:12-16 | the bounds asked of callers hold of every live book |
| FlatBook.Best | src/engine/matching.rs:10-18 | the chosen maker has price priority and, among equals, arrival priority; none is chosen only if nobody crosses |
| FlatBookInvariants.MatchSound | src/engine/matching.rs:7-56 | matching keeps ids distinct, quantities positive and the book uncrossed, and leaves nothing a remainder still crosses |
| FlatBookInvariants.MatchWithinLimit | src/engine/matching.rs:15-18 | every trade of a buy is at most at its price and every trade of a sell at least at its price; if something is left, every order on the other side is priced strictly beyond it |
| FlatBookInvariants.StepWithinLimit | src/engine/order_book.rs:45-142 | the same for the trades that a new order and a modified one return |
| FlatBookInvariants.StepKeepsWf | src/engine/order_book.rs:45-142 | every command, accepted or not, keeps all of that and never forgets an accepted id |
| FlatBookInvariants.NeverCrossed | src/engine/matching.rs:10-53 | after any commands on a fresh book every bid is strictly below every ask |
| FlatBookInvariants.ModifyIsReentry | src/engine/order_book.rs:115-142 | a modify gives the trades and the book of a cancel followed by a new order under the same id and side; what is left stands last |
| FlatBookInvariants.RejectedChangesNothing | src/engine/order_book.rs:46-53 | a rejected command changes nothing and logs nothing |
| FlatBookInvariants.EventsOfStep | src/engine/order_book.rs:56-65 | an accepted command logs the event that asks for it, then exactly the trades it returns |
| TradeShape.MatchIsFill | src/engine/matching.rs:77-99 | the trades are a walk down the crossing orders in priority order, and what rests of those is what the walk leaves, a partly used maker still at the head |
| TradeShape.TradesWalkPriority | src/engine/matching.rs:7-104 | trades name a prefix of the opposite side in price-then-arrival order, at the makers' prices, within the limit, in positive quantities, each maker but perhaps the last filled completely |
| TradeShape.NobodyPassedOver | src/engine/matching.rs:7-104 | when an order trades with a maker, everybody of the other side at a better price, or at that price and there earlier, has by then traded in full |
| TradeShape.PrioritySorted | src/engine/matching.rs:10-20 | the priority order is strictly by price and then arrival |
| TradeShape.PriorityMembers | src/engine/matching.rs:15-18 | the priority order holds exactly the orders the taker crosses |
| TradeShape.MatchLeavesBystanders | src/engine/matching.rs:7-56 | orders the taker does not cross stay unchanged and in order |
| BestExecution.FilledQuantity | src/engine/matching.rs:10-21 | the filled quantity is the smaller of the order's size and the sum of what rests on the other side at prices not beyond its own |
| BestExecution.BuyIsCheapest | src/engine/matching.rs:7-30 | no other allocation of the filled quantity over the resting asks costs less |
| BestExecution.SellIsDearest | src/engine/matching.rs:33-56 | no other allocation of the filled quantity over the resting bids earns more |
| BestExecution.GreedyIsCheapest | src/engine/matching.rs:7-104 | the exchange argument behind both, for allocations of any larger quantity too |
| Ledger.LedgerIsBook | src/engine/order_book.rs:201-238 | folding the full log without any matching gives the live orders, remainders and arrival order after every command |
| Ledger.FoldStep | src/engine/order_book.rs:56-65 | the same for one command on any well-formed book |
| SingleUse.AcceptedOnce | src/engine/order_book.rs:50-53 | accepted ids are pairwise distinct over every run and are exactly the remembered ones |
| SingleUse.RestingIdsAccepted | src/engine/order_book.rs:94-113 | resting ids are distinct and were all accepted |
| SingleUse.TradesNameAccepted | src/engine/matching.rs:82-93 | every trade of every run names two different orders accepted earlier in the log |
| SingleUse.RejectedExactlyWhen | src/engine/order_book.rs:45-124 | exactly when each command is rejected after a run, and with which error |
| Conservation.RunConserves | src/engine/matching.rs:77-99 | over every run, quantity entered equals quantity withdrawn plus quantity resting plus twice the quantity traded |
| Conservation.StepConserves | src/engine/order_book.rs:45-142 | the same for one command on any book |
| Mirror.RunFlips | src/engine/matching.rs:7-56 | exchanging sides and mapping each price p to u64::MAX - p in a command stream does the same to the final book and every logged event |
| LiveRuns.MirrorRun | src/engine/matching.rs:7-56 | two live books given a stream and its mirror end in mirrored books with mirrored replies, logs and snapshots; if the first overflows nothing, neither does the second |
| Mirror.SnapshotFlips | src/engine/order_book.rs:153-168 | the mirrored run's snapshot is the mirrored snapshot with bids and asks exchanged |
| ReplaySpec.ReplayRebuilds | src/replay/engine.rs:4-33 | replaying the full log of any run, rejected commands included, succeeds with the same book and the same log |
| ReplaySpec.ReplayKeepsCommands | src/replay/engine.rs:25-28 | for any log on which replay succeeds, the rebuilt log equals the given one once trades are erased from both |
| ReplaySpec.RunFitsReplayFits | src/replay/engine.rs:4-33 | if nothing overflowed while the book was live, nothing overflows in replay |
| Replay.ReplayEvents | src/replay/engine.rs:4-33 | for any log, the live replay loop ends where running the commands its events ask for as a scenario ends, with the same book and log, or with the same error |
| Replay.ReplayIsScenario | src/replay/engine.rs:4-33 | replaying any log, even one no book produced, is running the commands of its events other than trades as a scenario, errors included |
| Runner.RunScenario | src/simulator/runner.rs:15-45 | a scenario returns the specified book and log or the first error; the collected trades are the trades among its events; the arena has exactly as many entries as the peak of resting orders |
| Runner.PeakIsLargest | src/engine/arena.rs:37-57 | that peak is attained and is an upper bound after every command |
| LiveRuns.RunAll | src/engine/order_book.rs:45-142 | a live book in any mode, through any run that overflows nothing, rejected commands included, ends in the flat run's book, with its replies in order, the mode's part of its log, and exactly as many arena entries as the run's peak |
| LiveRuns.ReplyAt | src/engine/order_book.rs:45-142 | there is one reply per command, and the k-th is what the k-th command gets after those before it |
| LiveRuns.ScenarioIsFirstError | src/simulator/runner.rs:15-45 | a scenario, and so a replay, fails exactly if some command of the run is rejected, with the error of the first that is; otherwise it ends where the run does |
| LiveRuns.ModesOnlyObserve | src/engine/order_book.rs:201-238 | two live books in Full and in any mode, given the same commands, give the same replies, equal snapshots and equally large arenas; the other's log is the full log, its trades, or nothing |
| LiveRuns.RoundTrip | src/replay/engine.rs:4-33 | replaying a live book's full log succeeds with a live book of the same orders, ids, log and snapshot |
| EventModes.ObserveConcat | src/engine/order_book.rs:209-218 | each mode keeps its part of a log event by event |
| EventModes.ObserveOne | src/engine/order_book.rs:201-238 | Full keeps every event, TradesOnly exactly the trades, Disabled none |
| Generator.TwoSidedOutcome | src/simulator/generator.rs:24-46 | for every size, running the two-sided workload makes no trade and rests every order as generated, also when buy prices saturate, exactly when its quantity is not zero and its tick is not zero (an empty workload needs neither, a single order no tick) |
| Generator.TwoSidedLaw | src/simulator/generator.rs:24-46 | order k of the two-sided workload, as generated and as it rests after the run, has id start + k, the set quantity and its side by parity; its distance from the base price is one tick at first and after every `priceLevels` orders, otherwise one tick more than the order before; buys are cut off at zero |
| Generator.GenerateCrossingOrders | src/simulator/generator.rs:52-83 | the two loops produce without overflow: ids from start on, the set quantity, in the first half sells whose distances above the base follow the same law, then buys at base + `priceLevels` ticks (one tick for zero levels) |
| Generator.CrossingOutcome | src/simulator/generator.rs:52-83 | for every size, exactly half as many trades as orders, rounded down, and nothing left or the one odd buy; with quantity zero, the first order is rejected |
| Generator.CrossingTrades | src/simulator/generator.rs:52-83 | the trades of a run of the crossing workload are each between the next buy and one sell, in full, at the price that the law gives that sell, strictly in price-then-id order; the odd buy rests at its price |
| Generator.TwoSidedRuns | src/simulator/generator.rs:24-46 | the two-sided workload runs without overflow if its ids and prices fit, it has at most 2^32 orders and their total quantity fits in a `u64` |
| Generator.CrossingRuns | src/simulator/generator.rs:52-83 | the same for the crossing workload, under its own bounds |
| RateLimiter.RateLimiter.TryAcquire | src/api/rate_limit.rs:69-102 | for calls at any times: the caller is admitted exactly if its bucket, full if it has none, allows a token; its bucket is charged and every other one kept, except that refilled ones go at the tracking limit; decision and buckets are functions of the calls so far, and as long as all came in time the decision is that of a limiter that never forgets |
| RateLimiter.RunCalls | src/api/rate_limit.rs:69-102 | a live limiter given any calls at any times decides each as `Grants` says, and as the reference does if all are in time |
| RateLimiter.PassAllows | src/api/rate_limit.rs:79-92 | a pass that forgets the caller's own bucket does not change what it is allowed |
| RateLimiter.WhoIsStored | src/api/rate_limit.rs:79-90 | after a call its client is stored and so is everybody stored before; but with 10,000 or more stored, other clients exactly if they have not yet regained a whole burst |
| RateLimiter.BucketsInRange | src/api/rate_limit.rs:92-98 | after calls at any times every stored bucket holds between zero and a burst, with refill at least 0 |
| RateLimiter.WaitingSuffices | src/api/rate_limit.rs:92-98 | whatever the times of the calls and the other clients: with burst at least 1 and refill above 0, the limiter admits a client whose every call lies 1/refill seconds back, or that never called |
| RateLimiter.ReferenceIsSolo | src/api/rate_limit.rs:87-101 | at any times the reference decides as the limiter would after the client's own calls alone |
| RateLimiter.OnlyOwnCalls | src/api/rate_limit.rs:87-101 | a call in time gets the answer it would get if the limiter had served its client alone |
| RateLimiter.OrderedInTime | src/api/rate_limit.rs:79-85 | calls whose times never decrease are in time, with refill at least 0 |
| RateLimiter.FewInTime | src/api/rate_limit.rs:79 | calls of fewer than 10,000 clients are in time, and nobody is forgotten |
| TokenBucket.ForgettingIsSafe | src/api/rate_limit.rs:79-85 | forgetting refilled buckets goes unnoticed at a later look, whichever they are, exactly if that look is not timed earlier, or nothing refills, or nothing is ever allowed |
| LimiterBounds.ForwardBound | src/api/rate_limit.rs:69-102 | the limiter, for calls at any times and in any window of any run, admits a client at most burst + refill * F times, F being how far the clock moves forward over everybody's calls in the window; refill at least 0 |
| LimiterBounds.BurstGranted | src/api/rate_limit.rs:87-101 | at any times and whatever others do, a client admitted less often than the burst is admitted, so its first `burst` calls are; refill at least 0 |
| LimiterBounds.GrantsExactly | src/api/rate_limit.rs:69-102 | a call in time is admitted if and only if that gives its client, in no window ending with it, more than burst + refill times how far the clock moves forward over its own calls there; refill at least 0 |
| LimiterBounds.OrderedExactly | src/api/rate_limit.rs:69-102 | for calls in order, a call is admitted if and only if that gives its client, in no window ending with it, more than burst + refill times the window's length |
| LimiterBounds.Decide | src/api/rate_limit.rs:69-102 | a live limiter's decisions in terms of themselves: a client that has passed less often than the burst passes, no window exceeds burst + refill times the clock's way forward, and in order a client passes exactly if no window ending with the call would exceed burst + refill times its length |
| LimiterBounds.WindowBound | src/api/rate_limit.rs:69-102 | in a window of length T whose calls are in order, whatever came before it, that is at most burst + refill * T |
| LimiterBounds.OwnForwardBound | src/api/rate_limit.rs:69-102 | if calls are in time, the clock counts over the client's own calls only |
| LimiterBounds.NeverFewer | src/api/rate_limit.rs:79-101 | at any times and whatever others do, by every point of a run a client has been admitted at least as often as if it were alone |
| LimiterBounds.SharedAndAlone | src/api/rate_limit.rs:69-102 | two live limiters, one shared and one serving a client alone: the shared one admits it no less and within the forward bound, and answers alike if calls are in time |
| LimiterBounds.BoundNeeds | src/api/rate_limit.rs:69-102 | if a client's admissions stay within burst + refill * T under all settings with refill at least 0, the clock moves forward by at most T over its own calls, at whatever times and whoever else calls |
| LimiterBounds.BoundExact | src/api/rate_limit.rs:69-102 | for calls in order, or of fewer than 10,000 clients at any times, admissions stay within burst + refill * T under all settings with refill at least 0 exactly if the clock moves forward by at most T over the client's own calls |
| LimiterBounds.BackwardsClock | src/api/rate_limit.rs:92-101 | calls at times 1, 0 and 1 by one client span no time, but stay within burst + refill * T exactly for T of at least 1; with burst and refill 1 they are admitted, refused and admitted |
| LimiterBounds.ForgetsTooSoon | src/api/rate_limit.rs:69-102 | after 10,000 others have called, client 0, whose bucket was forgotten, calls with an earlier time and is admitted where it would have been refused alone: twice in all while its own clock moves by a half and everybody's by one, so that own calls do not bound it and the forward bound is attained |

## Left out

- Level.PriceLevel.PushBack: a price level is a value that the operations return and the book writes back to the ladder map, because Rust keeps this `Copy` struct inside the map by value; updating it through a `&mut` into the map is a map update here.
- OrderBook.OrderBook.RemoveOrderById: unlinks, frees the slot, drops the index entry and then drops an empty level; the code does the same four writes with the index entry first and the slot last, which nothing observes in between.
- RateLimiter.RateLimiter.TryAcquire: exact reals instead of `f64`, an IP address as a number, seconds as reals instead of `Instant`; the mutex, client extraction and the HTTP response are not modelled.
- LimiterBounds.BoundExact: for calls out of order by 10,000 clients or more, passes decide what window is needed; only that it lies between the clock's way over the client's own calls (`BoundNeeds`) and over everybody's (`BoundSuffices`) is stated.
- Generator.TwoSidedRuns: counts are taken as 64-bit (`usize` casts to `u64` lose nothing); so too for Generator.CrossingRuns.
- The `BTreeMap` and hash collections are finite maps and sets with a least and greatest key; iteration order of hash maps, allocation and running time are not modelled.
- JSON saving and loading of events (src/replay/persistence.rs), serialization and formatting.
- src/metrics: short folds and `f64` ratios that would only add easy members.
- The fixed scenarios (src/simulator/scenarios.rs), the command line, benches, scripts and the Python analyzer.
- All HTTP, authentication, account, instrument and database code apart from the limiter.
- The planned sequencer, journal and distribution runtime, which has no code.
