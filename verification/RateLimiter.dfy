/**
 The rate limiter (src/api/rate_limit.rs): one token bucket per client, those that have refilled dropped in a
 pass when there are too many. Calls come in lock order, at any times.

 `Buckets` and `Grants` say what the limiter stores and decides after any calls, and the class is proved to do
 just that. It is compared with a reference that never forgets, which decides like a limiter that serves one
 client alone: the two agree as long as no call is timed before an earlier pass that forgot something.
 */
module RateLimiter {
  import opened Domain
  import opened TokenBucket

  /** An IP address, as the number it is. */
  type IpAddr = nat

  /** With this many buckets stored, the next call first makes a pass that forgets refilled ones. */
  const MAX_TRACKED_CLIENTS: nat := 10_000

  datatype Call = Call(client: IpAddr, now: real)

  ghost predicate Ordered(calls: seq<Call>) {
    forall i, j :: 0 <= i < j < |calls| ==> calls[i].now <= calls[j].now
  }

  // ---- What the limiter stores and decides ----

  type Table = map<IpAddr, Bucket>

  function Tracked(buckets: Table, client: IpAddr): Option<Bucket> {
    if client in buckets then Some(buckets[client]) else None
  }

  /** What a pass leaves. */
  function Pass(config: RateLimitConfig, buckets: Table, now: real): Table {
    if |buckets| >= MAX_TRACKED_CLIENTS then
      map c | c in buckets && !Refilled(config, buckets[c], now) :: buckets[c]
    else buckets
  }

  /** What a pass leaves of one client's bucket: nothing, if there are too many and it has refilled. */
  function Kept(config: RateLimitConfig, buckets: Table, c: IpAddr, now: real): Option<Bucket> {
    if c in buckets && |buckets| >= MAX_TRACKED_CLIENTS && Refilled(config, buckets[c], now) then None
    else Tracked(buckets, c)
  }

  /** The buckets after a call: a pass, then a token from the caller's bucket, which is full if it has none. */
  function Acquired(config: RateLimitConfig, buckets: Table, call: Call): Table {
    var kept := Pass(config, buckets, call.now);
    kept[call.client := Charge(config, Tracked(kept, call.client), call.now)]
  }

  /** The buckets stored after some calls. */
  function Buckets(config: RateLimitConfig, calls: seq<Call>): Table {
    if calls == [] then map[]
    else Acquired(config, Buckets(config, calls[..|calls| - 1]), calls[|calls| - 1])
  }

  /** Whether a limiter that has served `calls` admits `call`. */
  predicate Grants(config: RateLimitConfig, calls: seq<Call>, call: Call) {
    var kept := Pass(config, Buckets(config, calls), call.now);
    AllowanceOf(config, Tracked(kept, call.client), call.now) >= 1.0
  }

  lemma BucketsPush(config: RateLimitConfig, calls: seq<Call>, call: Call)
    ensures Buckets(config, calls + [call]) == Acquired(config, Buckets(config, calls), call)
  {
    assert (calls + [call])[..|calls|] == calls;
  }

  /** If the pass forgets the caller's own bucket, that bucket is full, so the caller is allowed what it was. */
  lemma PassAllows(config: RateLimitConfig, buckets: Table, client: IpAddr, now: real)
    ensures AllowanceOf(config, Tracked(Pass(config, buckets, now), client), now)
            == AllowanceOf(config, Tracked(buckets, client), now)
  {
    if client in buckets {
      RefilledIsFull(config, buckets[client], now);
    }
  }

  /** A call as each client sees it. */
  lemma AcquiredAt(config: RateLimitConfig, buckets: Table, call: Call, c: IpAddr)
    ensures Tracked(Acquired(config, buckets, call), c)
            == if c == call.client then Some(Charge(config, Tracked(buckets, c), call.now))
               else Kept(config, buckets, c, call.now)
  {
    hide Refilled;
    PassAllows(config, buckets, call.client, call.now);
  }

  /**
   Who is stored after a call: its client, and everybody stored before; except that with 10,000 or more stored, those
   others who have by now regained a whole burst are forgotten.
   */
  lemma WhoIsStored(config: RateLimitConfig, calls: seq<Call>, call: Call, c: IpAddr)
    ensures var before, after := Buckets(config, calls), Buckets(config, calls + [call]);
            c in after
            <==> c == call.client
                 || (c in before
                     && (|before| >= 10_000 ==>
                           var since := before[c].lastRefill;
                           var idle := if call.now >= since then call.now - since else 0.0;
                           before[c].tokens + idle * config.refillPerSecond < config.burst as real))
  {
    hide Buckets, Acquired;
    BucketsPush(config, calls, call);
    AcquiredAt(config, Buckets(config, calls), call, c);
  }

  /** After calls at any times, every stored bucket holds between no token and a burst. */
  lemma {:induction false} BucketsInRange(config: RateLimitConfig, calls: seq<Call>)
    requires config.refillPerSecond >= 0.0
    ensures forall c :: c in Buckets(config, calls) ==> InRange(config, Buckets(config, calls)[c])
  {
    if calls != [] {
      hide InRange, Charge, Acquired;
      var front, call := calls[..|calls| - 1], calls[|calls| - 1];
      BucketsInRange(config, front);
      forall c | c in Buckets(config, calls)
        ensures InRange(config, Buckets(config, calls)[c])
      {
        AcquiredAt(config, Buckets(config, front), call, c);
        ChargeInRange(config, Tracked(Buckets(config, front), call.client), call.now);
      }
    }
  }

  // ---- Waiting ----

  /** A stored bucket was last refilled at one of its client's calls. */
  lemma {:induction false} LastOwnCall(config: RateLimitConfig, calls: seq<Call>, client: IpAddr) returns (i: nat)
    requires client in Buckets(config, calls)
    ensures i < |calls| && calls[i].client == client && calls[i].now == Buckets(config, calls)[client].lastRefill
  {
    var front, call := calls[..|calls| - 1], calls[|calls| - 1];
    hide Acquired, AllowanceOf, Refilled;
    AcquiredAt(config, Buckets(config, front), call, client);
    if call.client == client {
      i := |calls| - 1;
    } else {
      i := LastOwnCall(config, front, client);
    }
  }

  /** At any times and whatever others do, a client is admitted after waiting for one token, or if it never called. */
  lemma WaitingSuffices(config: RateLimitConfig, calls: seq<Call>, client: IpAddr, now: real)
    requires config.burst >= 1 && config.refillPerSecond > 0.0
    requires forall i :: 0 <= i < |calls| && calls[i].client == client
                         ==> now - calls[i].now >= 1.0 / config.refillPerSecond
    ensures Grants(config, calls, Call(client, now))
  {
    hide Buckets, Allowance, Pass;
    var buckets := Buckets(config, calls);
    PassAllows(config, buckets, client, now);
    if client in buckets {
      BucketsInRange(config, calls);
      var i := LastOwnCall(config, calls, client);
      WaitedOneToken(config, buckets[client], now);
    }
  }

  // ---- The reference: one bucket per client, never forgotten ----

  /** The bucket of `client` after some calls, if it made any. */
  function BucketOf(config: RateLimitConfig, calls: seq<Call>, client: IpAddr): Option<Bucket> {
    if calls == [] then None
    else
      var last := calls[|calls| - 1];
      var before := BucketOf(config, calls[..|calls| - 1], client);
      if last.client != client then before
      else Some(Charge(config, before, last.now))
  }

  /** Whether the reference limiter admits a call made after `calls`. */
  predicate Admits(config: RateLimitConfig, calls: seq<Call>, call: Call) {
    AllowanceOf(config, BucketOf(config, calls, call.client), call.now) >= 1.0
  }

  lemma BucketOfPush(config: RateLimitConfig, calls: seq<Call>, call: Call, client: IpAddr)
    ensures BucketOf(config, calls + [call], client)
            == if call.client == client then Some(Charge(config, BucketOf(config, calls, client), call.now))
               else BucketOf(config, calls, client)
  {
    assert (calls + [call])[..|calls|] == calls;
  }

  lemma {:induction false} BucketOfInRange(config: RateLimitConfig, calls: seq<Call>, client: IpAddr)
    requires config.refillPerSecond >= 0.0
    ensures var b := BucketOf(config, calls, client); b.Some? ==> InRange(config, b.value)
  {
    if calls != [] {
      hide InRange, Charge;
      var last := |calls| - 1;
      BucketOfInRange(config, calls[..last], client);
      ChargeInRange(config, BucketOf(config, calls[..last], client), calls[last].now);
    }
  }

  /** The calls of one client. */
  function Own(calls: seq<Call>, client: IpAddr): seq<Call> {
    if calls == [] then []
    else
      var last := |calls| - 1;
      Own(calls[..last], client) + if calls[last].client == client then [calls[last]] else []
  }

  lemma OwnPush(calls: seq<Call>, call: Call, client: IpAddr)
    ensures Own(calls + [call], client) == Own(calls, client) + if call.client == client then [call] else []
  {
    assert (calls + [call])[..|calls|] == calls;
  }

  /** A limiter that serves one client alone stores the reference's bucket for it. */
  lemma {:induction false} SoloBucket(config: RateLimitConfig, calls: seq<Call>, client: IpAddr)
    ensures Tracked(Buckets(config, Own(calls, client)), client) == BucketOf(config, calls, client)
  {
    if calls != [] {
      hide Charge, Acquired;
      var front, call := calls[..|calls| - 1], calls[|calls| - 1];
      var own := Own(front, client);
      SoloBucket(config, front, client);
      if call.client == client {
        BucketsPush(config, own, call);
        AcquiredAt(config, Buckets(config, own), call, client);
      } else {
        assert own + [] == own;
      }
    }
  }

  /** The reference decides what a limiter would that served this client alone, at whatever times it calls. */
  lemma ReferenceIsSolo(config: RateLimitConfig, calls: seq<Call>, call: Call)
    ensures Admits(config, calls, call) <==> Grants(config, Own(calls, call.client), call)
  {
    hide BucketOf, Buckets, Pass, AllowanceOf;
    SoloBucket(config, calls, call.client);
    PassAllows(config, Buckets(config, Own(calls, call.client)), call.client, call.now);
  }

  // ---- Calls in time ----

  /** The time of the last pass that forgot anyone but the caller itself. */
  ghost function NextHorizon(buckets: Table, buckets': Table, horizon: Option<real>, now: real): Option<real> {
    if buckets.Keys <= buckets'.Keys then horizon else Some(now)
  }

  ghost function Horizon(config: RateLimitConfig, calls: seq<Call>): Option<real> {
    if calls == [] then None
    else
      var front := calls[..|calls| - 1];
      NextHorizon(Buckets(config, front), Buckets(config, calls), Horizon(config, front), calls[|calls| - 1].now)
  }

  /**
   No call at `now` can notice that a refilled bucket was forgotten at the horizon: by `ForgettingIsSafe`, this is
   so exactly if `now` is not earlier, nothing refills, or nothing is ever allowed.
   */
  ghost predicate InTime(config: RateLimitConfig, horizon: Option<real>, now: real) {
    horizon.Some? ==>
      && config.refillPerSecond >= 0.0
      && (horizon.value <= now || config.refillPerSecond == 0.0 || config.burst == 0)
  }

  ghost predicate AllInTime(config: RateLimitConfig, calls: seq<Call>) {
    calls == []
    || (var front := calls[..|calls| - 1];
        AllInTime(config, front) && InTime(config, Horizon(config, front), calls[|calls| - 1].now))
  }

  lemma InTimePush(config: RateLimitConfig, calls: seq<Call>, call: Call)
    ensures AllInTime(config, calls + [call])
            <==> AllInTime(config, calls) && InTime(config, Horizon(config, calls), call.now)
  {
    assert (calls + [call])[..|calls|] == calls;
  }

  /**
   As long as calls come in time, a stored bucket is the reference's, and one that the reference has and the
   limiter has not was refilled at the horizon.
   */
  ghost predicate Tracks(config: RateLimitConfig, stored: Option<Bucket>, b: Option<Bucket>, horizon: Option<real>) {
    if stored.Some? then b == stored
    else b.Some? ==> horizon.Some? && Refilled(config, b.value, horizon.value)
  }

  /** A call in time finds the limiter allowing its client what the reference allows. */
  lemma SameAllowance(config: RateLimitConfig, stored: Option<Bucket>, b: Option<Bucket>, horizon: Option<real>,
                      now: real)
    requires Tracks(config, stored, b, horizon) && InTime(config, horizon, now)
    requires config.refillPerSecond >= 0.0 && b.Some? ==> InRange(config, b.value)
    ensures AllowanceOf(config, stored, now) == AllowanceOf(config, b, now)
  {
    hide Allowance, Refilled;
    if stored.None? && b.Some? {
      StillRefilled(config, b.value, horizon.value, now);
      RefilledIsFull(config, b.value, now);
    }
  }

  /** The limiter forgets only what does not show. */
  lemma TracksNext(config: RateLimitConfig, buckets: Table, call: Call, c: IpAddr, b: Option<Bucket>,
                   horizon: Option<real>)
    requires Tracks(config, Tracked(buckets, c), b, horizon) && InTime(config, horizon, call.now)
    requires config.refillPerSecond >= 0.0 && b.Some? ==> InRange(config, b.value)
    ensures var buckets' := Acquired(config, buckets, call);
            Tracks(config, Tracked(buckets', c),
                   if c == call.client then Some(Charge(config, b, call.now)) else b,
                   NextHorizon(buckets, buckets', horizon, call.now))
  {
    hide Allowance, Refilled, AllowanceOf, Acquired;
    AcquiredAt(config, buckets, call, c);
    if c == call.client {
      SameAllowance(config, Tracked(buckets, c), b, horizon, call.now);
    } else if c !in buckets && b.Some? {
      StillRefilled(config, b.value, horizon.value, call.now);
    }
  }

  lemma {:induction false} TracksInTime(config: RateLimitConfig, calls: seq<Call>, c: IpAddr)
    requires AllInTime(config, calls)
    ensures Tracks(config, Tracked(Buckets(config, calls), c), BucketOf(config, calls, c), Horizon(config, calls))
  {
    if calls != [] {
      hide Tracks, InTime, NextHorizon, Charge, Acquired, InRange;
      var front, call := calls[..|calls| - 1], calls[|calls| - 1];
      TracksInTime(config, front, c);
      if config.refillPerSecond >= 0.0 { BucketOfInRange(config, front, c); }
      TracksNext(config, Buckets(config, front), call, c, BucketOf(config, front, c), Horizon(config, front));
    }
  }

  /** The decision on a call in time, after calls in time, is that of the reference. */
  lemma InTimeAgrees(config: RateLimitConfig, calls: seq<Call>, call: Call)
    requires AllInTime(config, calls + [call])
    ensures Grants(config, calls, call) <==> Admits(config, calls, call)
  {
    hide Tracks, InTime, Buckets, BucketOf, AllowanceOf, Pass, AllInTime, InRange;
    InTimePush(config, calls, call);
    TracksInTime(config, calls, call.client);
    PassAllows(config, Buckets(config, calls), call.client, call.now);
    if config.refillPerSecond >= 0.0 { BucketOfInRange(config, calls, call.client); }
    SameAllowance(config, Tracked(Buckets(config, calls), call.client), BucketOf(config, calls, call.client),
                  Horizon(config, calls), call.now);
  }

  /**
   Whoever else calls, a call in time gets the answer it would get from a limiter that had served its client
   alone.
   */
  lemma OnlyOwnCalls(config: RateLimitConfig, calls: seq<Call>, call: Call)
    requires AllInTime(config, calls + [call])
    ensures Grants(config, calls, call) <==> Grants(config, Own(calls, call.client), call)
  {
    hide Grants, Admits, AllInTime;
    InTimeAgrees(config, calls, call);
    ReferenceIsSolo(config, calls, call);
  }

  // ---- When calls are in time ----

  lemma {:induction false} HorizonCalled(config: RateLimitConfig, calls: seq<Call>)
    ensures var horizon := Horizon(config, calls);
            horizon.Some? ==> exists i :: 0 <= i < |calls| && calls[i].now == horizon.value
  {
    if calls != [] {
      hide Buckets;
      var last := |calls| - 1;
      HorizonCalled(config, calls[..last]);
      if Horizon(config, calls) == Horizon(config, calls[..last]) && Horizon(config, calls).Some? {
        var i :| 0 <= i < last && calls[..last][i].now == Horizon(config, calls).value;
        assert calls[i].now == Horizon(config, calls).value;
      } else {
        assert calls[last].now == calls[last].now;
      }
    }
  }

  /** Calls whose times never decrease are in time. */
  lemma {:induction false} OrderedInTime(config: RateLimitConfig, calls: seq<Call>)
    requires Ordered(calls) && config.refillPerSecond >= 0.0
    ensures AllInTime(config, calls)
  {
    if calls != [] {
      hide Horizon;
      var last := |calls| - 1;
      OrderedInTime(config, calls[..last]);
      HorizonCalled(config, calls[..last]);
    }
  }

  ghost function Clients(calls: seq<Call>): set<IpAddr> {
    set i | 0 <= i < |calls| :: calls[i].client
  }

  lemma SubsetSize(a: set<IpAddr>, b: set<IpAddr>)
    requires a <= b
    ensures |a| <= |b|
  {
    assert |b| == |a| + |b - a|;
  }

  /** With fewer clients than it takes for a pass, nothing is forgotten, and calls at any times are in time. */
  lemma {:induction false} FewInTime(config: RateLimitConfig, calls: seq<Call>)
    requires |Clients(calls)| < MAX_TRACKED_CLIENTS
    ensures AllInTime(config, calls) && Horizon(config, calls) == None
    ensures Buckets(config, calls).Keys <= Clients(calls)
  {
    if calls != [] {
      hide Charge;
      var front, call := calls[..|calls| - 1], calls[|calls| - 1];
      assert Clients(calls) == Clients(front) + {call.client};
      SubsetSize(Clients(front), Clients(calls));
      FewInTime(config, front);
      SubsetSize(Buckets(config, front).Keys, Clients(front));
    }
  }

  // ---- The class ----

  class RateLimiter {
    const config: RateLimitConfig
    var buckets: Table

    /** Every call made so far. */
    ghost var calls: seq<Call>

    ghost predicate Valid()
      reads this
    {
      buckets == Buckets(config, calls)
    }

    constructor (config: RateLimitConfig)
      ensures Valid() && this.config == config && buckets == map[] && calls == []
    {
      this.config := config;
      buckets, calls := map[], [];
    }

    /** With too many clients tracked, forget the buckets that have refilled. */
    method Evict(now: real)
      modifies this`buckets
      ensures buckets == Pass(config, old(buckets), now)
    {
      if |buckets| >= MAX_TRACKED_CLIENTS {
        buckets := map c | c in buckets && !Refilled(config, buckets[c], now) :: buckets[c];
      }
    }

    /**
     Take one token for a client. Decision and new buckets are exact for calls at any times in any order. If all
     calls come in time, as they do when their times never decrease or there are few clients, the decision is
     that of a limiter serving this client alone.
     */
    method TryAcquire(client: IpAddr, now: real) returns (admitted: bool)
      requires Valid()
      modifies this`buckets, this`calls
      ensures Valid() && calls == old(calls) + [Call(client, now)]
      ensures admitted <==> Grants(config, old(calls), Call(client, now))
      ensures admitted <==> AllowanceOf(config, Tracked(old(buckets), client), now) >= 1.0
      ensures Tracked(buckets, client) == Some(Charge(config, Tracked(old(buckets), client), now))
      ensures forall c :: c != client ==> Tracked(buckets, c) == Kept(config, old(buckets), c, now)
      ensures AllInTime(config, calls) ==> (admitted <==> Admits(config, old(calls), Call(client, now)))
    {
      hide Buckets, BucketOf, Allowance, Refilled, Pass, Tracked, AllInTime, Kept;
      ghost var before := buckets;
      Evict(now);
      ghost var kept := buckets;
      var bucket := if client in buckets then buckets[client] else FreshBucket(config, now);
      OwnOrFresh(config, kept, client, now);
      var tokens := Allowance(config, bucket, now);
      if tokens >= 1.0 {
        tokens := tokens - 1.0;
        admitted := true;
      } else {
        admitted := false;
      }
      buckets := buckets[client := Bucket(tokens, now)];
      PassAllows(config, before, client, now);
      BucketsPush(config, calls, Call(client, now));
      forall c
        ensures c == client ==> Tracked(buckets, c) == Some(Charge(config, Tracked(before, c), now))
        ensures c != client ==> Tracked(buckets, c) == Kept(config, before, c, now)
      {
        AcquiredAt(config, before, Call(client, now), c);
      }
      if AllInTime(config, calls + [Call(client, now)]) {
        InTimeAgrees(config, calls, Call(client, now));
      }
      calls := calls + [Call(client, now)];
    }
  }

  lemma OwnOrFresh(config: RateLimitConfig, kept: Table, client: IpAddr, now: real)
    ensures Allowance(config, if client in kept then kept[client] else FreshBucket(config, now), now)
            == AllowanceOf(config, Tracked(kept, client), now)
  {
    assert 0.0 * config.refillPerSecond == 0.0;
  }

  /** The decisions of a live limiter over a whole run, at any times. */
  method RunCalls(config: RateLimitConfig, calls: seq<Call>) returns (limiter: RateLimiter, decisions: seq<bool>)
    ensures fresh(limiter) && limiter.Valid() && limiter.config == config && limiter.calls == calls
    ensures |decisions| == |calls|
    ensures forall k :: 0 <= k < |calls| ==> (decisions[k] <==> Grants(config, calls[..k], calls[k]))
    ensures AllInTime(config, calls)
            ==> forall k :: 0 <= k < |calls| ==> (decisions[k] <==> Admits(config, calls[..k], calls[k]))
  {
    hide Grants, Admits, AllInTime, Buckets;
    limiter := new RateLimiter(config);
    decisions := [];
    for k := 0 to |calls|
      invariant fresh(limiter) && limiter.Valid() && limiter.config == config && limiter.calls == calls[..k]
      invariant |decisions| == k
      invariant forall i :: 0 <= i < k ==> (decisions[i] <==> Grants(config, calls[..i], calls[i]))
    {
      var admitted := limiter.TryAcquire(calls[k].client, calls[k].now);
      assert calls[..k + 1] == calls[..k] + [calls[k]];
      decisions := decisions + [admitted];
    }
    assert calls[..|calls|] == calls;
    if AllInTime(config, calls) {
      forall k | 0 <= k < |calls|
        ensures decisions[k] <==> Admits(config, calls[..k], calls[k])
      {
        PrefixInTime(config, calls, k + 1);
        assert calls[..k + 1] == calls[..k] + [calls[k]];
        InTimeAgrees(config, calls[..k], calls[k]);
      }
    }
  }

  lemma {:induction false} PrefixInTime(config: RateLimitConfig, calls: seq<Call>, k: nat)
    requires k <= |calls| && AllInTime(config, calls)
    ensures AllInTime(config, calls[..k])
  {
    if k < |calls| {
      var front := calls[..|calls| - 1];
      PrefixInTime(config, front, k);
      assert front[..k] == calls[..k];
    } else {
      assert calls[..k] == calls;
    }
  }
}
