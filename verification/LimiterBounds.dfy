/**
 Which calls the limiter admits, and how often (src/api/rate_limit.rs): bounds for its decisions after calls at any
 times, exactly when the bound that its settings promise holds, what forgetting refilled buckets does to it, and
 exactly which calls are admitted.
 */
module LimiterBounds {
  import opened Domain
  import opened TokenBucket
  import opened RateLimiter

  // ---- Counting ----

  /** Calls of `client` admitted among calls `i` to `j` of a run. */
  function Granted(config: RateLimitConfig, calls: seq<Call>, client: IpAddr, i: nat, j: nat): nat
    requires i <= j <= |calls|
    decreases j
  {
    if i == j then 0
    else
      Granted(config, calls, client, i, j - 1)
      + if calls[j - 1].client == client && Grants(config, calls[..j - 1], calls[j - 1]) then 1 else 0
  }

  /** The same for the reference, which never forgets. */
  function Admitted(config: RateLimitConfig, calls: seq<Call>, client: IpAddr, i: nat, j: nat): nat
    requires i <= j <= |calls|
    decreases j
  {
    if i == j then 0
    else
      Admitted(config, calls, client, i, j - 1)
      + if calls[j - 1].client == client && Admits(config, calls[..j - 1], calls[j - 1]) then 1 else 0
  }

  /** How far the clock moves forward over some calls, steps back not counted. */
  function Forward(calls: seq<Call>): real {
    if |calls| < 2 then 0.0
    else Forward(calls[..|calls| - 1]) + Elapsed(calls[|calls| - 1].now, calls[|calls| - 2].now)
  }

  lemma ForwardPush(calls: seq<Call>, call: Call)
    requires calls != []
    ensures Forward(calls + [call]) == Forward(calls) + Elapsed(call.now, calls[|calls| - 1].now)
  {
    assert (calls + [call])[..|calls|] == calls;
  }

  lemma ForwardShort(call: Call)
    ensures Forward([]) == Forward([call]) == 0.0
  {
  }

  lemma {:induction false} ForwardNonNegative(calls: seq<Call>)
    ensures Forward(calls) >= 0.0
  {
    if |calls| >= 2 {
      ForwardNonNegative(calls[..|calls| - 1]);
    }
  }

  /** In order, the clock moves forward by exactly the time from the first call to the last. */
  lemma {:induction false} ForwardInOrder(calls: seq<Call>)
    requires Ordered(calls) && calls != []
    ensures Forward(calls) == calls[|calls| - 1].now - calls[0].now
  {
    if |calls| >= 2 {
      ForwardInOrder(calls[..|calls| - 1]);
    }
  }

  lemma SlicePush(calls: seq<Call>, i: nat, j: nat)
    requires i <= j < |calls|
    ensures calls[i..j + 1] == calls[i..j] + [calls[j]]
    ensures calls[..j + 1] == calls[..j] + [calls[j]]
  {
  }

  /** What a bucket regains in a time. */
  function Regained(config: RateLimitConfig, time: real): real {
    time * config.refillPerSecond
  }

  // ---- The bound for calls at any times ----

  /**
   What is kept over a window in which the clock has moved forward by `forward` and the last call was at `t`: what a
   client was admitted, what its bucket holds and what that has since regained come to at most a burst plus what
   refills meanwhile. While its bucket is forgotten, not even the burst was used.
   */
  ghost predicate Budget(config: RateLimitConfig, b: Option<Bucket>, called: bool, granted: nat, t: real,
                         forward: real) {
    if !called then granted == 0
    else
      match b
      case None => granted as real <= forward * config.refillPerSecond
      case Some(bucket) =>
        granted as real + bucket.tokens + Elapsed(t, bucket.lastRefill) * config.refillPerSecond
        <= config.burst as real + forward * config.refillPerSecond
  }

  /** Time passes until `t'`. */
  lemma BudgetWaits(config: RateLimitConfig, b: Option<Bucket>, called: bool, granted: nat, t: real, t': real,
                    forward: real)
    requires config.refillPerSecond >= 0.0 && Budget(config, b, called, granted, t, forward)
    ensures Budget(config, b, called, granted, t', forward + Elapsed(t', t))
  {
    var r, step := config.refillPerSecond, Elapsed(t', t);
    Distribute(forward, step, r);
    MulNonNegative(step, r);
    if b.Some? {
      var idle := Elapsed(t, b.value.lastRefill);
      MulMonotone(Elapsed(t', b.value.lastRefill), idle + step, r);
      Distribute(idle, step, r);
    }
  }

  /** The client calls. */
  lemma BudgetCharged(config: RateLimitConfig, b: Option<Bucket>, called: bool, granted: nat, t: real, forward: real)
    requires config.refillPerSecond >= 0.0 && forward >= 0.0 && Budget(config, b, called, granted, t, forward)
    requires b.Some? ==> InRange(config, b.value)
    ensures Budget(config, Some(Charge(config, b, t)), true,
                   granted + if AllowanceOf(config, b, t) >= 1.0 then 1 else 0, t, forward)
  {
    ChargeTakesOne(config, b, t);
    hide Charge, AllowanceOf;
    MulNonNegative(forward, config.refillPerSecond);
    assert Elapsed(t, t) * config.refillPerSecond == 0.0;
  }

  /** Another client calls, and this one's bucket may be forgotten. */
  lemma BudgetKept(config: RateLimitConfig, buckets: Table, client: IpAddr, called: bool, granted: nat, t: real,
                   forward: real)
    requires Budget(config, Tracked(buckets, client), called, granted, t, forward)
    ensures Budget(config, Kept(config, buckets, client, t), called, granted, t, forward)
  {
  }

  lemma BudgetStep(config: RateLimitConfig, calls: seq<Call>, window: seq<Call>, call: Call, client: IpAddr,
                   granted: nat)
    requires config.refillPerSecond >= 0.0
    requires Budget(config, Tracked(Buckets(config, calls), client), Own(window, client) != [], granted,
                    if window == [] then call.now else window[|window| - 1].now, Forward(window))
    ensures Budget(config, Tracked(Buckets(config, calls + [call]), client), Own(window + [call], client) != [],
                   granted + if call.client == client && Grants(config, calls, call) then 1 else 0, call.now,
                   Forward(window + [call]))
  {
    hide Budget, Buckets, Own, Charge, AllowanceOf, Forward, Elapsed, InRange, Acquired, Pass, Kept;
    var buckets, forward := Buckets(config, calls), Forward(window + [call]);
    var called := Own(window, client) != [];
    WindowGrows(config, Tracked(buckets, client), called, window, call, granted);
    BucketsPush(config, calls, call);
    AcquiredAt(config, buckets, call, client);
    OwnPush(window, call, client);
    if call.client == client {
      BucketsInRange(config, calls);
      ForwardNonNegative(window + [call]);
      PassAllows(config, buckets, client, call.now);
      BudgetCharged(config, Tracked(buckets, client), called, granted, call.now, forward);
    } else {
      BudgetKept(config, buckets, client, called, granted, call.now, forward);
    }
  }

  lemma WindowGrows(config: RateLimitConfig, b: Option<Bucket>, called: bool, window: seq<Call>, call: Call,
                    granted: nat)
    requires config.refillPerSecond >= 0.0
    requires Budget(config, b, called, granted, if window == [] then call.now else window[|window| - 1].now,
                    Forward(window))
    ensures Budget(config, b, called, granted, call.now, Forward(window + [call]))
  {
    hide Budget, Forward;
    if window == [] {
      ForwardShort(call);
      assert window + [call] == [call];
    } else {
      ForwardPush(window, call);
      BudgetWaits(config, b, called, granted, window[|window| - 1].now, call.now, Forward(window));
    }
  }

  lemma {:induction false} BudgetHolds(config: RateLimitConfig, calls: seq<Call>, client: IpAddr, i: nat, j: nat)
    requires config.refillPerSecond >= 0.0 && i < j <= |calls|
    ensures Budget(config, Tracked(Buckets(config, calls[..j]), client), Own(calls[i..j], client) != [],
                   Granted(config, calls, client, i, j), calls[j - 1].now, Forward(calls[i..j]))
    decreases j
  {
    hide Budget, Buckets, Grants, Own, Forward;
    SlicePush(calls, i, j - 1);
    if i == j - 1 {
      NothingGranted(config, Tracked(Buckets(config, calls[..i]), client), client, calls[i].now);
      assert calls[i..j - 1] == [];
      assert Granted(config, calls, client, i, i) == 0;
    } else {
      BudgetHolds(config, calls, client, i, j - 1);
    }
    BudgetStep(config, calls[..j - 1], calls[i..j - 1], calls[j - 1], client, Granted(config, calls, client, i, j - 1));
  }

  lemma NoneGranted(config: RateLimitConfig, calls: seq<Call>, client: IpAddr, i: nat)
    requires i <= |calls|
    ensures Granted(config, calls, client, i, i) == 0
  {
  }

  lemma ElapsedNonNegative(now: real, since: real)
    ensures Elapsed(now, since) >= 0.0
  {
  }

  lemma NothingGranted(config: RateLimitConfig, b: Option<Bucket>, client: IpAddr, t: real)
    ensures Budget(config, b, Own([], client) != [], 0, t, Forward([]))
  {
  }

  /**
   For calls at any times, in any window of any run, forgotten buckets or not: a client is admitted at most a burst
   plus what refills while the clock moves forward over everybody's calls in the window.
   */
  lemma ForwardBound(config: RateLimitConfig, calls: seq<Call>, client: IpAddr, i: nat, j: nat)
    requires config.refillPerSecond >= 0.0 && i <= j <= |calls|
    ensures Granted(config, calls, client, i, j) as real
            <= config.burst as real + Forward(calls[i..j]) * config.refillPerSecond
  {
    hide Buckets, Own, Forward, Granted, Elapsed;
    ForwardNonNegative(calls[i..j]);
    MulNonNegative(Forward(calls[i..j]), config.refillPerSecond);
    if i == j {
      NoneGranted(config, calls, client, i);
    } else {
      BudgetHolds(config, calls, client, i, j);
      BucketsInRange(config, calls[..j]);
      var b := Tracked(Buckets(config, calls[..j]), client);
      if b.Some? {
        ElapsedNonNegative(calls[j - 1].now, b.value.lastRefill);
        MulNonNegative(Elapsed(calls[j - 1].now, b.value.lastRefill), config.refillPerSecond);
      }
    }
  }

  /**
   In a window of length `window` whose calls are in order, whatever came before, a client is admitted at most a
   burst plus what the window refills.
   */
  lemma WindowBound(config: RateLimitConfig, calls: seq<Call>, client: IpAddr, i: nat, j: nat, window: real)
    requires config.refillPerSecond >= 0.0 && i < j <= |calls| && Ordered(calls[i..j])
    requires calls[j - 1].now - calls[i].now <= window
    ensures Granted(config, calls, client, i, j) as real <= config.burst as real + window * config.refillPerSecond
  {
    hide Granted, Forward;
    ForwardBound(config, calls, client, i, j);
    ForwardInOrder(calls[i..j]);
    MulMonotone(Forward(calls[i..j]), window, config.refillPerSecond);
  }

  // ---- The limiter against the reference ----

  lemma {:induction false} GrantedInTime(config: RateLimitConfig, calls: seq<Call>, client: IpAddr, i: nat, j: nat)
    requires i <= j <= |calls| && AllInTime(config, calls)
    ensures Granted(config, calls, client, i, j) == Admitted(config, calls, client, i, j)
    decreases j
  {
    if i < j {
      hide Grants, Admits, AllInTime;
      GrantedInTime(config, calls, client, i, j - 1);
      PrefixInTime(config, calls, j);
      SlicePush(calls, 0, j - 1);
      InTimeAgrees(config, calls[..j - 1], calls[j - 1]);
    }
  }

  /** The limiter is ahead of the reference: in admissions, and in admissions and tokens together. */
  ghost predicate Ahead(b: Option<Bucket>, granted: nat, ref: Option<Bucket>, admitted: nat) {
    && granted >= admitted
    && (b.Some? ==>
          && ref.Some? && b.value.lastRefill == ref.value.lastRefill
          && granted as real + b.value.tokens >= admitted as real + ref.value.tokens)
  }

  lemma AheadCharged(config: RateLimitConfig, b: Option<Bucket>, granted: nat, ref: Option<Bucket>, admitted: nat,
                     t: real)
    requires Ahead(b, granted, ref, admitted)
    ensures Ahead(Some(Charge(config, b, t)), granted + if AllowanceOf(config, b, t) >= 1.0 then 1 else 0,
                  Some(Charge(config, ref, t)), admitted + if AllowanceOf(config, ref, t) >= 1.0 then 1 else 0)
  {
    var x, y := AllowanceOf(config, b, t), AllowanceOf(config, ref, t);
    assert y <= config.burst as real;
    assert granted as real + x >= admitted as real + y;
  }

  lemma AheadNext(config: RateLimitConfig, calls: seq<Call>, call: Call, client: IpAddr, granted: nat, admitted: nat)
    requires Ahead(Tracked(Buckets(config, calls), client), granted, BucketOf(config, calls, client), admitted)
    ensures Ahead(Tracked(Buckets(config, calls + [call]), client),
                  granted + if call.client == client && Grants(config, calls, call) then 1 else 0,
                  BucketOf(config, calls + [call], client),
                  admitted + if call.client == client && Admits(config, calls, call) then 1 else 0)
  {
    hide Buckets, BucketOf, Acquired, Charge, AllowanceOf, Pass, Kept, Ahead;
    var buckets, ref := Buckets(config, calls), BucketOf(config, calls, client);
    BucketsPush(config, calls, call);
    AcquiredAt(config, buckets, call, client);
    BucketOfPush(config, calls, call, client);
    if call.client == client {
      PassAllows(config, buckets, client, call.now);
      AheadCharged(config, Tracked(buckets, client), granted, ref, admitted, call.now);
    } else {
      AheadKept(config, buckets, client, granted, ref, admitted, call.now);
    }
  }

  lemma {:induction false} StaysAhead(config: RateLimitConfig, calls: seq<Call>, client: IpAddr, j: nat)
    requires j <= |calls|
    ensures Ahead(Tracked(Buckets(config, calls[..j]), client), Granted(config, calls, client, 0, j),
                  BucketOf(config, calls[..j], client), Admitted(config, calls, client, 0, j))
    decreases j
  {
    if j > 0 {
      hide Buckets, BucketOf, Grants, Admits, Ahead;
      StaysAhead(config, calls, client, j - 1);
      SlicePush(calls, 0, j - 1);
      AheadNext(config, calls[..j - 1], calls[j - 1], client, Granted(config, calls, client, 0, j - 1),
                Admitted(config, calls, client, 0, j - 1));
    }
  }

  lemma AheadKept(config: RateLimitConfig, buckets: Table, client: IpAddr, granted: nat, ref: Option<Bucket>,
                  admitted: nat, t: real)
    requires Ahead(Tracked(buckets, client), granted, ref, admitted)
    ensures Ahead(Kept(config, buckets, client, t), granted, ref, admitted)
  {
  }

  // ---- The reference is the limiter of one client ----

  lemma {:induction false} GrantedPrefix(config: RateLimitConfig, calls: seq<Call>, more: seq<Call>, client: IpAddr,
                                         i: nat, j: nat)
    requires i <= j <= |calls|
    ensures Granted(config, calls + more, client, i, j) == Granted(config, calls, client, i, j)
    decreases j
  {
    if i < j {
      hide Grants;
      GrantedPrefix(config, calls, more, client, i, j - 1);
      assert (calls + more)[..j - 1] == calls[..j - 1];
    }
  }

  lemma GrantedPush(config: RateLimitConfig, calls: seq<Call>, call: Call, client: IpAddr, i: nat)
    requires i <= |calls|
    ensures Granted(config, calls + [call], client, i, |calls| + 1)
            == Granted(config, calls, client, i, |calls|)
               + if call.client == client && Grants(config, calls, call) then 1 else 0
  {
    hide Grants;
    GrantedPrefix(config, calls, [call], client, i, |calls|);
    assert (calls + [call])[..|calls|] == calls;
  }

  lemma NextIsSolo(config: RateLimitConfig, calls: seq<Call>, call: Call, client: IpAddr, m: nat)
    requires m <= |Own(calls, client)|
    ensures var own, own' := Own(calls, client), Own(calls + [call], client);
            && m <= |own'|
            && Granted(config, own', client, m, |own'|)
               == Granted(config, own, client, m, |own|)
                  + if call.client == client && Admits(config, calls, call) then 1 else 0
  {
    hide Grants, Admits, Own, Granted;
    var own := Own(calls, client);
    OwnPush(calls, call, client);
    if call.client == client {
      GrantedPush(config, own, call, client, m);
      ReferenceIsSolo(config, calls, call);
    } else {
      assert own + [] == own;
    }
  }

  /** What the reference admits in a window is what a limiter serving this client alone would admit in it. */
  lemma {:induction false} AdmittedIsSolo(config: RateLimitConfig, calls: seq<Call>, client: IpAddr, i: nat, j: nat)
    requires i <= j <= |calls|
    ensures |Own(calls[..i], client)| <= |Own(calls[..j], client)|
    ensures Admitted(config, calls, client, i, j)
            == Granted(config, Own(calls[..j], client), client, |Own(calls[..i], client)|, |Own(calls[..j], client)|)
    decreases j
  {
    hide Admits, Own, Granted;
    if i == j {
      NoneGranted(config, Own(calls[..j], client), client, |Own(calls[..j], client)|);
    } else {
      AdmittedIsSolo(config, calls, client, i, j - 1);
      SlicePush(calls, 0, j - 1);
      NextIsSolo(config, calls[..j - 1], calls[j - 1], client, |Own(calls[..i], client)|);
    }
  }

  lemma {:induction false} OwnConcat(a: seq<Call>, b: seq<Call>, client: IpAddr)
    ensures Own(a + b, client) == Own(a, client) + Own(b, client)
  {
    if b == [] {
      assert a + b == a;
    } else {
      var last := |b| - 1;
      var e := if b[last].client == client then [b[last]] else [];
      OwnConcat(a, b[..last], client);
      OwnPush(a + b[..last], b[last], client);
      assert a + b == (a + b[..last]) + [b[last]];
      Assoc(Own(a, client), Own(b[..last], client), e);
    }
  }

  /**
   Forgetting never costs a client anything: at any times and whatever others do, by every point of a run it has been
   admitted at least as often as if it had been alone.
   */
  lemma NeverFewer(config: RateLimitConfig, calls: seq<Call>, client: IpAddr, j: nat)
    requires j <= |calls|
    ensures var own := Own(calls[..j], client);
            Granted(config, calls, client, 0, j) >= Granted(config, own, client, 0, |own|)
  {
    hide Granted, Admitted;
    StaysAhead(config, calls, client, j);
    AdmittedIsSolo(config, calls, client, 0, j);
  }

  /** The bound of the reference, which watches the clock over the client's own calls only. */
  lemma ReferenceBound(config: RateLimitConfig, calls: seq<Call>, client: IpAddr, i: nat, j: nat)
    requires config.refillPerSecond >= 0.0 && i <= j <= |calls|
    ensures Admitted(config, calls, client, i, j) as real
            <= config.burst as real + Forward(Own(calls[i..j], client)) * config.refillPerSecond
  {
    hide Granted, Admitted, Own, Forward;
    var before, own := Own(calls[..i], client), Own(calls[..j], client);
    AdmittedIsSolo(config, calls, client, i, j);
    OwnConcat(calls[..i], calls[i..j], client);
    assert calls[..i] + calls[i..j] == calls[..j];
    assert own[|before|..|own|] == Own(calls[i..j], client);
    ForwardBound(config, own, client, |before|, |own|);
  }

  /**
   As long as calls come in time, the clock need only be watched over the client's own calls: in any window it is
   admitted at most a burst plus what refills while the clock moves forward over those.
   */
  lemma OwnForwardBound(config: RateLimitConfig, calls: seq<Call>, client: IpAddr, i: nat, j: nat)
    requires config.refillPerSecond >= 0.0 && i <= j <= |calls| && AllInTime(config, calls[..j])
    ensures Granted(config, calls, client, i, j) as real
            <= config.burst as real + Forward(Own(calls[i..j], client)) * config.refillPerSecond
  {
    hide Granted, Admitted, Own, Forward, AllInTime;
    GrantedPrefix(config, calls[..j], calls[j..], client, i, j);
    assert calls[..j] + calls[j..] == calls;
    GrantedInTime(config, calls[..j], client, i, j);
    ReferenceBound(config, calls[..j], client, i, j);
    assert calls[..j][i..j] == calls[i..j];
  }

  /**
   A live limiter that everybody shares beside one that serves `client` alone. Sharing costs the client no admission
   and gains it none beyond the bound; if calls come in time, it makes no difference to any answer.
   */
  method SharedAndAlone(config: RateLimitConfig, calls: seq<Call>, client: IpAddr)
    returns (shared: RateLimiter, alone: RateLimiter, answers: seq<bool>, answers': seq<bool>,
             granted: nat, granted': nat)
    ensures fresh(shared) && shared.Valid() && shared.config == config && shared.calls == calls
    ensures fresh(alone) && alone.Valid() && alone.config == config && alone.calls == Own(calls, client)
    ensures granted == Granted(config, calls, client, 0, |calls|)
    ensures granted' == Granted(config, alone.calls, client, 0, |alone.calls|)
    ensures granted' <= granted
    ensures config.refillPerSecond >= 0.0
            ==> granted as real <= config.burst as real + Forward(calls) * config.refillPerSecond
    ensures AllInTime(config, calls) ==> answers == answers'
  {
    hide Grants, Granted, Own, AllInTime, Forward, Buckets, Charge, AllowanceOf, Kept;
    shared := new RateLimiter(config);
    alone := new RateLimiter(config);
    answers, answers', granted, granted' := [], [], 0, 0;
    NothingYet(config, client);
    for k := 0 to |calls|
      invariant fresh(shared) && shared.Valid() && shared.config == config && shared.calls == calls[..k]
      invariant fresh(alone) && alone.Valid() && alone.config == config && alone.calls == Own(calls[..k], client)
      invariant shared != alone
      invariant granted == Granted(config, shared.calls, client, 0, k)
      invariant granted' == Granted(config, alone.calls, client, 0, |alone.calls|)
      invariant AllInTime(config, calls[..k]) ==> answers == answers'
    {
      var call := calls[k];
      ghost var before, own := shared.calls, alone.calls;
      SlicePush(calls, 0, k);
      OwnPush(before, call, client);
      InTimePush(config, before, call);
      GrantedPush(config, before, call, client, 0);
      var admitted := shared.TryAcquire(call.client, call.now);
      if call.client == client {
        if AllInTime(config, before + [call]) { OnlyOwnCalls(config, before, call); }
        GrantedPush(config, own, call, client, 0);
        var admitted' := alone.TryAcquire(call.client, call.now);
        answers, answers' := answers + [admitted], answers' + [admitted'];
        granted := granted + if admitted then 1 else 0;
        granted' := granted' + if admitted' then 1 else 0;
      } else {
        assert own + [] == own;
      }
    }
    assert calls[..|calls|] == calls[0..|calls|] == calls;
    NeverFewer(config, calls, client, |calls|);
    if config.refillPerSecond >= 0.0 {
      ForwardBound(config, calls, client, 0, |calls|);
    }
  }

  lemma NothingYet(config: RateLimitConfig, client: IpAddr)
    ensures Own([], client) == [] && Granted(config, [], client, 0, 0) == 0
  {
  }

  // ---- Exactly when the bound holds ----

  /** Under any settings, `client` is admitted at most a burst plus what refills in a time of `window`. */
  ghost predicate BoundedBy(calls: seq<Call>, client: IpAddr, window: real) {
    forall config: RateLimitConfig :: config.refillPerSecond >= 0.0 ==>
      Granted(config, calls, client, 0, |calls|) as real
      <= config.burst as real + window * config.refillPerSecond
  }

  lemma RegainedAllowance(config: RateLimitConfig, b: Bucket, before: real, after: real, now: real)
    requires config.burst == 1 && b.tokens == Regained(config, before)
    requires after == before + Elapsed(now, b.lastRefill)
    ensures Allowance(config, b, now) == MinReal(Regained(config, after), 1.0)
  {
    hide Elapsed;
    Distribute(before, Elapsed(now, b.lastRefill), config.refillPerSecond);
  }

  /** With a burst of one, a second token comes once the clock has moved far enough forward, if not before. */
  ghost predicate SecondToken(config: RateLimitConfig, b: Option<Bucket>, own: seq<Call>, admitted: nat) {
    if own == [] then b.None? && admitted == 0
    else
      || admitted >= 2
      || (admitted == 1 && b == Some(Bucket(Regained(config, Forward(own)), own[|own| - 1].now))
          && Regained(config, Forward(own)) < 1.0)
  }

  lemma SecondTokenNext(config: RateLimitConfig, b: Option<Bucket>, own: seq<Call>, admitted: nat, call: Call)
    requires config.burst == 1 && SecondToken(config, b, own, admitted)
    ensures SecondToken(config, Some(Charge(config, b, call.now)), own + [call],
                        admitted + if AllowanceOf(config, b, call.now) >= 1.0 then 1 else 0)
  {
    hide Forward, Elapsed, Regained, Allowance;
    if own == [] {
      ForwardShort(call);
      RegainedNothing(config);
      assert own + [call] == [call];
    } else {
      ForwardPush(own, call);
      if admitted == 1 {
        RegainedAllowance(config, b.value, Forward(own), Forward(own + [call]), call.now);
      }
    }
  }

  lemma RegainedNothing(config: RateLimitConfig)
    ensures Regained(config, 0.0) == 0.0
  {
  }

  lemma {:induction false} SecondTokenKept(config: RateLimitConfig, calls: seq<Call>, client: IpAddr, j: nat)
    requires config.burst == 1 && j <= |calls|
    ensures SecondToken(config, BucketOf(config, calls[..j], client), Own(calls[..j], client),
                        Admitted(config, calls, client, 0, j))
    decreases j
  {
    if j > 0 {
      hide SecondToken, Own, BucketOf, Charge, AllowanceOf;
      var front, call := calls[..j - 1], calls[j - 1];
      SecondTokenKept(config, calls, client, j - 1);
      SlicePush(calls, 0, j - 1);
      OwnPush(front, call, client);
      BucketOfPush(config, front, call, client);
      if call.client == client {
        SecondTokenNext(config, BucketOf(config, front, client), Own(front, client),
                        Admitted(config, calls, client, 0, j - 1), call);
      } else {
        assert Own(front, client) + [] == Own(front, client);
      }
    }
  }

  /** A burst of one that refills once on the way the clock makes over the client's own calls is granted twice. */
  lemma GrantedTwice(config: RateLimitConfig, calls: seq<Call>, client: IpAddr)
    requires config.burst == 1 && Own(calls, client) != [] && Regained(config, Forward(Own(calls, client))) == 1.0
    ensures Granted(config, calls, client, 0, |calls|) >= 2
  {
    hide Admitted, Granted, BucketOf, Own, Forward, Buckets, Regained;
    SecondTokenKept(config, calls, client, |calls|);
    StaysAhead(config, calls, client, |calls|);
    assert calls[..|calls|] == calls;
  }

  /** A window shorter than the clock's way over the client's own calls is too short for some settings. */
  lemma BoundNeeds(calls: seq<Call>, client: IpAddr, window: real)
    requires window >= 0.0 && BoundedBy(calls, client, window)
    ensures Forward(Own(calls, client)) <= window
  {
    hide Forward, Own, Granted;
    var way := Forward(Own(calls, client));
    if window < way {
      DivideBack(1.0, way);
      var config := RateLimitConfig(1, 1.0 / way);
      assert Regained(config, way) == 1.0;
      MulStrict(window, way, config.refillPerSecond);
      ForwardShort(Call(client, 0.0));
      GrantedTwice(config, calls, client);
    }
  }

  /** A window as long as the clock's way over everybody's calls is always long enough. */
  lemma BoundSuffices(calls: seq<Call>, client: IpAddr, window: real)
    requires Forward(calls) <= window
    ensures BoundedBy(calls, client, window)
  {
    hide Forward, Granted;
    assert calls[0..|calls|] == calls;
    forall config: RateLimitConfig | config.refillPerSecond >= 0.0
      ensures Granted(config, calls, client, 0, |calls|) as real
              <= config.burst as real + window * config.refillPerSecond
    {
      ForwardBound(config, calls, client, 0, |calls|);
      MulMonotone(Forward(calls), window, config.refillPerSecond);
    }
  }

  /**
   For calls in order, or of few clients at any times, the bound holds exactly if the clock's way over the client's
   own calls is no longer than the window.
   */
  lemma BoundExact(calls: seq<Call>, client: IpAddr, window: real)
    requires window >= 0.0 && (Ordered(calls) || |Clients(calls)| < MAX_TRACKED_CLIENTS)
    ensures BoundedBy(calls, client, window) <==> Forward(Own(calls, client)) <= window
  {
    hide Forward, Granted, Own, Clients, Ordered, BoundedBy;
    if Forward(Own(calls, client)) <= window {
      assert calls[..|calls|] == calls[0..|calls|] == calls;
      forall config: RateLimitConfig | config.refillPerSecond >= 0.0
        ensures Granted(config, calls, client, 0, |calls|) as real
                <= config.burst as real + window * config.refillPerSecond
      {
        if Ordered(calls) { OrderedInTime(config, calls); } else { FewInTime(config, calls); }
        OwnForwardBound(config, calls, client, 0, |calls|);
        MulMonotone(Forward(Own(calls, client)), window, config.refillPerSecond);
      }
      MakesBounded(calls, client, window);
    }
    if BoundedBy(calls, client, window) {
      BoundNeeds(calls, client, window);
    }
  }

  lemma MakesBounded(calls: seq<Call>, client: IpAddr, window: real)
    requires forall config: RateLimitConfig :: config.refillPerSecond >= 0.0 ==>
               Granted(config, calls, client, 0, |calls|) as real
               <= config.burst as real + window * config.refillPerSecond
    ensures BoundedBy(calls, client, window)
  {
  }

  // ---- A burst is granted ----

  /** A tracked bucket holds what is left of the burst, or more. */
  ghost predicate Left(config: RateLimitConfig, b: Option<Bucket>, granted: nat) {
    b.Some? ==> b.value.tokens + granted as real >= config.burst as real
  }

  lemma LeftAllows(config: RateLimitConfig, b: Option<Bucket>, granted: nat, t: real)
    requires config.refillPerSecond >= 0.0 && Left(config, b, granted)
    ensures AllowanceOf(config, b, t) + granted as real >= config.burst as real
    ensures Left(config, Some(Charge(config, b, t)), granted + if AllowanceOf(config, b, t) >= 1.0 then 1 else 0)
  {
    if b.Some? {
      MulNonNegative(Elapsed(t, b.value.lastRefill), config.refillPerSecond);
    }
  }

  lemma LeftNext(config: RateLimitConfig, calls: seq<Call>, call: Call, client: IpAddr, granted: nat)
    requires config.refillPerSecond >= 0.0 && Left(config, Tracked(Buckets(config, calls), client), granted)
    ensures Left(config, Tracked(Buckets(config, calls + [call]), client),
                 granted + if call.client == client && Grants(config, calls, call) then 1 else 0)
  {
    hide Buckets, Acquired, Charge, AllowanceOf, Pass;
    BucketsPush(config, calls, call);
    AcquiredAt(config, Buckets(config, calls), call, client);
    if call.client == client {
      PassAllows(config, Buckets(config, calls), client, call.now);
      LeftAllows(config, Tracked(Buckets(config, calls), client), granted, call.now);
    }
  }

  lemma {:induction false} BurstLeft(config: RateLimitConfig, calls: seq<Call>, client: IpAddr, j: nat)
    requires config.refillPerSecond >= 0.0 && j <= |calls|
    ensures Left(config, Tracked(Buckets(config, calls[..j]), client), Granted(config, calls, client, 0, j))
    decreases j
  {
    if j > 0 {
      hide Left, Grants, Buckets;
      BurstLeft(config, calls, client, j - 1);
      SlicePush(calls, 0, j - 1);
      LeftNext(config, calls[..j - 1], calls[j - 1], client, Granted(config, calls, client, 0, j - 1));
    } else {
      assert calls[..0] == [];
    }
  }

  lemma {:induction false} GrantedAmongOwn(config: RateLimitConfig, calls: seq<Call>, client: IpAddr, j: nat)
    requires j <= |calls|
    ensures Granted(config, calls, client, 0, j) <= |Own(calls[..j], client)|
    decreases j
  {
    if j > 0 {
      hide Grants, Own;
      GrantedAmongOwn(config, calls, client, j - 1);
      SlicePush(calls, 0, j - 1);
      OwnPush(calls[..j - 1], calls[j - 1], client);
    }
  }

  /**
   A whole burst is granted: at any times and whatever others do, a client is admitted as long as it has been admitted
   less often than the burst; so are its first `burst` calls, however quick.
   */
  lemma BurstGranted(config: RateLimitConfig, calls: seq<Call>, client: IpAddr, now: real)
    requires config.refillPerSecond >= 0.0
    ensures Granted(config, calls, client, 0, |calls|) < config.burst ==> Grants(config, calls, Call(client, now))
    ensures |Own(calls, client)| < config.burst ==> Grants(config, calls, Call(client, now))
  {
    hide Granted, Own, Buckets, Pass, AllowanceOf;
    assert calls[..|calls|] == calls;
    BurstLeft(config, calls, client, |calls|);
    GrantedAmongOwn(config, calls, client, |calls|);
    LeftAllows(config, Tracked(Buckets(config, calls), client), Granted(config, calls, client, 0, |calls|), now);
    PassAllows(config, Buckets(config, calls), client, now);
  }

  // ---- Exactly which calls are admitted ----

  /** What a client was admitted since call `i` and is allowed at `now` is all that the clock gives it since then. */
  ghost predicate AllowedSince(config: RateLimitConfig, calls: seq<Call>, client: IpAddr, now: real, i: nat) {
    && i <= |calls| && (i < |calls| ==> calls[i].client == client)
    && AllowanceOf(config, BucketOf(config, calls, client), now) + Admitted(config, calls, client, i, |calls|) as real
       == config.burst as real + Regained(config, Forward(Own(calls[i..], client) + [Call(client, now)]))
  }

  /** The client's allowance at any time is a full burst at some call of its own, or now, and what came of it since. */
  lemma {:induction false} AllowedSinceSome(config: RateLimitConfig, calls: seq<Call>, client: IpAddr, now: real)
    returns (i: nat)
    ensures AllowedSince(config, calls, client, now, i)
    decreases |calls|
  {
    hide AllowedSince, AllowanceOf, BucketOf, Charge;
    var n := |calls|;
    if AllowanceOf(config, BucketOf(config, calls, client), now) == config.burst as real {
      i := n;
      FullNow(config, calls, client, now);
    } else {
      NotFull(config, calls, client, now);
      var front, last := calls[..n - 1], calls[n - 1];
      assert calls == front + [last];
      if last.client == client {
        i := AllowedSinceSome(config, front, client, last.now);
        OwnCallSince(config, front, last, now, i);
      } else {
        i := AllowedSinceSome(config, front, client, now);
        i := OtherCallSince(config, front, last, client, now, i);
      }
    }
  }

  lemma NotFull(config: RateLimitConfig, calls: seq<Call>, client: IpAddr, now: real)
    requires AllowanceOf(config, BucketOf(config, calls, client), now) != config.burst as real
    ensures calls != []
  {
  }

  lemma FullNow(config: RateLimitConfig, calls: seq<Call>, client: IpAddr, now: real)
    requires AllowanceOf(config, BucketOf(config, calls, client), now) == config.burst as real
    ensures AllowedSince(config, calls, client, now, |calls|)
  {
    hide AllowanceOf, BucketOf, Forward;
    assert calls[|calls|..] == [];
    assert Own([], client) + [Call(client, now)] == [Call(client, now)];
    ForwardShort(Call(client, now));
    RegainedNothing(config);
  }

  lemma {:induction false} AdmittedPrefix(config: RateLimitConfig, calls: seq<Call>, more: seq<Call>, client: IpAddr,
                                          i: nat, j: nat)
    requires i <= j <= |calls|
    ensures Admitted(config, calls + more, client, i, j) == Admitted(config, calls, client, i, j)
    decreases j
  {
    if i < j {
      hide Admits;
      AdmittedPrefix(config, calls, more, client, i, j - 1);
      assert (calls + more)[..j - 1] == calls[..j - 1];
    }
  }

  lemma AdmittedPush(config: RateLimitConfig, calls: seq<Call>, call: Call, client: IpAddr, i: nat)
    requires i <= |calls|
    ensures Admitted(config, calls + [call], client, i, |calls| + 1)
            == Admitted(config, calls, client, i, |calls|)
               + if call.client == client && Admits(config, calls, call) then 1 else 0
  {
    hide Admits;
    AdmittedPrefix(config, calls, [call], client, i, |calls|);
    assert (calls + [call])[..|calls|] == calls;
  }

  /** The client's own call takes a token if it is admitted, and the clock goes on from it. */
  lemma OwnCallSince(config: RateLimitConfig, calls: seq<Call>, call: Call, now: real, i: nat)
    requires AllowedSince(config, calls, call.client, call.now, i)
    requires AllowanceOf(config, BucketOf(config, calls + [call], call.client), now) != config.burst as real
    ensures AllowedSince(config, calls + [call], call.client, now, i)
  {
    hide BucketOf, AllowanceOf, Charge, Forward, Own, Admitted, Regained, Elapsed;
    var client, all := call.client, calls + [call];
    var b := BucketOf(config, calls, client);
    BucketOfPush(config, calls, call, client);
    AdmittedPush(config, calls, call, client, i);
    assert all[i..] == calls[i..] + [call];
    OwnPush(calls[i..], call, client);
    ForwardPush(Own(calls[i..], client) + [call], Call(client, now));
    ChargedAllows(config, b, call.now, now, Forward(Own(calls[i..], client) + [call]),
                  Forward(Own(all[i..], client) + [Call(client, now)]));
  }

  /** What a client not at its limit is allowed after a call: what was left then and what came back since. */
  lemma ChargedAllows(config: RateLimitConfig, b: Option<Bucket>, t: real, now: real, before: real, after: real)
    requires AllowanceOf(config, Some(Charge(config, b, t)), now) != config.burst as real
    requires after == before + Elapsed(now, t)
    ensures AllowanceOf(config, Some(Charge(config, b, t)), now)
            + (if AllowanceOf(config, b, t) >= 1.0 then 1.0 else 0.0) - AllowanceOf(config, b, t)
            == Regained(config, after) - Regained(config, before)
  {
    hide Elapsed;
    Distribute(before, Elapsed(now, t), config.refillPerSecond);
  }

  lemma OtherCallSince(config: RateLimitConfig, calls: seq<Call>, call: Call, client: IpAddr, now: real, i: nat)
    returns (i': nat)
    requires AllowedSince(config, calls, client, now, i) && call.client != client
    ensures AllowedSince(config, calls + [call], client, now, i')
  {
    hide BucketOf, AllowanceOf, Forward, Own, Admitted, Regained;
    var all := calls + [call];
    BucketOfPush(config, calls, call, client);
    AdmittedPush(config, calls, call, client, i);
    assert all[i..] == calls[i..] + [call];
    OwnPush(calls[i..], call, client);
    assert Own(calls[i..], client) + [] == Own(calls[i..], client);
    if i == |calls| {
      i' := |all|;
      assert calls[i..] == [] && all[i'..] == [];
      NoneAdmitted(config, calls, client, i);
      NoneAdmitted(config, all, client, i');
    } else {
      i' := i;
    }
  }

  lemma NoneAdmitted(config: RateLimitConfig, calls: seq<Call>, client: IpAddr, i: nat)
    requires i <= |calls|
    ensures Admitted(config, calls, client, i, i) == 0
  {
  }

  /** If the call were admitted, the client would have had more than its due since call `i`. */
  ghost predicate TooMany(config: RateLimitConfig, calls: seq<Call>, call: Call, i: nat)
    requires i <= |calls|
  {
    Granted(config, calls, call.client, i, |calls|) as real + 1.0
    > config.burst as real + Regained(config, Forward(Own(calls[i..], call.client) + [call]))
  }

  /** A call in time that is refused would have been too many since some earlier call of its client, or by itself. */
  lemma RefusedIsTooMany(config: RateLimitConfig, calls: seq<Call>, call: Call) returns (i: nat)
    requires AllInTime(config, calls + [call]) && !Grants(config, calls, call)
    ensures i <= |calls| && (i < |calls| ==> calls[i].client == call.client) && TooMany(config, calls, call, i)
  {
    hide Granted, Admitted, AllInTime, Grants, BucketOf, AllowanceOf, Own, Forward, Regained;
    InTimeAgrees(config, calls, call);
    InTimePush(config, calls, call);
    i := AllowedSinceSome(config, calls, call.client, call.now);
    GrantedInTime(config, calls, call.client, i, |calls|);
  }

  lemma GrantedNotTooMany(config: RateLimitConfig, calls: seq<Call>, call: Call, i: nat)
    requires config.refillPerSecond >= 0.0 && AllInTime(config, calls + [call]) && Grants(config, calls, call)
    requires i <= |calls|
    ensures !TooMany(config, calls, call, i)
  {
    hide Granted, AllInTime, Grants, Own, Forward;
    var all, n := calls + [call], |calls|;
    GrantedPush(config, calls, call, call.client, i);
    assert all[..n + 1] == all && all[i..n + 1] == calls[i..] + [call];
    OwnPush(calls[i..], call, call.client);
    OwnForwardBound(config, all, call.client, i, n + 1);
  }

  /**
   Exactly which calls are admitted: one in time is admitted if and only if that gives its client, in no window ending
   with it, more than a burst and what refills while the clock moves forward over its own calls there.
   */
  lemma GrantsExactly(config: RateLimitConfig, calls: seq<Call>, call: Call)
    requires config.refillPerSecond >= 0.0 && AllInTime(config, calls + [call])
    ensures Grants(config, calls, call) <==> forall i :: 0 <= i <= |calls| ==> !TooMany(config, calls, call, i)
  {
    hide AllInTime, Grants, TooMany;
    if Grants(config, calls, call) {
      forall i | 0 <= i <= |calls|
        ensures !TooMany(config, calls, call, i)
      {
        GrantedNotTooMany(config, calls, call, i);
      }
    } else {
      var i := RefusedIsTooMany(config, calls, call);
    }
  }

  lemma {:induction false} OwnAmong(calls: seq<Call>, client: IpAddr)
    ensures forall o :: o in Own(calls, client) ==> o in calls
  {
    if calls != [] {
      OwnAmong(calls[..|calls| - 1], client);
    }
  }

  lemma {:induction false} OwnOrdered(calls: seq<Call>, client: IpAddr)
    requires Ordered(calls)
    ensures Ordered(Own(calls, client))
  {
    if calls != [] {
      var front := calls[..|calls| - 1];
      var own := Own(front, client);
      OwnOrdered(front, client);
      OwnAmong(front, client);
      assert forall k :: 0 <= k < |own| ==> own[k] in own;
    }
  }

  lemma OwnFirst(calls: seq<Call>, client: IpAddr)
    requires calls != [] && calls[0].client == client
    ensures Own(calls, client) != [] && Own(calls, client)[0] == calls[0]
  {
    OwnPush([], calls[0], client);
    OwnConcat([calls[0]], calls[1..], client);
    assert [] + [calls[0]] == [calls[0]] && [calls[0]] + calls[1..] == calls;
    hide Own;
    assert Own([], client) == [] by { OwnNone(client); }
  }

  lemma OwnNone(client: IpAddr)
    ensures Own([], client) == []
  {
  }

  lemma OrderedSuffix(calls: seq<Call>, i: nat)
    requires Ordered(calls) && i <= |calls|
    ensures Ordered(calls[i..])
  {
  }

  /** In order, the clock's way over the client's own calls, the last of which is `call`, is the time they span. */
  lemma OwnSpan(calls: seq<Call>, call: Call, i: nat)
    requires Ordered(calls + [call]) && i <= |calls| && (i < |calls| ==> calls[i].client == call.client)
    ensures Forward(Own(calls[i..], call.client) + [call]) == call.now - (calls + [call])[i].now
  {
    hide Own, Ordered, Forward;
    var window := calls[i..] + [call];
    assert window == (calls + [call])[i..];
    OrderedSuffix(calls + [call], i);
    OwnPush(calls[i..], call, call.client);
    OwnOrdered(window, call.client);
    OwnFirst(window, call.client);
    ForwardInOrder(Own(window, call.client));
  }

  /** If the call were admitted, its client would have had more than its due in the time since call `i`. */
  ghost predicate TooSoon(config: RateLimitConfig, calls: seq<Call>, call: Call, i: nat)
    requires i <= |calls|
  {
    Granted(config, calls, call.client, i, |calls|) as real + 1.0
    > config.burst as real + Regained(config, call.now - (calls + [call])[i].now)
  }

  lemma GrantedNotTooSoon(config: RateLimitConfig, calls: seq<Call>, call: Call, i: nat)
    requires config.refillPerSecond >= 0.0 && Ordered(calls + [call]) && Grants(config, calls, call) && i <= |calls|
    ensures !TooSoon(config, calls, call, i)
  {
    hide Granted, Grants, Ordered;
    var all, n := calls + [call], |calls|;
    GrantedPush(config, calls, call, call.client, i);
    OrderedSuffix(all, i);
    assert all[i..n + 1] == all[i..];
    WindowBound(config, all, call.client, i, n + 1, call.now - all[i].now);
  }

  /**
   For calls in order: a call is admitted if and only if that gives its client, in no window ending with it, more than
   a burst and what refills in the time the window spans.
   */
  lemma OrderedExactly(config: RateLimitConfig, calls: seq<Call>, call: Call)
    requires config.refillPerSecond >= 0.0 && Ordered(calls + [call])
    ensures Grants(config, calls, call) <==> forall i :: 0 <= i <= |calls| ==> !TooSoon(config, calls, call, i)
  {
    hide AllInTime, Grants, Ordered, Granted, Own, Forward, Regained;
    if Grants(config, calls, call) {
      forall i | 0 <= i <= |calls|
        ensures !TooSoon(config, calls, call, i)
      {
        GrantedNotTooSoon(config, calls, call, i);
      }
    } else {
      OrderedInTime(config, calls + [call]);
      var i := RefusedIsTooMany(config, calls, call);
      OwnSpan(calls, call, i);
      assert TooSoon(config, calls, call, i);
    }
  }

  // ---- Live decisions ----

  /** How many of the decisions `i` to `j` let `client` pass. */
  function Passed(calls: seq<Call>, decisions: seq<bool>, client: IpAddr, i: nat, j: nat): nat
    requires i <= j <= |calls| && j <= |decisions|
    decreases j
  {
    if i == j then 0
    else
      Passed(calls, decisions, client, i, j - 1)
      + if calls[j - 1].client == client && decisions[j - 1] then 1 else 0
  }

  lemma {:induction false} PassedIsGranted(config: RateLimitConfig, calls: seq<Call>, decisions: seq<bool>,
                                           client: IpAddr, i: nat, j: nat)
    requires i <= j <= |calls| == |decisions|
    requires forall k :: 0 <= k < |calls| ==> (decisions[k] <==> Grants(config, calls[..k], calls[k]))
    ensures Passed(calls, decisions, client, i, j) == Granted(config, calls, client, i, j)
    decreases j
  {
    if i < j {
      hide Grants;
      PassedIsGranted(config, calls, decisions, client, i, j - 1);
    }
  }

  /** Call `k` would give its client more than a burst and what refills since call `i`. */
  ghost predicate Excessive(config: RateLimitConfig, calls: seq<Call>, decisions: seq<bool>, i: nat, k: nat)
    requires i <= k < |calls| && k <= |decisions|
  {
    Passed(calls, decisions, calls[k].client, i, k) as real + 1.0
    > config.burst as real + Regained(config, calls[k].now - calls[i].now)
  }

  /**
   All that a live limiter decides, in terms of its decisions alone. Whatever the times, a client that has passed less
   often than the burst passes, and in no window does one pass more often than a burst and what refills while the clock
   moves forward. If the calls are in order, one passes exactly if that is not excessive in any window ending with it.
   */
  method Decide(config: RateLimitConfig, calls: seq<Call>) returns (decisions: seq<bool>)
    requires config.refillPerSecond >= 0.0
    ensures |decisions| == |calls|
    ensures forall k :: 0 <= k < |calls| && Passed(calls, decisions, calls[k].client, 0, k) < config.burst
                        ==> decisions[k]
    ensures forall client, i, j :: 0 <= i <= j <= |calls| ==>
              Passed(calls, decisions, client, i, j) as real
              <= config.burst as real + Forward(calls[i..j]) * config.refillPerSecond
    ensures Ordered(calls) ==> forall k :: 0 <= k < |calls| ==>
              (decisions[k] <==> forall i :: 0 <= i <= k ==> !Excessive(config, calls, decisions, i, k))
  {
    hide Passed, Granted, Grants, Admits, AllInTime, Forward, Buckets, Ordered, Excessive;
    var limiter;
    limiter, decisions := RunCalls(config, calls);
    forall k | 0 <= k < |calls| && Passed(calls, decisions, calls[k].client, 0, k) < config.burst
      ensures decisions[k]
    {
      BurstPasses(config, calls, decisions, k);
    }
    forall client: IpAddr, i, j | 0 <= i <= j <= |calls|
      ensures Passed(calls, decisions, client, i, j) as real
              <= config.burst as real + Forward(calls[i..j]) * config.refillPerSecond
    {
      PassedIsGranted(config, calls, decisions, client, i, j);
      ForwardBound(config, calls, client, i, j);
    }
    if Ordered(calls) {
      forall k | 0 <= k < |calls|
        ensures decisions[k] <==> forall i :: 0 <= i <= k ==> !Excessive(config, calls, decisions, i, k)
      {
        PassesExactly(config, calls, decisions, k);
      }
    }
  }

  lemma BurstPasses(config: RateLimitConfig, calls: seq<Call>, decisions: seq<bool>, k: nat)
    requires config.refillPerSecond >= 0.0 && k < |calls| == |decisions|
    requires forall k :: 0 <= k < |calls| ==> (decisions[k] <==> Grants(config, calls[..k], calls[k]))
    requires Passed(calls, decisions, calls[k].client, 0, k) < config.burst
    ensures decisions[k]
  {
    hide Passed, Granted, Grants, Own;
    PassedIsGranted(config, calls, decisions, calls[k].client, 0, k);
    GrantedPrefix(config, calls[..k], calls[k..], calls[k].client, 0, k);
    assert calls[..k] + calls[k..] == calls;
    BurstGranted(config, calls[..k], calls[k].client, calls[k].now);
  }

  lemma PassesExactly(config: RateLimitConfig, calls: seq<Call>, decisions: seq<bool>, k: nat)
    requires config.refillPerSecond >= 0.0 && k < |calls| == |decisions| && Ordered(calls)
    requires forall k :: 0 <= k < |calls| ==> (decisions[k] <==> Grants(config, calls[..k], calls[k]))
    ensures decisions[k] <==> forall i :: 0 <= i <= k ==> !Excessive(config, calls, decisions, i, k)
  {
    hide Passed, Granted, Grants, Ordered, TooSoon, Excessive;
    var front := calls[..k];
    assert front + [calls[k]] == calls[..k + 1];
    OrderedPrefix(calls, k + 1);
    OrderedExactly(config, front, calls[k]);
    forall i | 0 <= i <= k
      ensures Excessive(config, calls, decisions, i, k) <==> TooSoon(config, front, calls[k], i)
    {
      ExcessiveIsTooSoon(config, calls, decisions, i, k);
    }
  }

  lemma OrderedPrefix(calls: seq<Call>, i: nat)
    requires Ordered(calls) && i <= |calls|
    ensures Ordered(calls[..i])
  {
  }

  lemma ExcessiveIsTooSoon(config: RateLimitConfig, calls: seq<Call>, decisions: seq<bool>, i: nat, k: nat)
    requires i <= k < |calls| == |decisions|
    requires forall k :: 0 <= k < |calls| ==> (decisions[k] <==> Grants(config, calls[..k], calls[k]))
    ensures Excessive(config, calls, decisions, i, k) <==> TooSoon(config, calls[..k], calls[k], i)
  {
    hide Passed, Granted, Grants, Regained;
    PassedIsGranted(config, calls, decisions, calls[k].client, i, k);
    GrantedPrefix(config, calls[..k], calls[k..], calls[k].client, i, k);
    assert calls[..k] + calls[k..] == calls;
    assert (calls[..k] + [calls[k]])[i] == calls[i];
  }

  // ---- Calls whose times go back ----

  /**
   Calls at times 1, 0 and 1 by one client begin and end at one instant, but the clock has moved forward by one: the
   bound holds exactly of windows of at least one. With one token a second they are answered yes, no, yes.
   */
  lemma BackwardsClock()
    ensures var config, calls := RateLimitConfig(1, 1.0), [Call(0, 1.0), Call(0, 0.0), Call(0, 1.0)];
            && Grants(config, calls[..0], calls[0]) && !Grants(config, calls[..1], calls[1])
            && Grants(config, calls[..2], calls[2]) && Granted(config, calls, 0, 0, 3) == 2
            && forall window :: window >= 0.0 ==> (BoundedBy(calls, 0, window) <==> window >= 1.0)
  {
    var config, calls := RateLimitConfig(1, 1.0), [Call(0, 1.0), Call(0, 0.0), Call(0, 1.0)];
    assert calls[..1] == [] + [calls[0]] && calls[..2] == calls[..1] + [calls[1]] && calls == calls[..2] + [calls[2]];
    assert Elapsed(0.0, 1.0) == 0.0 && 0.0 * 1.0 == 0.0 && Elapsed(1.0, 0.0) * 1.0 == 1.0;
    BucketsPush(config, [], calls[0]);
    AcquiredAt(config, map[], calls[0], 0);
    BucketsPush(config, calls[..1], calls[1]);
    AcquiredAt(config, Buckets(config, calls[..1]), calls[1], 0);
    PassAllows(config, Buckets(config, calls[..0]), 0, 1.0);
    PassAllows(config, Buckets(config, calls[..1]), 0, 0.0);
    PassAllows(config, Buckets(config, calls[..2]), 0, 1.0);
    hide Buckets, Pass, BoundedBy;
    assert Granted(config, calls, 0, 0, 1) == 1;
    assert Granted(config, calls, 0, 0, 2) == 1;
    assert Clients(calls) == {0};
    OwnPush([], calls[0], 0);
    OwnPush(calls[..1], calls[1], 0);
    OwnPush(calls[..2], calls[2], 0);
    assert Own(calls, 0) == calls;
    ForwardPush(calls[..1], calls[1]);
    ForwardPush(calls[..2], calls[2]);
    forall window: real | window >= 0.0
      ensures BoundedBy(calls, 0, window) <==> window >= 1.0
    {
      BoundExact(calls, 0, window);
    }
  }

  /** Client 0 calls at time 0, then clients 1 to `n` - 1 call at time 1. */
  function Crowd(n: nat): seq<Call> {
    if n == 0 then [] else Crowd(n - 1) + [Call(n - 1, Comes(n - 1))]
  }

  function Comes(client: IpAddr): real {
    if client == 0 then 0.0 else 1.0
  }

  /** The buckets of the crowd under `RateLimitConfig(1, 1.0)`: every one empty. */
  ghost function Emptied(n: nat): Table {
    map c: IpAddr | 0 <= c < n :: Bucket(0.0, Comes(c))
  }

  lemma {:induction false} EmptiedSize(n: nat)
    ensures |Emptied(n)| == n
  {
    if n > 0 {
      EmptiedSize(n - 1);
      EmptiedNext(n - 1);
    }
  }

  lemma EmptiedNext(n: nat)
    ensures Emptied(n + 1) == Emptied(n)[n := Bucket(0.0, Comes(n))] && n !in Emptied(n)
  {
  }

  lemma CrowdCall(n: nat)
    requires n < MAX_TRACKED_CLIENTS
    ensures Acquired(RateLimitConfig(1, 1.0), Emptied(n), Call(n, Comes(n))) == Emptied(n + 1)
  {
    EmptiedSize(n);
    EmptiedNext(n);
    hide Emptied;
  }

  lemma {:induction false} CrowdEmpties(n: nat)
    requires n <= MAX_TRACKED_CLIENTS
    ensures Buckets(RateLimitConfig(1, 1.0), Crowd(n)) == Emptied(n)
  {
    hide Buckets, Acquired, Emptied, Comes, Crowd;
    if n == 0 {
      NoCrowd();
    } else {
      CrowdEmpties(n - 1);
      CrowdCall(n - 1);
      CrowdNext(n - 1);
      BucketsPush(RateLimitConfig(1, 1.0), Crowd(n - 1), Call(n - 1, Comes(n - 1)));
    }
  }

  lemma NoCrowd()
    ensures Crowd(0) == [] && Emptied(0) == map[] && Buckets(RateLimitConfig(1, 1.0), []) == map[]
  {
  }

  lemma CrowdNext(n: nat)
    ensures Crowd(n + 1) == Crowd(n) + [Call(n, Comes(n))]
  {
  }

  /** Client 0 among the crowd: one call, one token, and the clock's way over everybody's calls. */
  ghost predicate AmongCrowd(calls: seq<Call>) {
    var config := RateLimitConfig(1, 1.0);
    && calls != [] && Own(calls, 0) == [Call(0, 0.0)] && BucketOf(config, calls, 0) == Some(Bucket(0.0, 0.0))
    && Granted(config, calls, 0, 0, |calls|) == 1 && Forward(calls) == calls[|calls| - 1].now
  }

  lemma FirstOfCrowd()
    ensures AmongCrowd([Call(0, 0.0)])
  {
    var config, calls := RateLimitConfig(1, 1.0), [Call(0, 0.0)];
    assert calls[..0] == [];
    assert [] + calls == calls;
    assert Granted(config, calls, 0, 0, 1) == Granted(config, calls, 0, 0, 0) + 1;
  }

  lemma CrowdGrows(calls: seq<Call>, call: Call)
    requires AmongCrowd(calls) && call.client != 0 && call.now >= calls[|calls| - 1].now
    ensures AmongCrowd(calls + [call])
  {
    var config := RateLimitConfig(1, 1.0);
    hide Grants, Forward, BucketOf, Own, Granted;
    OwnPush(calls, call, 0);
    assert Own(calls, 0) + [] == Own(calls, 0);
    BucketOfPush(config, calls, call, 0);
    GrantedPush(config, calls, call, 0, 0);
    ForwardPush(calls, call);
  }

  lemma {:induction false} CrowdHas(n: nat)
    requires n >= 1
    ensures AmongCrowd(Crowd(n)) && Crowd(n)[|Crowd(n)| - 1].now == Comes(n - 1)
  {
    hide AmongCrowd;
    if n == 1 {
      FirstOfCrowd();
      assert Crowd(1) == [Call(0, 0.0)];
    } else {
      CrowdHas(n - 1);
      CrowdGrows(Crowd(n - 1), Call(n - 1, Comes(n - 1)));
    }
  }

  /**
   Ten thousand others call, the last of whom has client 0 forgotten, and then client 0 calls with an earlier time:
   with one token a second it is admitted where it would have been refused alone, twice in all in half a second by
   its own clock. That is what `ForwardBound` allows, everybody's clock having moved by one, and more than its own
   calls would allow.
   */
  lemma ForgetsTooSoon()
    ensures var config, before, call := RateLimitConfig(1, 1.0), Crowd(MAX_TRACKED_CLIENTS + 1), Call(0, 0.5);
            var calls := before + [call];
            && Grants(config, before, call) && !Grants(config, Own(before, 0), call)
            && Granted(config, calls, 0, 0, |calls|) == 2
            && Forward(Own(calls, 0)) == 0.5 && Forward(calls) == 1.0
  {
    var n := MAX_TRACKED_CLIENTS;
    var config, before, call := RateLimitConfig(1, 1.0), Crowd(n + 1), Call(0, 0.5);
    LastOfCrowd();
    CrowdHas(n + 1);
    hide Crowd, Buckets, BucketOf, Grants, Forward, Own, Granted;
    ReferenceIsSolo(config, before, call);
    assert Elapsed(0.5, 0.0) * 1.0 == 0.5;
    GrantedPush(config, before, call, 0, 0);
    OwnPush(before, call, 0);
    ForwardShort(Call(0, 0.0));
    ForwardPush([Call(0, 0.0)], call);
    ForwardPush(before, call);
  }

  lemma LastOfCrowd()
    ensures Grants(RateLimitConfig(1, 1.0), Crowd(MAX_TRACKED_CLIENTS + 1), Call(0, 0.5))
  {
    var n := MAX_TRACKED_CLIENTS;
    var config := RateLimitConfig(1, 1.0);
    CrowdEmpties(n);
    EmptiedSize(n);
    assert Emptied(n)[0] == Bucket(0.0, 0.0) && Refilled(config, Bucket(0.0, 0.0), 1.0);
    hide Buckets, Emptied, Acquired;
    BucketsPush(config, Crowd(n), Call(n, Comes(n)));
    AcquiredAt(config, Emptied(n), Call(n, Comes(n)), 0);
    PassAllows(config, Buckets(config, Crowd(n + 1)), 0, 0.5);
  }
}
