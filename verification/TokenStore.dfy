/** The token bucket script as it runs inside Redis, key expiry included, and its Go caller. */
module TokenStore {
  import opened Prelude
  import opened Machine
  import opened TokenBucket
  import opened ScriptResult
  import K = Keyed
  import E = Expiry

  type Entry = E.Entry<Option<Bucket>>

  type Call = E.Call<Request>

  /** TokenBucketScript and its PEXPIRE, asking for `requested` tokens. */
  function Evaluate(e: Option<Entry>, r: Request, requested: nat, ttl: int, clock: int): (Option<Entry>, Reply) {
    var next := Script(E.Live(e, clock, None), r, requested);
    (E.Kept(Some(next.0), ttl, clock), next.1)
  }

  /** The step one call of TokenBucket.Allow causes in Redis. */
  function OnRedis(): (Option<Entry>, Call) -> (Option<Entry>, Reply) { E.Expiring(Step, None) }

  class RedisHashes {
    var entries: map<string, Entry>

    constructor ()
      ensures entries == map[]
    {
      entries := map[];
    }

    /** TokenBucketScript, statement by statement. */
    method Eval(key: string, capacity: int, refillRate: real, nowMs: int, requested: nat, ttlMs: int, clock: int)
      returns (values: seq<Value>)
      requires capacity >= 1 && refillRate > 0.0
      modifies this
      ensures var next := Evaluate(K.Get(old(entries), key), RawRequest.Request(nowMs, capacity, refillRate),
                                   requested, ttlMs, clock);
              entries == K.Put(old(entries), key, next.0) && values == Encode(next.1)
    {
      var tokens, lastRefill := capacity as real, nowMs;
      if key in entries && clock <= entries[key].deadline && entries[key].state.Some? {
        tokens, lastRefill := entries[key].state.value.tokens, entries[key].state.value.lastRefill;
      }
      ghost var r: Request := RawRequest.Request(nowMs, capacity, refillRate);
      assert Gain(lastRefill, r) >= 0.0;

      var elapsed := Forward(lastRefill, nowMs);
      tokens := Cap(capacity, tokens + elapsed * refillRate);
      assert tokens == Level(E.Live(K.Get(entries, key), clock, None), r);

      var allowed, retryAfter := 0, 0;
      if tokens >= requested as real {
        allowed := 1;
        tokens := tokens - requested as real;
      } else {
        var missing := requested as real - tokens;
        retryAfter := Ceil(missing / refillRate);
      }

      if ttlMs > 0 {
        entries := entries[key := E.Entry(Some(RawBucket.Bucket(tokens, nowMs)), clock + ttlMs)];
      } else {
        entries := entries - {key};
      }
      values := [Int(allowed), Int(tokens.Floor), Int(retryAfter), Int(capacity)];
    }
  }

  /** Tokens per second: one window earns exactly the capacity. A window that is not positive counts as a minute. */
  function RateOf(capacity: int, window: int): (rate: real)
    requires capacity >= 1
    ensures rate > 0.0
    ensures window >= 1 ==> rate * window as real == capacity as real
    ensures window <= 0 ==> rate * 60.0 == capacity as real
  {
    capacity as real / (if window <= 0 then 60 else window) as real
  }

  /** The call TokenBucket.Allow makes: a reading in ms, and a key that lives for two windows. */
  function AllowCall(capacity: int, window: int, now: int, clock: int): Call
    requires capacity >= 1
  {
    E.Call(RawRequest.Request(now, capacity, RateOf(capacity, window)), 2 * window * 1000, clock)
  }

  class TokenBucketLimiter {
    const capacity: int
    const window: int
    const prefix: string

    constructor (capacity: int, window: int)
      ensures this.capacity == capacity && this.window == window && prefix == "rl:token"
    {
      this.capacity := capacity;
      this.window := window;
      prefix := "rl:token";
    }

    /** `up` is false when the Redis call fails. */
    method Allow(redis: RedisHashes, key: string, now: int, clock: int, up: bool) returns (r: Result)
      modifies redis
      ensures capacity <= 0 ==> r == Ok(Reply(false, 0, 1, capacity), 0) && redis.entries == old(redis.entries)
      ensures capacity >= 1 && !up ==> r == Err && redis.entries == old(redis.entries)
      ensures capacity >= 1 && up ==>
                var redisKey := prefix + ":" + key;
                var call := AllowCall(capacity, window, now, clock);
                var next := OnRedis()(K.Get(old(redis.entries), redisKey), call);
                && call.req.now == now && call.req.capacity == capacity && call.req.rate == RateOf(capacity, window)
                && call.ttl == 2000 * window && call.clock == clock
                && redis.entries == K.Put(old(redis.entries), redisKey, next.0) && r == Ok(next.1, window)
      ensures capacity >= 1 && up ==>
                && r.Ok? && r.reply.limit == capacity && r.resetAfter == window
                && (r.reply.allowed ==> r.reply.retryAfter == 0)
                && (!r.reply.allowed ==> r.reply.remaining == 0 && r.reply.retryAfter >= 1)
    {
      if capacity <= 0 {
        return Ok(Reply(false, 0, 1, capacity), 0);
      }
      var windowSeconds := window;
      if windowSeconds <= 0 {
        windowSeconds := 60;
      }
      var refillRate := capacity as real / windowSeconds as real;
      assert refillRate == RateOf(capacity, window);
      var ttl := 2 * window * 1000;
      if !up {
        return Err;
      }
      ReplyShape(E.Live(K.Get(redis.entries, prefix + ":" + key), clock, None),
                 AllowCall(capacity, window, now, clock).req);
      var values := redis.Eval(prefix + ":" + key, capacity, refillRate, now, 1, ttl, clock);
      r := Parse(values, window);
    }
  }

  /** In every run on the expiring store, from any state and whatever is edited, each reply carries the capacity its
      call passed; an admission asks nobody to wait, a refusal for at least a second. */
  lemma {:induction false} RepliesTellCapacities(e: Option<Entry>, calls: seq<Call>, i: nat)
    requires i < |calls|
    ensures var reply := Outputs(OnRedis(), e, calls)[i];
            && reply.limit == calls[i].req.capacity && reply.remaining >= 0
            && (reply.allowed ==> reply.retryAfter == 0)
            && (!reply.allowed ==> reply.remaining == 0 && reply.retryAfter >= 1)
  {
    RunAt(OnRedis(), e, calls, i);
    ReplyShape(E.Live(Final(OnRedis(), e, calls[..i]), calls[i].clock, None), calls[i].req);
  }

  // ----- Expiry across policy edits -----

  /** A policy in force on a key, and the time to live (ms) its calls set. */
  datatype RawPolicy = Policy(capacity: int, window: int, ttl: int)
  type Policy = p: RawPolicy | p.capacity >= 1 && p.window >= 1 witness RawPolicy.Policy(1, 1, 1)

  predicate Under(c: Call, p: Policy) {
    c.req.capacity == p.capacity && c.req.rate == RateOf(p.capacity, p.window) && c.ttl == p.ttl
  }

  /** Consecutive calls of a client: paced, and under policies that may follow one another. */
  ghost predicate MayFollow(a: Call, b: Call, edits: set<(Policy, Policy)>, slack: nat) {
    && Paced(b.req.now - a.req.now, b.clock - a.clock, slack)
    && exists p: Policy, q: Policy :: (p, q) in edits && Under(a, p) && Under(b, q)
  }

  ghost function Edited(edits: set<(Policy, Policy)>, slack: nat): (Call, Call) -> bool {
    (a: Call, b: Call) => MayFollow(a, b, edits, slack)
  }

  /** A key left alone is not gone before the next policy needs it no more, and the slack is over. */
  ghost predicate Covers(edits: set<(Policy, Policy)>, slack: nat) {
    forall p: Policy, q: Policy :: (p, q) in edits ==> E.GoneAfter(p.ttl) >= 1000 * q.window + slack
  }

  ghost predicate Unobservable(edits: set<(Policy, Policy)>, slack: nat) {
    forall calls: seq<Call> :: Chain(calls, Edited(edits, slack)) ==>
      Outputs(OnRedis(), None, calls) == Outputs(Step, None, E.Requests(calls))
  }

  /** The first capacity and what is earned from then on. */
  function Budget(calls: seq<Call>): real
    requires calls != []
  {
    calls[0].req.capacity as real + Earned(calls[0].req.now, E.Requests(calls[1..]))
  }

  /** No run, whatever is edited in it, admits more than its budget. */
  ghost predicate NoBurst(edits: set<(Policy, Policy)>, slack: nat) {
    forall calls: seq<Call> :: calls != [] && Chain(calls, Edited(edits, slack)) ==>
      Admitted(Outputs(OnRedis(), None, calls)) as real <= Budget(calls)
  }

  /** A bucket left alone for a whole window is full again. */
  lemma FullAfterWindow(b: Bucket, r: Request, window: int)
    requires window >= 1 && r.rate == RateOf(r.capacity, window)
    requires r.now - b.lastRefill >= 1000 * window
    ensures Level(Some(b), r) == r.capacity as real
  {
    var w, c := window as real, r.capacity as real;
    assert Forward(b.lastRefill, r.now) >= w;
    RateTimesWindow(c, w, Forward(b.lastRefill, r.now));
  }

  lemma RateTimesWindow(c: real, w: real, seconds: real)
    requires c > 0.0 && w > 0.0
    ensures seconds >= w ==> seconds * (c / w) >= c
    ensures 0.0 <= seconds < w ==> seconds * (c / w) < c
  {
    var rate := c / w;
    assert w * rate == c;
    assert (seconds - w) * rate == seconds * rate - c;
    if seconds >= w {
      assert (seconds - w) * rate >= 0.0;
    } else {
      assert (w - seconds) * rate > 0.0;
    }
  }

  ghost predicate LeftBy(s: Option<Bucket>, c: Call) { s.Some? && s.value.lastRefill == c.req.now }

  lemma GoneIsFull(s: Option<Bucket>, a: Call, b: Call, edits: set<(Policy, Policy)>, slack: nat)
    requires Covers(edits, slack) && LeftBy(s, a) && MayFollow(a, b, edits, slack)
    requires a.ttl <= 0 || b.clock >= a.clock + E.GoneAfter(a.ttl)
    ensures Step(s, b.req) == Step(None, b.req)
  {
    var p: Policy, q: Policy :| (p, q) in edits && Under(a, p) && Under(b, q);
    FullAfterWindow(s.value, b.req, q.window);
  }

  lemma LongEnough(edits: set<(Policy, Policy)>, slack: nat)
    requires Covers(edits, slack)
    ensures Unobservable(edits, slack)
  {
    forall s, a, b | LeftBy(s, a) && Edited(edits, slack)(a, b)
      && (a.ttl <= 0 || b.clock >= a.clock + E.GoneAfter(a.ttl))
      ensures Step(s, b.req) == Step(None, b.req)
    {
      GoneIsFull(s, a, b, edits, slack);
    }
    forall calls: seq<Call> | Chain(calls, Edited(edits, slack))
      ensures Outputs(OnRedis(), None, calls) == Outputs(Step, None, E.Requests(calls))
    {
      E.SameAnswers(Step, None, LeftBy, Edited(edits, slack), calls);
    }
  }

  lemma UnobservableMeansNoBurst(edits: set<(Policy, Policy)>, slack: nat)
    requires Unobservable(edits, slack)
    ensures NoBurst(edits, slack)
  {
    forall calls: seq<Call> | calls != [] && Chain(calls, Edited(edits, slack))
      ensures Admitted(Outputs(OnRedis(), None, calls)) as real <= Budget(calls)
    {
      PolicyEditsGrantNoBurst(None, E.Requests(calls), 0);
    }
  }

  // ----- A run that bursts when a key dies too soon -----

  predicate CanServe(e: Option<Entry>, c: Call, n: nat) {
    var s := E.Live(e, c.clock, None);
    s.None? || (s.value.lastRefill == c.req.now && n as real <= s.value.tokens)
  }

  /** n equal calls at one instant are all admitted, and leave the key with the time to live they set. */
  lemma {:induction false} InstantBurst(e: Option<Entry>, c: Call, n: nat)
    requires n <= c.req.capacity && CanServe(e, c, n)
    ensures Admitted(Outputs(OnRedis(), e, Repeat(c, n))) == n
    ensures var end := Final(OnRedis(), e, Repeat(c, n));
            n > 0 ==> if c.ttl > 0 then end.Some? && end.value.deadline == c.clock + c.ttl else end.None?
    decreases n
  {
    if n > 0 {
      assert Repeat(c, n)[1..] == Repeat(c, n - 1);
      InstantBurst(OnRedis()(e, c).0, c, n - 1);
    }
  }

  lemma {:induction false} NothingEarned(r: Request, n: nat, rest: seq<Request>)
    ensures Earned(r.now, Repeat(r, n) + rest) == Earned(r.now, rest)
  {
    if n == 0 {
      assert Repeat(r, n) + rest == rest;
    } else {
      assert (Repeat(r, n) + rest)[1..] == Repeat(r, n - 1) + rest;
      NothingEarned(r, n - 1, rest);
    }
  }

  function CallUnder(p: Policy, now: int, clock: int): Call {
    E.Call(RawRequest.Request(now, p.capacity, RateOf(p.capacity, p.window)), p.ttl, clock)
  }

  /** A call under q at the first moment the key of p's calls at time zero is gone, its reading lagging as far as
      allowed. */
  function LateCall(p: Policy, q: Policy, slack: nat): Call {
    CallUnder(q, Max(0, E.GoneAfter(p.ttl) - slack), E.GoneAfter(p.ttl))
  }

  /** Drain p's bucket at one instant, then q's when the key has just died. */
  function BurstRun(p: Policy, q: Policy, slack: nat): (calls: seq<Call>)
    ensures |calls| == p.capacity + q.capacity
  {
    Repeat(CallUnder(p, 0, 0), p.capacity) + Repeat(LateCall(p, q, slack), q.capacity)
  }

  lemma BurstIsPaced(p: Policy, q: Policy, edits: set<(Policy, Policy)>, slack: nat)
    requires E.Steps(edits) && (p, q) in edits
    ensures Chain(BurstRun(p, q, slack), Edited(edits, slack))
  {
    var calls, first, late := BurstRun(p, q, slack), CallUnder(p, 0, 0), LateCall(p, q, slack);
    assert Under(first, p) && Under(late, q);
    assert (p, p) in edits && (q, q) in edits;
    assert MayFollow(first, first, edits, slack) && MayFollow(first, late, edits, slack)
           && MayFollow(late, late, edits, slack);
  }

  lemma BurstAdmitsAll(p: Policy, q: Policy, slack: nat)
    ensures Admitted(Outputs(OnRedis(), None, BurstRun(p, q, slack))) == p.capacity + q.capacity
  {
    var first, late := CallUnder(p, 0, 0), LateCall(p, q, slack);
    var burst, rest := Repeat(first, p.capacity), Repeat(late, q.capacity);
    InstantBurst(None, first, p.capacity);
    RunAppend(OnRedis(), None, burst, rest);
    InstantBurst(Final(OnRedis(), None, burst), late, q.capacity);
    AdmittedAppend(Outputs(OnRedis(), None, burst), Outputs(OnRedis(), Final(OnRedis(), None, burst), rest));
  }

  lemma BurstEarns(p: Policy, q: Policy, slack: nat)
    ensures Budget(BurstRun(p, q, slack)) == p.capacity as real + Gain(0, LateCall(p, q, slack).req)
  {
    var first, late := CallUnder(p, 0, 0).req, LateCall(p, q, slack).req;
    var tail := Repeat(late, q.capacity);
    assert E.Requests(BurstRun(p, q, slack)[1..]) == Repeat(first, p.capacity - 1) + tail;
    NothingEarned(first, p.capacity - 1, tail);
    assert tail == [late] + Repeat(late, q.capacity - 1);
    assert Repeat(late, q.capacity - 1) + [] == Repeat(late, q.capacity - 1);
    NothingEarned(late, q.capacity - 1, []);
  }

  lemma LateGain(p: Policy, q: Policy, slack: nat)
    requires E.GoneAfter(p.ttl) < 1000 * q.window + slack
    ensures Gain(0, LateCall(p, q, slack).req) < q.capacity as real
  {
    RateTimesWindow(q.capacity as real, q.window as real, Forward(0, LateCall(p, q, slack).req.now));
  }

  lemma BurstBudget(p: Policy, q: Policy, slack: nat)
    requires E.GoneAfter(p.ttl) < 1000 * q.window + slack
    ensures Budget(BurstRun(p, q, slack)) < (p.capacity + q.capacity) as real
  {
    BurstEarns(p, q, slack);
    LateGain(p, q, slack);
  }

  lemma TooShort(p: Policy, q: Policy, edits: set<(Policy, Policy)>, slack: nat)
    requires E.Steps(edits) && (p, q) in edits && E.GoneAfter(p.ttl) < 1000 * q.window + slack
    ensures !NoBurst(edits, slack)
  {
    BurstIsPaced(p, q, edits, slack);
    BurstAdmitsAll(p, q, slack);
    BurstBudget(p, q, slack);
  }

  /** For any set of edits, key expiry goes unnoticed in all runs exactly when the time to live of each policy
      covers the window of any policy that may follow it, and the slack; and exactly then no run, however its
      policies are edited, admits more than the first capacity and what is earned. */
  lemma EditsUnobservableIff(edits: set<(Policy, Policy)>, slack: nat)
    requires E.Steps(edits)
    ensures Unobservable(edits, slack) <==> Covers(edits, slack)
    ensures NoBurst(edits, slack) <==> Covers(edits, slack)
  {
    if Covers(edits, slack) {
      LongEnough(edits, slack);
      UnobservableMeansNoBurst(edits, slack);
    } else {
      var p: Policy, q: Policy :| (p, q) in edits && E.GoneAfter(p.ttl) < 1000 * q.window + slack;
      TooShort(p, q, edits, slack);
      if Unobservable(edits, slack) {
        UnobservableMeansNoBurst(edits, slack);
      }
    }
  }

  /** With the time to live Allow sets, and clocks in step, an edit may at most double the window. */
  lemma EditsMayDouble(edits: set<(Policy, Policy)>)
    requires E.Steps(edits)
    requires forall p: Policy, q: Policy :: (p, q) in edits ==> p.ttl == AllowCall(p.capacity, p.window, 0, 0).ttl
    ensures NoBurst(edits, 0) <==> forall p: Policy, q: Policy :: (p, q) in edits ==> q.window <= 2 * p.window
  {
    EditsUnobservableIff(edits, 0);
  }

  /** The shortest run that bursts: one request per second, edited to one per hour just over two seconds later. */
  lemma LongerWindowBursts()
    ensures var calls := [AllowCall(1, 1, 0, 0), AllowCall(1, 3600, 2001, 2001)];
            Admitted(Outputs(OnRedis(), None, calls)) == 2 && Budget(calls) < 2.0
  {
    var p: Policy, q: Policy := RawPolicy.Policy(1, 1, 2000), RawPolicy.Policy(1, 3600, 7200000);
    assert Repeat(CallUnder(p, 0, 0), 1) == [AllowCall(1, 1, 0, 0)];
    assert Repeat(LateCall(p, q, 0), 1) == [AllowCall(1, 3600, 2001, 2001)];
    assert BurstRun(p, q, 0) == [AllowCall(1, 1, 0, 0), AllowCall(1, 3600, 2001, 2001)];
    BurstAdmitsAll(p, q, 0);
    BurstBudget(p, q, 0);
  }

  /** Under one policy the time to live must cover its window and the slack. */
  lemma ExpiryUnobservableIff(p: Policy, slack: nat)
    ensures Unobservable({(p, p)}, slack) <==> E.GoneAfter(p.ttl) >= 1000 * p.window + slack
  {
    EditsUnobservableIff({(p, p)}, slack);
    assert (p, p) in {(p, p)};
  }

  /** The two windows Allow asks for tolerate a slack of one window and a millisecond, and no more: a key is still
      live at its deadline. */
  lemma TwoWindowsTolerateOne(capacity: int, window: int, slack: nat)
    requires capacity >= 1 && window >= 1
    ensures var p: Policy := RawPolicy.Policy(capacity, window, AllowCall(capacity, window, 0, 0).ttl);
            Unobservable({(p, p)}, slack) <==> slack <= 1000 * window + 1
  {
    ExpiryUnobservableIff(RawPolicy.Policy(capacity, window, 2 * window * 1000), slack);
  }

  // ----- Refused requests leave no trace in Redis either -----

  /** Two calls of one client in a run whose clocks never drift apart by more than the slack. */
  ghost function InStep(p: Policy, slack: nat): (Call, Call) -> bool {
    (a: Call, b: Call) =>
      Under(a, p) && Under(b, p) && a.req.now <= b.req.now && Paced(b.req.now - a.req.now, b.clock - a.clock, slack)
  }

  lemma {:induction false} InStepMayFollow(p: Policy, slack: nat, calls: seq<Call>)
    requires Pairwise(calls, InStep(p, slack))
    ensures Chain(calls, Edited({(p, p)}, slack)) && Chain(E.Requests(calls), Follows)
  {
    forall i | 0 < i < |calls|
      ensures MayFollow(calls[i - 1], calls[i], {(p, p)}, slack) && Follows(calls[i - 1].req, calls[i].req)
    {
      assert InStep(p, slack)(calls[i - 1], calls[i]) && (p, p) in {(p, p)};
    }
  }

  /** With a key that outlives its window and the slack, deleting any refused calls from a run changes no other
      reply of the expiring store. */
  lemma {:induction false} RefusalsLeaveNoTraceOnRedis(p: Policy, slack: nat, calls: seq<Call>, keep: seq<bool>)
    requires |calls| == |keep| && Covers({(p, p)}, slack) && Pairwise(calls, InStep(p, slack))
    requires forall i :: 0 <= i < |calls| && !keep[i] ==> !Outputs(OnRedis(), None, calls)[i].allowed
    ensures Outputs(OnRedis(), None, Filter(calls, keep)) == Filter(Outputs(OnRedis(), None, calls), keep)
  {
    LongEnough({(p, p)}, slack);
    FilterPairwise(calls, keep, InStep(p, slack));
    InStepMayFollow(p, slack, calls);
    InStepMayFollow(p, slack, Filter(calls, keep));
    E.FilterRequests(calls, keep);
    RefusalsLeaveNoTrace(None, E.Requests(calls), keep);
  }

  // ----- A window that is not positive -----

  ghost predicate AllowRun(calls: seq<Call>, capacity: int, window: int)
    requires capacity >= 1
  {
    forall i :: 0 <= i < |calls| ==> calls[i] == AllowCall(capacity, window, calls[i].req.now, calls[i].clock)
  }

  lemma {:induction false} DeletedKeysAlwaysAdmit(calls: seq<Call>, capacity: int, window: int)
    requires capacity >= 1 && window <= 0 && AllowRun(calls, capacity, window)
    ensures forall i :: 0 <= i < |calls| ==> Outputs(OnRedis(), None, calls)[i].allowed
  {
    if calls != [] {
      DeletedKeysAlwaysAdmit(calls[1..], capacity, window);
    }
  }

  lemma {:induction false} PositiveWindowLimits(capacity: int, window: int)
    requires capacity >= 1 && window >= 1
    ensures var calls := Repeat(AllowCall(capacity, window, 0, 0), capacity + 1);
            && AllowRun(calls, capacity, window)
            && exists i :: 0 <= i < |calls| && !Outputs(OnRedis(), None, calls)[i].allowed
  {
    var p: Policy := RawPolicy.Policy(capacity, window, 2 * window * 1000);
    var c := AllowCall(capacity, window, 0, 0);
    var calls := Repeat(c, capacity + 1);
    assert Under(c, p) && (p, p) in {(p, p)};
    assert Chain(calls, Edited({(p, p)}, 0));
    EditsUnobservableIff({(p, p)}, 0);
    assert E.Requests(calls[1..]) == Repeat(c.req, capacity) + [];
    NothingEarned(c.req, capacity, []);
    assert Admitted(Outputs(OnRedis(), None, calls)) <= capacity;
    SomeRefused(Outputs(OnRedis(), None, calls));
  }

  lemma {:induction false} SomeRefused(replies: seq<Reply>)
    requires Admitted(replies) < |replies|
    ensures exists i :: 0 <= i < |replies| && !replies[i].allowed
  {
    if replies[0].allowed {
      SomeRefused(replies[1..]);
      var i :| 0 <= i < |replies[1..]| && !replies[1..][i].allowed;
      assert !replies[i + 1].allowed;
    }
  }

  /** The bucket limits something exactly when the window is positive: otherwise PEXPIRE deletes the key
      after every call, and each request finds a full bucket. */
  lemma LimitsIffWindowPositive(capacity: int, window: int)
    requires capacity >= 1
    ensures (exists calls: seq<Call>, i :: AllowRun(calls, capacity, window) && 0 <= i < |calls|
               && !Outputs(OnRedis(), None, calls)[i].allowed) <==> window >= 1
  {
    if window >= 1 {
      PositiveWindowLimits(capacity, window);
    } else {
      forall calls: seq<Call>, i | AllowRun(calls, capacity, window) && 0 <= i < |calls|
        ensures Outputs(OnRedis(), None, calls)[i].allowed
      {
        DeletedKeysAlwaysAdmit(calls, capacity, window);
      }
    }
  }
}
