/** The sliding-window script as it runs inside Redis, key expiry included, and its Go caller. */
module SlidingStore {
  import opened Prelude
  import opened Machine
  import opened SlidingWindow
  import opened ScriptResult
  import K = Keyed
  import E = Expiry

  type Entry = E.Entry<Log>

  type Call = E.Call<Request>

  /** The step one call of SlidingWindow.Allow causes in Redis. */
  ghost function OnRedis(): (Option<Entry>, Call) -> (Option<Entry>, Reply) { E.Expiring(Step, map[]) }

  predicate Lowest(log: Log, m: Member)
    requires m in log
  {
    forall k :: k in log ==> log[m] <= log[k]
  }

  class RedisSortedSets {
    var entries: map<string, Entry>

    constructor ()
      ensures entries == map[]
    {
      entries := map[];
    }

    /** SlidingWindowScript on the key's sorted set, and its PEXPIRE. */
    method Eval(key: string, limit: int, windowMs: int, nowMs: nat, member: Member, ttlMs: int, clock: int)
      returns (values: seq<Value>)
      modifies this
      ensures var c := E.Call(Request(nowMs, member, limit, windowMs), ttlMs, clock);
              var next := E.Next(Step, map[], K.Get(old(entries), key), c);
              entries == K.Put(old(entries), key, next.0) && values == Encode(next.1)
    {
      var log: Log := map[];
      if key in entries && clock <= entries[key].deadline {
        log := entries[key].state;
      }
      log, values := Decide(log, limit, windowMs, nowMs, member);
      Expire(key, log, ttlMs, clock);
    }

    /** The script's own statements but for PEXPIRE, which ends both of its branches. */
    method Decide(found: Log, limit: int, windowMs: int, nowMs: nat, member: Member)
        returns (log: Log, values: seq<Value>)
      ensures var next := Step(found, Request(nowMs, member, limit, windowMs));
              log == next.0 && values == Encode(next.1)
    {
      log := Prune(found, nowMs - windowMs);
      var count := |log|;
      if count < limit {
        log := log[member := nowMs];
        return log, [Int(1), Int(limit - count - 1), Int(0), Int(limit)];
      }

      var retryAfter := 1;
      if count > 0 {
        var oldest := First(log);
        retryAfter := CeilSeconds(oldest + windowMs - nowMs);
        if retryAfter < 1 {
          retryAfter := 1;
        }
      }
      return log, [Int(0), Int(0), Int(retryAfter), Int(limit)];
    }

    /** ZRANGE key 0 0 WITHSCORES. */
    method First(log: Log) returns (score: nat)
      requires |log| > 0
      ensures score == Oldest(log)
    {
      assert exists m :: m in log && Lowest(log, m) by {
        assert IsOldest(log, Oldest(log));
        var m :| m in log && log[m] == Oldest(log);
        assert forall k :: k in log ==> log[m] <= log[k];
      }
      var m :| m in log && Lowest(log, m);
      score := log[m];
    }

    /** The key now holds `log`, and PEXPIRE sets its time to live. */
    method Expire(key: string, log: Log, ttlMs: int, clock: int)
      modifies this
      ensures entries == K.Put(old(entries), key, E.Kept(log, ttlMs, clock))
    {
      if ttlMs > 0 {
        entries := entries[key := E.Entry(log, clock + ttlMs)];
      } else {
        entries := entries - {key};
      }
    }
  }

  /** The call SlidingWindow.Allow makes: a key that lives for two windows. */
  function AllowCall(limit: int, window: int, now: nat, member: Member, clock: int): Call {
    E.Call(Request(now, member, limit, window * 1000), 2 * window * 1000, clock)
  }

  class SlidingWindowLimiter {
    const limit: int
    const window: int
    const prefix: string

    constructor (limit: int, window: int)
      ensures this.limit == limit && this.window == window && prefix == "rl:sliding"
    {
      this.limit := limit;
      this.window := window;
      prefix := "rl:sliding";
    }

    /** `member` is the fresh id; `up` is false when the Redis call fails. */
    method Allow(redis: RedisSortedSets, key: string, now: nat, member: Member, clock: int, up: bool)
        returns (r: Result)
      modifies redis
      ensures !up ==> r == Err && redis.entries == old(redis.entries)
      ensures up ==>
                var redisKey := prefix + ":" + key;
                var call := AllowCall(limit, window, now, member, clock);
                var next := OnRedis()(K.Get(old(redis.entries), redisKey), call);
                && call == E.Call(Request(now, member, limit, 1000 * window), 2000 * window, clock)
                && redis.entries == K.Put(old(redis.entries), redisKey, next.0) && r == Ok(next.1, window)
      ensures up ==>
                var found := E.Live(K.Get(old(redis.entries), prefix + ":" + key), clock, map[]);
                && r.Ok? && r.reply.limit == limit && r.resetAfter == window
                && Accounts(r.reply, limit, |Prune(found, now - 1000 * window)|)
    {
      var ttl := 2 * window * 1000;
      if !up {
        return Err;
      }
      ReplyAccounts(E.Live(K.Get(redis.entries, prefix + ":" + key), clock, map[]),
                    AllowCall(limit, window, now, member, clock).req);
      var values := redis.Eval(prefix + ":" + key, limit, window * 1000, now, member, ttl, clock);
      r := Parse(values, window);
    }
  }

  /** In every run on the expiring store, from any state and whatever is edited, each reply carries the limit its call
      passed, and an admission accounts for all of it. */
  lemma {:induction false} RepliesTellLimits(e: Option<Entry>, calls: seq<Call>, i: nat)
    requires i < |calls|
    ensures var c, reply := calls[i], Outputs(OnRedis(), e, calls)[i];
            var found := E.Live(Final(OnRedis(), e, calls[..i]), c.clock, map[]);
            reply.limit == c.req.limit && Accounts(reply, c.req.limit, |Prune(found, c.req.now - c.req.window)|)
  {
    RunAt(OnRedis(), e, calls, i);
    ReplyAccounts(E.Live(Final(OnRedis(), e, calls[..i]), calls[i].clock, map[]), calls[i].req);
  }

  // ----- Expiry across policy edits -----

  /** A policy in force on a key (window in ms), and the time to live its calls set. */
  datatype RawPolicy = Policy(limit: int, window: int, ttl: int)
  type Policy = p: RawPolicy | p.limit >= 1 && p.window >= 1 witness RawPolicy.Policy(1, 1, 1)

  predicate Under(c: Call, p: Policy) { c.req.limit == p.limit && c.req.window == p.window && c.ttl == p.ttl }

  /** Consecutive calls of a client: in order, paced, and under policies that may follow one another. */
  ghost predicate MayFollow(a: Call, b: Call, edits: set<(Policy, Policy)>, slack: nat) {
    && a.req.now <= b.req.now && Paced(b.req.now - a.req.now, b.clock - a.clock, slack)
    && exists p: Policy, q: Policy :: (p, q) in edits && Under(a, p) && Under(b, q)
  }

  ghost function Edited(edits: set<(Policy, Policy)>, slack: nat): (Call, Call) -> bool {
    (a: Call, b: Call) => MayFollow(a, b, edits, slack)
  }

  /** A key left alone is not gone before the next policy needs it no more, and the slack is over. */
  ghost predicate Covers(edits: set<(Policy, Policy)>, slack: nat) {
    forall p: Policy, q: Policy :: (p, q) in edits ==> E.GoneAfter(p.ttl) >= q.window + slack
  }

  ghost predicate Unobservable(edits: set<(Policy, Policy)>, slack: nat) {
    forall calls: seq<Call> :: Chain(calls, Edited(edits, slack)) ==>
      Outputs(OnRedis(), None, calls) == Outputs(Step, map[], E.Requests(calls))
  }

  ghost predicate LeftBy(log: Log, c: Call) { forall m :: m in log ==> log[m] <= c.req.now }

  lemma StepLeaves(log: Log, a: Call, b: Call)
    requires LeftBy(log, a) && a.req.now <= b.req.now
    ensures LeftBy(Step(log, b.req).0, b)
  {
    StepCases(log, b.req);
  }

  lemma GoneIsEmpty(log: Log, a: Call, b: Call, edits: set<(Policy, Policy)>, slack: nat)
    requires Covers(edits, slack) && LeftBy(log, a) && MayFollow(a, b, edits, slack)
    requires a.ttl <= 0 || b.clock >= a.clock + E.GoneAfter(a.ttl)
    ensures Step(log, b.req) == Step(map[], b.req)
  {
    var p: Policy, q: Policy :| (p, q) in edits && Under(a, p) && Under(b, q);
    assert Prune(log, b.req.now - b.req.window) == map[] == Prune(map[], b.req.now - b.req.window);
    SameLiveSteps(log, map[], b.req);
  }

  lemma LongEnough(edits: set<(Policy, Policy)>, slack: nat)
    requires Covers(edits, slack)
    ensures Unobservable(edits, slack)
  {
    var empty: Log := map[];
    forall a: Call ensures LeftBy(Step(empty, a.req).0, a) {
      StepLeaves(empty, a, a);
    }
    forall log, a, b | LeftBy(log, a) && Edited(edits, slack)(a, b) ensures LeftBy(Step(log, b.req).0, b) {
      StepLeaves(log, a, b);
    }
    forall log, a, b | LeftBy(log, a) && Edited(edits, slack)(a, b)
      && (a.ttl <= 0 || b.clock >= a.clock + E.GoneAfter(a.ttl))
      ensures Step(log, b.req) == Step(empty, b.req)
    {
      GoneIsEmpty(log, a, b, edits, slack);
    }
    forall calls: seq<Call> | Chain(calls, Edited(edits, slack))
      ensures Outputs(OnRedis(), None, calls) == Outputs(Step, empty, E.Requests(calls))
    {
      E.SameAnswers(Step, empty, LeftBy, Edited(edits, slack), calls);
    }
  }

  // ----- A run that shows when a key dies too soon -----

  function CallUnder(p: Policy, now: nat, i: nat, clock: int): Call {
    E.Call(Request(now, Uuid(i), p.limit, p.window), p.ttl, clock)
  }

  /** n calls at time zero, with distinct members. */
  function Burst(n: nat, p: Policy): (calls: seq<Call>)
    ensures |calls| == n && forall i :: 0 <= i < n ==> calls[i] == CallUnder(p, 0, i, 0)
  {
    if n == 0 then [] else Burst(n - 1, p) + [CallUnder(p, 0, n - 1, 0)]
  }

  lemma {:induction false} BurstIsSalvo(n: nat, p: Policy)
    ensures E.Requests(Burst(n, p)) == Salvo(n, p.limit, p.window)
  {
  }

  /** A call under q at the first moment the key of p's calls at time zero is gone, its reading lagging as far as
      allowed. */
  function LateCall(p: Policy, q: Policy, slack: nat): Call {
    CallUnder(q, Max(0, E.GoneAfter(p.ttl) - slack), p.limit, E.GoneAfter(p.ttl))
  }

  lemma {:induction false} LastingStoreRemembers(p: Policy, q: Policy, slack: nat)
    requires E.GoneAfter(p.ttl) < q.window + slack
    ensures var late := LateCall(p, q, slack);
            var reply := Outputs(Step, map[], E.Requests(Burst(p.limit, p) + [late]))[p.limit];
            reply.remaining < q.limit - 1 || !reply.allowed
  {
    var late := LateCall(p, q, slack);
    var reqs, prior := E.Requests(Burst(p.limit, p) + [late]), E.Requests(Burst(p.limit, p));
    BurstIsSalvo(p.limit, p);
    SalvoFills(p.limit, p.limit, p.window);
    assert reqs[..p.limit] == prior && reqs[p.limit] == late.req;
    RunAt(Step, map[], reqs, p.limit);
    ZeroScoresStep(Final(Step, map[], prior), p.limit, late.req);
  }

  lemma {:induction false} ExpiringStoreForgets(p: Policy, q: Policy, slack: nat)
    ensures var late := LateCall(p, q, slack);
            var reply := Outputs(OnRedis(), None, Burst(p.limit, p) + [late])[p.limit];
            reply.remaining == q.limit - 1 && reply.allowed
  {
    var late := LateCall(p, q, slack);
    var calls, n := Burst(p.limit, p) + [late], p.limit;
    RunAt(OnRedis(), None, calls, n);
    RunAt(OnRedis(), None, calls, n - 1);
    assert calls[n - 1] == CallUnder(p, 0, n - 1, 0);
    assert E.Live(Final(OnRedis(), None, calls[..n]), late.clock, map[]) == map[];
    assert Prune(map[], late.req.now - late.req.window) == map[];
  }

  lemma {:induction false} LateBurstIsPaced(p: Policy, q: Policy, edits: set<(Policy, Policy)>, slack: nat)
    requires E.Steps(edits) && (p, q) in edits
    ensures Chain(Burst(p.limit, p) + [LateCall(p, q, slack)], Edited(edits, slack))
  {
    var calls, late := Burst(p.limit, p) + [LateCall(p, q, slack)], LateCall(p, q, slack);
    forall i | 0 < i < |calls| ensures MayFollow(calls[i - 1], calls[i], edits, slack) {
      assert Under(calls[i - 1], p) && (p, p) in edits;
      assert if i < p.limit then Under(calls[i], p) else Under(calls[i], q);
    }
  }

  /** Fill the log at one instant, then call once more when the key has just died. */
  lemma TooShort(p: Policy, q: Policy, edits: set<(Policy, Policy)>, slack: nat)
    requires E.Steps(edits) && (p, q) in edits && E.GoneAfter(p.ttl) < q.window + slack
    ensures !Unobservable(edits, slack)
  {
    var calls := Burst(p.limit, p) + [LateCall(p, q, slack)];
    LastingStoreRemembers(p, q, slack);
    ExpiringStoreForgets(p, q, slack);
    LateBurstIsPaced(p, q, edits, slack);
    assert Outputs(OnRedis(), None, calls)[p.limit] != Outputs(Step, map[], E.Requests(calls))[p.limit];
  }

  /** For any set of edits, key expiry goes unnoticed in all runs exactly when the time to live of each policy
      covers the window of any policy that may follow it, and the slack. */
  lemma EditsUnobservableIff(edits: set<(Policy, Policy)>, slack: nat)
    requires E.Steps(edits)
    ensures Unobservable(edits, slack) <==> Covers(edits, slack)
  {
    if Covers(edits, slack) {
      LongEnough(edits, slack);
    } else {
      var p: Policy, q: Policy :| (p, q) in edits && E.GoneAfter(p.ttl) < q.window + slack;
      TooShort(p, q, edits, slack);
    }
  }

  /** Under one policy the time to live must cover its window and the slack. */
  lemma ExpiryUnobservableIff(p: Policy, slack: nat)
    ensures Unobservable({(p, p)}, slack) <==> E.GoneAfter(p.ttl) >= p.window + slack
  {
    EditsUnobservableIff({(p, p)}, slack);
    assert (p, p) in {(p, p)};
  }

  /** The two windows Allow asks for tolerate a slack of one window and a millisecond, and no more: a key is still
      live at its deadline. */
  lemma TwoWindowsTolerateOne(limit: int, window: int, slack: nat)
    requires limit >= 1 && window >= 1
    ensures var c := AllowCall(limit, window, 0, Uuid(0), 0);
            var p: Policy := RawPolicy.Policy(limit, c.req.window, c.ttl);
            Unobservable({(p, p)}, slack) <==> slack <= 1000 * window + 1
  {
    ExpiryUnobservableIff(RawPolicy.Policy(limit, window * 1000, 2 * window * 1000), slack);
  }

  // ----- Refused requests leave no trace in Redis either -----

  /** Two calls of one client in a run whose clocks never drift apart by more than the slack. */
  ghost function InStep(p: Policy, slack: nat): (Call, Call) -> bool {
    (a: Call, b: Call) =>
      Under(a, p) && Under(b, p) && a.req.now <= b.req.now && Paced(b.req.now - a.req.now, b.clock - a.clock, slack)
  }

  lemma {:induction false} InStepMayFollow(p: Policy, slack: nat, calls: seq<Call>)
    requires Pairwise(calls, InStep(p, slack))
    ensures Chain(calls, Edited({(p, p)}, slack)) && Chain(E.Requests(calls), Follows)
  {
    forall i | 0 < i < |calls|
      ensures MayFollow(calls[i - 1], calls[i], {(p, p)}, slack) && Follows(calls[i - 1].req, calls[i].req)
    {
      assert InStep(p, slack)(calls[i - 1], calls[i]) && (p, p) in {(p, p)};
    }
  }

  /** With a key that outlives its window and the slack, deleting any refused calls from a run changes no other
      reply of the expiring store. */
  lemma {:induction false} RefusalsLeaveNoTraceOnRedis(p: Policy, slack: nat, calls: seq<Call>, keep: seq<bool>)
    requires |calls| == |keep| && Covers({(p, p)}, slack) && Pairwise(calls, InStep(p, slack))
    requires forall i :: 0 <= i < |calls| && !keep[i] ==> !Outputs(OnRedis(), None, calls)[i].allowed
    ensures Outputs(OnRedis(), None, Filter(calls, keep)) == Filter(Outputs(OnRedis(), None, calls), keep)
  {
    LongEnough({(p, p)}, slack);
    FilterPairwise(calls, keep, InStep(p, slack));
    InStepMayFollow(p, slack, calls);
    InStepMayFollow(p, slack, Filter(calls, keep));
    E.FilterRequests(calls, keep);
    RefusalsLeaveNoTrace(map[], E.Requests(calls), keep);
  }

  // ----- A window that is not positive -----

  ghost predicate AllowRun(calls: seq<Call>, limit: int, window: int) {
    forall i :: 0 <= i < |calls| ==>
      calls[i] == AllowCall(limit, window, calls[i].req.now, calls[i].req.member, calls[i].clock)
  }

  lemma {:induction false} DeletedKeysAlwaysAdmit(calls: seq<Call>, limit: int, window: int)
    requires limit >= 1 && window <= 0 && AllowRun(calls, limit, window)
    ensures forall i :: 0 <= i < |calls| ==> Outputs(OnRedis(), None, calls)[i].allowed
  {
    if calls != [] {
      StepCases(map[], calls[0].req);
      assert Prune(map[], calls[0].req.now - calls[0].req.window) == map[];
      DeletedKeysAlwaysAdmit(calls[1..], limit, window);
    }
  }

  lemma {:induction false} BurstIsPaced(n: nat, p: Policy)
    ensures Chain(Burst(n, p), Edited({(p, p)}, 0))
  {
    var calls := Burst(n, p);
    forall i | 0 < i < |calls| ensures MayFollow(calls[i - 1], calls[i], {(p, p)}, 0) {
      assert (p, p) in {(p, p)} && Under(calls[i - 1], p) && Under(calls[i], p);
    }
  }

  lemma PositiveWindowLimits(limit: int, window: int)
    requires limit >= 1 && window >= 1
    ensures exists calls: seq<Call> :: AllowRun(calls, limit, window) && |calls| == limit + 1
              && !Outputs(OnRedis(), None, calls)[limit].allowed
  {
    var p: Policy := RawPolicy.Policy(limit, window * 1000, 2 * window * 1000);
    var calls := Burst(limit + 1, p);
    BurstIsPaced(limit + 1, p);
    LongEnough({(p, p)}, 0);
    BurstIsSalvo(limit + 1, p);
    SalvoOverflows(limit, p.window);
    assert AllowRun(calls, limit, window);
  }

  /** The log limits something exactly when the window is positive: otherwise PEXPIRE deletes the key after
      every call, and each request finds an empty log. */
  lemma LimitsIffWindowPositive(limit: int, window: int)
    requires limit >= 1
    ensures (exists calls: seq<Call>, i :: AllowRun(calls, limit, window) && 0 <= i < |calls|
               && !Outputs(OnRedis(), None, calls)[i].allowed) <==> window >= 1
  {
    if window >= 1 {
      PositiveWindowLimits(limit, window);
    } else {
      forall calls: seq<Call>, i | AllowRun(calls, limit, window) && 0 <= i < |calls|
        ensures Outputs(OnRedis(), None, calls)[i].allowed
      {
        DeletedKeysAlwaysAdmit(calls, limit, window);
      }
    }
  }
}
