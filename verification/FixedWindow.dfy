/** The fixed window: three Redis commands per call, the Go caller, and its uninterrupted runs. */
module FixedWindow {
  import opened Prelude
  import opened Machine
  import opened ScriptResult
  import opened Keys
  import K = Keyed

  /** INCR never leaves a counter below one. */
  type Count = n: nat | n >= 1 witness 1

  /** A Redis counter; without EXPIRE it has no deadline (Redis time, ms). */
  datatype Counter = Counter(count: Count, deadline: Option<int>)

  /** The counter under a key, unless it has expired. */
  function Find<K>(counters: map<K, Counter>, k: K, clock: int): Option<Counter> {
    if k in counters && (counters[k].deadline.None? || clock <= counters[k].deadline.value) then Some(counters[k])
    else None
  }

  /** INCR: the new counters and the count it returns; a counter created here has no deadline. */
  function Incr<K>(counters: map<K, Counter>, k: K, clock: int): (map<K, Counter>, nat) {
    match Find(counters, k, clock)
    case Some(c) => (counters[k := c.(count := c.count + 1)], c.count + 1)
    case None => (counters[k := Counter(1, None)], 1)
  }

  /** EXPIRE: nothing happens when the key is gone, and a time to live that is not positive deletes it. */
  function Expire<K>(counters: map<K, Counter>, k: K, clock: int, ttl: int): map<K, Counter> {
    match Find(counters, k, clock)
    case Some(c) => if ttl > 0 then counters[k := c.(deadline := Some(clock + ttl))] else counters - {k}
    case None => counters
  }

  /** What an uninterrupted call does: INCR and, for the first count, EXPIRE; and the count. */
  function Commands<K>(counters: map<K, Counter>, k: K, clock: int, clock': int, window: int): (map<K, Counter>, nat) {
    var counted := Incr(counters, k, clock);
    (if counted.1 == 1 then Expire(counted.0, k, clock', 1000 * window) else counted.0, counted.1)
  }

  /** Go's integer division of a time by a window of either sign. */
  function GoQuotient(now: nat, window: int): (q: int)
    requires window != 0
    ensures window > 0 ==> q >= 0 && 0 <= now - q * window < window
    ensures window < 0 ==> q <= 0 && 0 <= now - q * window < -window
  {
    QuotientMonotone(0, now, if window > 0 then window else -window);
    if window > 0 then Quotient(now, window) else -Quotient(now, -window)
  }

  class RedisCounters {
    var counters: map<string, Counter>

    constructor ()
      ensures counters == map[]
    {
      counters := map[];
    }

    method DoIncr(key: string, clock: int) returns (count: nat)
      modifies this
      ensures (counters, count) == Incr(old(counters), key, clock)
    {
      if key in counters && (counters[key].deadline.None? || clock <= counters[key].deadline.value) {
        count := counters[key].count + 1;
        counters := counters[key := counters[key].(count := count)];
      } else {
        count := 1;
        counters := counters[key := Counter(1, None)];
      }
    }

    method DoExpire(key: string, clock: int, ttl: int)
      modifies this
      ensures counters == Expire(old(counters), key, clock, ttl)
    {
      if key in counters && (counters[key].deadline.None? || clock <= counters[key].deadline.value) {
        if ttl > 0 {
          counters := counters[key := counters[key].(deadline := Some(clock + ttl))];
        } else {
          counters := counters - {key};
        }
      }
    }
  }

  class FixedWindowLimiter {
    const limit: int
    const window: int
    const prefix: string

    constructor (limit: int, window: int)
      ensures this.limit == limit && this.window == window && prefix == "rl:fixed"
    {
      this.limit := limit;
      this.window := window;
      prefix := "rl:fixed";
    }

    /** Uninterrupted: `now` is Go's clock in seconds, `clock` and `clock'` the Redis times of INCR and
        EXPIRE, `ttl` whatever TTL answers; `incrUp` and `expireUp` are false when that command fails. Go panics
        on a window of zero. */
    method Allow(redis: RedisCounters, key: string, now: nat, clock: int, clock': int, ttl: int, incrUp: bool,
                 expireUp: bool)
      returns (r: Result)
      requires window != 0
      modifies redis
      ensures var redisKey := WindowKey(prefix + ":" + key, GoQuotient(now, window));
              var counted := Incr(old(redis.counters), redisKey, clock);
              var reset := if ttl < 0 then window else ttl;
              if !incrUp then r == Err && redis.counters == old(redis.counters)
              else if counted.1 == 1 && !expireUp then r == Err && redis.counters == counted.0
              else
                && redis.counters == Commands(old(redis.counters), redisKey, clock, clock', window).0
                && r == Ok(Reply(counted.1 <= limit, Max(0, limit - counted.1), reset, limit), reset)
    {
      var windowId := if window > 0 then now / window else -(now / -window);
      var redisKey := prefix + ":" + key + ":" + Decimal(windowId);
      if !incrUp {
        return Err;
      }
      var count := redis.DoIncr(redisKey, clock);
      if count == 1 {
        if !expireUp {
          return Err;
        }
        redis.DoExpire(redisKey, clock', 1000 * window);
      }
      var resetAfter := ttl;
      if resetAfter < 0 {
        resetAfter := window;
      }
      var remaining := limit - count;
      if remaining < 0 {
        remaining := 0;
      }
      r := Ok(Reply(count <= limit, remaining, resetAfter, limit), resetAfter);
    }
  }

  // ----- Uninterrupted runs of one client -----

  /** One call: the Go clock in seconds, the Redis clock in ms, the policy in force. */
  datatype RawRequest = Request(now: nat, clock: int, limit: int, window: int)
  type Request = r: RawRequest | r.limit >= 1 && r.window >= 1 witness RawRequest.Request(0, 0, 1, 1)

  /** Counters of one client by window id. */
  type Counters = map<int, Counter>

  function WindowId(r: Request): int { Quotient(r.now, r.window) }

  /** TTL of a counter in whole seconds, -1 without a deadline. */
  function Ttl(deadline: Option<int>, clock: int): int {
    if deadline.None? then -1 else (deadline.value - clock + 500) / 1000
  }

  /** An uninterrupted call on the counter under a key. */
  function StepAt<K>(cs: map<K, Counter>, k: K, r: Request): (map<K, Counter>, Reply) {
    var done := Commands(cs, k, r.clock, r.clock, r.window);
    var ttl := if k in done.0 then Ttl(done.0[k].deadline, r.clock) else -1;
    (done.0, Reply(done.1 <= r.limit, Max(0, r.limit - done.1), if ttl < 0 then r.window else ttl, r.limit))
  }

  function Step(cs: Counters, r: Request): (Counters, Reply) { StepAt(cs, WindowId(r), r) }

  /** What a call does, by the counter it finds. */
  lemma StepCases(cs: Counters, r: Request)
    ensures var k, found := WindowId(r), Find(cs, WindowId(r), r.clock);
            var n := if found.Some? then found.value.count + 1 else 1;
            var deadline := if n == 1 then Some(r.clock + 1000 * r.window) else found.value.deadline;
            && Step(cs, r).0 == cs[k := Counter(n, deadline)]
            && Step(cs, r).1.allowed == (n <= r.limit) && Step(cs, r).1.remaining == Max(0, r.limit - n)
            && Step(cs, r).1.limit == r.limit
            && Step(cs, r).1.retryAfter == (if Ttl(deadline, r.clock) < 0 then r.window else Ttl(deadline, r.clock))
  {
  }

  /** The store of all keys holds exactly these counters under the client's window keys. */
  ghost predicate Holds(store: map<string, Counter>, key: string, cs: Counters) {
    forall id :: (id in cs <==> WindowKey(key, id) in store) && (id in cs ==> store[WindowKey(key, id)] == cs[id])
  }

  lemma WindowKeysDiffer(key: string, i: int, j: int)
    requires WindowKey(key, i) == WindowKey(key, j)
    ensures i == j
  {
    LastColon(key, Decimal(i), key, Decimal(j));
    DecimalInjective(i, j);
  }

  lemma PutHolds(store: map<string, Counter>, key: string, cs: Counters, id: int, c: Counter)
    requires Holds(store, key, cs)
    ensures Holds(store[WindowKey(key, id) := c], key, cs[id := c])
  {
    forall other | WindowKey(key, other) == WindowKey(key, id) ensures other == id {
      WindowKeysDiffer(key, other, id);
    }
  }

  /** One client's step is what Allow's commands do to the store of all keys. */
  lemma StepIsCommands(store: map<string, Counter>, key: string, cs: Counters, r: Request)
    requires Holds(store, key, cs)
    ensures var done := Commands(store, WindowKey(key, WindowId(r)), r.clock, r.clock, r.window);
            && Holds(done.0, key, Step(cs, r).0)
            && Step(cs, r).1.allowed == (done.1 <= r.limit) && Step(cs, r).1.remaining == Max(0, r.limit - done.1)
    ensures StepAt(store, WindowKey(key, WindowId(r)), r).1 == Step(cs, r).1
  {
    var k := WindowKey(key, WindowId(r));
    var found := Find(store, k, r.clock);
    assert found == Find(cs, WindowId(r), r.clock);
    StepCases(cs, r);
    var n := if found.Some? then found.value.count + 1 else 1;
    var c := Counter(n, if n == 1 then Some(r.clock + 1000 * r.window) else found.value.deadline);
    PutHolds(store, key, cs, WindowId(r), c);
    assert Commands(store, k, r.clock, r.clock, r.window).0 == store[k := c];
  }

  // ----- Per-client isolation -----

  /** The key of a client, before its window ids. */
  function KeyFor(prefix: string, who: (string, string)): string { prefix + ":" + ClientKey(who.0, who.1) }

  /** A call of any client on the store of all keys. */
  function StoreStep(prefix: string)
      : (map<string, Counter>, ((string, string), Request)) -> (map<string, Counter>, Reply)
  {
    (store: map<string, Counter>, call: ((string, string), Request)) =>
      StepAt(store, WindowKey(KeyFor(prefix, call.0), WindowId(call.1)), call.1)
  }

  lemma OneKeyChanges(store: map<string, Counter>, k: string, r: Request)
    ensures k in StepAt(store, k, r).0
    ensures forall other :: other != k ==>
              (other in StepAt(store, k, r).0 <==> other in store)
              && (other in store ==> StepAt(store, k, r).0[other] == store[other])
  {
  }

  /** On clean routes another client's call leaves this client's counters as they are. */
  lemma OthersKeepHolds(routes: set<string>, prefix: string, store: map<string, Counter>, cs: Counters,
                        who: (string, string), other: (string, string), r: Request)
    requires Clean(routes) && who.1 in routes && other.1 in routes && who != other
    requires Holds(store, KeyFor(prefix, who), cs)
    ensures Holds(StepAt(store, WindowKey(KeyFor(prefix, other), WindowId(r)), r).0, KeyFor(prefix, who), cs)
  {
    OneKeyChanges(store, WindowKey(KeyFor(prefix, other), WindowId(r)), r);
    forall id ensures WindowKey(KeyFor(prefix, who), id) != WindowKey(KeyFor(prefix, other), WindowId(r)) {
      if WindowKey(KeyFor(prefix, who), id) == WindowKey(KeyFor(prefix, other), WindowId(r)) {
        KeysTellClients(routes, prefix, who, id, other, WindowId(r));
      }
    }
  }

  lemma KeysTellClients(routes: set<string>, prefix: string, who: (string, string), i: int, other: (string, string),
                        j: int)
    requires Clean(routes) && who.1 in routes && other.1 in routes
    requires WindowKey(KeyFor(prefix, who), i) == WindowKey(KeyFor(prefix, other), j)
    ensures who == other && i == j
  {
    LastColon(KeyFor(prefix, who), Decimal(i), KeyFor(prefix, other), Decimal(j));
    DecimalInjective(i, j);
    SamePrefix(prefix + ":", ClientKey(who.0, who.1), ClientKey(other.0, other.1));
    ClientKeyInjective(routes, who.0, who.1, other.0, other.1);
  }

  lemma SamePrefix(p: string, k: string, l: string)
    requires p + k == p + l
    ensures k == l
  {
    assert k == (p + k)[|p|..] && l == (p + l)[|p|..];
  }

  /** What one client sees of any interleaved run of uninterrupted calls of all clients is its own run. */
  lemma {:induction false} ClientsAreIsolated(routes: set<string>, prefix: string, store: map<string, Counter>,
                                              cs: Counters, calls: seq<((string, string), Request)>,
                                              who: (string, string))
    requires Clean(routes) && who.1 in routes && OnRoutes(calls, routes) && Holds(store, KeyFor(prefix, who), cs)
    ensures Filter(Outputs(StoreStep(prefix), store, calls), K.For(calls, who))
            == Outputs(Step, cs, K.Inputs(calls, who))
    decreases |calls|
  {
    if calls != [] {
      var c, r := calls[0].0, calls[0].1;
      var next := StepAt(store, WindowKey(KeyFor(prefix, c), WindowId(r)), r);
      var out := Outputs(StoreStep(prefix), store, calls);
      assert out[0] == next.1 && out[1..] == Outputs(StoreStep(prefix), next.0, calls[1..]);
      assert K.For(calls, who)[1..] == K.For(calls[1..], who);
      if c == who {
        StepIsCommands(store, KeyFor(prefix, who), cs, r);
        ClientsAreIsolated(routes, prefix, next.0, Step(cs, r).0, calls[1..], who);
        assert K.Inputs(calls, who) == [r] + K.Inputs(calls[1..], who);
      } else {
        OthersKeepHolds(routes, prefix, store, cs, who, c, r);
        ClientsAreIsolated(routes, prefix, next.0, cs, calls[1..], who);
        assert K.Inputs(calls, who) == K.Inputs(calls[1..], who);
      }
    }
  }

  // ----- Refused requests leave no trace -----

  /** Consecutive requests of a steady run: neither clock goes back, the policy stays. */
  ghost predicate Follows(x: Request, y: Request) {
    x.now <= y.now && x.clock <= y.clock && x.limit == y.limit && x.window == y.window
  }

  /** Two counters that differ, if at all, only in how far past the limit they are. */
  predicate SameCounter(a: Counter, b: Counter, limit: int) {
    a.deadline == b.deadline && (a.count == b.count || (a.count >= limit && b.count >= limit))
  }

  ghost predicate SameFrom(a: Counters, b: Counters, x: Request) {
    forall k :: k >= WindowId(x) ==>
      (k in a <==> k in b) && (k in a ==> SameCounter(a[k], b[k], x.limit))
  }

  lemma WindowIdsGrow(x: Request, y: Request)
    requires Follows(x, y)
    ensures WindowId(x) <= WindowId(y)
  {
    QuotientMonotone(x.now, y.now, x.window);
  }

  lemma SameCounterStep(a: Counters, b: Counters, x: Request)
    requires SameFrom(a, b, x)
    ensures Step(a, x).1 == Step(b, x).1
    ensures SameFrom(Step(a, x).0, Step(b, x).0, x)
    ensures !Step(a, x).1.allowed ==> SameFrom(Step(a, x).0, b, x)
  {
    var k := WindowId(x);
    StepCases(a, x);
    StepCases(b, x);
    assert k in a <==> k in b;
  }

  lemma CountersAreTransparent()
    ensures Transparent(Step, SameFrom, Follows)
  {
    forall a, b, x | SameFrom(a, b, x) ensures Step(a, x).1 == Step(b, x).1 {
      SameCounterStep(a, b, x);
    }
    forall a, b, x, y | SameFrom(a, b, x) && Follows(x, y) ensures SameFrom(Step(a, x).0, Step(b, x).0, y) {
      SameCounterStep(a, b, x);
      WindowIdsGrow(x, y);
    }
    forall a, b, x, y | SameFrom(a, b, x) && !Step(a, x).1.allowed && Follows(x, y)
      ensures SameFrom(Step(a, x).0, b, y) {
      SameCounterStep(a, b, x);
      WindowIdsGrow(x, y);
    }
  }

  /** Deleting any refused requests from a steady run leaves every other reply unchanged. */
  lemma {:induction false} RefusalsLeaveNoTrace(cs: Counters, reqs: seq<Request>, keep: seq<bool>)
    requires |reqs| == |keep| && Chain(reqs, Follows)
    requires forall i :: 0 <= i < |reqs| && !keep[i] ==> !Outputs(Step, cs, reqs)[i].allowed
    ensures Outputs(Step, cs, Filter(reqs, keep)) == Filter(Outputs(Step, cs, reqs), keep)
  {
    CountersAreTransparent();
    NoTrace(Step, SameFrom, Follows, cs, cs, reqs, keep);
  }

  // ----- Remaining is a promise -----

  /** Every live counter of x's window or a later one leaves room for `room` more requests. */
  ghost predicate Room(cs: Counters, x: Request, room: int) {
    forall k :: k >= WindowId(x) && Find(cs, k, x.clock).Some? ==> Find(cs, k, x.clock).value.count <= x.limit - room
  }

  lemma RoomLater(cs: Counters, x: Request, y: Request, room: int)
    requires Room(cs, x, room) && Follows(x, y)
    ensures Room(cs, y, room)
  {
    WindowIdsGrow(x, y);
    forall k | k >= WindowId(y) && Find(cs, k, y.clock).Some?
      ensures Find(cs, k, y.clock).value.count <= y.limit - room {
      assert Find(cs, k, x.clock) == Find(cs, k, y.clock);
    }
  }

  lemma RoomStep(cs: Counters, x: Request, room: int)
    requires Room(cs, x, room) && 1 <= room <= x.limit
    ensures Step(cs, x).1.allowed && Room(Step(cs, x).0, x, room - 1)
  {
    var cs' := Step(cs, x).0;
    StepCases(cs, x);
    forall k | k >= WindowId(x) && Find(cs', k, x.clock).Some?
      ensures Find(cs', k, x.clock).value.count <= x.limit - (room - 1)
    {
      if k != WindowId(x) {
        assert Find(cs', k, x.clock) == Find(cs, k, x.clock);
      }
    }
  }

  lemma {:induction false} RoomForAll(cs: Counters, x: Request, reqs: seq<Request>)
    requires Chain([x] + reqs, Follows)
    requires Room(cs, x, |reqs|) && |reqs| <= x.limit
    ensures forall i :: 0 <= i < |reqs| ==> Outputs(Step, cs, reqs)[i].allowed
    decreases |reqs|
  {
    if reqs != [] {
      var r, run := reqs[0], [x] + reqs;
      assert run[0] == x && run[1] == r && Follows(run[0], run[1]);
      RoomLater(cs, x, r, |reqs|);
      RoomStep(cs, r, |reqs|);
      assert run[1..] == [r] + reqs[1..];
      forall i | 0 < i < |reqs| ensures Follows(run[1..][i - 1], run[1..][i]) {
        assert run[1..][i - 1] == run[i] && run[1..][i] == run[i + 1];
      }
      RoomForAll(Step(cs, r).0, r, reqs[1..]);
    }
  }

  lemma {:induction false} FillWindow(cs: Counters, r: Request, n: nat)
    requires var c := Find(cs, WindowId(r), r.clock); c.Some? && c.value.count >= r.limit - n
    ensures !Outputs(Step, cs, Repeat(r, n + 1))[n].allowed
  {
    StepCases(cs, r);
    assert Repeat(r, n + 1)[1..] == Repeat(r, n);
    if n > 0 {
      FillWindow(Step(cs, r).0, r, n - 1);
    }
  }

  /** Remaining at x is kept: that many requests at the same or later readings, in whatever windows, are admitted. */
  ghost predicate PromiseKept(cs: Counters, x: Request) {
    var next := Step(cs, x);
    forall reqs: seq<Request> :: Chain([x] + reqs, Follows) && |reqs| <= next.1.remaining ==>
      forall i :: 0 <= i < |reqs| ==> Outputs(Step, next.0, reqs)[i].allowed
  }

  /** No live counter of a later window, left there by an instance whose clock is ahead, is short of `room`. */
  ghost predicate RoomAhead(cs: Counters, x: Request, room: int) {
    forall k :: k > WindowId(x) && Find(cs, k, x.clock).Some? ==> Find(cs, k, x.clock).value.count + room <= x.limit
  }

  lemma RoomAfter(cs: Counters, x: Request)
    requires Step(cs, x).1.remaining > 0 && RoomAhead(cs, x, Step(cs, x).1.remaining)
    ensures Room(Step(cs, x).0, x, Step(cs, x).1.remaining)
  {
    var cs', n := Step(cs, x).0, Step(cs, x).1.remaining;
    StepCases(cs, x);
    forall k | k >= WindowId(x) && Find(cs', k, x.clock).Some?
      ensures Find(cs', k, x.clock).value.count <= x.limit - n {
      if k != WindowId(x) {
        assert Find(cs', k, x.clock) == Find(cs, k, x.clock);
      }
    }
  }

  lemma RoomAheadKeeps(cs: Counters, x: Request)
    requires Step(cs, x).1.remaining == 0 || RoomAhead(cs, x, Step(cs, x).1.remaining)
    ensures PromiseKept(cs, x)
  {
    var next := Step(cs, x);
    StepCases(cs, x);
    forall reqs: seq<Request> | Chain([x] + reqs, Follows) && |reqs| <= next.1.remaining
      ensures forall i :: 0 <= i < |reqs| ==> Outputs(Step, next.0, reqs)[i].allowed
    {
      if reqs != [] {
        RoomAfter(cs, x);
        RoomForAll(next.0, x, reqs);
      }
    }
  }

  /** Requests that arrive in a later window whose counter is already too far. */
  lemma FullAheadBreaks(cs: Counters, x: Request, k: int)
    requires k > WindowId(x) && Find(cs, k, x.clock).Some?
    requires Find(cs, k, x.clock).value.count + Step(cs, x).1.remaining > x.limit && Step(cs, x).1.remaining > 0
    ensures !PromiseKept(cs, x)
  {
    var n := Step(cs, x).1.remaining;
    var r := RequestIn(x, k);
    StepCases(cs, x);
    FillWindow(Step(cs, x).0, r, n - 1);
    assert Chain([x] + Repeat(r, n), Follows);
  }

  /** A request of the same policy in a later window, at the same Redis time. */
  lemma RequestIn(x: Request, k: int) returns (r: Request)
    requires k > WindowId(x)
    ensures Follows(x, r) && r.clock == x.clock && WindowId(r) == k
  {
    ProductMonotone(WindowId(x) + 1, k, x.window);
    SameQuotient(k * x.window, k, x.window);
    r := RawRequest.Request(k * x.window, x.clock, x.limit, x.window);
  }

  /** Whatever n requests follow a reply with Remaining = n, at the same or later readings and across any window
      boundary, all are admitted, exactly when n is zero or no live counter of a later window is short of n. */
  lemma RemainingIsAPromiseIff(cs: Counters, x: Request)
    ensures PromiseKept(cs, x) <==> Step(cs, x).1.remaining == 0 || RoomAhead(cs, x, Step(cs, x).1.remaining)
  {
    if Step(cs, x).1.remaining == 0 || RoomAhead(cs, x, Step(cs, x).1.remaining) {
      RoomAheadKeeps(cs, x);
    } else {
      StepCases(cs, x);
      var k :| k > WindowId(x) && Find(cs, k, x.clock).Some?
               && Find(cs, k, x.clock).value.count + Step(cs, x).1.remaining > x.limit;
      FullAheadBreaks(cs, x, k);
    }
  }

  /** It promises no more: of n+1 requests at the same instant the last is refused. */
  lemma {:induction false} RemainingIsExact(cs: Counters, x: Request)
    ensures var n := Step(cs, x).1.remaining; n >= 0 && !Outputs(Step, Step(cs, x).0, Repeat(x, n + 1))[n].allowed
  {
    StepCases(cs, x);
    FillWindow(Step(cs, x).0, x, Step(cs, x).1.remaining);
  }

  // ----- A window that is not positive -----

  /** An uninterrupted call: its key, and the Redis times of its INCR and EXPIRE. */
  datatype Visit = Visit(key: string, clock: int, clock': int)

  function CountVisit(cs: map<string, Counter>, v: Visit, window: int): (map<string, Counter>, nat) {
    Commands(cs, v.key, v.clock, v.clock', window)
  }

  function Counting(window: int): (map<string, Counter>, Visit) -> (map<string, Counter>, nat) {
    (cs: map<string, Counter>, v: Visit) => CountVisit(cs, v, window)
  }

  lemma {:induction false} DeletedCountersStayOne(visits: seq<Visit>, window: int, i: nat)
    requires window < 0 && i < |visits|
    ensures Outputs(Counting(window), map[], visits)[i] == 1
  {
    var cs: map<string, Counter> := map[];
    assert Counting(window)(cs, visits[0]) == (cs, 1);
    if i > 0 {
      DeletedCountersStayOne(visits[1..], window, i - 1);
    }
  }

  lemma {:induction false} InstantCounts(cs: map<string, Counter>, v: Visit, window: int, n: nat)
    requires window >= 1 && v.clock == v.clock'
    ensures var c := Find(cs, v.key, v.clock);
            Outputs(Counting(window), cs, Repeat(v, n + 1))[n] == (if c.Some? then c.value.count else 0) + n + 1
    decreases n
  {
    assert Repeat(v, n + 1)[1..] == Repeat(v, n);
    var next := CountVisit(cs, v, window);
    assert Counting(window)(cs, v) == next;
    if n > 0 {
      InstantCounts(next.0, v, window, n - 1);
    }
  }

  /** The counts a run of uninterrupted calls is given, from an empty store. */
  function Counts(window: int, visits: seq<Visit>): (counts: seq<nat>)
    ensures |counts| == |visits|
  {
    Outputs(Counting(window), map[], visits)
  }

  /** Given a window that is not zero, and calls one at a time whose commands succeed, some count in some run exceeds
      the limit exactly when the window is positive: otherwise EXPIRE deletes the counter after every call. */
  lemma LimitsIffWindowPositive(limit: int, window: int)
    requires limit >= 1 && window != 0
    ensures (exists visits: seq<Visit>, i: nat :: i < |visits| && Counts(window, visits)[i] > limit) <==> window >= 1
  {
    if window >= 1 {
      var v := Visit("", 0, 0);
      InstantCounts(map[], v, window, limit);
      assert Counts(window, Repeat(v, limit + 1))[limit] > limit;
    } else {
      forall visits: seq<Visit>, i: nat | i < |visits| ensures Counts(window, visits)[i] <= limit {
        DeletedCountersStayOne(visits, window, i);
      }
    }
  }
}
