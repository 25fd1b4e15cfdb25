/** The in-memory token bucket, and why it is the Redis bucket with a shorter retry hint. */
module MemoryBucket {
  import opened Prelude
  import opened Machine
  import T = TokenBucket
  import TokenStore
  import opened ScriptResult
  import K = Keyed

  /** memoryBucket: its time is a nanosecond count. */
  datatype Bucket = Bucket(tokens: real, lastRefill: int)

  /** One Allow call: the clock read under the lock, and the limiter's parameters. With either of them zero, Go
      divides floats by zero. */
  datatype RawRequest = Request(now: int, capacity: int, window: int)
  type Request = r: RawRequest | r.capacity != 0 && r.window != 0 witness RawRequest.Request(0, 1, 1)

  predicate Positive(r: Request) { r.capacity >= 1 && r.window >= 1 }

  function Rate(r: Request): (rate: real)
    ensures rate != 0.0 && (Positive(r) ==> rate > 0.0)
  {
    var c, w := r.capacity as real, r.window as real;
    assert c / w * w == c;
    c / w
  }

  /** Tokens earned since the last refill. Both times come from one process, whose readings never go back. */
  function Gain(from: int, r: Request): (gain: real)
    ensures from <= r.now && Positive(r) ==> gain >= 0.0
  {
    ((r.now - from) as real / 1000000000.0) * Rate(r)
  }

  function Level(s: Option<Bucket>, r: Request): (level: real)
    ensures level <= r.capacity as real
  {
    match s
    case None => r.capacity as real
    case Some(b) => T.Cap(r.capacity, b.tokens + Gain(b.lastRefill, r))
  }

  /** Go truncates the wait to whole seconds and never hints at less than one. */
  function Hint(level: real, r: Request): int {
    Max(1, Trunc((1.0 - level) / Rate(r)))
  }

  function Step(s: Option<Bucket>, r: Request): (Option<Bucket>, Reply) {
    var level := Level(s, r);
    if level >= 1.0 then
      (Some(Bucket(level - 1.0, r.now)), Reply(true, Trunc(level - 1.0), 0, r.capacity))
    else
      (Some(Bucket(level, r.now)), Reply(false, Trunc(level), Hint(level, r), r.capacity))
  }

  class MemoryTokenBucket {
    var buckets: map<string, Bucket>
    const capacity: int
    const window: int

    constructor (capacity: int, window: int)
      ensures this.capacity == capacity && this.window == window && buckets == map[]
    {
      this.capacity := capacity;
      this.window := window;
      buckets := map[];
    }

    /** Runs under the mutex; `now` is the clock read there. */
    method Allow(key: string, now: int) returns (r: Result)
      requires capacity != 0 && window != 0
      modifies this`buckets
      ensures var next := Step(K.Get(old(buckets), key), RawRequest.Request(now, capacity, window));
              buckets == K.Put(old(buckets), key, next.0) && r == Ok(next.1, window)
      ensures r.Ok? && r.reply.limit == capacity && r.resetAfter == window
      ensures if r.reply.allowed then r.reply.retryAfter == 0 else r.reply.retryAfter >= 1
      ensures capacity <= 0 ==> !r.reply.allowed
    {
      ghost var req: Request := RawRequest.Request(now, capacity, window);
      ghost var found := K.Get(buckets, key);
      var bucket := Bucket(capacity as real, now);
      if key in buckets {
        bucket := buckets[key];
      }

      var refillRate := capacity as real / window as real;
      assert refillRate == Rate(req);
      var elapsed := (now - bucket.lastRefill) as real / 1000000000.0;
      bucket := bucket.(tokens := T.Cap(capacity, bucket.tokens + elapsed * refillRate), lastRefill := now);
      assert bucket.tokens == Level(found, req);

      var allowed := bucket.tokens >= 1.0;
      var retryAfter := 0;
      if allowed {
        bucket := bucket.(tokens := bucket.tokens - 1.0);
      } else {
        retryAfter := Trunc((1.0 - bucket.tokens) / refillRate);
        if retryAfter < 1 {
          retryAfter := 1;
        }
      }
      buckets := buckets[key := bucket];
      r := Ok(Reply(allowed, Trunc(bucket.tokens), retryAfter, capacity), window);
    }
  }

  /** With a negative window a bucket only ever drains: a run in order admits at most what was there. */
  lemma {:induction false} NegativeWindowNeverRefills(b: Bucket, reqs: seq<Request>)
    requires Chain(reqs, Follows) && (reqs != [] ==> reqs[0].capacity >= 1 && reqs[0].window < 0)
    requires reqs != [] ==> b.lastRefill <= reqs[0].now
    ensures Admitted(Outputs(Step, Some(b), reqs)) == 0 || Admitted(Outputs(Step, Some(b), reqs)) as real <= b.tokens
    decreases |reqs|
  {
    if reqs != [] {
      var next := Step(Some(b), reqs[0]);
      NeverEarns(b, reqs[0]);
      if |reqs| > 1 {
        assert Follows(reqs[0], reqs[1]);
      }
      forall i | 0 < i < |reqs[1..]| ensures Follows(reqs[1..][i - 1], reqs[1..][i]) {
        assert reqs[1..][i - 1] == reqs[i] && reqs[1..][i] == reqs[i + 1];
      }
      NegativeWindowNeverRefills(next.0.value, reqs[1..]);
    }
  }

  lemma NeverEarns(b: Bucket, r: Request)
    requires r.capacity >= 1 && r.window < 0 && b.lastRefill <= r.now
    ensures Level(Some(b), r) <= b.tokens
  {
    var rate, seconds := Rate(r), (r.now - b.lastRefill) as real / 1000000000.0;
    assert rate * r.window as real == r.capacity as real;
    if rate > 0.0 {
      OppositeSigns(rate, r.window as real);
    }
    OppositeSigns(seconds, rate);
  }

  lemma OppositeSigns(x: real, y: real)
    requires x >= 0.0 && y <= 0.0
    ensures x * y <= 0.0
  {
  }

  // ----- Refinement of the Redis bucket -----

  /** The same reading, in ms, as the Redis limiter with the same parameters would pass to its script. */
  function ToRedis(capacity: int, window: int, ms: int): T.Request
    requires capacity >= 1 && window >= 1
  {
    T.RawRequest.Request(ms, capacity, TokenStore.RateOf(capacity, window))
  }

  function ToMemory(capacity: int, window: int, ms: int): Request
    requires capacity >= 1 && window >= 1
  {
    RawRequest.Request(ms * 1000000, capacity, window)
  }

  /** Both stores hold the same tokens, refilled at the same reading. */
  ghost predicate Matches(m: Option<Bucket>, t: Option<T.Bucket>) {
    m.Some? == t.Some?
    && (m.Some? ==> m.value.tokens == t.value.tokens && m.value.lastRefill == t.value.lastRefill * 1000000)
  }

  /** Same decision, same remaining count and limit; the memory hint is the script's or one second less. */
  predicate Agree(m: Reply, t: Reply) {
    && m.allowed == t.allowed && m.remaining == t.remaining && m.limit == t.limit
    && (!m.allowed ==> m.retryAfter <= t.retryAfter <= m.retryAfter + 1)
  }

  predicate AllAgree(ms: seq<Reply>, ts: seq<Reply>) {
    |ms| == |ts| && (ms == [] || (Agree(ms[0], ts[0]) && AllAgree(ms[1..], ts[1..])))
  }

  lemma SameGain(capacity: int, window: int, fromMs: int, ms: int)
    requires capacity >= 1 && window >= 1 && fromMs <= ms
    ensures Gain(fromMs * 1000000, ToMemory(capacity, window, ms)) == T.Gain(fromMs, ToRedis(capacity, window, ms))
  {
    assert (ms * 1000000 - fromMs * 1000000) as real / 1000000000.0 == T.Forward(fromMs, ms);
    assert Rate(ToMemory(capacity, window, ms)) == ToRedis(capacity, window, ms).rate;
  }

  lemma HintsAgree(level: real, rate: real)
    requires 0.0 <= level < 1.0 && rate > 0.0
    ensures var wait := (1.0 - level) / rate;
            Max(1, Trunc(wait)) <= Ceil(wait) <= Max(1, Trunc(wait)) + 1
  {
    T.DivideByRate(1.0 - level, rate, 0);
  }

  lemma StepsAgree(m: Option<Bucket>, t: Option<T.Bucket>, capacity: int, window: int, ms: int)
    requires capacity >= 1 && window >= 1 && Matches(m, t)
    requires t.Some? ==> t.value.lastRefill <= ms
    ensures Level(m, ToMemory(capacity, window, ms)) == T.Level(t, ToRedis(capacity, window, ms))
    ensures Matches(Step(m, ToMemory(capacity, window, ms)).0, T.Step(t, ToRedis(capacity, window, ms)).0)
    ensures Agree(Step(m, ToMemory(capacity, window, ms)).1, T.Step(t, ToRedis(capacity, window, ms)).1)
  {
    if t.Some? {
      SameGain(capacity, window, t.value.lastRefill, ms);
    }
    var level := T.Level(t, ToRedis(capacity, window, ms));
    if level < 1.0 {
      HintsAgree(level, Rate(ToMemory(capacity, window, ms)));
    }
  }

  function MemoryRun(capacity: int, window: int, readings: seq<int>): (reqs: seq<Request>)
    requires capacity >= 1 && window >= 1
    ensures |reqs| == |readings|
  {
    if readings == [] then []
    else [ToMemory(capacity, window, readings[0])] + MemoryRun(capacity, window, readings[1..])
  }

  function RedisRun(capacity: int, window: int, readings: seq<int>): (reqs: seq<T.Request>)
    requires capacity >= 1 && window >= 1
    ensures |reqs| == |readings|
  {
    if readings == [] then []
    else [ToRedis(capacity, window, readings[0])] + RedisRun(capacity, window, readings[1..])
  }

  ghost predicate Nondecreasing(readings: seq<int>) {
    forall i :: 0 < i < |readings| ==> readings[i - 1] <= readings[i]
  }

  /** Fed the same nondecreasing readings, the two buckets agree at every step of every run. */
  lemma {:induction false} MemoryRefinesRedis(m: Option<Bucket>, t: Option<T.Bucket>, capacity: int, window: int,
                                              readings: seq<int>)
    requires capacity >= 1 && window >= 1 && Matches(m, t) && Nondecreasing(readings)
    requires t.Some? && readings != [] ==> t.value.lastRefill <= readings[0]
    ensures AllAgree(Outputs(Step, m, MemoryRun(capacity, window, readings)),
                     Outputs(T.Step, t, RedisRun(capacity, window, readings)))
    decreases |readings|
  {
    if readings != [] {
      var a, b := ToMemory(capacity, window, readings[0]), ToRedis(capacity, window, readings[0]);
      StepsAgree(m, t, capacity, window, readings[0]);
      MemoryRefinesRedis(Step(m, a).0, T.Step(t, b).0, capacity, window, readings[1..]);
    }
  }

  /** Nondecreasing readings are needed: on a reading that went back, which Go's monotonic clock rules out, the
      memory bucket would lose tokens and the script would not. */
  lemma BackwardClockParts(capacity: int, window: int, b: T.Bucket, ms: int)
    requires capacity >= 1 && window >= 1 && b.tokens <= capacity as real && ms < b.lastRefill
    ensures Level(Some(Bucket(b.tokens, b.lastRefill * 1000000)), ToMemory(capacity, window, ms))
            < T.Level(Some(b), ToRedis(capacity, window, ms))
  {
    var r := ToMemory(capacity, window, ms);
    var back := (ms * 1000000 - b.lastRefill * 1000000) as real / 1000000000.0;
    assert back < 0.0;
    assert Gain(b.lastRefill * 1000000, r) == back * Rate(r) < 0.0;
  }

  // ----- When the memory hint is honest -----

  function Later(r: Request, seconds: nat): Request {
    RawRequest.Request(r.now + 1000000000 * seconds, r.capacity, r.window)
  }

  lemma AdmittedAfter(s: Option<Bucket>, r: Request, k: nat)
    requires !Step(s, r).1.allowed && Positive(r)
    ensures Step(Step(s, r).0, Later(r, k)).1.allowed <==> (1.0 - Level(s, r)) / Rate(r) <= k as real
  {
    GainOf(r, k);
    T.DivideByRate(1.0 - Level(s, r), Rate(r), k);
  }

  lemma GainOf(r: Request, k: nat)
    ensures Gain(r.now, Later(r, k)) == k as real * Rate(r)
  {
    assert (Later(r, k).now - r.now) as real / 1000000000.0 == k as real;
  }

  /** A client that waits for exactly the memory hint is admitted if and only if the exact wait is at most
      a second or a whole number of seconds: truncation breaks every other case. */
  lemma HintHonestIff(s: Option<Bucket>, r: Request)
    requires !Step(s, r).1.allowed && Positive(r)
    ensures Step(s, r).1.retryAfter >= 1
    ensures var wait := (1.0 - Level(s, r)) / Rate(r);
            Step(Step(s, r).0, Later(r, Step(s, r).1.retryAfter)).1.allowed
            <==> wait <= 1.0 || wait.Floor as real == wait
  {
    T.DivideByRate(1.0 - Level(s, r), Rate(r), 0);
    AdmittedAfter(s, r, Step(s, r).1.retryAfter);
  }

  /** Consecutive requests of a steady run: the reading does not go back, the policy stays. */
  ghost predicate Follows(x: Request, y: Request) {
    x.now <= y.now && x.capacity == y.capacity && x.window == y.window
  }

  /** Whether a refused client that waits exactly as told is admitted. */
  ghost predicate Honest(s: Option<Bucket>, r: Request) {
    Step(Step(s, r).0, Later(r, Step(s, r).1.retryAfter)).1.allowed
  }

  /** Every refusal in every run from an empty map, its readings in order, has an honest hint. */
  ghost predicate HintsHonest(capacity: int, window: int) {
    forall reqs: seq<Request>, r: Request ::
      (Chain(reqs + [r], Follows) && r.capacity == capacity && r.window == window
       && !Step(Final(Step, None, reqs), r).1.allowed) ==>
        Honest(Final(Step, None, reqs), r)
  }

  ghost predicate Sound(s: Option<Bucket>, now: int) { s.Some? ==> s.value.tokens >= 0.0 && s.value.lastRefill <= now }

  lemma {:induction false} RunKeepsSound(s: Option<Bucket>, reqs: seq<Request>, r: Request)
    requires Positive(r) && Chain(reqs + [r], Follows) && Sound(s, (reqs + [r])[0].now)
    ensures Sound(Final(Step, s, reqs), r.now)
    decreases |reqs|
  {
    if reqs != [] {
      var run, rest := reqs + [r], reqs[1..] + [r];
      PositiveAlong(run, 0);
      assert run[1..] == rest && Follows(run[0], run[1]);
      forall i | 0 < i < |rest| ensures Follows(rest[i - 1], rest[i]) {
        assert rest[i - 1] == run[i] && rest[i] == run[i + 1];
      }
      RunKeepsSound(Step(s, reqs[0]).0, reqs[1..], r);
    }
  }

  lemma {:induction false} PositiveAlong(run: seq<Request>, i: nat)
    requires i < |run| && Chain(run, Follows) && Positive(run[|run| - 1])
    ensures Positive(run[i])
    decreases |run| - i
  {
    if i + 1 < |run| {
      PositiveAlong(run, i + 1);
      assert Follows(run[i + 1 - 1], run[i + 1]);
    }
  }

  /** A token a second or more: no wait is longer than the second every hint promises. */
  lemma FastRefillIsHonest(capacity: int, window: int)
    requires capacity >= window >= 1
    ensures HintsHonest(capacity, window)
  {
    forall reqs: seq<Request>, r: Request | Chain(reqs + [r], Follows) && r.capacity == capacity && r.window == window
      && !Step(Final(Step, None, reqs), r).1.allowed ensures Honest(Final(Step, None, reqs), r)
    {
      var s := Final(Step, None, reqs);
      RunKeepsSound(None, reqs, r);
      ShortWait(s, r);
      HintHonestIff(s, r);
    }
  }

  lemma Reciprocals(c: real, w: real)
    requires c > 0.0 && w > 0.0
    ensures (c / w) * (w / c) == 1.0
    ensures if c >= w then c / w >= 1.0 else c / w < 1.0 < w / c
  {
    var x, y := c / w, w / c;
    assert x * w == c && y * c == w;
    Inverse(x, y, c, w);
    Compare(x, w);
    Compare(y, c);
  }

  lemma Inverse(x: real, y: real, c: real, w: real)
    requires c > 0.0 && x * w == c && y * c == w
    ensures x * y == 1.0
  {
    var z := x * y;
    assert z * c == x * (y * c);
    assert (z - 1.0) * c == 0.0;
  }

  lemma Compare(x: real, w: real)
    requires w > 0.0
    ensures x * w >= w <==> x >= 1.0
    ensures x * w > w <==> x > 1.0
  {
    assert (x - 1.0) * w == x * w - w;
  }

  lemma NotWhole(q: real)
    requires q > 1.0
    ensures var half := q.Floor as real == q;
            var wait := q - if half then 0.5 else 0.0;
            wait > 1.0 && wait.Floor as real != wait
  {
  }

  lemma ShortWait(s: Option<Bucket>, r: Request)
    requires r.capacity >= r.window >= 1 && Sound(s, r.now)
    ensures (1.0 - Level(s, r)) / Rate(r) <= 1.0
  {
    Reciprocals(r.capacity as real, r.window as real);
    T.DivideByRate(1.0 - Level(s, r), Rate(r), 1);
  }

  function At(now: int, capacity: int, window: int): Request
    requires capacity != 0 && window != 0
  {
    RawRequest.Request(now, capacity, window)
  }

  /** n requests at one reading take n tokens. */
  lemma {:induction false} Drain(s: Option<Bucket>, r: Request, n: nat)
    requires Positive(r) && n <= r.capacity && (s.Some? ==> s.value.lastRefill == r.now && s.value.tokens == n as real)
    requires s.None? ==> n == r.capacity
    ensures n > 0 || s.Some? ==> Final(Step, s, Repeat(r, n)) == Some(Bucket(0.0, r.now))
    decreases n
  {
    if n > 0 {
      assert Repeat(r, n)[1..] == Repeat(r, n - 1);
      assert Level(s, r) == n as real;
      Drain(Step(s, r).0, r, n - 1);
    }
  }

  /** The exact wait of a bucket drained half a second, or no time, ago. */
  lemma WaitAfterDrain(capacity: int, window: int, half: bool)
    requires 1 <= capacity < window
    ensures var r := At(if half then 500000000 else 0, capacity, window);
            var s, ago := Some(Bucket(0.0, 0)), if half then 0.5 else 0.0;
            && Level(s, r) < 1.0
            && (1.0 - Level(s, r)) / Rate(r) == window as real / capacity as real - ago
  {
    var r := At(if half then 500000000 else 0, capacity, window);
    var rate, q, ago := Rate(r), window as real / capacity as real, if half then 0.5 else 0.0;
    Reciprocals(capacity as real, window as real);
    assert Level(Some(Bucket(0.0, 0)), r) == ago * rate;
    QuotientIs(1.0 - ago * rate, rate, q - ago);
  }

  lemma QuotientIs(x: real, rate: real, q: real)
    requires rate > 0.0 && q * rate == x
    ensures x / rate == q
  {
  }

  /** Less than a token a second: a drained bucket gives a dishonest hint at once or half a second later. */
  lemma SlowRefillIsDishonest(capacity: int, window: int)
    requires 1 <= capacity < window
    ensures !HintsHonest(capacity, window)
  {
    var q := window as real / capacity as real;
    var half := q.Floor as real == q;
    var first, r := At(0, capacity, window), At(if half then 500000000 else 0, capacity, window);
    var reqs := Repeat(first, capacity);
    Drain(None, first, capacity);
    WaitAfterDrain(capacity, window, half);
    Reciprocals(capacity as real, window as real);
    NotWhole(q);
    HintHonestIff(Some(Bucket(0.0, 0)), r);
    assert Chain(reqs + [r], Follows);
    assert !Honest(Final(Step, None, reqs), r);
  }

  /** Every hint of every run is honest exactly when the capacity is at least the window in seconds. */
  lemma HintsHonestIff(capacity: int, window: int)
    requires capacity >= 1 && window >= 1
    ensures HintsHonest(capacity, window) <==> capacity >= window
  {
    if capacity >= window {
      FastRefillIsHonest(capacity, window);
    } else {
      SlowRefillIsDishonest(capacity, window);
    }
  }

  /** Two requests per three seconds, both taken at once: the third is told to wait one second, and is refused
      when it does. */
  lemma TruncatedHintMisleads()
    ensures var r := At(0, 2, 3);
            var s := Final(Step, None, [r, r]);
            && !Step(s, r).1.allowed && Step(s, r).1.retryAfter == 1
            && !Step(Step(s, r).0, Later(r, 1)).1.allowed
  {
    var r := At(0, 2, 3);
    assert Repeat(r, 2) == [r, r];
    Drain(None, r, 2);
    WaitAfterDrain(2, 3, false);
    HintHonestIff(Some(Bucket(0.0, 0)), r);
  }

  // ----- Refused requests leave no trace -----

  ghost predicate SameLevel(full: Option<Bucket>, lean: Option<Bucket>, x: Request) {
    && Positive(x) && (full.Some? ==> full.value.lastRefill <= x.now)
    && (full == lean
        || (full.Some? && lean.Some? && lean.value.lastRefill <= full.value.lastRefill
            && full.value.tokens == Level(lean, RawRequest.Request(full.value.lastRefill, x.capacity, x.window))))
  }

  lemma RefillComposes(b: Bucket, mid: int, late: Request)
    requires b.lastRefill <= mid <= late.now && Positive(late)
    ensures var at := RawRequest.Request(mid, late.capacity, late.window);
            Level(Some(Bucket(Level(Some(b), at), mid)), late) == Level(Some(b), late)
  {
    var at := RawRequest.Request(mid, late.capacity, late.window);
    assert Gain(b.lastRefill, at) + Gain(mid, late) == Gain(b.lastRefill, late) by {
      var x, y := (mid - b.lastRefill) as real / 1000000000.0, (late.now - mid) as real / 1000000000.0;
      assert x + y == (late.now - b.lastRefill) as real / 1000000000.0;
      assert Rate(at) == Rate(late);
      assert x * Rate(late) + y * Rate(late) == (x + y) * Rate(late);
    }
  }

  lemma RefillIsTransparent()
    ensures Transparent(Step, SameLevel, Follows)
  {
    forall a, b, x | SameLevel(a, b, x) ensures Level(a, x) == Level(b, x) && Step(a, x) == Step(b, x) {
      if a != b {
        RefillComposes(b.value, a.value.lastRefill, x);
      }
    }
    forall a, b, x, y | SameLevel(a, b, x) && !Step(a, x).1.allowed && Follows(x, y)
      ensures SameLevel(Step(a, x).0, b, y)
    {
      assert Step(a, x) == Step(b, x);
      assert x == RawRequest.Request(x.now, y.capacity, y.window);
    }
  }

  /** Deleting any refused requests from a steady run leaves every other reply unchanged. */
  lemma {:induction false} RefusalsLeaveNoTrace(s: Option<Bucket>, reqs: seq<Request>, keep: seq<bool>)
    requires |reqs| == |keep| && Chain(reqs, Follows) && (reqs != [] ==> Positive(reqs[0]))
    requires s.Some? && reqs != [] ==> s.value.lastRefill <= reqs[0].now
    requires forall i :: 0 <= i < |reqs| && !keep[i] ==> !Outputs(Step, s, reqs)[i].allowed
    ensures Outputs(Step, s, Filter(reqs, keep)) == Filter(Outputs(Step, s, reqs), keep)
  {
    RefillIsTransparent();
    NoTrace(Step, SameLevel, Follows, s, s, reqs, keep);
  }
}
