/** The Redis token bucket: one atomic script step, and what whole runs of it guarantee. */
module TokenBucket {
  import opened Prelude
  import opened Machine

  datatype RawBucket = Bucket(tokens: real, lastRefill: int)

  /** The Redis hash of one client. */
  type Bucket = b: RawBucket | b.tokens >= 0.0 witness RawBucket.Bucket(0.0, 0)

  datatype RawRequest = Request(now: int, capacity: int, rate: real)

  /** One script call: the reading taken in Go (ms), and the policy in force (rate in tokens per second).
      TokenBucket.Allow only calls the script with these signs. */
  type Request = r: RawRequest | r.capacity >= 1 && r.rate > 0.0 witness RawRequest.Request(0, 1, 1.0)

  function Seconds(from: int, to: int): real { (to - from) as real / 1000.0 }

  /** Seconds by which the clock moved forward between two readings in milliseconds. */
  function Forward(from: int, to: int): real { Seconds(0, Max(0, to - from)) }

  function Cap(capacity: int, tokens: real): real {
    if tokens <= capacity as real then tokens else capacity as real
  }

  /** Tokens earned by the clock's movement up to a request. */
  function Gain(from: int, r: Request): (gain: real)
    ensures gain >= 0.0
    ensures r.now <= from ==> gain == 0.0
  {
    Forward(from, r.now) * r.rate
  }

  /** Tokens available to a request, before anything is taken. */
  function Level(s: Option<Bucket>, r: Request): (level: real)
    ensures 0.0 <= level <= r.capacity as real
  {
    match s
    case None => r.capacity as real
    case Some(b) => Cap(r.capacity, b.tokens + Gain(b.lastRefill, r))
  }

  /** Tokens the capacity clamp takes away at a request. */
  function Overflow(b: Bucket, r: Request): (lost: real)
    ensures lost >= 0.0
    ensures Level(Some(b), r) == b.tokens + Gain(b.lastRefill, r) - lost
  {
    b.tokens + Gain(b.lastRefill, r) - Level(Some(b), r)
  }

  /** TokenBucketScript asking for `requested` tokens: the hash it leaves and its reply. */
  function Script(s: Option<Bucket>, r: Request, requested: nat): (Bucket, Reply) {
    var level := Level(s, r);
    if level >= requested as real then
      var left := level - requested as real;
      (RawBucket.Bucket(left, r.now), Reply(true, left.Floor, 0, r.capacity))
    else
      (RawBucket.Bucket(level, r.now),
       Reply(false, level.Floor, Ceil((requested as real - level) / r.rate), r.capacity))
  }

  /** The step TokenBucket.Allow performs: one token, and a key that stays live. */
  function Step(s: Option<Bucket>, r: Request): (Option<Bucket>, Reply) {
    var next := Script(s, r, 1);
    (Some(next.0), next.1)
  }

  /** Every reply carries the capacity it was asked with, and the whole tokens left. An admission asks nobody to wait, a
      refusal for at least a second. */
  lemma ReplyShape(s: Option<Bucket>, r: Request)
    ensures var left, reply := Step(s, r).0.value.tokens, Step(s, r).1;
            && reply.limit == r.capacity && reply.remaining as real <= left < (reply.remaining + 1) as real
            && (reply.allowed ==> reply.retryAfter == 0)
            && (!reply.allowed ==> reply.remaining == 0 && reply.retryAfter >= 1)
  {
    if !Step(s, r).1.allowed {
      RetryAfterExact(s, r, 0);
    }
  }

  /** A call for n tokens is granted exactly when n calls for one at that reading would all be, and leaves the bucket
      and the count they would. */
  lemma {:induction false} BatchIsSingles(s: Option<Bucket>, r: Request, n: nat)
    ensures Script(s, r, n).1.allowed <==> Admitted(Outputs(Step, s, Repeat(r, n))) == n
    ensures n > 0 && Script(s, r, n).1.allowed ==>
              && Some(Script(s, r, n).0) == Final(Step, s, Repeat(r, n))
              && Script(s, r, n).1 == Outputs(Step, s, Repeat(r, n))[n - 1]
    decreases n
  {
    if n > 0 {
      assert Repeat(r, n)[1..] == Repeat(r, n - 1);
      var next := Step(s, r);
      BatchIsSingles(next.0, r, n - 1);
      AtMostAll(Outputs(Step, next.0, Repeat(r, n - 1)));
      if n == 1 {
        assert Repeat(r, 0) == [];
      }
    }
  }

  lemma {:induction false} AtMostAll(replies: seq<Reply>)
    ensures Admitted(replies) <= |replies|
  {
    if replies != [] {
      AtMostAll(replies[1..]);
    }
  }

  // ----- Conservation and rate bounds, for arbitrary readings and changing policies -----

  /** Tokens earned by all forward clock movement of a run, at the rate in force at each request. */
  function Earned(last: int, reqs: seq<Request>): real
    decreases |reqs|
  {
    if reqs == [] then 0.0
    else Gain(last, reqs[0]) + Earned(reqs[0].now, reqs[1..])
  }

  /** Tokens lost to the capacity clamp over a run. */
  function Spilled(b: Bucket, reqs: seq<Request>): (lost: real)
    ensures lost >= 0.0
    decreases |reqs|
  {
    if reqs == [] then 0.0
    else Overflow(b, reqs[0]) + Spilled(Script(Some(b), reqs[0], 1).0, reqs[1..])
  }

  lemma StepAccounts(b: Bucket, r: Request)
    ensures (if Step(Some(b), r).1.allowed then 1.0 else 0.0) + Step(Some(b), r).0.value.tokens + Overflow(b, r)
         == b.tokens + Gain(b.lastRefill, r)
    ensures Step(Some(b), r).0.value.lastRefill == r.now
  {
  }

  lemma {:induction false} Conservation(b: Bucket, reqs: seq<Request>)
    ensures Final(Step, Some(b), reqs).Some?
    ensures Admitted(Outputs(Step, Some(b), reqs)) as real
         + Final(Step, Some(b), reqs).value.tokens
         + Spilled(b, reqs)
         == b.tokens + Earned(b.lastRefill, reqs)
    decreases |reqs|
  {
    if reqs != [] {
      StepAccounts(b, reqs[0]);
      Conservation(Script(Some(b), reqs[0], 1).0, reqs[1..]);
    }
  }

  /** Every contiguous segment admits at most the capacity in force at its first request plus what is
      earned by forward clock movement inside it. Policies may change at every request. */
  lemma {:induction false} SegmentBound(s: Option<Bucket>, reqs: seq<Request>, i: nat, j: nat)
    requires i < j <= |reqs|
    ensures Admitted(Outputs(Step, s, reqs)[i..j]) as real
         <= reqs[i].capacity as real + Earned(reqs[i].now, reqs[i + 1..j])
  {
    RunSlice(Step, s, reqs, i, j);
    var at := Final(Step, s, reqs[..i]);
    var seg := reqs[i..j];
    assert seg[1..] == reqs[i + 1..j];
    var first := Step(at, seg[0]);
    Conservation(first.0.value, seg[1..]);
  }

  /** As long as the key stays live, changing capacity and window between requests grants no fresh burst: the
      whole run admits at most the first capacity plus what is earned, and no state holds more than the capacity
      in force when it was written. TokenStore.EditsUnobservableIff says which edits keep the key live long enough. */
  lemma {:induction false} PolicyEditsGrantNoBurst(s: Option<Bucket>, reqs: seq<Request>, k: nat)
    requires k < |reqs|
    ensures Admitted(Outputs(Step, s, reqs)) as real <= reqs[0].capacity as real + Earned(reqs[0].now, reqs[1..])
    ensures Final(Step, s, reqs[..k + 1]).Some?
    ensures Final(Step, s, reqs[..k + 1]).value.tokens <= reqs[k].capacity as real
  {
    SegmentBound(s, reqs, 0, |reqs|);
    assert Outputs(Step, s, reqs)[0..|reqs|] == Outputs(Step, s, reqs);
    assert reqs[1..|reqs|] == reqs[1..];
    RunAt(Step, s, reqs, k);
  }

  ghost predicate Nondecreasing(reqs: seq<Request>) {
    forall i, j :: 0 <= i <= j < |reqs| ==> reqs[i].now <= reqs[j].now
  }

  ghost predicate FixedPolicy(reqs: seq<Request>, capacity: int, rate: real) {
    forall i :: 0 <= i < |reqs| ==> reqs[i].capacity == capacity && reqs[i].rate == rate
  }

  lemma {:induction false} EarnedIsElapsed(last: int, reqs: seq<Request>, capacity: int, rate: real)
    requires Nondecreasing(reqs) && FixedPolicy(reqs, capacity, rate)
    requires reqs != [] ==> last <= reqs[0].now
    ensures Earned(last, reqs) == if reqs == [] then 0.0 else Gain(last, reqs[|reqs| - 1])
    decreases |reqs|
  {
    if |reqs| > 1 {
      EarnedIsElapsed(reqs[0].now, reqs[1..], capacity, rate);
      Additive(last, reqs[0].now, reqs[|reqs| - 1].now, rate);
    }
  }

  lemma Additive(a: int, b: int, c: int, rate: real)
    requires a <= b <= c
    ensures Forward(a, b) * rate + Forward(b, c) * rate == Forward(a, c) * rate
  {
    assert Forward(a, b) + Forward(b, c) == Forward(a, c);
  }

  /** Under one policy and nondecreasing readings every segment admits at most the capacity plus what is earned
      between its first and last reading. */
  lemma {:induction false} RateBound(s: Option<Bucket>, reqs: seq<Request>, capacity: int, rate: real, i: nat, j: nat)
    requires i <= j < |reqs|
    requires Nondecreasing(reqs) && FixedPolicy(reqs, capacity, rate)
    ensures Admitted(Outputs(Step, s, reqs)[i..j + 1]) as real <= capacity as real + Gain(reqs[i].now, reqs[j])
  {
    SegmentBound(s, reqs, i, j + 1);
    EarnedInSpan(reqs, capacity, rate, i, j);
  }

  lemma EarnedInSpan(reqs: seq<Request>, capacity: int, rate: real, i: nat, j: nat)
    requires i <= j < |reqs|
    requires Nondecreasing(reqs) && FixedPolicy(reqs, capacity, rate)
    ensures Earned(reqs[i].now, reqs[i + 1..j + 1]) == Gain(reqs[i].now, reqs[j])
  {
    if i < j {
      var rest := reqs[i + 1..j + 1];
      SliceOrder(reqs, i + 1, j + 1);
      EarnedIsElapsed(reqs[i].now, rest, capacity, rate);
      assert rest[|rest| - 1] == reqs[j];
    }
  }

  lemma SliceOrder(reqs: seq<Request>, i: nat, j: nat)
    requires i <= j <= |reqs| && Nondecreasing(reqs)
    ensures Nondecreasing(reqs[i..j])
    ensures i < j ==> forall k :: 0 <= k < i ==> reqs[k].now <= reqs[i..j][0].now
  {
  }

  // ----- Net elapsed time bounds in-order runs only -----

  /** Readings that alternate between `low` and `low + step`, `n` times each. */
  function Alternating(low: int, step: nat, capacity: int, rate: real, n: nat): (reqs: seq<Request>)
    requires capacity >= 1 && rate > 0.0
    ensures |reqs| == 2 * n
  {
    if n == 0 then []
    else
      [RawRequest.Request(low, capacity, rate), RawRequest.Request(low + step, capacity, rate)]
      + Alternating(low, step, capacity, rate, n - 1)
  }

  lemma {:induction false} AlternatingShape(low: int, step: nat, capacity: int, rate: real, n: nat)
    requires capacity >= 1 && rate > 0.0
    ensures var reqs := Alternating(low, step, capacity, rate, n);
            && FixedPolicy(reqs, capacity, rate) && Lagging(reqs, step)
            && (n > 0 ==> reqs[0].now == low && reqs[2 * n - 1].now == low + step)
            && forall i :: 0 <= i < |reqs| ==> low <= reqs[i].now <= low + step
  {
    if n > 0 {
      AlternatingShape(low, step, capacity, rate, n - 1);
    }
  }

  lemma {:induction false} AlternatingSplits(low: int, step: nat, capacity: int, rate: real, m: nat, n: nat)
    requires capacity >= 1 && rate > 0.0
    ensures Alternating(low, step, capacity, rate, m + n)
         == Alternating(low, step, capacity, rate, m) + Alternating(low, step, capacity, rate, n)
    decreases m
  {
    if m > 0 {
      AlternatingSplits(low, step, capacity, rate, m - 1, n);
    } else {
      assert Alternating(low, step, capacity, rate, 0) == [];
    }
  }

  /** What one pair earns. */
  function PairGain(step: nat, rate: real): real { Forward(0, step) * rate }

  /** A pair of alternating requests admits one, or leaves what it earned. */
  lemma PairEarns(s: Option<Bucket>, low: int, step: nat, capacity: int, rate: real)
    requires capacity >= 1 && rate > 0.0
    ensures var x := RawRequest.Request(low, capacity, rate);
            var y := RawRequest.Request(low + step, capacity, rate);
            var one := Step(s, x);
            var two := Step(one.0, y);
            one.1.allowed || two.1.allowed
            || (s.Some? && two.0.value.tokens >= s.value.tokens + PairGain(step, rate) && two.0.value.tokens < 1.0)
  {
    assert Forward(low, low + step) == Forward(0, step);
  }

  /** m pairs that earn a token between them admit a request, from any state. */
  lemma {:induction false} BlockAdmits(s: Option<Bucket>, low: int, step: nat, capacity: int, rate: real, m: nat,
                                       owed: real)
    requires capacity >= 1 && rate > 0.0 && Pairs(m, step, rate) >= owed
    requires m > 0 && (s.Some? ==> s.value.tokens >= 1.0 - owed)
    ensures Admitted(Outputs(Step, s, Alternating(low, step, capacity, rate, m))) >= 1
    decreases m
  {
    var reqs := Alternating(low, step, capacity, rate, m);
    var one := Step(s, reqs[0]);
    var two := Step(one.0, reqs[1]);
    PairEarns(s, low, step, capacity, rate);
    assert reqs[1..][1..] == Alternating(low, step, capacity, rate, m - 1);
    if !one.1.allowed && !two.1.allowed {
      assert m > 1;
      BlockAdmits(two.0, low, step, capacity, rate, m - 1, owed - PairGain(step, rate));
    }
  }

  /** What m pairs earn. */
  function Pairs(m: nat, step: nat, rate: real): real
  {
    if m == 0 then 0.0 else Pairs(m - 1, step, rate) + PairGain(step, rate)
  }

  lemma {:induction false} PairsAreProduct(m: nat, step: nat, rate: real)
    ensures Pairs(m, step, rate) == m as real * PairGain(step, rate)
  {
    if m > 0 {
      PairsAreProduct(m - 1, step, rate);
    }
  }

  /** Some number of pairs earns a token, however little the clock moves. */
  lemma EnoughPairs(step: nat, rate: real) returns (m: nat)
    requires step >= 1 && rate > 0.0
    ensures m > 0 && Pairs(m, step, rate) >= 1.0
  {
    var gain := PairGain(step, rate);
    assert gain > 0.0;
    m := Ceil(1.0 / gain);
    assert 1.0 / gain > 0.0;
    assert m as real * gain >= (1.0 / gain) * gain;
    PairsAreProduct(m, step, rate);
  }

  lemma {:induction false} AdmittedInParts(s: Option<Bucket>, xs: seq<Request>, ys: seq<Request>)
    ensures Admitted(Outputs(Step, s, xs + ys))
            == Admitted(Outputs(Step, s, xs)) + Admitted(Outputs(Step, Final(Step, s, xs), ys))
  {
    RunAppend(Step, s, xs, ys);
    AdmittedAppend(Outputs(Step, s, xs), Outputs(Step, Final(Step, s, xs), ys));
  }

  ghost predicate AlwaysAdmits(block: seq<Request>) { forall s :: Admitted(Outputs(Step, s, block)) >= 1 }

  function Repeated(block: seq<Request>, n: nat): seq<Request> { if n == 0 then [] else block + Repeated(block, n - 1) }

  lemma {:induction false} RepeatedAdmits(s: Option<Bucket>, block: seq<Request>, n: nat)
    requires AlwaysAdmits(block)
    ensures Admitted(Outputs(Step, s, Repeated(block, n))) >= n
    decreases n
  {
    if n > 0 {
      RepeatedAdmits(Final(Step, s, block), block, n - 1);
      AdmittedInParts(s, block, Repeated(block, n - 1));
    }
  }

  /** n blocks of m pairs. */
  function Blocks(m: nat, n: nat): nat { if n == 0 then 0 else m + Blocks(m, n - 1) }

  lemma {:induction false} BlocksRepeat(low: int, step: nat, capacity: int, rate: real, m: nat, n: nat)
    requires capacity >= 1 && rate > 0.0
    ensures Alternating(low, step, capacity, rate, Blocks(m, n))
            == Repeated(Alternating(low, step, capacity, rate, m), n)
    decreases n
  {
    if n > 0 {
      BlocksRepeat(low, step, capacity, rate, m, n - 1);
      AlternatingSplits(low, step, capacity, rate, m, Blocks(m, n - 1));
    }
  }

  /** Forward movement cannot be replaced by net elapsed time: alternating two readings, however close, admits n
      requests for every n once enough pairs have passed, while the clock never leaves [low, low + step]. */
  lemma AlternationDefeatsNetElapsed(s: Option<Bucket>, low: int, step: nat, capacity: int, rate: real, n: nat)
      returns (pairs: nat)
    requires capacity >= 1 && rate > 0.0 && step >= 1
    ensures pairs >= n && Admitted(Outputs(Step, s, Alternating(low, step, capacity, rate, pairs))) >= n
  {
    var m := EnoughPairs(step, rate);
    var block := Alternating(low, step, capacity, rate, m);
    forall s ensures Admitted(Outputs(Step, s, block)) >= 1 {
      BlockAdmits(s, low, step, capacity, rate, m, 1.0);
    }
    pairs := Blocks(m, n);
    BlocksAreMany(m, n);
    BlocksRepeat(low, step, capacity, rate, m, n);
    RepeatedAdmits(s, block, n);
  }

  lemma {:induction false} BlocksAreMany(m: nat, n: nat)
    requires m > 0
    ensures Blocks(m, n) >= n
  {
    if n > 0 {
      BlocksAreMany(m, n - 1);
    }
  }

  /** No reading lags a reading of an earlier request by more than `lag` ms. */
  ghost predicate Lagging(reqs: seq<Request>, lag: nat) {
    forall i, j :: 0 <= i <= j < |reqs| ==> reqs[i].now - lag <= reqs[j].now
  }

  /** Every segment of every one-policy run from an empty store, its readings lagging by at most `lag`, admits at most
      the capacity plus what is earned from its first reading to its last. */
  ghost predicate ElapsedBounds(capacity: int, rate: real, lag: nat) {
    forall reqs: seq<Request>, i: nat, j: nat ::
      (FixedPolicy(reqs, capacity, rate) && Lagging(reqs, lag) && i <= j < |reqs|) ==>
        Admitted(Outputs(Step, None, reqs)[i..j + 1]) as real <= capacity as real + Gain(reqs[i].now, reqs[j])
  }

  lemma LagBreaksBound(capacity: int, rate: real, lag: nat)
    requires capacity >= 1 && rate > 0.0 && lag >= 1
    ensures !ElapsedBounds(capacity, rate, lag)
  {
    var n := capacity + Ceil(PairGain(1, rate)) + 1;
    var pairs := AlternationDefeatsNetElapsed(None, 0, 1, capacity, rate, n);
    var reqs := Alternating(0, 1, capacity, rate, pairs);
    AlternatingShape(0, 1, capacity, rate, pairs);
    BreaksBound(capacity, rate, lag, reqs, n);
  }

  lemma {:induction false} BreaksBound(capacity: int, rate: real, lag: nat, reqs: seq<Request>, n: nat)
    requires FixedPolicy(reqs, capacity, rate) && Lagging(reqs, 1) && lag >= 1
    requires reqs != [] && reqs[0].now == 0 && reqs[|reqs| - 1].now == 1
    requires Admitted(Outputs(Step, None, reqs)) >= n && n as real > capacity as real + PairGain(1, rate)
    ensures !ElapsedBounds(capacity, rate, lag)
  {
    var last := |reqs| - 1;
    assert Outputs(Step, None, reqs)[0..last + 1] == Outputs(Step, None, reqs);
    assert Gain(reqs[0].now, reqs[last]) == PairGain(1, rate);
  }

  /** Elapsed time bounds every segment of every run exactly when no reading ever goes back. */
  lemma ElapsedBoundsIff(capacity: int, rate: real, lag: nat)
    requires capacity >= 1 && rate > 0.0
    ensures ElapsedBounds(capacity, rate, lag) <==> lag == 0
  {
    if lag == 0 {
      forall reqs: seq<Request>, i: nat, j: nat | FixedPolicy(reqs, capacity, rate) && Lagging(reqs, lag)
        && i <= j < |reqs|
        ensures Admitted(Outputs(Step, None, reqs)[i..j + 1]) as real <= capacity as real + Gain(reqs[i].now, reqs[j])
      {
        RateBound(None, reqs, capacity, rate, i, j);
      }
    } else {
      LagBreaksBound(capacity, rate, lag);
    }
  }

  // ----- Greedy optimality -----

  /** A rival admits `choice` and keeps its own bucket, refilled by the same formula, nonnegative. */
  ghost predicate Affordable(s: Option<Bucket>, reqs: seq<Request>, choice: seq<bool>)
    requires |reqs| == |choice|
    decreases |reqs|
  {
    reqs == [] ||
    var level := Level(s, reqs[0]);
    && (choice[0] ==> level >= 1.0)
    && Affordable(Some(RawBucket.Bucket(if choice[0] then level - 1.0 else level, reqs[0].now)), reqs[1..], choice[1..])
  }

  /** With `lead` admissions in hand, and at least the rival's tokens once the lead is counted in,
      the script stays ahead. */
  lemma {:induction false} GreedyStaysAhead(s: Option<Bucket>, rival: Option<Bucket>, lead: nat, reqs: seq<Request>,
                                            choice: seq<bool>)
    requires |reqs| == |choice| && Affordable(rival, reqs, choice)
    requires (s.Some? && rival.Some? && s.value.lastRefill == rival.value.lastRefill) || s == rival
    requires s.Some? && rival.Some? ==> s.value.tokens + lead as real >= rival.value.tokens
    ensures CountTrue(choice) <= lead + Admitted(Outputs(Step, s, reqs))
    decreases |reqs|
  {
    if reqs != [] {
      var r := reqs[0];
      var mine, theirs := Level(s, r), Level(rival, r);
      assert mine + lead as real >= theirs;
      var next := Step(s, r);
      var rivalNext := Some(RawBucket.Bucket(if choice[0] then theirs - 1.0 else theirs, r.now));
      var lead' := lead + (if next.1.allowed then 1 else 0) - (if choice[0] then 1 else 0);
      GreedyStaysAhead(next.0, rivalNext, lead', reqs[1..], choice[1..]);
    }
  }

  lemma {:induction false} AffordablePrefix(s: Option<Bucket>, reqs: seq<Request>, choice: seq<bool>, k: nat)
    requires |reqs| == |choice| && k <= |reqs| && Affordable(s, reqs, choice)
    ensures Affordable(s, reqs[..k], choice[..k])
    decreases |reqs|
  {
    if k > 0 {
      var level := Level(s, reqs[0]);
      var next := Some(RawBucket.Bucket(if choice[0] then level - 1.0 else level, reqs[0].now));
      AffordablePrefix(next, reqs[1..], choice[1..], k - 1);
      assert reqs[..k][1..] == reqs[1..][..k - 1];
      assert choice[..k][1..] == choice[1..][..k - 1];
    }
  }

  /** For any readings and policies, no affordable choice admits more than the script in any prefix. */
  lemma {:induction false} GreedyOptimal(s: Option<Bucket>, reqs: seq<Request>, choice: seq<bool>, k: nat)
    requires |reqs| == |choice| && k <= |reqs| && Affordable(s, reqs, choice)
    ensures CountTrue(choice[..k]) <= Admitted(Outputs(Step, s, reqs)[..k])
  {
    AffordablePrefix(s, reqs, choice, k);
    GreedyStaysAhead(s, s, 0, reqs[..k], choice[..k]);
    RunPrefix(Step, s, reqs, k);
  }

  /** The script's own decisions are one of the affordable choices, so the bound is attained. */
  lemma {:induction false} GreedyAffordable(s: Option<Bucket>, reqs: seq<Request>)
    ensures Affordable(s, reqs, Decisions(Outputs(Step, s, reqs)))
    decreases |reqs|
  {
    if reqs != [] {
      GreedyAffordable(Step(s, reqs[0]).0, reqs[1..]);
    }
  }

  // ----- Refused requests leave no trace -----

  lemma RefillComposes(b: Bucket, mid: Request, late: Request)
    requires b.lastRefill <= mid.now <= late.now
    requires mid.capacity == late.capacity && mid.rate == late.rate
    ensures Level(Some(RawBucket.Bucket(Level(Some(b), mid), mid.now)), late) == Level(Some(b), late)
  {
    Additive(b.lastRefill, mid.now, late.now, late.rate);
  }

  /** Consecutive requests of a steady run: the reading does not go back, the policy stays. */
  ghost predicate Follows(x: Request, y: Request) {
    x.now <= y.now && x.capacity == y.capacity && x.rate == y.rate
  }

  /** From request x on, `full` and `lean` owe the same level: `full` is `lean` refilled up to a later reading. */
  ghost predicate SameLevel(full: Option<Bucket>, lean: Option<Bucket>, x: Request) {
    && (full.Some? ==> full.value.lastRefill <= x.now)
    && (full == lean
        || (full.Some? && lean.Some? && lean.value.lastRefill <= full.value.lastRefill
            && full.value.tokens == Level(lean, RawRequest.Request(full.value.lastRefill, x.capacity, x.rate))))
  }

  lemma SameLevelSteps(full: Option<Bucket>, lean: Option<Bucket>, x: Request)
    requires SameLevel(full, lean, x)
    ensures Level(full, x) == Level(lean, x)
    ensures Step(full, x) == Step(lean, x)
  {
    if full != lean {
      RefillComposes(lean.value, RawRequest.Request(full.value.lastRefill, x.capacity, x.rate), x);
    }
  }

  lemma RefusalKeepsLevel(full: Option<Bucket>, lean: Option<Bucket>, x: Request, y: Request)
    requires SameLevel(full, lean, x) && !Step(full, x).1.allowed && Follows(x, y)
    ensures SameLevel(Step(full, x).0, lean, y)
  {
    SameLevelSteps(full, lean, x);
    assert x == RawRequest.Request(x.now, y.capacity, y.rate);
  }

  lemma RefillIsTransparent()
    ensures Transparent(Step, SameLevel, Follows)
  {
    forall a, b, x | SameLevel(a, b, x) ensures Step(a, x) == Step(b, x) {
      SameLevelSteps(a, b, x);
    }
    forall a, b, x, y | SameLevel(a, b, x) && !Step(a, x).1.allowed && Follows(x, y)
      ensures SameLevel(Step(a, x).0, b, y)
    {
      RefusalKeepsLevel(a, b, x, y);
    }
  }

  /** Deleting any refused requests from a steady run leaves every other reply unchanged. */
  lemma {:induction false} RefusalsLeaveNoTrace(s: Option<Bucket>, reqs: seq<Request>, keep: seq<bool>)
    requires |reqs| == |keep| && Chain(reqs, Follows)
    requires s.Some? && reqs != [] ==> s.value.lastRefill <= reqs[0].now
    requires forall i :: 0 <= i < |reqs| && !keep[i] ==> !Outputs(Step, s, reqs)[i].allowed
    ensures Outputs(Step, s, Filter(reqs, keep)) == Filter(Outputs(Step, s, reqs), keep)
  {
    RefillIsTransparent();
    NoTrace(Step, SameLevel, Follows, s, s, reqs, keep);
  }

  // ----- Honest Retry-After and Remaining -----

  lemma CeilLeast(x: real, k: int)
    ensures Ceil(x) <= k <==> x <= k as real
  {
  }

  /** Dividing by a positive rate preserves comparisons. */
  lemma DivideByRate(missing: real, rate: real, k: int)
    requires rate > 0.0
    ensures missing / rate <= k as real <==> missing <= k as real * rate
  {
    var q := missing / rate;
    assert q * rate == missing;
    if q <= k as real {
      assert q * rate <= k as real * rate;
    } else {
      assert q * rate > k as real * rate;
    }
  }

  function Later(r: Request, seconds: nat): Request {
    RawRequest.Request(r.now + 1000 * seconds, r.capacity, r.rate)
  }

  /** A call for n tokens that was refused, and returns k whole seconds later, is granted exactly when k is at least its
      Retry-After; n is at most the capacity. */
  lemma BatchRetryExact(s: Option<Bucket>, r: Request, n: nat, k: nat)
    requires n <= r.capacity && !Script(s, r, n).1.allowed
    ensures Script(s, r, n).1.retryAfter >= 1
    ensures Script(Some(Script(s, r, n).0), Later(r, k), n).1.allowed <==> k >= Script(s, r, n).1.retryAfter
  {
    var level := Level(s, r);
    RefusedBatch(s, r, n);
    GrantedWith(Script(s, r, n).0, Later(r, k), n);
    LaterLevel(level, r, n, k);
    WaitThreshold(n as real - level, r.rate, k);
  }

  lemma RefusedBatch(s: Option<Bucket>, r: Request, n: nat)
    requires !Script(s, r, n).1.allowed
    ensures Level(s, r) < n as real && Script(s, r, n).0 == RawBucket.Bucket(Level(s, r), r.now)
    ensures Script(s, r, n).1.retryAfter == Ceil((n as real - Level(s, r)) / r.rate)
  {
  }

  lemma GrantedWith(b: Bucket, r: Request, n: nat)
    ensures Script(Some(b), r, n).1.allowed <==> Level(Some(b), r) >= n as real
  {
  }

  lemma LaterLevel(level: real, r: Request, n: nat, k: nat)
    requires level >= 0.0 && n <= r.capacity
    ensures Level(Some(RawBucket.Bucket(level, r.now)), Later(r, k)) >= n as real
            <==> n as real - level <= k as real * r.rate
  {
    assert Forward(r.now, Later(r, k).now) == k as real;
  }

  lemma WaitThreshold(missing: real, rate: real, k: int)
    requires missing > 0.0 && rate > 0.0
    ensures Ceil(missing / rate) >= 1
    ensures k >= Ceil(missing / rate) <==> missing <= k as real * rate
  {
    DivideByRate(missing, rate, k);
    DivideByRate(missing, rate, 0);
    CeilLeast(missing / rate, k);
    CeilLeast(missing / rate, 0);
  }

  /** A refused client that returns k whole seconds later is admitted exactly when k >= Retry-After. */
  lemma RetryAfterExact(s: Option<Bucket>, r: Request, k: nat)
    requires !Step(s, r).1.allowed
    ensures Step(s, r).1.retryAfter >= 1
    ensures Step(Step(s, r).0, Later(r, k)).1.allowed <==> k >= Step(s, r).1.retryAfter
  {
    BatchRetryExact(s, r, 1, k);
  }

  /** The same with any refused requests of the client in between. */
  lemma {:induction false} RetryAfterExactAmongRefusals(s: Option<Bucket>, r: Request, between: seq<Request>, k: nat)
    requires !Step(s, r).1.allowed
    requires Chain(between + [Later(r, k)], Follows) && Follows(r, (between + [Later(r, k)])[0])
    requires forall i :: 0 <= i < |between| ==> !Outputs(Step, Step(s, r).0, between)[i].allowed
    ensures Step(Final(Step, Step(s, r).0, between), Later(r, k)).1.allowed <==> k >= Step(s, r).1.retryAfter
  {
    RefillIsTransparent();
    AllRefused(Step, SameLevel, Follows, Step(s, r).0, Step(s, r).0, between, Later(r, k));
    RetryAfterExact(s, r, k);
  }

  /** With at least |reqs| tokens every one of the requests is admitted, at any readings. */
  lemma {:induction false} EnoughTokens(s: Option<Bucket>, reqs: seq<Request>, capacity: int, rate: real)
    requires FixedPolicy(reqs, capacity, rate)
    requires s.Some? && |reqs| as real <= s.value.tokens <= capacity as real
    ensures forall i :: 0 <= i < |reqs| ==> Outputs(Step, s, reqs)[i].allowed
    decreases |reqs|
  {
    if reqs != [] {
      EnoughTokens(Step(s, reqs[0]).0, reqs[1..], capacity, rate);
    }
  }

  lemma {:induction false} DrainAtOneReading(s: Option<Bucket>, r: Request, n: nat)
    requires s.Some? && s.value.lastRefill == r.now && s.value.tokens <= r.capacity as real
    requires s.value.tokens.Floor == n
    ensures Admitted(Outputs(Step, s, Repeat(r, n + 1))) == n
    ensures !Outputs(Step, s, Repeat(r, n + 1))[n].allowed
    decreases n
  {
    var reqs := Repeat(r, n + 1);
    assert reqs[1..] == Repeat(r, n);
    if n > 0 {
      DrainAtOneReading(Step(s, r).0, r, n - 1);
    }
  }

  /** Remaining = n promises exactly n: the next n requests are admitted at any readings, and at the
      same reading the one after them is refused. */
  lemma RemainingIsAPromise(s: Option<Bucket>, r: Request, reqs: seq<Request>)
    requires FixedPolicy(reqs, r.capacity, r.rate)
    requires |reqs| <= Step(s, r).1.remaining
    ensures 0 <= Step(s, r).1.remaining
    ensures forall i :: 0 <= i < |reqs| ==> Outputs(Step, Step(s, r).0, reqs)[i].allowed
    ensures var n := Step(s, r).1.remaining;
            && Admitted(Outputs(Step, Step(s, r).0, Repeat(r, n + 1))) == n
            && !Outputs(Step, Step(s, r).0, Repeat(r, n + 1))[n].allowed
  {
    var n := Step(s, r).1.remaining;
    EnoughTokens(Step(s, r).0, reqs, r.capacity, r.rate);
    DrainAtOneReading(Step(s, r).0, r, n);
  }
}
