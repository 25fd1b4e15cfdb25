/** What the factory race means for clients: nothing with Redis, at most one extra bucket per racing caller in
    memory. */
module Backends {
  import opened Prelude
  import opened Factory
  import opened FactoryRace
  import MB = MemoryBucket
  import M = Machine
  import K = Keyed

  // ----- Redis: limiters hold parameters only -----

  /** A step of the factory, or a finished caller using the limiter it was given. */
  datatype Event<I> = Act(a: Action) | Serve(c: nat, input: I)

  /** FromPolicy as if it held the lock throughout. */
  function AtomicStep(key: Policy -> string, s: State, a: Action): State {
    if !a.Lookup? || a.c in s.asked then s
    else if key(a.policy) in s.cache then Step(key, s, a)
    else
      s.(asked := s.asked[a.c := a.policy], missed := s.missed[a.c := a.policy], made := s.made[a.c := a.policy],
         cache := s.cache[key(a.policy) := a.c], got := s.got[a.c := a.c])
  }

  /** Replies of a run over shared Redis state `r`, where `serve` is any limiter's step: it sees the
      parameters of the limiter object, never the object. */
  function Replies<R, I, O>(factory: (State, Action) -> State, serve: (R, Built, I) -> (R, O), s: State, r: R,
                            events: seq<Event<I>>): seq<O>
    decreases |events|
  {
    if events == [] then []
    else
      match events[0]
      case Act(a) => Replies(factory, serve, factory(s, a), r, events[1..])
      case Serve(c, input) =>
        if c in s.got && s.got[c] in s.made then
          var next := serve(r, Build(s.made[s.got[c]], false), input);
          [next.1] + Replies(factory, serve, s, next.0, events[1..])
        else Replies(factory, serve, s, r, events[1..])
  }

  function Racing(key: Policy -> string): (State, Action) -> State { (s: State, a: Action) => Step(key, s, a) }

  function Atomic(key: Policy -> string): (State, Action) -> State { (s: State, a: Action) => AtomicStep(key, s, a) }

  /** A caller serves requests only after its FromPolicy has returned. */
  ghost predicate Ready<I>(key: Policy -> string, s: State, events: seq<Event<I>>)
    decreases |events|
  {
    events == [] ||
    match events[0]
    case Act(a) => Ready(key, Step(key, s, a), events[1..])
    case Serve(c, _) => c in s.got && Ready(key, s, events[1..])
  }

  /** The racing factory and the atomic one have been asked the same, and the atomic one has answered all. */
  ghost predicate Together(s: State, t: State, key: Policy -> string) {
    Consistent(s, key) && Consistent(t, key) && s.asked == t.asked && forall c :: c in t.asked ==> c in t.got
  }

  lemma AtomicKeepsConsistent(key: Policy -> string, t: State, a: Action)
    requires Consistent(t, key)
    ensures Consistent(AtomicStep(key, t, a), key)
  {
    StepKeepsConsistent(key, t, a);
  }

  lemma SameQuestions(key: Policy -> string, s: State, t: State, a: Action)
    requires s.asked == t.asked
    ensures Step(key, s, a).asked == AtomicStep(key, t, a).asked
  {
    if a.Lookup? {
      assert Step(key, s, a).asked == if a.c in s.asked then s.asked else s.asked[a.c := a.policy];
    }
  }

  lemma AllAnswered(key: Policy -> string, t: State, a: Action)
    requires forall c :: c in t.asked ==> c in t.got
    ensures forall c :: c in AtomicStep(key, t, a).asked ==> c in AtomicStep(key, t, a).got
  {
  }

  lemma AtomicKeepsTogether(key: Policy -> string, s: State, t: State, a: Action)
    requires Together(s, t, key)
    ensures Together(Step(key, s, a), AtomicStep(key, t, a), key)
  {
    StepKeepsConsistent(key, s, a);
    AtomicKeepsConsistent(key, t, a);
    SameQuestions(key, s, t, a);
    AllAnswered(key, t, a);
  }

  /** With Redis every interleaving of the race gives the replies of an atomic get-or-create. */
  lemma {:induction false} RedisHidesTheRace<R, I, O>(key: Policy -> string, serve: (R, Built, I) -> (R, O), s: State,
                                                      t: State, r: R, events: seq<Event<I>>)
    requires Together(s, t, key) && Ready(key, s, events)
    ensures Replies(Racing(key), serve, s, r, events) == Replies(Atomic(key), serve, t, r, events)
    decreases |events|
  {
    if events != [] {
      match events[0]
      case Act(a) =>
        AtomicKeepsTogether(key, s, t, a);
        RedisHidesTheRace(key, serve, Step(key, s, a), AtomicStep(key, t, a), r, events[1..]);
      case Serve(c, input) =>
        var next := serve(r, Build(s.made[s.got[c]], false), input);
        RedisHidesTheRace(key, serve, s, t, next.0, events[1..]);
    }
  }

  /** A caller of FromPolicy that runs alone does what the atomic factory does. */
  lemma {:induction false} AloneIsAtomic(key: Policy -> string, s: State, c: nat, p: Policy)
    requires Consistent(s, key) && c !in s.asked
    ensures Run(key, s, [Lookup(c, p), Construct(c), Insert(c)]) == AtomicStep(key, s, Lookup(c, p))
  {
    assert [Lookup(c, p), Construct(c), Insert(c)][1..] == [Construct(c), Insert(c)];
    RunTwo(key, Step(key, s, Lookup(c, p)), Construct(c), Insert(c));
  }

  // ----- Memory: every limiter object has buckets of its own -----

  /** Tokens earned over a span of nanoseconds. */
  function Span(from: int, to: int, r: MB.Request): real { MB.Gain(from, r.(now := to)) }

  /** One client's requests under one policy: readings nondecreasing, within [lo, hi]. */
  ghost predicate Steady(reqs: seq<MB.Request>, lo: int, hi: int, p: MB.Request)
    decreases |reqs|
  {
    if reqs == [] then lo <= hi
    else
      && lo <= reqs[0].now <= hi && reqs[0].capacity == p.capacity && reqs[0].window == p.window
      && Steady(reqs[1..], reqs[0].now, hi, p)
  }

  lemma SpanAdds(a: int, b: int, c: int, p: MB.Request)
    requires a <= b <= c && MB.Positive(p)
    ensures Span(a, b, p) >= 0.0 && Span(b, c, p) >= 0.0
    ensures Span(a, b, p) + Span(b, c, p) == Span(a, c, p)
  {
    var x, y, rate := (b - a) as real / 1000000000.0, (c - b) as real / 1000000000.0, MB.Rate(p);
    assert MB.Rate(p.(now := b)) == rate && MB.Rate(p.(now := c)) == rate;
    assert x + y == (c - a) as real / 1000000000.0;
    assert x * rate + y * rate == (x + y) * rate;
  }

  lemma OneStep(b: MB.Bucket, r: MB.Request, p: MB.Request)
    requires b.tokens >= 0.0 && b.lastRefill <= r.now && r.capacity == p.capacity && r.window == p.window
             && MB.Positive(p)
    ensures var next := MB.Step(Some(b), r);
            && next.0.Some? && next.0.value.tokens >= 0.0 && next.0.value.lastRefill == r.now
            && next.0.value.tokens + (if next.1.allowed then 1.0 else 0.0) <= b.tokens + Span(b.lastRefill, r.now, p)
  {
    assert r == p.(now := r.now);
  }

  lemma {:induction false} BucketBound(b: MB.Bucket, reqs: seq<MB.Request>, hi: int, p: MB.Request)
    requires b.tokens >= 0.0 && Steady(reqs, b.lastRefill, hi, p) && MB.Positive(p)
    ensures Admitted(M.Outputs(MB.Step, Some(b), reqs)) as real <= b.tokens + Span(b.lastRefill, hi, p)
    decreases |reqs|
  {
    if reqs == [] {
      SpanAdds(b.lastRefill, b.lastRefill, hi, p);
    } else {
      OneStep(b, reqs[0], p);
      BucketBound(MB.Step(Some(b), reqs[0]).0.value, reqs[1..], hi, p);
      SpanAdds(b.lastRefill, reqs[0].now, hi, p);
    }
  }

  lemma FirstStep(s: Option<MB.Bucket>, r: MB.Request)
    requires MB.Sound(s, r.now) && MB.Positive(r)
    ensures var next := MB.Step(s, r);
            && next.0.Some? && next.0.value.tokens >= 0.0 && next.0.value.lastRefill == r.now
            && next.0.value.tokens + (if next.1.allowed then 1.0 else 0.0) <= r.capacity as real
  {
  }

  /** One limiter admits at most its capacity plus what it earns over the interval. */
  lemma {:induction false} OneLimiterBound(s: Option<MB.Bucket>, reqs: seq<MB.Request>, lo: int, hi: int, p: MB.Request)
    requires MB.Sound(s, lo) && Steady(reqs, lo, hi, p) && lo <= hi && MB.Positive(p)
    ensures Admitted(M.Outputs(MB.Step, s, reqs)) as real <= p.capacity as real + Span(lo, hi, p)
  {
    SpanAdds(lo, lo, hi, p);
    if reqs != [] {
      var r := reqs[0];
      FirstStep(s, r);
      BucketBound(MB.Step(s, r).0.value, reqs[1..], hi, p);
      SpanAdds(lo, r.now, hi, p);
    }
  }

  /** A client's requests, each with the limiter object that served it. */
  ghost predicate SteadyRun(xs: seq<(nat, MB.Request)>, lo: int, hi: int, p: MB.Request)
    decreases |xs|
  {
    if xs == [] then lo <= hi
    else
      && lo <= xs[0].1.now <= hi && xs[0].1.capacity == p.capacity && xs[0].1.window == p.window
      && SteadyRun(xs[1..], xs[0].1.now, hi, p)
  }

  lemma {:induction false} OneLimiterIsSteady(xs: seq<(nat, MB.Request)>, l: nat, lo: int, lo': int, hi: int,
                                              p: MB.Request)
    requires SteadyRun(xs, lo', hi, p) && lo <= lo'
    ensures Steady(K.Inputs(xs, l), lo, hi, p)
    decreases |xs|
  {
    if xs != [] {
      var now := xs[0].1.now;
      if xs[0].0 == l {
        OneLimiterIsSteady(xs[1..], l, now, now, hi, p);
        assert K.Inputs(xs, l) == [xs[0].1] + K.Inputs(xs[1..], l);
      } else {
        OneLimiterIsSteady(xs[1..], l, lo, now, hi, p);
        assert K.Inputs(xs, l) == K.Inputs(xs[1..], l);
      }
    }
  }

  /** Admissions by the limiters in `who`. */
  function AdmittedBy(xs: seq<(nat, MB.Request)>, out: seq<Reply>, who: set<nat>): nat
    requires |xs| == |out|
  {
    if xs == [] then 0
    else (if xs[0].0 in who && out[0].allowed then 1 else 0) + AdmittedBy(xs[1..], out[1..], who)
  }

  lemma {:induction false} AdmittedByOne(xs: seq<(nat, MB.Request)>, out: seq<Reply>, l: nat)
    requires |xs| == |out|
    ensures AdmittedBy(xs, out, {l}) == Admitted(Filter(out, K.For(xs, l)))
  {
    if xs != [] {
      AdmittedByOne(xs[1..], out[1..], l);
      assert K.For(xs, l)[1..] == K.For(xs[1..], l);
      if xs[0].0 == l {
        assert Filter(out, K.For(xs, l)) == [out[0]] + Filter(out[1..], K.For(xs[1..], l));
      } else {
        assert Filter(out, K.For(xs, l)) == Filter(out[1..], K.For(xs[1..], l));
      }
    }
  }

  lemma {:induction false} AdmittedBySplit(xs: seq<(nat, MB.Request)>, out: seq<Reply>, who: set<nat>, l: nat)
    requires |xs| == |out| && l in who
    ensures AdmittedBy(xs, out, who) == AdmittedBy(xs, out, who - {l}) + AdmittedBy(xs, out, {l})
  {
    if xs != [] {
      AdmittedBySplit(xs[1..], out[1..], who, l);
    }
  }

  lemma {:induction false} AdmittedByNone(xs: seq<(nat, MB.Request)>, out: seq<Reply>)
    requires |xs| == |out|
    ensures AdmittedBy(xs, out, {}) == 0
  {
    if xs != [] {
      AdmittedByNone(xs[1..], out[1..]);
    }
  }

  lemma {:induction false} AdmittedByAll(xs: seq<(nat, MB.Request)>, out: seq<Reply>, who: set<nat>)
    requires |xs| == |out| && forall i :: 0 <= i < |xs| ==> xs[i].0 in who
    ensures AdmittedBy(xs, out, who) == Admitted(out)
  {
    if xs != [] {
      AdmittedByAll(xs[1..], out[1..], who);
    }
  }

  /** The most one limiter admits over an interval: its capacity and what it earns, in whole requests. */
  function OneBucket(p: MB.Request, lo: int, hi: int): int { (p.capacity as real + Span(lo, hi, p)).Floor }

  lemma {:induction false} ShareOfOne(store: map<nat, MB.Bucket>, xs: seq<(nat, MB.Request)>, l: nat)
    ensures AdmittedBy(xs, K.Outputs(MB.Step, store, xs), {l})
            == Admitted(M.Outputs(MB.Step, K.Get(store, l), K.Inputs(xs, l)))
  {
    AdmittedByOne(xs, K.Outputs(MB.Step, store, xs), l);
    K.Isolation(MB.Step, store, xs, l);
  }

  /** If each of the limiters admits at most `each`, together they admit at most that many times `each`. */
  lemma {:induction false} SumOfLimiters(xs: seq<(nat, MB.Request)>, out: seq<Reply>, who: set<nat>, each: int)
    requires |xs| == |out| && forall l :: l in who ==> AdmittedBy(xs, out, {l}) <= each
    ensures AdmittedBy(xs, out, who) <= Multiple(|who|, each)
    decreases |who|
  {
    if who == {} {
      AdmittedByNone(xs, out);
    } else {
      var l :| l in who;
      SumOfLimiters(xs, out, who - {l}, each);
      AdmittedBySplit(xs, out, who, l);
      assert |who| == |who - {l}| + 1;
    }
  }

  lemma {:induction false} ShareBound(store: map<nat, MB.Bucket>, xs: seq<(nat, MB.Request)>, l: nat, lo: int, hi: int,
                                      p: MB.Request)
    requires SteadyRun(xs, lo, hi, p) && lo <= hi && MB.Positive(p) && MB.Sound(K.Get(store, l), lo)
    ensures AdmittedBy(xs, K.Outputs(MB.Step, store, xs), {l}) <= OneBucket(p, lo, hi)
  {
    OneLimiterIsSteady(xs, l, lo, lo, hi, p);
    OneLimiterBound(K.Get(store, l), K.Inputs(xs, l), lo, hi, p);
    ShareOfOne(store, xs, l);
  }

  /** The limiters `who` admit at most |who| times what one of them may. */
  lemma {:induction false} LimitersBound(store: map<nat, MB.Bucket>, xs: seq<(nat, MB.Request)>, who: set<nat>,
                                         lo: int, hi: int, p: MB.Request)
    requires SteadyRun(xs, lo, hi, p) && lo <= hi && MB.Positive(p)
    requires forall i :: 0 <= i < |xs| ==> xs[i].0 in who
    requires forall l :: l in store ==> MB.Sound(Some(store[l]), lo)
    ensures Admitted(K.Outputs(MB.Step, store, xs)) <= Multiple(|who|, OneBucket(p, lo, hi))
  {
    var each, out := OneBucket(p, lo, hi), K.Outputs(MB.Step, store, xs);
    forall l | l in who ensures AdmittedBy(xs, out, {l}) <= each {
      ShareBound(store, xs, l, lo, hi, p);
    }
    SumOfLimiters(xs, out, who, each);
    AdmittedByAll(xs, out, who);
  }

  /** Every request of the run was served by the limiter its caller was given for `policy`. */
  ghost predicate ServedBy(t: State, policy: Policy, callers: seq<nat>, xs: seq<(nat, MB.Request)>) {
    |callers| == |xs| && forall i :: 0 <= i < |xs| ==>
      callers[i] in t.got && callers[i] in t.asked && t.asked[callers[i]] == policy && xs[i].0 == t.got[callers[i]]
  }

  lemma ServedByHanded(t: State, policy: Policy, callers: seq<nat>, xs: seq<(nat, MB.Request)>)
    requires ServedBy(t, policy, callers, xs)
    ensures forall i :: 0 <= i < |xs| ==> xs[i].0 in Handed(t, policy)
  {
    forall i | 0 <= i < |xs| ensures xs[i].0 in Handed(t, policy) {
      assert callers[i] in t.got;
    }
  }

  lemma HandedAreMade(key: Policy -> string, t: State, policy: Policy)
    requires Consistent(t, key)
    ensures Handed(t, policy) <= Makers(t, policy) && |Handed(t, policy)| <= |Makers(t, policy)|
  {
    forall l | l in Handed(t, policy) ensures l in Makers(t, policy) {
      var c :| c in t.got && c in t.asked && t.asked[c] == policy && t.got[c] == l;
      assert Given(t, c);
    }
    assert Makers(t, policy) == Handed(t, policy) + (Makers(t, policy) - Handed(t, policy));
  }

  lemma {:induction false} MoreLimiters(store: map<nat, MB.Bucket>, xs: seq<(nat, MB.Request)>, who: set<nat>, n: nat,
                                        lo: int, hi: int, p: MB.Request)
    requires SteadyRun(xs, lo, hi, p) && lo <= hi && MB.Positive(p)
    requires forall i :: 0 <= i < |xs| ==> xs[i].0 in who
    requires forall l :: l in store ==> MB.Sound(Some(store[l]), lo)
    requires |who| <= n
    ensures Admitted(K.Outputs(MB.Step, store, xs)) <= Multiple(n, OneBucket(p, lo, hi))
  {
    LimitersBound(store, xs, who, lo, hi, p);
    SpanAdds(lo, lo, hi, p);
    MultipleMonotone(|who|, n, OneBucket(p, lo, hi));
  }

  /** The parameters a memory limiter for the policy is built with. */
  predicate Parameters(policy: Policy, p: MB.Request) {
    Build(policy, true) == Memory(p.capacity, p.window) && MB.Positive(p)
  }

  lemma {:induction false} FewHanded(key: Policy -> string, before: seq<Action>, after: seq<Action>, policy: Policy)
    requires Injective(key) && key(policy) in Run(key, Init(), before).cache
    ensures var s := Run(key, Init(), before);
            |Handed(Run(key, s, after), policy)| <= |Missers(s, policy)|
  {
    var s := Run(key, Init(), before);
    RunKeepsConsistent(key, Init(), before);
    RunKeepsConsistent(key, s, after);
    HandedAreMade(key, Run(key, s, after), policy);
    LimitersAtMostEarlyMissers(key, before, after, policy);
  }

  lemma {:induction false} RaceBound(key: Policy -> string, before: seq<Action>, after: seq<Action>, policy: Policy,
                  callers: seq<nat>, store: map<nat, MB.Bucket>, xs: seq<(nat, MB.Request)>, lo: int, hi: int,
                  p: MB.Request)
    requires Injective(key) && key(policy) in Run(key, Init(), before).cache
    requires ServedBy(Run(key, Run(key, Init(), before), after), policy, callers, xs)
    requires Parameters(policy, p) && SteadyRun(xs, lo, hi, p) && lo <= hi
    requires forall l :: l in store ==> MB.Sound(Some(store[l]), lo)
    ensures Admitted(K.Outputs(MB.Step, store, xs))
            <= Multiple(|Missers(Run(key, Init(), before), policy)|, OneBucket(p, lo, hi))
  {
    var t := Run(key, Run(key, Init(), before), after);
    FewHanded(key, before, after, policy);
    ServedByHanded(t, policy, callers, xs);
    MoreLimiters(store, xs, Handed(t, policy), |Missers(Run(key, Init(), before), policy)|, lo, hi, p);
  }

  /** In memory, a client served by racing callers of one policy is admitted, over any interval of any run, at
      most K times what one bucket can admit there, K being the callers that missed before the policy was cached. */
  lemma {:induction false} MemoryRaceBound(key: Policy -> string, before: seq<Action>, after: seq<Action>,
                                           policy: Policy, callers: seq<nat>, store: map<nat, MB.Bucket>,
                                           xs: seq<(nat, MB.Request)>, lo: int, hi: int, p: MB.Request)
    requires Injective(key) && key(policy) in Run(key, Init(), before).cache
    requires ServedBy(Run(key, Run(key, Init(), before), after), policy, callers, xs)
    requires Parameters(policy, p) && SteadyRun(xs, lo, hi, p) && lo <= hi
    requires forall l :: l in store ==> MB.Sound(Some(store[l]), lo)
    ensures Admitted(K.Outputs(MB.Step, store, xs))
            <= |Missers(Run(key, Init(), before), policy)| * OneBucket(p, lo, hi)
  {
    RaceBound(key, before, after, policy, callers, store, xs, lo, hi, p);
    MultipleIsProduct(|Missers(Run(key, Init(), before), policy)|, OneBucket(p, lo, hi));
  }

  // ----- The bound is attained -----

  lemma {:induction false} KeyedAppend(store: map<nat, MB.Bucket>, xs: seq<(nat, MB.Request)>,
                                       ys: seq<(nat, MB.Request)>)
    ensures Admitted(K.Outputs(MB.Step, store, xs + ys))
         == Admitted(K.Outputs(MB.Step, store, xs)) + Admitted(K.Outputs(MB.Step, K.Final(MB.Step, store, xs), ys))
    decreases |xs|
  {
    if xs == [] {
      assert xs + ys == ys;
    } else {
      assert (xs + ys)[1..] == xs[1..] + ys;
      KeyedAppend(K.Put(store, xs[0].0, MB.Step(K.Get(store, xs[0].0), xs[0].1).0), xs[1..], ys);
    }
  }

  /** n requests to one limiter at one instant are all admitted, and touch no other. */
  lemma {:induction false} Volley(store: map<nat, MB.Bucket>, l: nat, r: MB.Request, n: nat)
    requires MB.Positive(r) && n <= r.capacity
    requires var b := K.Get(store, l); b.None? || (b.value.lastRefill == r.now && b.value.tokens >= n as real)
    ensures Admitted(K.Outputs(MB.Step, store, Repeat((l, r), n))) == n
    ensures forall k :: k != l ==> K.Get(K.Final(MB.Step, store, Repeat((l, r), n)), k) == K.Get(store, k)
    decreases n
  {
    if n > 0 {
      assert Repeat((l, r), n)[1..] == Repeat((l, r), n - 1);
      Volley(K.Put(store, l, MB.Step(K.Get(store, l), r).0), l, r, n - 1);
    }
  }

  /** Requests at one instant that every fresh limiter in `who` admits, capacity many each. */
  lemma {:induction false} Storm(store: map<nat, MB.Bucket>, who: set<nat>, r: MB.Request)
      returns (xs: seq<(nat, MB.Request)>)
    requires MB.Positive(r) && forall l :: l in who ==> K.Get(store, l).None?
    ensures Admitted(K.Outputs(MB.Step, store, xs)) == Multiple(|who|, r.capacity)
    ensures forall i :: 0 <= i < |xs| ==> xs[i].0 in who && xs[i].1 == r
    decreases |who|
  {
    if who == {} {
      xs := [];
    } else {
      var l :| l in who;
      var first := Repeat((l, r), r.capacity);
      Volley(store, l, r, r.capacity);
      var rest := Storm(K.Final(MB.Step, store, first), who - {l}, r);
      xs := first + rest;
      KeyedAppend(store, first, rest);
      assert |who| == |who - {l}| + 1;
    }
  }

  ghost function CallerOf(t: State, policy: Policy, l: nat): (c: nat)
    requires l in Handed(t, policy)
    ensures c in t.got && c in t.asked && t.asked[c] == policy && t.got[c] == l
  {
    var c :| c in t.got && c in t.asked && t.asked[c] == policy && t.got[c] == l;
    c
  }

  lemma {:induction false} OneInstant(xs: seq<(nat, MB.Request)>, p: MB.Request)
    requires forall i :: 0 <= i < |xs| ==> xs[i].1 == p
    ensures SteadyRun(xs, p.now, p.now, p)
  {
    if xs != [] {
      OneInstant(xs[1..], p);
    }
  }

  /** In every state of every race: the limiters in use, fresh, admit between them, at one instant and for one
      client, exactly their number times the capacity. */
  lemma EveryLimiterServes(t: State, policy: Policy, p: MB.Request)
      returns (callers: seq<nat>, xs: seq<(nat, MB.Request)>)
    requires Parameters(policy, p)
    ensures ServedBy(t, policy, callers, xs) && SteadyRun(xs, p.now, p.now, p)
    ensures Admitted(K.Outputs(MB.Step, map[], xs)) == |Handed(t, policy)| * p.capacity
  {
    xs := Storm(map[], Handed(t, policy), p);
    callers := seq(|xs|, i requires 0 <= i < |xs| => CallerOf(t, policy, xs[i].0));
    OneInstant(xs, p);
    MultipleIsProduct(|Handed(t, policy)|, p.capacity);
  }

  /** No client of the policy gets more than one bucket allows, from fresh limiters and in any interval. */
  ghost predicate OneBucketEnough(t: State, policy: Policy, p: MB.Request) {
    forall callers: seq<nat>, xs: seq<(nat, MB.Request)>, lo: int, hi: int ::
      (ServedBy(t, policy, callers, xs) && SteadyRun(xs, lo, hi, p) && lo <= hi) ==>
        Admitted(K.Outputs(MB.Step, map[], xs)) <= OneBucket(p, lo, hi)
  }

  lemma OneLimiterIsEnough(t: State, policy: Policy, p: MB.Request)
    requires Parameters(policy, p) && |Handed(t, policy)| <= 1
    ensures OneBucketEnough(t, policy, p)
  {
    forall callers: seq<nat>, xs: seq<(nat, MB.Request)>, lo: int, hi: int
      | ServedBy(t, policy, callers, xs) && SteadyRun(xs, lo, hi, p) && lo <= hi
      ensures Admitted(K.Outputs(MB.Step, map[], xs)) <= OneBucket(p, lo, hi)
    {
      ServedByHanded(t, policy, callers, xs);
      MoreLimiters(map[], xs, Handed(t, policy), 1, lo, hi, p);
      assert Multiple(1, OneBucket(p, lo, hi)) == Multiple(0, OneBucket(p, lo, hi)) + OneBucket(p, lo, hi);
    }
  }

  lemma TwoLimitersAreTooMany(t: State, policy: Policy, p: MB.Request)
    requires Parameters(policy, p) && |Handed(t, policy)| >= 2
    ensures !OneBucketEnough(t, policy, p)
  {
    var callers, xs := EveryLimiterServes(t, policy, p);
    assert OneBucket(p, p.now, p.now) == p.capacity by {
      assert Span(p.now, p.now, p) == 0.0;
    }
    ProductMonotone(2, |Handed(t, policy)|, p.capacity);
    assert Admitted(K.Outputs(MB.Step, map[], xs)) > OneBucket(p, p.now, p.now);
  }

  /** The single-bucket bound holds in every run exactly when at most one limiter was handed out for the policy;
      when everybody has finished, exactly when at most one caller missed before it was cached. */
  lemma {:induction false} OneBucketEnoughIff(key: Policy -> string, before: seq<Action>, after: seq<Action>,
                                              policy: Policy, p: MB.Request)
    requires Injective(key) && Parameters(policy, p)
    ensures var s := Run(key, Init(), before);
            var t := Run(key, s, after);
            && (OneBucketEnough(t, policy, p) <==> |Handed(t, policy)| <= 1)
            && (key(policy) in s.cache && Quiet(t, policy, key) ==>
                  (OneBucketEnough(t, policy, p) <==> |Missers(s, policy)| <= 1))
  {
    var s := Run(key, Init(), before);
    var t := Run(key, s, after);
    if |Handed(t, policy)| <= 1 {
      OneLimiterIsEnough(t, policy, p);
    } else {
      TwoLimitersAreTooMany(t, policy, p);
    }
    if key(policy) in s.cache && Quiet(t, policy, key) {
      LimitersAreEarlyMissers(key, before, after, policy);
    }
  }

  /** For any n there is a race after which a client gets exactly n times the capacity at one instant. */
  lemma MemoryRaceAttained(key: Policy -> string, policy: Policy, n: nat, p: MB.Request)
      returns (callers: seq<nat>, xs: seq<(nat, MB.Request)>)
    requires n >= 1 && Parameters(policy, p)
    ensures ServedBy(Run(key, Init(), Lookups(policy, n) + Finishes(n)), policy, callers, xs)
    ensures SteadyRun(xs, p.now, p.now, p)
    ensures Admitted(K.Outputs(MB.Step, map[], xs)) == n * p.capacity
  {
    RaceMakesMany(key, policy, n);
    callers, xs := EveryLimiterServes(Run(key, Init(), Lookups(policy, n) + Finishes(n)), policy, p);
  }
}
