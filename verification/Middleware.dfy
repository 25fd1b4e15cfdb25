/** The rate limiting handler for one request: identity, policy, limiter, failure mode and counters. */
module Middleware {
  import opened Prelude
  import opened Factory
  import opened Identity
  import opened ScriptResult
  import Keys
  import R = MiddlewareRace

  /** How the handler ends: a status of its own, or the route's handler with the headers of a reply, if any. */
  datatype Response =
    | Unauthorized
    | Unavailable
    | TooMany(reply: Reply, resetAfter: int)
    | Next(headers: Option<(Reply, int)>)

  /** FindPolicy for the route: an error, no policy, or one. */
  datatype RouteLookup = Failed | NotFound | Route(policy: Policy)

  /** A route's policy overrides the key's; a failed lookup is as good as none. */
  function Chosen(identity: Option<Policy>, route: RouteLookup): Option<Policy> {
    if route.Route? then Some(route.policy) else identity
  }

  /** The limiter a policy picks, or the default. */
  function Picked(policy: Option<Policy>, inMemory: bool, default: Built): Built {
    if policy.Some? then Build(policy.value, inMemory) else default
  }

  /** On a route with its own policy that policy decides, whatever policies the callers' keys have: two requests that
      differ only there get the same limiter. Elsewhere a key's policy decides, and without either the default. */
  lemma WhoDecides(p: Policy, a: Option<Policy>, b: Option<Policy>, inMemory: bool, default: Built)
    ensures Picked(Chosen(a, Route(p)), inMemory, default) == Picked(Chosen(b, Route(p)), inMemory, default)
    ensures Picked(Chosen(a, Route(p)), inMemory, default) == Build(p, inMemory)
    ensures Picked(Chosen(Some(p), NotFound), inMemory, default) == Build(p, inMemory)
    ensures Picked(Chosen(Some(p), Failed), inMemory, default) == Build(p, inMemory)
    ensures Picked(Chosen(None, NotFound), inMemory, default) == default
    ensures Picked(Chosen(None, Failed), inMemory, default) == default
  {
  }

  /** What limiter.Result means for the request. */
  function Respond(open: bool, result: Result): Response {
    match result
    case Err => if open then Next(None) else Unavailable
    case Ok(reply, reset) => if reply.allowed then Next(Some((reply, reset))) else TooMany(reply, reset)
  }

  class RateLimit {
    const factory: LimiterFactory
    const defaultLimiter: Limiter
    const failureMode: string
    var requests: nat
    var allowed: nat
    var rejected: nat
    var redisErrors: nat

    constructor (factory: LimiterFactory, defaultLimiter: Limiter, failureMode: string)
      ensures this.factory == factory && this.defaultLimiter == defaultLimiter && this.failureMode == failureMode
      ensures requests == allowed == rejected == redisErrors == 0
    {
      this.factory := factory;
      this.defaultLimiter := defaultLimiter;
      this.failureMode := failureMode;
      requests, allowed, rejected, redisErrors := 0, 0, 0, 0;
    }

    /** What the limiter for these parameters does with this key is `serve`'s. */
    method Handle(h: Headers, route: string, find: string -> Option<Found>, routePolicy: RouteLookup,
                  serve: (Built, string) -> Result)
      returns (response: Response)
      requires factory.Valid()
      modifies this`requests, this`allowed, this`rejected, this`redisErrors, factory
      ensures factory.Valid()
      ensures requests == old(requests) + 1
      ensures
        match Identify(h, find)
        case None =>
          response == Unauthorized && allowed == old(allowed) && rejected == old(rejected)
            && redisErrors == old(redisErrors)
        case Some(who) =>
          var policy := Chosen(who.policy, routePolicy);
          var result := serve(Picked(policy, factory.InMemory(), defaultLimiter.built),
                              Keys.ClientKey(who.identity, route));
          && response == Respond(failureMode == "open", result)
          && allowed == old(allowed) + (if result.Ok? && result.reply.allowed then 1 else 0)
          && rejected == old(rejected) + (if result.Ok? && !result.reply.allowed then 1 else 0)
          && redisErrors == old(redisErrors) + (if result.Err? then 1 else 0)
      ensures
        match Identify(h, find)
        case None => true
        case Some(who) =>
          var key, inMemory := who.identity + ":" + route, factory.backend == "memory" || !factory.hasRedis;
          && (routePolicy.Route? ==>
                response == Respond(failureMode == "open", serve(Build(routePolicy.policy, inMemory), key)))
          && (!routePolicy.Route? && who.policy.Some? ==>
                response == Respond(failureMode == "open", serve(Build(who.policy.value, inMemory), key)))
          && (!routePolicy.Route? && who.policy.None? ==>
                response == Respond(failureMode == "open", serve(defaultLimiter.built, key)))
      ensures Identify(h, find).None? || (!routePolicy.Route? && Identify(h, find).value.policy.None?) ==>
                factory.limiters == old(factory.limiters)
    {
      requests := requests + 1;
      var identified := Identify(h, find);
      if identified.None? {
        return Unauthorized;
      }
      var identity, policy := identified.value.identity, identified.value.policy;
      if routePolicy.Route? {
        policy := Some(routePolicy.policy);
      }
      var lim := Pick(policy);
      response := Answer(serve(lim.built, identity + ":" + route));
    }

    method Pick(policy: Option<Policy>) returns (lim: Limiter)
      requires factory.Valid()
      modifies factory
      ensures factory.Valid() && lim.built == Picked(policy, factory.InMemory(), defaultLimiter.built)
      ensures policy.None? ==> factory.limiters == old(factory.limiters)
    {
      lim := defaultLimiter;
      if policy.Some? {
        lim := factory.FromPolicy(policy.value);
      }
    }

    method Answer(result: Result) returns (response: Response)
      modifies this`allowed, this`rejected, this`redisErrors
      ensures response == Respond(failureMode == "open", result)
      ensures result.Err? && failureMode == "open" ==> response == Next(None)
      ensures result.Err? && failureMode != "open" ==> response == Unavailable
      ensures result.Ok? && result.reply.allowed ==> response == Next(Some((result.reply, result.resetAfter)))
      ensures result.Ok? && !result.reply.allowed ==> response == TooMany(result.reply, result.resetAfter)
      ensures allowed == old(allowed) + (if result.Ok? && result.reply.allowed then 1 else 0)
      ensures rejected == old(rejected) + (if result.Ok? && !result.reply.allowed then 1 else 0)
      ensures redisErrors == old(redisErrors) + (if result.Err? then 1 else 0)
    {
      if result.Err? {
        redisErrors := redisErrors + 1;
        if failureMode == "open" {
          return Next(None);
        }
        return Unavailable;
      }
      if !result.reply.allowed {
        rejected := rejected + 1;
        return TooMany(result.reply, result.resetAfter);
      }
      allowed := allowed + 1;
      response := Next(Some((result.reply, result.resetAfter)));
    }
  }

  // ----- One request alone is one schedule of the concurrent model -----

  /** Where a request alone ends up. */
  function PhaseOf(response: Response): R.Phase {
    match response
    case Unauthorized => R.Unknown
    case Unavailable => R.Phase.Unavailable
    case TooMany(_, _) => R.Rejected
    case Next(headers) => R.Handled(headers.None?)
  }

  function Alone<I>(c: nat, known: bool, input: I, fate: R.Fate): seq<R.Action<I>> {
    [R.Arrive(c), R.Identify(c, known), R.Call(c, input, fate), R.Count(c), R.Proceed(c)]
  }

  /** A request of the concurrent model that runs alone ends as Handle answers it, whatever the state it starts
      in, and moves the counters as Handle does. */
  lemma {:induction false} HandleIsOneSchedule<S, I>(open: bool, serve: (S, I) -> (S, Reply), s: R.State<S, I>, c: nat,
                                                     known: bool, input: I, fate: R.Fate, reset: int)
    requires c !in s.phase
    ensures var t := R.Run(open, serve, s, Alone(c, known, input, fate));
            var result := if fate == R.Delivered then Ok(serve(s.store, input).1, reset) else Err;
            var response := if known then Respond(open, result) else Unauthorized;
            && t.phase == s.phase[c := PhaseOf(response)]
            && t.phase[c] == (if !known then R.Unknown
                              else if fate != R.Delivered then (if open then R.Handled(true) else R.Phase.Unavailable)
                              else if serve(s.store, input).1.allowed then R.Handled(false) else R.Rejected)
            && t.store == (if known && fate != R.NotExecuted then serve(s.store, input).0 else s.store)
            && t.requests == s.requests + 1
            && t.allowed == s.allowed + (if known && result.Ok? && result.reply.allowed then 1 else 0)
            && t.rejected == s.rejected + (if known && result.Ok? && !result.reply.allowed then 1 else 0)
            && t.errors == s.errors + (if known && result.Err? then 1 else 0)
  {
    AloneUnfolds(open, serve, s, c, known, input, fate);
    Begins(open, serve, s, c, known, input, fate);
    if known {
      var s3 := R.Step(open, serve, R.Step(open, serve, R.Step(open, serve, s, R.Arrive(c)), R.Identify(c, known)),
                       R.Call(c, input, fate));
      Finishes(open, serve, s3, c);
    }
  }

  /** Where a request stands after its first three steps. */
  lemma Begins<S, I>(open: bool, serve: (S, I) -> (S, Reply), s: R.State<S, I>, c: nat, known: bool, input: I,
                     fate: R.Fate)
    requires c !in s.phase
    ensures var t := R.Step(open, serve,
                            R.Step(open, serve, R.Step(open, serve, s, R.Arrive(c)), R.Identify(c, known)),
                            R.Call(c, input, fate));
            && t.phase == s.phase[c := if !known then R.Unknown
                                       else if fate == R.Delivered then R.Replied(serve(s.store, input).1)
                                       else R.Lost]
            && t.requests == s.requests + 1 && t.allowed == s.allowed && t.rejected == s.rejected
               && t.errors == s.errors
            && t.store == (if known && fate != R.NotExecuted then serve(s.store, input).0 else s.store)
  {
  }

  /** The last two steps of a request whose limiter call is over. */
  lemma Finishes<S, I>(open: bool, serve: (S, I) -> (S, Reply), s: R.State<S, I>, c: nat)
    requires c in s.phase && (s.phase[c] == R.Lost || s.phase[c].Replied?)
    ensures var t := R.Step(open, serve, R.Step(open, serve, s, R.Count(c)), R.Proceed(c));
            var result := if s.phase[c].Replied? then Ok(s.phase[c].reply, 0) else Err;
            && t.phase == s.phase[c := PhaseOf(Respond(open, result))]
            && t.requests == s.requests && t.store == s.store
            && t.allowed == s.allowed + (if result.Ok? && result.reply.allowed then 1 else 0)
            && t.rejected == s.rejected + (if result.Ok? && !result.reply.allowed then 1 else 0)
            && t.errors == s.errors + (if result.Err? then 1 else 0)
  {
  }

  lemma {:induction false} AloneUnfolds<S, I>(open: bool, serve: (S, I) -> (S, Reply), s: R.State<S, I>, c: nat,
                                              known: bool, input: I, fate: R.Fate)
    ensures R.Run(open, serve, s, Alone(c, known, input, fate)) ==
            R.Step(open, serve,
              R.Step(open, serve,
                R.Step(open, serve, R.Step(open, serve, R.Step(open, serve, s, R.Arrive(c)), R.Identify(c, known)),
                       R.Call(c, input, fate)),
                R.Count(c)),
              R.Proceed(c))
  {
    var arrive, identify, call, count, proceed :=
      R.Arrive(c), R.Identify(c, known), R.Call(c, input, fate), R.Count(c), R.Proceed(c);
    var s1 := R.Step(open, serve, s, arrive);
    var s2 := R.Step(open, serve, s1, identify);
    var s3 := R.Step(open, serve, s2, call);
    var s4 := R.Step(open, serve, s3, count);
    assert Alone(c, known, input, fate) == [arrive] + [identify, call, count, proceed];
    RunCons(open, serve, s, arrive, [identify, call, count, proceed]);
    RunCons(open, serve, s1, identify, [call, count, proceed]);
    RunCons(open, serve, s2, call, [count, proceed]);
    RunCons(open, serve, s3, count, [proceed]);
    RunCons(open, serve, s4, proceed, []);
  }

  lemma {:induction false} RunCons<S, I>(open: bool, serve: (S, I) -> (S, Reply), s: R.State<S, I>, a: R.Action<I>,
                                         rest: seq<R.Action<I>>)
    ensures R.Run(open, serve, s, [a] + rest) == R.Run(open, serve, R.Step(open, serve, s, a), rest)
  {
    assert ([a] + rest)[1..] == rest;
  }
}
