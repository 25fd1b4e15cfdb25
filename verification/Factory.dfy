/** LimiterFactory: the cache of limiters, its unlocked gap, and what racing callers can and cannot cause. */
module Factory {
  import opened Prelude
  import opened Keys

  /** The parameters of model.Policy that reach a limiter. */
  datatype Policy = Policy(algorithm: string, limit: int, window: int, burst: int)

  /** What FromPolicy constructs; a limiter never changes these. */
  datatype Built =
    | Memory(capacity: int, window: int)
    | Fixed(limit: int, window: int)
    | Sliding(limit: int, window: int)
    | Token(capacity: int, window: int)

  function Capacity(p: Policy): int { if p.burst <= 0 then p.limit else p.burst }

  /** `inMemory`: the backend is "memory", or there is no Redis client. */
  function Build(p: Policy, inMemory: bool): Built {
    if inMemory then Memory(Capacity(p), p.window)
    else if p.algorithm == "fixed_window" then Fixed(p.limit, p.window)
    else if p.algorithm == "sliding_window" then Sliding(p.limit, p.window)
    else Token(Capacity(p), p.window)
  }

  /** What each stored algorithm gets on Redis; a burst that is not positive counts as the limit. */
  lemma AlgorithmsOnRedis(limit: int, window: int, burst: int)
    ensures Build(Policy("fixed_window", limit, window, burst), false) == Fixed(limit, window)
    ensures Build(Policy("sliding_window", limit, window, burst), false) == Sliding(limit, window)
    ensures burst >= 1 ==> Build(Policy("token_bucket", limit, window, burst), false) == Token(burst, window)
    ensures burst <= 0 ==> Build(Policy("token_bucket", limit, window, burst), false) == Token(limit, window)
  {
    assert "fixed_window"[0] == 'f' && "sliding_window"[0] == 's' && "token_bucket"[0] == 't';
  }

  function KeyOf(p: Policy, backend: string): string {
    CacheKey(p.algorithm, p.limit, p.window, p.burst, backend)
  }

  lemma KeyOfInjective(p: Policy, q: Policy, backend: string)
    requires KeyOf(p, backend) == KeyOf(q, backend)
    ensures p == q
  {
    CacheKeyInjective(p.algorithm, p.limit, p.window, p.burst, q.algorithm, q.limit, q.window, q.burst, backend);
  }

  class Limiter {
    const built: Built

    constructor (built: Built)
      ensures this.built == built
    {
      this.built := built;
    }
  }

  class LimiterFactory {
    const backend: string
    const hasRedis: bool
    var limiters: map<string, Limiter>

    constructor (backend: string, hasRedis: bool)
      ensures this.backend == backend && this.hasRedis == hasRedis && limiters == map[] && Valid()
    {
      this.backend := backend;
      this.hasRedis := hasRedis;
      limiters := map[];
    }

    predicate InMemory() { backend == "memory" || !hasRedis }

    /** Every cached limiter carries the parameters its key encodes. */
    ghost predicate Valid()
      reads this
    {
      forall p: Policy :: KeyOf(p, backend) in limiters ==>
        limiters[KeyOf(p, backend)].built == Build(p, InMemory())
    }

    /** FromPolicy when no other caller runs in between. */
    method FromPolicy(policy: Policy) returns (lim: Limiter)
      requires Valid()
      modifies this
      ensures Valid()
      ensures lim.built == Build(policy, InMemory())
      ensures var capacity := if policy.burst >= 1 then policy.burst else policy.limit;
              if backend == "memory" || !hasRedis then lim.built == Memory(capacity, policy.window)
              else
                && (policy.algorithm == "fixed_window" ==> lim.built == Fixed(policy.limit, policy.window))
                && (policy.algorithm == "sliding_window" ==> lim.built == Sliding(policy.limit, policy.window))
                && (policy.algorithm != "fixed_window" && policy.algorithm != "sliding_window" ==>
                      lim.built == Token(capacity, policy.window))
      ensures KeyOf(policy, backend) in old(limiters) ==>
                lim == old(limiters)[KeyOf(policy, backend)] && limiters == old(limiters)
      ensures KeyOf(policy, backend) !in old(limiters) ==>
                fresh(lim) && limiters == old(limiters)[KeyOf(policy, backend) := lim]
    {
      var cacheKey := KeyOf(policy, backend);
      if cacheKey in limiters {
        return limiters[cacheKey];
      }
      if backend == "memory" || !hasRedis {
        var capacity := policy.burst;
        if capacity <= 0 {
          capacity := policy.limit;
        }
        lim := new Limiter(Memory(capacity, policy.window));
      } else if policy.algorithm == "fixed_window" {
        lim := new Limiter(Fixed(policy.limit, policy.window));
      } else if policy.algorithm == "sliding_window" {
        lim := new Limiter(Sliding(policy.limit, policy.window));
      } else {
        var capacity := policy.burst;
        if capacity <= 0 {
          capacity := policy.limit;
        }
        lim := new Limiter(Token(capacity, policy.window));
      }
      limiters := limiters[cacheKey := lim];
      forall p: Policy | KeyOf(p, backend) in limiters
        ensures limiters[KeyOf(p, backend)].built == Build(p, InMemory())
      {
        if KeyOf(p, backend) == cacheKey {
          KeyOfInjective(p, policy, backend);
        }
      }
    }
  }
}
