/** Racing callers of FromPolicy, which drops the lock between its lookup and its insert. The cache key is any
    injective function of the policy; FactoryKey is the one FromPolicy uses. */
module FactoryRace {
  import opened Prelude
  import opened Factory

  /** Callers are numbered, and a limiter is named by the caller that constructed it.
      asked: the policy of each caller; missed: those whose lookup missed; made: those that have constructed
      their limiter; got: the limiter each finished caller was given. */
  datatype State = State(
    cache: map<string, nat>,
    asked: map<nat, Policy>,
    missed: map<nat, Policy>,
    made: map<nat, Policy>,
    got: map<nat, nat>)

  datatype Action =
    | Lookup(c: nat, policy: Policy)  // first critical section
    | Construct(c: nat)               // no lock held
    | Insert(c: nat)                  // second critical section

  function Init(): State { State(map[], map[], map[], map[], map[]) }

  function Step(key: Policy -> string, s: State, a: Action): State {
    match a
    case Lookup(c, p) =>
      if c in s.asked then s
      else if key(p) in s.cache then
        s.(asked := s.asked[c := p], got := s.got[c := s.cache[key(p)]])
      else
        s.(asked := s.asked[c := p], missed := s.missed[c := p])
    case Construct(c) =>
      if c in s.missed && c !in s.made then s.(made := s.made[c := s.missed[c]]) else s
    case Insert(c) =>
      if c in s.made && c !in s.got then
        s.(cache := s.cache[key(s.made[c]) := c], got := s.got[c := c])
      else s
  }

  function Run(key: Policy -> string, s: State, actions: seq<Action>): State
    decreases |actions|
  {
    if actions == [] then s else Run(key, Step(key, s, actions[0]), actions[1..])
  }

  ghost predicate Injective(key: Policy -> string) {
    forall p, q :: key(p) == key(q) ==> p == q
  }

  /** FromPolicy's own key function, for one factory. */
  function FactoryKey(backend: string): Policy -> string { (p: Policy) => KeyOf(p, backend) }

  lemma FactoryKeyInjective(backend: string)
    ensures Injective(FactoryKey(backend))
  {
    forall p, q | FactoryKey(backend)(p) == FactoryKey(backend)(q) ensures p == q {
      KeyOfInjective(p, q, backend);
    }
  }

  ghost predicate Consistent(s: State, key: Policy -> string) {
    && Injective(key)
    && (forall c :: c in s.missed ==> c in s.asked && s.missed[c] == s.asked[c])
    && (forall c :: c in s.made ==> c in s.missed && s.made[c] == s.missed[c])
    && (forall k :: k in s.cache ==> s.cache[k] in s.made && key(s.made[s.cache[k]]) == k)
    && (forall c :: c in s.got ==> Given(s, c))
  }

  /** A finished caller holds a limiter made for its policy, and its own if it missed. */
  ghost predicate Given(s: State, c: nat)
    requires c in s.got
  {
    && c in s.asked && s.got[c] in s.made && s.made[s.got[c]] == s.asked[c]
    && (c in s.missed ==> s.got[c] == c)
  }

  lemma StepKeepsGiven(key: Policy -> string, s: State, a: Action, c: nat)
    requires Consistent(s, key) && c in Step(key, s, a).got
    ensures Given(Step(key, s, a), c)
  {
    if c in s.got {
      assert Given(s, c);
    }
  }

  lemma StepKeepsConsistent(key: Policy -> string, s: State, a: Action)
    requires Consistent(s, key)
    ensures Consistent(Step(key, s, a), key)
  {
    forall c | c in Step(key, s, a).got ensures Given(Step(key, s, a), c) {
      StepKeepsGiven(key, s, a, c);
    }
  }

  lemma {:induction false} RunKeepsConsistent(key: Policy -> string, s: State, actions: seq<Action>)
    requires Consistent(s, key)
    ensures Consistent(Run(key, s, actions), key)
    decreases |actions|
  {
    if actions != [] {
      StepKeepsConsistent(key, s, actions[0]);
      RunKeepsConsistent(key, Step(key, s, actions[0]), actions[1..]);
    }
  }

  /** In every interleaving, a cached limiter was made for the policy its key encodes, and every caller that
      has finished holds a limiter with the parameters of the policy it asked for. */
  lemma {:induction false} EveryoneGetsTheirParameters(key: Policy -> string, inMemory: bool, actions: seq<Action>,
                                                       p: Policy, c: nat)
    requires Injective(key)
    ensures var s := Run(key, Init(), actions);
            && (key(p) in s.cache ==>
                  s.cache[key(p)] in s.made && Build(s.made[s.cache[key(p)]], inMemory) == Build(p, inMemory))
            && (c in s.got ==>
                  c in s.asked && s.got[c] in s.made
                    && Build(s.made[s.got[c]], inMemory) == Build(s.asked[c], inMemory))
  {
    var s := Run(key, Init(), actions);
    RunKeepsConsistent(key, Init(), actions);
  }

  /** Callers of different policies never share a limiter: in memory, an edited policy starts with full buckets. */
  lemma {:induction false} PoliciesNeverShareALimiter(key: Policy -> string, actions: seq<Action>, c: nat, d: nat)
    requires Injective(key)
    requires var s := Run(key, Init(), actions); c in s.got && d in s.got
    ensures var s := Run(key, Init(), actions);
            c in s.asked && d in s.asked && (s.got[c] == s.got[d] ==> s.asked[c] == s.asked[d])
  {
    RunKeepsConsistent(key, Init(), actions);
  }

  /** The limiters constructed for a policy, and the callers that missed on it. */
  ghost function Makers(s: State, p: Policy): set<nat> { set c | c in s.made && s.made[c] == p }

  ghost function Missers(s: State, p: Policy): set<nat> { set c | c in s.missed && s.missed[c] == p }

  lemma FewerMakersThanMissers(key: Policy -> string, s: State, p: Policy)
    requires Consistent(s, key)
    ensures Makers(s, p) <= Missers(s, p)
    ensures |Makers(s, p)| <= |Missers(s, p)|
  {
    assert Missers(s, p) == Makers(s, p) + (Missers(s, p) - Makers(s, p));
  }

  /** What later steps keep: cached keys, the answers given, and, for a cached key, the set of missers. */
  ghost predicate Extends(s: State, s': State, key: Policy -> string) {
    && s.cache.Keys <= s'.cache.Keys
    && (forall c :: c in s.got ==> c in s'.got && s'.got[c] == s.got[c])
    && (forall p: Policy :: key(p) in s.cache ==> Missers(s', p) == Missers(s, p))
  }

  lemma MissersKept(key: Policy -> string, s: State, a: Action, p: Policy)
    requires Consistent(s, key) && key(p) in s.cache
    ensures Missers(Step(key, s, a), p) == Missers(s, p)
  {
    if a.Lookup? {
      assert key(a.policy) !in s.cache ==> a.policy != p;
    }
  }

  lemma StepExtends(key: Policy -> string, s: State, a: Action)
    requires Consistent(s, key)
    ensures Extends(s, Step(key, s, a), key)
  {
    AnswersKept(key, s, a);
    forall p: Policy | key(p) in s.cache ensures Missers(Step(key, s, a), p) == Missers(s, p) {
      MissersKept(key, s, a, p);
    }
  }

  lemma AnswersKept(key: Policy -> string, s: State, a: Action)
    requires Consistent(s, key)
    ensures s.cache.Keys <= Step(key, s, a).cache.Keys
    ensures forall c :: c in s.got ==> c in Step(key, s, a).got && Step(key, s, a).got[c] == s.got[c]
  {
  }

  lemma {:induction false} RunExtends(key: Policy -> string, s: State, actions: seq<Action>)
    requires Consistent(s, key)
    ensures Extends(s, Run(key, s, actions), key)
    decreases |actions|
  {
    if actions != [] {
      var s' := Step(key, s, actions[0]);
      StepKeepsConsistent(key, s, actions[0]);
      StepExtends(key, s, actions[0]);
      RunExtends(key, s', actions[1..]);
    }
  }

  /** A cached entry is never removed, and however the run goes on, the limiters ever made for a cached policy
      number at most the callers that had missed when the entry was first seen. */
  lemma {:induction false} LimitersAtMostEarlyMissers(key: Policy -> string, before: seq<Action>, after: seq<Action>,
                                                      p: Policy)
    requires Injective(key) && key(p) in Run(key, Init(), before).cache
    ensures var s := Run(key, Init(), before);
            var t := Run(key, s, after);
            key(p) in t.cache && |Makers(t, p)| <= |Missers(s, p)|
  {
    var s := Run(key, Init(), before);
    RunKeepsConsistent(key, Init(), before);
    RunKeepsConsistent(key, s, after);
    RunExtends(key, s, after);
    FewerMakersThanMissers(key, Run(key, s, after), p);
  }

  /** The policy is cached and all who missed on it have finished. */
  ghost predicate Quiet(s: State, p: Policy, key: Policy -> string) {
    key(p) in s.cache && forall c :: c in Missers(s, p) ==> c in s.got
  }

  lemma StepKeepsQuiet(key: Policy -> string, s: State, a: Action, p: Policy)
    requires Consistent(s, key) && Quiet(s, p, key)
    ensures Quiet(Step(key, s, a), p, key)
    ensures Step(key, s, a).cache[key(p)] == s.cache[key(p)]
  {
    MissersKept(key, s, a, p);
    assert forall c :: c in s.made && s.made[c] == p ==> c in Missers(s, p);
  }

  /** Once those that missed have finished, the mapping never changes again. */
  lemma {:induction false} QuietForever(key: Policy -> string, s: State, actions: seq<Action>, p: Policy)
    requires Consistent(s, key) && Quiet(s, p, key)
    ensures key(p) in Run(key, s, actions).cache
    ensures Run(key, s, actions).cache[key(p)] == s.cache[key(p)]
    decreases |actions|
  {
    if actions != [] {
      StepKeepsConsistent(key, s, actions[0]);
      StepKeepsQuiet(key, s, actions[0], p);
      QuietForever(key, Step(key, s, actions[0]), actions[1..], p);
    }
  }

  /** No caller that made a limiter for p inserts it. */
  ghost predicate NoInsert(key: Policy -> string, s: State, actions: seq<Action>, p: Policy)
    decreases |actions|
  {
    actions == []
    || (!(actions[0].Insert? && actions[0].c in s.made && s.made[actions[0].c] == p)
        && NoInsert(key, Step(key, s, actions[0]), actions[1..], p))
  }

  lemma {:induction false} CachedUntilNextInsert(key: Policy -> string, s: State, actions: seq<Action>, p: Policy)
    requires Consistent(s, key) && key(p) in s.cache && NoInsert(key, s, actions, p)
    ensures key(p) in Run(key, s, actions).cache && Run(key, s, actions).cache[key(p)] == s.cache[key(p)]
    decreases |actions|
  {
    if actions != [] {
      StepKeepsConsistent(key, s, actions[0]);
      CachedUntilNextInsert(key, Step(key, s, actions[0]), actions[1..], p);
    }
  }

  /** The last insert wins: until the next one for that policy, every new caller is given the inserted limiter. */
  lemma {:induction false} LookupGetsLastInsert(key: Policy -> string, s: State, c: nat, actions: seq<Action>, d: nat)
    requires Consistent(s, key) && c in s.made && c !in s.got
    requires NoInsert(key, Step(key, s, Insert(c)), actions, s.made[c])
    requires d !in Run(key, Step(key, s, Insert(c)), actions).asked
    ensures var t := Step(key, Run(key, Step(key, s, Insert(c)), actions), Lookup(d, s.made[c]));
            d in t.got && t.got[d] == c
  {
    StepKeepsConsistent(key, s, Insert(c));
    CachedUntilNextInsert(key, Step(key, s, Insert(c)), actions, s.made[c]);
  }

  /** The limiters handed out to callers of a policy. */
  ghost function Handed(s: State, p: Policy): set<nat> {
    set c | c in s.got && c in s.asked && s.asked[c] == p :: s.got[c]
  }

  lemma QuietMakers(key: Policy -> string, s: State, p: Policy)
    requires Consistent(s, key) && Quiet(s, p, key)
    ensures Makers(s, p) == Missers(s, p) == Handed(s, p)
  {
    forall c | c in Missers(s, p) ensures c in Makers(s, p) && c in Handed(s, p) {
      assert s.got[c] == c;
    }
  }

  /** Exactly how many limiters a race leaves: once those who missed have finished, one per caller that missed
      before the policy was first cached, and each of these is in use. In particular one limiter if and only if
      one caller missed. */
  lemma {:induction false} LimitersAreEarlyMissers(key: Policy -> string, before: seq<Action>, after: seq<Action>,
                                                   p: Policy)
    requires Injective(key) && key(p) in Run(key, Init(), before).cache
    requires Quiet(Run(key, Run(key, Init(), before), after), p, key)
    ensures var s := Run(key, Init(), before);
            var t := Run(key, s, after);
            Makers(t, p) == Handed(t, p) == Missers(s, p)
  {
    var s := Run(key, Init(), before);
    RunKeepsConsistent(key, Init(), before);
    RunKeepsConsistent(key, s, after);
    RunExtends(key, s, after);
    QuietMakers(key, Run(key, s, after), p);
  }

  // ----- Any number of limiters can come out of the race -----

  function Lookups(p: Policy, n: nat): seq<Action> { if n == 0 then [] else Lookups(p, n - 1) + [Lookup(n - 1, p)] }

  function Finishes(n: nat): seq<Action> { if n == 0 then [] else Finishes(n - 1) + [Construct(n - 1), Insert(n - 1)] }

  function Below(n: nat): (all: set<nat>)
    ensures |all| == n && forall c: nat :: c in all <==> c < n
  {
    if n == 0 then {} else Below(n - 1) + {n - 1}
  }

  /** n callers have missed on p, and the first i of them have finished. */
  ghost predicate InRace(s: State, key: Policy -> string, p: Policy, n: nat, i: nat) {
    && (i == 0 ==> s.cache == map[]) && (i > 0 ==> key(p) in s.cache)
    && (forall c: nat ::
          (c in s.asked <==> c < n) && (c in s.missed <==> c < n) && (c < n ==> s.asked[c] == s.missed[c] == p))
    && (forall c: nat ::
          (c in s.made <==> c < i) && (c in s.got <==> c < i) && (c < i ==> s.made[c] == p && s.got[c] == c))
  }

  lemma {:induction false} RunAppend(key: Policy -> string, s: State, xs: seq<Action>, ys: seq<Action>)
    ensures Run(key, s, xs + ys) == Run(key, Run(key, s, xs), ys)
    decreases |xs|
  {
    if xs == [] {
      assert xs + ys == ys;
    } else {
      assert (xs + ys)[1..] == xs[1..] + ys;
      RunAppend(key, Step(key, s, xs[0]), xs[1..], ys);
    }
  }

  lemma {:induction false} RunTwo(key: Policy -> string, s: State, a: Action, b: Action)
    ensures Run(key, s, [a, b]) == Step(key, Step(key, s, a), b)
  {
    assert [a, b][1..] == [b] && [b][1..] == [];
    assert Run(key, Step(key, s, a), [b]) == Step(key, Step(key, s, a), b);
  }

  lemma {:induction false} AllLookUp(key: Policy -> string, p: Policy, n: nat)
    ensures InRace(Run(key, Init(), Lookups(p, n)), key, p, n, 0)
  {
    if n > 0 {
      AllLookUp(key, p, n - 1);
      RunAppend(key, Init(), Lookups(p, n - 1), [Lookup(n - 1, p)]);
      RunOne(key, Run(key, Init(), Lookups(p, n - 1)), Lookup(n - 1, p));
    }
  }

  lemma {:induction false} RunOne(key: Policy -> string, s: State, a: Action)
    ensures Run(key, s, [a]) == Step(key, s, a)
  {
    assert [a][1..] == [];
  }

  lemma {:induction false} FinishOne(key: Policy -> string, s: State, p: Policy, n: nat, i: nat)
    requires i < n && InRace(s, key, p, n, i)
    ensures InRace(Run(key, s, [Construct(i), Insert(i)]), key, p, n, i + 1)
  {
    RunTwo(key, s, Construct(i), Insert(i));
  }

  lemma {:induction false} SomeFinish(key: Policy -> string, s: State, p: Policy, n: nat, i: nat)
    requires i <= n && InRace(s, key, p, n, 0)
    ensures InRace(Run(key, s, Finishes(i)), key, p, n, i)
    decreases i
  {
    if i > 0 {
      SomeFinish(key, s, p, n, i - 1);
      RunAppend(key, s, Finishes(i - 1), [Construct(i - 1), Insert(i - 1)]);
      FinishOne(key, Run(key, s, Finishes(i - 1)), p, n, i - 1);
    }
  }

  /** n callers that miss together leave with n limiters, each with its own. */
  lemma {:induction false} RaceMakesMany(key: Policy -> string, p: Policy, n: nat)
    requires n >= 1
    ensures var s := Run(key, Init(), Lookups(p, n) + Finishes(n));
            && Quiet(s, p, key) && Handed(s, p) == Below(n) && |Handed(s, p)| == n
            && forall c: nat :: c < n ==> c in s.got && s.got[c] == c
  {
    RunAppend(key, Init(), Lookups(p, n), Finishes(n));
    AllLookUp(key, p, n);
    SomeFinish(key, Run(key, Init(), Lookups(p, n)), p, n, n);
    EachHasItsOwn(key, Run(key, Init(), Lookups(p, n) + Finishes(n)), p, n);
  }

  lemma {:induction false} EachHasItsOwn(key: Policy -> string, s: State, p: Policy, n: nat)
    requires n >= 1 && InRace(s, key, p, n, n)
    ensures Quiet(s, p, key) && Handed(s, p) == Below(n)
  {
    forall c | c in Below(n) ensures c in Handed(s, p) {
      assert s.got[c] == c;
    }
  }
}
