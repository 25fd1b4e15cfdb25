/** The strings that name shared state: decimal numbers, factory keys and client keys, and when they collide. */
module Keys {
  import opened Prelude
  import M = Machine
  import K = Keyed

  // ----- Decimal numbers, as %d prints them -----

  function DigitOf(d: nat): (c: char)
    requires d < 10
    ensures '0' <= c <= '9'
  {
    '0' + d as char
  }

  function Digits(n: nat): (s: string)
    ensures |s| >= 1 && forall i :: 0 <= i < |s| ==> '0' <= s[i] <= '9'
  {
    if n < 10 then [DigitOf(n)] else Digits(n / 10) + [DigitOf(n % 10)]
  }

  function Decimal(n: int): (s: string)
    ensures ':' !in s && |s| >= 1
    ensures n < 0 ==> s[0] == '-' && s[1..] == Digits(-n)
    ensures n >= 0 ==> s[0] != '-' && s == Digits(n)
  {
    if n < 0 then ['-'] + Digits(-n) else Digits(n)
  }

  /** The number a string of digits stands for. */
  function Value(s: string): int {
    if s == [] then 0 else 10 * Value(s[..|s| - 1]) + (s[|s| - 1] as int - '0' as int)
  }

  lemma {:induction false} DigitsValue(n: nat)
    ensures Value(Digits(n)) == n
  {
    if n >= 10 {
      DigitsValue(n / 10);
      assert Digits(n)[..|Digits(n)| - 1] == Digits(n / 10);
    } else {
      assert Digits(n)[..0] == [];
    }
  }

  lemma {:induction false} DigitsInjective(m: nat, n: nat)
    requires Digits(m) == Digits(n)
    ensures m == n
  {
    DigitsValue(m);
    DigitsValue(n);
  }

  lemma DecimalInjective(m: int, n: int)
    requires Decimal(m) == Decimal(n)
    ensures m == n
  {
    if m < 0 && n < 0 {
      DigitsInjective(-m, -n);
    } else if m >= 0 && n >= 0 {
      DigitsInjective(m, n);
    }
  }

  // ----- Splitting at a colon -----

  /** A string whose last colon comes earlier is a different string. */
  lemma LastColonPlaced(a: string, d: string, b: string, e: string)
    requires |a| < |b| && ':' !in d
    ensures a + ":" + d != b + ":" + e
  {
    var s, t := a + ":" + d, b + ":" + e;
    if |s| == |t| {
      assert t[|b|] == ':' && s[|b|] == d[|b| - |a| - 1];
    }
  }

  /** The last colon splits a string in one way only. */
  lemma LastColon(a: string, d: string, b: string, e: string)
    requires a + ":" + d == b + ":" + e && ':' !in d && ':' !in e
    ensures a == b && d == e
  {
    var s, t := a + ":" + d, b + ":" + e;
    if |a| < |b| {
      LastColonPlaced(a, d, b, e);
    } else if |b| < |a| {
      LastColonPlaced(b, e, a, d);
    } else {
      assert a == s[..|a|] && b == t[..|b|] && d == s[|a| + 1..] && e == t[|b| + 1..];
    }
  }

  // ----- Factory keys -----

  /** The cache key FromPolicy formats; the backend is the same for every key of one factory. */
  function CacheKey(algorithm: string, limit: int, window: int, burst: int, backend: string): string {
    algorithm + ":" + Decimal(limit) + ":" + Decimal(window) + ":" + Decimal(burst) + (":" + backend)
  }

  /** Distinct parameters have distinct cache keys, whatever the algorithm string contains. */
  lemma CacheKeyInjective(a: string, l: int, w: int, b: int, a': string, l': int, w': int, b': int, backend: string)
    requires CacheKey(a, l, w, b, backend) == CacheKey(a', l', w', b', backend)
    ensures a == a' && l == l' && w == w' && b == b'
  {
    var s := a + ":" + Decimal(l) + ":" + Decimal(w) + ":" + Decimal(b);
    var t := a' + ":" + Decimal(l') + ":" + Decimal(w') + ":" + Decimal(b');
    assert s == (s + (":" + backend))[..|s|] && t == (t + (":" + backend))[..|t|];
    LastColon(a + ":" + Decimal(l) + ":" + Decimal(w), Decimal(b), a' + ":" + Decimal(l') + ":" + Decimal(w'),
              Decimal(b'));
    LastColon(a + ":" + Decimal(l), Decimal(w), a' + ":" + Decimal(l'), Decimal(w'));
    LastColon(a, Decimal(l), a', Decimal(l'));
    DecimalInjective(b, b');
    DecimalInjective(w, w');
    DecimalInjective(l, l');
  }

  // ----- Client keys -----

  /** The key the middleware passes to a limiter. */
  function ClientKey(identity: string, route: string): string { identity + ":" + route }

  /** Routes are paths. */
  predicate IsRoute(route: string) { |route| > 0 && route[0] == '/' }

  /** Route r is some text, a colon, and route s. */
  predicate EndsIn(r: string, s: string) { |r| > |s| && r[|r| - |s| - 1] == ':' && r[|r| - |s|..] == s }

  /** The routes the middleware is mounted on: none ends in a colon and another. */
  ghost predicate Clean(routes: set<string>) {
    (forall r :: r in routes ==> IsRoute(r)) && forall r, s :: r in routes && s in routes ==> !EndsIn(r, s)
  }

  /** A key shared by a shorter and a longer identity: the shorter one's route holds what is missing. */
  lemma SharedKeyShape(x: string, r: string, y: string, s: string)
    requires IsRoute(r) && ClientKey(x, r) == ClientKey(y, s) && |x| < |y|
    ensures EndsIn(r, s) && |r| > |s| + 1 && y == x + ":" + r[..|r| - |s| - 1]
  {
    var k, l, u := ClientKey(x, r), ClientKey(y, s), |y| - |x| - 1;
    assert r == k[|x| + 1..] == l[|x| + 1..];
    assert u == |r| - |s| - 1;
    assert r[u] == l[|y|] == ':' && r[u + 1..] == l[|y| + 1..] == s;
    assert y == l[..|y|] == k[..|y|];
    assert k[..|y|] == x + ":" + r[..u];
  }

  /** On clean routes no two clients share a key, whatever their identities contain. */
  lemma ClientKeyInjective(routes: set<string>, x: string, r: string, y: string, s: string)
    requires Clean(routes) && r in routes && s in routes
    requires ClientKey(x, r) == ClientKey(y, s)
    ensures x == y && r == s
  {
    if |x| < |y| {
      SharedKeyShape(x, r, y, s);
    } else if |y| < |x| {
      SharedKeyShape(y, s, x, r);
    }
    var k, l := ClientKey(x, r), ClientKey(y, s);
    assert x == k[..|x|] && y == l[..|y|] && r == k[|x| + 1..] && s == l[|y| + 1..];
  }

  ghost predicate NoneShare(routes: set<string>) {
    forall x, r, y, s :: r in routes && s in routes && ClientKey(x, r) == ClientKey(y, s) ==> x == y && r == s
  }

  lemma EndingsShare(r: string, s: string)
    requires EndsIn(r, s)
    ensures var u := r[..|r| - |s| - 1]; ClientKey("", r) == ClientKey(":" + u, s)
  {
    var u := r[..|r| - |s| - 1];
    assert r == u + ":" + s;
    assert "" + ":" + r == (":" + u) + ":" + s;
  }

  /** And exactly then: for any routes, no two clients share a key if and only if no route ends in a colon and
      another of the routes. */
  lemma NoneShareIff(routes: set<string>)
    requires forall r :: r in routes ==> IsRoute(r)
    ensures NoneShare(routes) <==> Clean(routes)
  {
    if Clean(routes) {
      forall x, r, y, s | r in routes && s in routes && ClientKey(x, r) == ClientKey(y, s) ensures x == y && r == s {
        ClientKeyInjective(routes, x, r, y, s);
      }
    } else {
      var r, s :| r in routes && s in routes && EndsIn(r, s);
      EndingsShare(r, s);
    }
  }

  /** The routes the server mounts the middleware on are clean. */
  lemma MountedRoutesAreClean()
    ensures Clean({"/v1/products"})
  {
  }

  /** The fixed window's key text for a client key and a window id. */
  function WindowKey(key: string, id: int): string { key + ":" + Decimal(id) }

  lemma WindowKeyInjective(routes: set<string>, x: string, r: string, i: int, y: string, s: string, j: int)
    requires Clean(routes) && r in routes && s in routes
    requires WindowKey(ClientKey(x, r), i) == WindowKey(ClientKey(y, s), j)
    ensures x == y && r == s && i == j
  {
    LastColon(ClientKey(x, r), Decimal(i), ClientKey(y, s), Decimal(j));
    DecimalInjective(i, j);
    ClientKeyInjective(routes, x, r, y, s);
  }

  // ----- Per-client isolation -----

  /** The calls of a run, under the keys they use: behind "rl:token:" or "rl:sliding:", or nothing in memory. */
  function Named<I>(prefix: string, calls: seq<((string, string), I)>): (xs: seq<(string, I)>)
    ensures |xs| == |calls|
  {
    if calls == [] then []
    else [(prefix + ClientKey(calls[0].0.0, calls[0].0.1), calls[0].1)] + Named(prefix, calls[1..])
  }

  /** Every call is for a mounted route. */
  ghost predicate OnRoutes<I>(calls: seq<((string, string), I)>, routes: set<string>) {
    forall i :: 0 <= i < |calls| ==> calls[i].0.1 in routes
  }

  lemma {:induction false} NamedKeepsClientsApart<I>(routes: set<string>, prefix: string,
                                                     calls: seq<((string, string), I)>, who: (string, string))
    requires Clean(routes) && who.1 in routes && OnRoutes(calls, routes)
    ensures var key := prefix + ClientKey(who.0, who.1);
            && K.For(Named(prefix, calls), key) == K.For(calls, who)
            && K.Inputs(Named(prefix, calls), key) == K.Inputs(calls, who)
    decreases |calls|
  {
    if calls != [] {
      NamedKeepsClientsApart(routes, prefix, calls[1..], who);
      var c := calls[0].0;
      var k, l := ClientKey(c.0, c.1), ClientKey(who.0, who.1);
      if prefix + k == prefix + l {
        assert k == (prefix + k)[|prefix|..] && l == (prefix + l)[|prefix|..];
        ClientKeyInjective(routes, c.0, c.1, who.0, who.1);
      }
      assert Named(prefix, calls)[1..] == Named(prefix, calls[1..]);
    }
  }

  /** What one client sees of any interleaved run of all clients, over any token bucket, sliding window or memory
      step, is what it would see alone. */
  lemma {:induction false} ClientsAreIsolated<S, I, O>(step: (Option<S>, I) -> (Option<S>, O), routes: set<string>,
                                                       prefix: string, store: map<string, S>,
                                                       calls: seq<((string, string), I)>, who: (string, string))
    requires Clean(routes) && who.1 in routes && OnRoutes(calls, routes)
    ensures var key := prefix + ClientKey(who.0, who.1);
            Filter(K.Outputs(step, store, Named(prefix, calls)), K.For(calls, who))
            == M.Outputs(step, K.Get(store, key), K.Inputs(calls, who))
  {
    NamedKeepsClientsApart(routes, prefix, calls, who);
    K.Isolation(step, store, Named(prefix, calls), prefix + ClientKey(who.0, who.1));
  }
}
