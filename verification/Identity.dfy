/** Who a request is from: API key, forwarded address or connection address, and when two clients share a key. */
module Identity {
  import opened Prelude
  import opened Keys
  import F = Factory

  // ----- strings.TrimSpace -----

  /** unicode.IsSpace */
  predicate Space(c: char) {
    '\t' <= c <= '\r' || c == ' ' || c == '\U{0085}' || c == '\U{00A0}' || c == '\U{1680}'
    || '\U{2000}' <= c <= '\U{200A}' || c == '\U{2028}' || c == '\U{2029}' || c == '\U{202F}'
    || c == '\U{205F}' || c == '\U{3000}'
  }

  predicate Blank(s: string) { forall i :: 0 <= i < |s| ==> Space(s[i]) }

  predicate Trimmed(s: string) { s == "" || (!Space(s[0]) && !Space(s[|s| - 1])) }

  function TrimLeft(s: string): (t: string)
    ensures t == "" || !Space(t[0])
  {
    if s != "" && Space(s[0]) then TrimLeft(s[1..]) else s
  }

  function TrimRight(s: string): (t: string)
    ensures t == "" || !Space(t[|t| - 1])
    ensures t <= s
  {
    if s != "" && Space(s[|s| - 1]) then TrimRight(s[..|s| - 1]) else s
  }

  function TrimSpace(s: string): (t: string)
    ensures Trimmed(t)
  {
    TrimRight(TrimLeft(s))
  }

  lemma {:induction false} TrimLeftSkips(pad: string, s: string)
    requires Blank(pad) && (s == "" || !Space(s[0]))
    ensures TrimLeft(pad + s) == s
  {
    if pad == "" {
      assert pad + s == s;
    } else {
      assert (pad + s)[1..] == pad[1..] + s;
      TrimLeftSkips(pad[1..], s);
    }
  }

  lemma {:induction false} TrimRightSkips(s: string, pad: string)
    requires Blank(pad) && (s == "" || !Space(s[|s| - 1]))
    ensures TrimRight(s + pad) == s
  {
    if pad == "" {
      assert s + pad == s;
    } else {
      var n := |pad| - 1;
      assert (s + pad)[..|s + pad| - 1] == s + pad[..n];
      TrimRightSkips(s, pad[..n]);
    }
  }

  /** Blanks around a text are all that TrimSpace removes. */
  lemma TrimSpaceSkips(before: string, s: string, after: string)
    requires Blank(before) && Trimmed(s) && Blank(after)
    ensures TrimSpace(before + s + after) == s
  {
    if s == "" {
      assert before + s + after == (before + after) + "";
      TrimLeftSkips(before + after, "");
    } else {
      assert before + s + after == before + (s + after);
      TrimLeftSkips(before, s + after);
      TrimRightSkips(s, after);
    }
  }

  // ----- identify -----

  datatype Headers = Headers(apiKey: string, authorization: string, forwarded: string, clientIP: string)

  /** What a successful FindByHash returns for a raw key. */
  datatype Found = Found(id: string, keyPrefix: string, policy: F.Policy)

  datatype Who = Who(identity: string, kind: string, value: string, policy: Option<F.Policy>)

  function BearerToken(header: string): string {
    if "Bearer " <= header then TrimSpace(header[7..]) else ""
  }

  function ExtractKey(h: Headers): string {
    var key := TrimSpace(h.apiKey);
    if key != "" then key else BearerToken(h.authorization)
  }

  /** strings.Split(s, ",")[0] */
  function FirstField(s: string): (field: string)
    ensures ',' !in field && field <= s
    ensures field == s || (|field| < |s| && s[|field|] == ',')
  {
    if s == "" || s[0] == ',' then "" else [s[0]] + FirstField(s[1..])
  }

  /** None is the error that ends the request with status 401. `find` looks a raw key up by its hash. */
  function Identify(h: Headers, find: string -> Option<Found>): Option<Who> {
    var raw := ExtractKey(h);
    if raw != "" then
      match find(raw)
      case None => None
      case Some(key) => Some(Who("key:" + key.id, "api_key", key.keyPrefix, Some(key.policy)))
    else
      var forwarded := TrimSpace(h.forwarded);
      var ip := if forwarded != "" then TrimSpace(FirstField(forwarded)) else h.clientIP;
      if ip == "" then None else Some(Who("ip:" + ip, "ip", ip, None))
  }

  /** What can stand in the forwarded header as a client's address. */
  predicate Address(a: string) { a != "" && Trimmed(a) && ',' !in a }

  lemma {:induction false} FirstFieldOf(a: string, rest: string)
    requires ',' !in a && (rest == "" || rest[0] == ',')
    ensures FirstField(a + rest) == a
  {
    if a == "" {
      assert a + rest == rest;
    } else {
      assert (a + rest)[1..] == a[1..] + rest;
      FirstFieldOf(a[1..], rest);
    }
  }

  lemma TrimsTo(a: string, after: string)
    requires Trimmed(a) && Blank(after)
    ensures TrimSpace(a + after) == a
    ensures a + "" == a
  {
    TrimSpaceSkips("", a, after);
    assert "" + a + after == a + after;
  }

  lemma {:induction false} CommaSurvives(s: string)
    requires s != "" && s[0] == ','
    ensures TrimRight(s) != "" && TrimRight(s)[0] == ',' && TrimRight(s) <= s
  {
    if Space(s[|s| - 1]) {
      assert |s| > 1;
      CommaSurvives(s[..|s| - 1]);
    }
  }

  /** The first entry of the forwarded header names the client, whatever blanks surround it and whatever
      proxies follow; the connection's own address is then ignored. */
  lemma ForwardedNamesTheClient(h: Headers, find: string -> Option<Found>, before: string, a: string, after: string,
                                proxies: string)
    requires Keyless(h) && Address(a) && Blank(before) && Blank(after)
    requires h.forwarded == before + a + after + proxies && (proxies == "" || proxies[0] == ',')
    ensures Identify(h, find) == Some(Who("ip:" + a, "ip", a, None))
  {
    KeylessIff(h);
    if proxies == "" {
      assert h.forwarded == before + a + after;
      TrimSpaceSkips(before, a, after);
      FirstFieldOf(a, "");
      TrimsTo(a, "");
    } else {
      var tail := TrimRightParts(proxies);
      var rest := TrimRight(proxies);
      CommaSurvives(proxies);
      assert h.forwarded == before + (a + after + rest) + tail;
      TrimSpaceSkips(before, a + after + rest, tail);
      FirstFieldOf(a + after, rest);
      TrimsTo(a, after);
    }
  }

  /** The first character that is not blank is a comma. */
  ghost predicate LeadsWithComma(s: string) {
    exists i :: 0 <= i < |s| && s[i] == ',' && Blank(s[..i])
  }

  lemma Reassociate(a: string, b: string, c: string)
    ensures a + (b + c) == (a + b) + c
  {
  }

  lemma {:induction false} TrimLeftParts(s: string) returns (pad: string)
    ensures Blank(pad) && s == pad + TrimLeft(s)
  {
    if s != "" && Space(s[0]) {
      var rest := TrimLeftParts(s[1..]);
      pad := [s[0]] + rest;
      Reassociate([s[0]], rest, TrimLeft(s));
      assert s == [s[0]] + s[1..];
    } else {
      pad := "";
    }
  }

  lemma {:induction false} TrimRightParts(s: string) returns (pad: string)
    ensures Blank(pad) && s == TrimRight(s) + pad
  {
    if s != "" && Space(s[|s| - 1]) {
      var rest := TrimRightParts(s[..|s| - 1]);
      pad := rest + [s[|s| - 1]];
      assert s == s[..|s| - 1] + [s[|s| - 1]];
    } else {
      pad := "";
    }
  }

  /** A text is blanks, what TrimSpace leaves, and blanks. */
  lemma TrimSpaceParts(s: string) returns (before: string, after: string)
    ensures Blank(before) && Blank(after) && s == before + TrimSpace(s) + after
  {
    before := TrimLeftParts(s);
    after := TrimRightParts(TrimLeft(s));
    assert s == before + (TrimSpace(s) + after);
  }

  lemma BlankUpTo(s: string, n: nat)
    requires n <= |s| && Blank(s[..n])
    ensures forall i :: 0 <= i < n ==> Space(s[i])
  {
    forall i | 0 <= i < n ensures Space(s[i]) {
      assert s[..n][i] == s[i];
    }
  }

  lemma CommaFirst(s: string)
    ensures LeadsWithComma(s) <==> TrimSpace(s) != "" && TrimSpace(s)[0] == ','
    ensures Blank(s) <==> TrimSpace(s) == ""
  {
    var before, after := TrimSpaceParts(s);
    var t, n := TrimSpace(s), |before|;
    if t != "" {
      assert s[n] == t[0] && !Space(s[n]);
      assert s[..n] == before;
      if LeadsWithComma(s) {
        var i :| 0 <= i < |s| && s[i] == ',' && Blank(s[..i]);
        BlankUpTo(s, i);
        BlankUpTo(s, n);
        assert i == n;
      }
    } else {
      assert s == before + after;
    }
  }

  lemma {:induction false} FieldIsBlankIff(t: string)
    requires Trimmed(t) && t != ""
    ensures TrimSpace(FirstField(t)) == "" <==> t[0] == ','
  {
    var field := FirstField(t);
    CommaFirst(field);
    if t[0] != ',' {
      assert |field| > 0 && field[0] == t[0];
    }
  }

  /** A request without an API key has no identity exactly when the forwarded header's first entry is
      missing before a comma, or the header is blank and the connection has no address either. */
  lemma NoIdentityIff(h: Headers, find: string -> Option<Found>)
    requires Keyless(h)
    ensures Identify(h, find).None? <==> LeadsWithComma(h.forwarded) || (Blank(h.forwarded) && h.clientIP == "")
  {
    KeylessIff(h);
    CommaFirst(h.forwarded);
    if TrimSpace(h.forwarded) != "" {
      FieldIsBlankIff(TrimSpace(h.forwarded));
    }
  }

  /** Such a header loses a client whose connection address is known. */
  lemma LeadingCommaLosesTheClient(find: string -> Option<Found>)
    ensures Identify(Headers("", "", ",10.0.0.1", "10.0.0.1"), find) == None
  {
    var h := Headers("", "", ",10.0.0.1", "10.0.0.1");
    assert h.forwarded[0] == ',' && Blank(h.forwarded[..0]);
    NoIdentityIff(h, find);
  }

  // ----- Which key a request carries, if any -----

  /** A header text that is this key with blanks around it. */
  ghost predicate Padded(text: string, key: string) {
    exists before: string, after: string :: Blank(before) && Blank(after) && text == before + key + after
  }

  /** The request's key: the one in X-API-Key, whatever Authorization holds, or without one there the bearer token. */
  ghost predicate Carries(h: Headers, key: string) {
    && key != "" && Trimmed(key)
    && (Padded(h.apiKey, key)
        || (Blank(h.apiKey) && "Bearer " <= h.authorization && Padded(h.authorization[7..], key)))
  }

  /** X-API-Key is blank, and Authorization bears no token that is not. */
  predicate Keyless(h: Headers) {
    Blank(h.apiKey) && ("Bearer " <= h.authorization ==> Blank(h.authorization[7..]))
  }

  lemma PaddedTrims(text: string, key: string)
    requires Padded(text, key) && Trimmed(key)
    ensures TrimSpace(text) == key
  {
    var before: string, after: string :| Blank(before) && Blank(after) && text == before + key + after;
    TrimSpaceSkips(before, key, after);
  }

  /** The key in X-API-Key is the request's key, blanks around it removed, whatever Authorization holds. */
  lemma HeaderKeyWins(h: Headers, before: string, key: string, after: string)
    requires h.apiKey == before + key + after && Blank(before) && Blank(after) && Trimmed(key) && key != ""
    ensures ExtractKey(h) == key
  {
    TrimSpaceSkips(before, key, after);
  }

  /** Without an X-API-Key header the bearer token is the key, blanks around it removed. */
  lemma BearerIsFallback(h: Headers, before: string, key: string, after: string)
    requires Blank(h.apiKey) && Blank(before) && Trimmed(key) && Blank(after)
    requires h.authorization == "Bearer " + (before + key + after)
    ensures ExtractKey(h) == key
  {
    CommaFirst(h.apiKey);
    assert h.authorization[7..] == before + key + after;
    TrimSpaceSkips(before, key, after);
  }

  lemma KeyIsExtracted(h: Headers, key: string)
    requires Carries(h, key)
    ensures ExtractKey(h) == key
  {
    if Padded(h.apiKey, key) {
      PaddedTrims(h.apiKey, key);
    } else {
      CommaFirst(h.apiKey);
      PaddedTrims(h.authorization[7..], key);
    }
  }

  /** No key is extracted exactly from the requests that carry none; all others carry exactly the one extracted. */
  lemma KeylessIff(h: Headers)
    ensures ExtractKey(h) == "" <==> Keyless(h)
    ensures ExtractKey(h) != "" ==> Carries(h, ExtractKey(h))
  {
    CommaFirst(h.apiKey);
    var b, a := TrimSpaceParts(h.apiKey);
    assert TrimSpace(h.apiKey) != "" ==> Padded(h.apiKey, TrimSpace(h.apiKey));
    if "Bearer " <= h.authorization {
      CommaFirst(h.authorization[7..]);
      var before, after := TrimSpaceParts(h.authorization[7..]);
      assert Padded(h.authorization[7..], TrimSpace(h.authorization[7..]));
    }
  }

  /** A request with a known key is its holder, with the key's own policy, whatever addresses it comes with; with an
      unknown one it is nobody. */
  lemma KeyHolderIsKnown(h: Headers, key: string, find: string -> Option<Found>)
    requires Carries(h, key)
    ensures find(key).None? ==> Identify(h, find) == None
    ensures find(key).Some? ==>
              var found := find(key).value;
              Identify(h, find) == Some(Who("key:" + found.id, "api_key", found.keyPrefix, Some(found.policy)))
  {
    KeyIsExtracted(h, key);
  }

  /** Neither key nor forwarded header, but a connection address. */
  predicate Direct(h: Headers) { Keyless(h) && Blank(h.forwarded) && h.clientIP != "" }

  /** Such a request is its connection address, without a policy of its own. */
  lemma DirectClientIsItsAddress(h: Headers, find: string -> Option<Found>)
    requires Direct(h)
    ensures Identify(h, find) == Some(Who("ip:" + h.clientIP, "ip", h.clientIP, None))
  {
    KeylessIff(h);
    CommaFirst(h.forwarded);
  }

  /** The blanks are the usual ones. */
  lemma UsualBlanks(find: string -> Option<Found>)
    ensures Identify(Headers("", "", " \t::1\r\n, ::2 ", "::3"), find) == Some(Who("ip:" + "::1", "ip", "::1", None))
  {
    var h, a := Headers("", "", " \t::1\r\n, ::2 ", "::3"), "::1";
    assert Address(a) && Blank(" \t") && Blank("\r\n");
    assert h.forwarded == " \t" + a + "\r\n" + ", ::2 ";
    ForwardedNamesTheClient(h, find, " \t", a, "\r\n", ", ::2 ");
  }

  // ----- Which clients share a limiter key -----

  /** A request with a known API key and one without a key never share a limiter key, on any routes. */
  lemma KindsNeverShare(h: Headers, key: string, g: Headers, find: string -> Option<Found>, r: string, s: string)
    requires Carries(h, key) && Keyless(g) && find(key).Some? && Identify(g, find).Some?
    ensures Identify(h, find).Some?
    ensures ClientKey(Identify(h, find).value.identity, r) != ClientKey(Identify(g, find).value.identity, s)
  {
    KeyIsExtracted(h, key);
    KeylessIff(g);
    assert ClientKey(Identify(h, find).value.identity, r)[0] == 'k';
    assert ClientKey(Identify(g, find).value.identity, s)[0] == 'i';
  }

  /** On clean routes two requests with API keys share a limiter key only on one route and only for one stored key. */
  lemma HoldersShareIff(routes: set<string>, h: Headers, x: string, g: Headers, y: string,
                        find: string -> Option<Found>, r: string, s: string)
    requires Carries(h, x) && Carries(g, y) && find(x).Some? && find(y).Some?
    requires Clean(routes) && r in routes && s in routes
    ensures Identify(h, find).Some? && Identify(g, find).Some?
    ensures ClientKey(Identify(h, find).value.identity, r) == ClientKey(Identify(g, find).value.identity, s)
            <==> find(x).value.id == find(y).value.id && r == s
  {
    KeyHolderIsKnown(h, x, find);
    KeyHolderIsKnown(g, y, find);
    PrefixedShareIff(routes, "key:", find(x).value.id, r, find(y).value.id, s);
  }

  /** On clean routes two requests with neither key nor forwarded header share a limiter key only on one route and only
      for one connection address. */
  lemma DirectClientsShareIff(routes: set<string>, h: Headers, g: Headers, find: string -> Option<Found>, r: string,
                              s: string)
    requires Direct(h) && Direct(g) && Clean(routes) && r in routes && s in routes
    ensures Identify(h, find).Some? && Identify(g, find).Some?
    ensures ClientKey(Identify(h, find).value.identity, r) == ClientKey(Identify(g, find).value.identity, s)
            <==> h.clientIP == g.clientIP && r == s
  {
    DirectClientIsItsAddress(h, find);
    DirectClientIsItsAddress(g, find);
    PrefixedShareIff(routes, "ip:", h.clientIP, r, g.clientIP, s);
  }

  lemma PrefixedShareIff(routes: set<string>, prefix: string, x: string, r: string, y: string, s: string)
    requires Clean(routes) && r in routes && s in routes
    ensures ClientKey(prefix + x, r) == ClientKey(prefix + y, s) <==> x == y && r == s
  {
    if ClientKey(prefix + x, r) == ClientKey(prefix + y, s) {
      ClientKeyInjective(routes, prefix + x, r, prefix + y, s);
      assert x == (prefix + x)[|prefix|..] && y == (prefix + y)[|prefix|..];
    }
  }

  /** No two forwarded addresses share a limiter key on these routes. */
  ghost predicate AddressesApart(routes: set<string>) {
    forall a, r, b, s ::
      (Address(a) && Address(b) && r in routes && s in routes && ClientKey("ip:" + a, r) == ClientKey("ip:" + b, s)) ==>
        a == b && r == s
  }

  /** Route r is what can end an address, a colon, and route s. */
  predicate EndsAddress(r: string, s: string) {
    EndsIn(r, s) && var u := r[..|r| - |s| - 1]; u != "" && ',' !in u && !Space(u[|u| - 1])
  }

  lemma SharingEndsAddress(a: string, r: string, b: string, s: string)
    requires Address(b) && IsRoute(r) && |a| < |b|
    requires ClientKey("ip:" + a, r) == ClientKey("ip:" + b, s)
    ensures EndsAddress(r, s)
  {
    SharedKeyShape("ip:" + a, r, "ip:" + b, s);
    var u := r[..|r| - |s| - 1];
    assert b == ("ip:" + b)[3..] == a + ":" + u;
    assert u[|u| - 1] == b[|b| - 1];
    assert forall i :: 0 <= i < |u| ==> u[i] == b[|a| + 1 + i];
  }

  lemma EndingShares(r: string, s: string)
    requires EndsAddress(r, s)
    ensures var b := "a:" + r[..|r| - |s| - 1]; Address(b) && ClientKey("ip:a", r) == ClientKey("ip:" + b, s)
  {
    var u := r[..|r| - |s| - 1];
    assert r == u + ":" + s;
    assert ("ip:" + ("a:" + u)) + ":" + s == "ip:a" + ":" + r;
  }

  /** No two addresses a header can carry share a limiter key if and only if no route is the tail of an address,
      a colon, and another of the routes. */
  lemma AddressesShareIff(routes: set<string>)
    requires forall r :: r in routes ==> IsRoute(r)
    ensures AddressesApart(routes) <==> forall r, s :: r in routes && s in routes ==> !EndsAddress(r, s)
  {
    if r, s :| r in routes && s in routes && EndsAddress(r, s) {
      EndingShares(r, s);
      assert "ip:" + "a" == "ip:a" && Address("a");
      assert "a" != "a:" + r[..|r| - |s| - 1];
    } else {
      forall a, r, b, s | Address(a) && Address(b) && r in routes && s in routes
        && ClientKey("ip:" + a, r) == ClientKey("ip:" + b, s) ensures a == b && r == s
      {
        AddressesDiffer(a, r, b, s);
      }
    }
  }

  lemma AddressesDiffer(a: string, r: string, b: string, s: string)
    requires IsRoute(r) && IsRoute(s) && !EndsAddress(r, s) && !EndsAddress(s, r) && Address(a) && Address(b)
    requires ClientKey("ip:" + a, r) == ClientKey("ip:" + b, s)
    ensures a == b && r == s
  {
    if |a| < |b| {
      SharingEndsAddress(a, r, b, s);
    } else if |b| < |a| {
      SharingEndsAddress(b, s, a, r);
    }
    var k, l := ClientKey("ip:" + a, r), ClientKey("ip:" + b, s);
    assert a == k[3..|a| + 3] && b == l[3..|b| + 3] && r == k[|a| + 4..] && s == l[|b| + 4..];
  }
}
