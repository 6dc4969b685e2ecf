/** Route configuration, and the lookup from a Host header to an upstream. */
module Router {
  import opened Wrappers
  import opened Text

  datatype SocketAddr = SocketAddr(host: string, port: nat)

  datatype RouteConfig = RouteConfig(
    domains: seq<string>, upstream: Option<SocketAddr>, upstreams: Option<seq<SocketAddr>>,
    websocket: bool, hedgedRacing: Option<bool>)

  datatype ConfigError = NoRoutes | NoDomains(route: nat) | NoUpstream(route: nat)

  const FALLBACK := SocketAddr("127.0.0.1", 8080)

  // ---- upstream pool ----

  /** Every upstream a route names, the single one first. */
  function Named(r: RouteConfig): seq<SocketAddr> {
    (if r.upstream.Some? then [r.upstream.value] else []) + (if r.upstreams.Some? then r.upstreams.value else [])
  }

  /** The list without later repetitions. */
  function Distinct(all: seq<SocketAddr>): seq<SocketAddr> {
    if all == [] then []
    else
      var before, last := Distinct(all[..|all| - 1]), all[|all| - 1];
      if last in before then before else before + [last]
  }

  /** `Distinct` keeps every member once and keeps the first one first. */
  lemma {:induction false} DistinctKeepsEachOnce(all: seq<SocketAddr>)
    ensures forall u :: u in Distinct(all) <==> u in all
    ensures forall i, j :: 0 <= i < j < |Distinct(all)| ==> Distinct(all)[i] != Distinct(all)[j]
    ensures all != [] ==> Distinct(all) != [] && Distinct(all)[0] == all[0]
  {
    if all != [] {
      var init, last := all[..|all| - 1], all[|all| - 1];
      DistinctKeepsEachOnce(init);
      assert all == init + [last];
      assert init != [] ==> init[0] == all[0];
    }
  }

  method ResolvedUpstreams(r: RouteConfig) returns (list: seq<SocketAddr>)
    ensures list == Distinct(Named(r))
  {
    list := [];
    if r.upstream.Some? {
      list := list + [r.upstream.value];
    }
    ghost var head := list;
    assert Named(r)[..|head|] == head && Distinct(head) == head by {
      if head != [] { assert head[..0] == []; }
    }
    if r.upstreams.Some? {
      var ups := r.upstreams.value;
      for i := 0 to |ups|
        invariant list == Distinct(Named(r)[..|head| + i])
      {
        var seen := Named(r)[..|head| + i + 1];
        assert seen[..|head| + i] == Named(r)[..|head| + i] && seen[|head| + i] == ups[i];
        if ups[i] !in list {
          list := list + [ups[i]];
        }
      }
    }
    assert Named(r)[..|Named(r)|] == Named(r);
  }

  /** A configuration is accepted exactly when it has routes and each has a domain and an upstream. */
  method Validate(routes: seq<RouteConfig>) returns (r: Result<(), ConfigError>)
    ensures r.Ok? <==>
      routes != [] && forall i :: 0 <= i < |routes| ==> routes[i].domains != [] && Named(routes[i]) != []
    ensures r.Err? && r.error != NoRoutes ==> r.error.route < |routes|
  {
    if routes == [] {
      return Err(NoRoutes);
    }
    for i := 0 to |routes|
      invariant forall k :: 0 <= k < i ==> routes[k].domains != [] && Named(routes[k]) != []
    {
      if routes[i].domains == [] {
        return Err(NoDomains(i));
      }
      var list := ResolvedUpstreams(routes[i]);
      DistinctKeepsEachOnce(Named(routes[i]));
      if list == [] {
        return Err(NoUpstream(i));
      }
      assert Named(routes[i]) != [] by { assert list[0] in Named(routes[i]); }
    }
    return Ok(());
  }

  // ---- the router ----

  datatype UpstreamTarget = UpstreamTarget(
    addr: SocketAddr, addrs: seq<SocketAddr>, websocketAllowed: bool, primaryHost: string, hedgedRacing: bool)

  function TargetOf(r: RouteConfig): (t: UpstreamTarget)
    ensures t.addrs != []
  {
    var addrs := if Distinct(Named(r)) == [] then [FALLBACK] else Distinct(Named(r));
    UpstreamTarget(addrs[0], addrs, r.websocket, if r.domains == [] then "" else r.domains[0],
                   if r.hedgedRacing.Some? then r.hedgedRacing.value else |addrs| > 1)
  }

  /** A route's target: its first upstream, or 127.0.0.1:8080; it races as asked, by default with several upstreams. */
  lemma TargetExactly(r: RouteConfig)
    ensures var t := TargetOf(r);
      && t.addr == t.addrs[0] && t.websocketAllowed == r.websocket
      && (Named(r) == [] ==> t.addrs == [SocketAddr("127.0.0.1", 8080)])
      && (Named(r) != [] ==> t.addr == Named(r)[0] && forall u :: u in t.addrs <==> u in Named(r))
      && (r.domains != [] ==> t.primaryHost == r.domains[0]) && (r.domains == [] ==> t.primaryHost == "")
      && (r.hedgedRacing.Some? ==> t.hedgedRacing == r.hedgedRacing.value)
      && (r.hedgedRacing.None? ==> (t.hedgedRacing <==> |t.addrs| >= 2))
  {
    DistinctKeepsEachOnce(Named(r));
  }

  function DomainKey(domain: string): string { AsciiLower(Trim(domain)) }

  function Keys(r: RouteConfig): seq<string> { MapText(DomainKey, r.domains) }

  predicate Lists(r: RouteConfig, key: string) { key in Keys(r) }

  /** The target of the last route that lists the key. */
  function LastListing(routes: seq<RouteConfig>, key: string): Option<UpstreamTarget> {
    if routes == [] then None
    else if Lists(routes[|routes| - 1], key) then Some(TargetOf(routes[|routes| - 1]))
    else LastListing(routes[..|routes| - 1], key)
  }

  datatype UpstreamRouter = UpstreamRouter(routes: map<string, UpstreamTarget>, defaultTarget: Option<UpstreamTarget>)

  predicate Agrees(m: map<string, UpstreamTarget>, key: string, want: Option<UpstreamTarget>) {
    if want.None? then key !in m else key in m && m[key] == want.value
  }

  method InsertAll(m: map<string, UpstreamTarget>, keys: seq<string>, target: UpstreamTarget)
    returns (m': map<string, UpstreamTarget>)
    ensures forall key :: key in keys ==> key in m' && m'[key] == target
    ensures forall key :: key !in keys ==> (key in m' <==> key in m) && (key in m ==> m'[key] == m[key])
  {
    m' := m;
    for i := 0 to |keys|
      invariant m'.Keys == m.Keys + set k | k in keys[..i]
      invariant forall key :: key in m' ==> m'[key] == if key in keys[..i] then target else m[key]
    {
      assert keys[..i + 1] == keys[..i] + [keys[i]];
      m' := m'[keys[i] := target];
    }
    assert keys[..|keys|] == keys;
  }

  method BuildTarget(r: RouteConfig) returns (target: UpstreamTarget)
    ensures target == TargetOf(r)
  {
    var addrs := ResolvedUpstreams(r);
    if addrs == [] {
      addrs := [FALLBACK];
    }
    var racing := if r.hedgedRacing.Some? then r.hedgedRacing.value else |addrs| > 1;
    target := UpstreamTarget(addrs[0], addrs, r.websocket, if r.domains == [] then "" else r.domains[0], racing);
  }

  method New(routes: seq<RouteConfig>) returns (router: UpstreamRouter)
    ensures forall key :: Agrees(router.routes, key, LastListing(routes, key))
    ensures router.defaultTarget == if routes == [] then None else Some(TargetOf(routes[0]))
  {
    var m: map<string, UpstreamTarget>, defaultTarget := map[], None;
    for i := 0 to |routes|
      invariant forall key :: Agrees(m, key, LastListing(routes[..i], key))
      invariant defaultTarget == if i == 0 then None else Some(TargetOf(routes[0]))
    {
      var target := BuildTarget(routes[i]);
      if defaultTarget.None? {
        defaultTarget := Some(target);
      }
      assert routes[..i + 1][..i] == routes[..i];
      m := InsertAll(m, Keys(routes[i]), target);
    }
    assert routes[..|routes|] == routes;
    router := UpstreamRouter(m, defaultTarget);
  }

  function UpTo(s: string, c: char): (r: string)
    ensures c !in r
  {
    if s == [] || s[0] == c then [] else [s[0]] + UpTo(s[1..], c)
  }

  function CleanHost(raw: string): string {
    AsciiLower(UpTo(Trim(raw), ':'))
  }

  function Resolve(router: UpstreamRouter, rawHost: string): Option<UpstreamTarget> {
    var clean := CleanHost(rawHost);
    if clean in router.routes then Some(router.routes[clean]) else router.defaultTarget
  }

  lemma LowerKeepsColons(s: string)
    ensures ':' in AsciiLower(s) <==> ':' in s
  {
    if ':' in s {
      var i :| 0 <= i < |s| && s[i] == ':';
      assert AsciiLower(s)[i] == ':';
    }
  }

  /**
   A host goes to the last route that lists its name, whatever the case or port, and otherwise
   to the first route; it goes nowhere only when there are no routes.
   */
  lemma ResolveIsLastListing(routes: seq<RouteConfig>, router: UpstreamRouter, rawHost: string)
    requires forall key :: Agrees(router.routes, key, LastListing(routes, key))
    requires router.defaultTarget == if routes == [] then None else Some(TargetOf(routes[0]))
    ensures Resolve(router, rawHost) ==
      if LastListing(routes, CleanHost(rawHost)).Some? then LastListing(routes, CleanHost(rawHost))
      else if routes == [] then None else Some(TargetOf(routes[0]))
  {
    assert Agrees(router.routes, CleanHost(rawHost), LastListing(routes, CleanHost(rawHost)));
  }

  lemma {:induction false} UpToOfJoined(name: string, rest: string, c: char)
    requires c !in name
    ensures UpTo(name + [c] + rest, c) == name && UpTo(name, c) == name
  {
    var s := name + [c] + rest;
    if name != [] {
      assert s[1..] == name[1..] + [c] + rest;
      UpToOfJoined(name[1..], rest, c);
      assert [name[0]] + name[1..] == name;
    }
  }

  predicate Tight(s: string) {
    s != [] && !IsWhitespace(s[0]) && !IsWhitespace(s[|s| - 1])
  }

  /** A domain is found under its own name, with or without a port, exactly when its text has no colon. */
  lemma DomainReachableExactlyWithoutColon(domain: string, port: string)
    requires Tight(domain) && Tight(port)
    ensures CleanHost(domain) == DomainKey(domain) <==> ':' !in domain
    ensures CleanHost(domain + [':'] + port) == DomainKey(domain) <==> ':' !in domain
  {
    TrimOfClean(domain);
    var joined := domain + [':'] + port;
    TrimOfClean(joined);
    LowerKeepsColons(domain);
    LowerKeepsColons(UpTo(domain, ':'));
    LowerKeepsColons(UpTo(joined, ':'));
    if ':' !in domain {
      UpToOfJoined(domain, port, ':');
    }
  }

  lemma {:induction false} ListedSomewhere(routes: seq<RouteConfig>, key: string, k: nat)
    requires k < |routes| && Lists(routes[k], key)
    ensures LastListing(routes, key).Some?
  {
    if !Lists(routes[|routes| - 1], key) {
      ListedSomewhere(routes[..|routes| - 1], key, k);
    }
  }

  /** A configured domain without a colon is served, with or without port, by the last route that lists it. */
  lemma ListedDomainIsServed(routes: seq<RouteConfig>, router: UpstreamRouter, k: nat, i: nat, port: string)
    requires forall key :: Agrees(router.routes, key, LastListing(routes, key))
    requires k < |routes| && i < |routes[k].domains|
    requires Tight(routes[k].domains[i]) && ':' !in routes[k].domains[i] && Tight(port)
    ensures var domain := routes[k].domains[i];
      && LastListing(routes, DomainKey(domain)).Some?
      && Resolve(router, domain) == LastListing(routes, DomainKey(domain))
      && Resolve(router, domain + [':'] + port) == LastListing(routes, DomainKey(domain))
  {
    var domain := routes[k].domains[i];
    DomainReachableExactlyWithoutColon(domain, port);
    MapByIndex(DomainKey, routes[k].domains, i);
    assert Keys(routes[k])[i] in Keys(routes[k]);
    ListedSomewhere(routes, DomainKey(domain), k);
    assert Agrees(router.routes, DomainKey(domain), LastListing(routes, DomainKey(domain)));
  }

  lemma {:induction false} UpToOfLower(s: string, c: char)
    requires !('A' <= c <= 'Z') && !('a' <= c <= 'z')
    ensures AsciiLower(UpTo(AsciiLower(s), c)) == AsciiLower(UpTo(s, c))
  {
    if s != [] && s[0] != c {
      assert AsciiLower(s)[1..] == AsciiLower(s[1..]);
      UpToOfLower(s[1..], c);
      assert AsciiLower(s)[0] != c;
    } else if s != [] {
      assert AsciiLower(s)[0] == c;
    }
  }

  lemma LowerKeepsSpace(c: char)
    ensures IsWhitespace(ToAsciiLower(c)) <==> IsWhitespace(c)
  {
  }

  lemma {:induction false} TrimStartOfLower(s: string)
    ensures TrimStart(AsciiLower(s)) == AsciiLower(TrimStart(s))
  {
    if s != [] {
      LowerKeepsSpace(s[0]);
      assert AsciiLower(s)[1..] == AsciiLower(s[1..]);
      TrimStartOfLower(s[1..]);
    }
  }

  lemma {:induction false} TrimEndOfLower(s: string)
    ensures TrimEnd(AsciiLower(s)) == AsciiLower(TrimEnd(s))
  {
    if s != [] {
      LowerKeepsSpace(s[|s| - 1]);
      assert AsciiLower(s)[..|s| - 1] == AsciiLower(s[..|s| - 1]);
      TrimEndOfLower(s[..|s| - 1]);
    }
  }

  lemma TrimOfLower(s: string)
    ensures Trim(AsciiLower(s)) == AsciiLower(Trim(s))
  {
    TrimStartOfLower(s);
    TrimEndOfLower(TrimStart(s));
  }

  lemma LowerTwice(s: string)
    ensures AsciiLower(AsciiLower(s)) == AsciiLower(s)
  {
  }

  /** The case of a host or a configured domain does not matter. */
  lemma CaseIsIgnored(router: UpstreamRouter, text: string)
    ensures CleanHost(AsciiLower(text)) == CleanHost(text) && DomainKey(AsciiLower(text)) == DomainKey(text)
    ensures Resolve(router, AsciiLower(text)) == Resolve(router, text)
  {
    TrimOfLower(text);
    UpToOfLower(Trim(text), ':');
    LowerTwice(Trim(text));
  }

  /** A configured domain with a colon is under a key no Host header is ever looked up by. */
  lemma ColonDomainIsNeverLookedUp(domain: string, rawHost: string)
    requires ':' in Trim(domain)
    ensures CleanHost(rawHost) != DomainKey(domain)
  {
    LowerKeepsColons(Trim(domain));
    LowerKeepsColons(UpTo(Trim(rawHost), ':'));
  }
}
