/** Choosing the backend server: two indexes built from the configuration, and the fallback by address. */
module Routing {
  import opened Wrappers
  import opened VarInt
  import opened Hostnames

  datatype Server = Server(name: string, publicIp: Bytes, hostnames: seq<Bytes>, backendIp: string)

  /** What a connection can ask for. */
  datatype Claim = ByHost(hostname: Bytes) | ByIp(ip: Bytes)

  predicate HasHost(hostnames: seq<Bytes>, h: Bytes) {
    hostnames != [] && (NormalizeHostname(hostnames[0]) == h || HasHost(hostnames[1..], h))
  }

  predicate Claims(s: Server, c: Claim) {
    match c
    case ByHost(h) => HasHost(s.hostnames, h)
    case ByIp(ip) => ip != [] && s.publicIp == ip
  }

  /** Linear scan: the last configured server with the claim. */
  function LastWith(servers: seq<Server>, c: Claim): Option<Server> {
    if servers == [] then None
    else if Claims(servers[|servers| - 1], c) then Some(servers[|servers| - 1])
    else LastWith(servers[..|servers| - 1], c)
  }

  ghost predicate IsLast(servers: seq<Server>, c: Claim, i: nat) {
    i < |servers| && Claims(servers[i], c) && forall j :: i < j < |servers| ==> !Claims(servers[j], c)
  }

  lemma {:induction false} LastIsFound(servers: seq<Server>, c: Claim, i: nat)
    requires IsLast(servers, c, i)
    ensures LastWith(servers, c) == Some(servers[i])
    decreases |servers|
  {
    var n := |servers| - 1;
    if i < n {
      assert !Claims(servers[n], c);
      assert forall j :: 0 <= j < n ==> servers[..n][j] == servers[j];
      LastIsFound(servers[..n], c, i);
    }
  }

  lemma {:induction false} FoundIsLast(servers: seq<Server>, c: Claim) returns (i: nat)
    requires LastWith(servers, c).Some?
    ensures IsLast(servers, c, i) && LastWith(servers, c) == Some(servers[i])
  {
    var n := |servers| - 1;
    if Claims(servers[n], c) {
      i := n;
    } else {
      i := FoundIsLast(servers[..n], c);
      assert forall j :: 0 <= j < n ==> servers[..n][j] == servers[j];
    }
  }

  /** The scan finds a server exactly when it is the last one configured that has the claim. */
  lemma LastWithIff(servers: seq<Server>, c: Claim, s: Server)
    ensures LastWith(servers, c) == Some(s) <==> exists i: nat :: IsLast(servers, c, i) && servers[i] == s
  {
    if LastWith(servers, c) == Some(s) {
      var i := FoundIsLast(servers, c);
    }
    if i: nat :| IsLast(servers, c, i) && servers[i] == s {
      LastIsFound(servers, c, i);
    }
  }

  lemma {:induction false} LastWithNone(servers: seq<Server>, c: Claim)
    ensures LastWith(servers, c) == None <==> forall i :: 0 <= i < |servers| ==> !Claims(servers[i], c)
  {
    if servers != [] {
      var n := |servers| - 1;
      LastWithNone(servers[..n], c);
      assert forall i :: 0 <= i < n ==> servers[..n][i] == servers[i];
    }
  }

  // ---- the order of the configuration ----

  /** Whoever has the claim is one and the same server. */
  ghost predicate Unambiguous(servers: seq<Server>, c: Claim) {
    forall i, j :: 0 <= i < |servers| && 0 <= j < |servers| && Claims(servers[i], c) && Claims(servers[j], c) ==> servers[i] == servers[j]
  }

  lemma UnambiguousIsOrderFree(servers: seq<Server>, permuted: seq<Server>, c: Claim)
    requires multiset(servers) == multiset(permuted) && Unambiguous(servers, c)
    ensures LastWith(permuted, c) == LastWith(servers, c)
  {
    LastWithNone(servers, c);
    LastWithNone(permuted, c);
    assert forall s :: s in servers <==> s in multiset(servers);
    assert forall s :: s in permuted <==> s in multiset(permuted);
    if LastWith(permuted, c).Some? {
      var i := FoundIsLast(permuted, c);
      assert permuted[i] in servers;
      var k :| 0 <= k < |servers| && servers[k] == permuted[i];
      var j := FoundIsLast(servers, c);
    } else {
      forall i | 0 <= i < |servers| ensures !Claims(servers[i], c) {
        assert servers[i] in permuted;
      }
    }
  }

  /** Moving one server to the end makes it the one that is found. */
  lemma MovedToEnd(servers: seq<Server>, i: nat, c: Claim) returns (permuted: seq<Server>)
    requires i < |servers| && Claims(servers[i], c)
    ensures multiset(permuted) == multiset(servers) && LastWith(permuted, c) == Some(servers[i])
  {
    permuted := servers[..i] + servers[i + 1..] + [servers[i]];
    assert servers == servers[..i] + [servers[i]] + servers[i + 1..];
  }

  /** A claim is answered the same for every order of the servers exactly when it is unambiguous. */
  lemma OrderMattersIff(servers: seq<Server>, c: Claim)
    ensures (forall permuted :: multiset(permuted) == multiset(servers) ==> LastWith(permuted, c) == LastWith(servers, c))
       <==> Unambiguous(servers, c)
  {
    if Unambiguous(servers, c) {
      forall permuted | multiset(permuted) == multiset(servers) ensures LastWith(permuted, c) == LastWith(servers, c) {
        UnambiguousIsOrderFree(servers, permuted, c);
      }
    } else {
      var i, j :| 0 <= i < |servers| && 0 <= j < |servers| && Claims(servers[i], c) && Claims(servers[j], c) && servers[i] != servers[j];
      var first := MovedToEnd(servers, i, c);
      var second := MovedToEnd(servers, j, c);
      assert multiset(first) == multiset(servers) && multiset(second) == multiset(servers);
      assert LastWith(first, c) != LastWith(second, c);
    }
  }

  // ---- resolving ----

  datatype Kind = HostnameRoute | FallbackRoute | OriginalIpRoute | UnknownHostname | NoRoute

  datatype Route = Route(server: Option<Server>, key: Bytes, kind: Kind)

  function TrimBrackets(s: Bytes): Bytes {
    if s != [] && (s[0] == 91 || s[0] == 93) then TrimBrackets(s[1..])
    else if s != [] && (s[|s| - 1] == 91 || s[|s| - 1] == 93) then TrimBrackets(s[..|s| - 1])
    else s
  }

  /** The canonical text of a hostname that is an IP address, perhaps in brackets; empty otherwise. `canonical` is
      net.ParseIP followed by String. */
  function NormalizeIPLikeHost(canonical: Bytes -> Option<Bytes>, hostname: Bytes): Bytes {
    canonical(TrimBrackets(hostname)).GetOr([])
  }

  predicate ShouldFallbackToOriginalIP(canonical: Bytes -> Option<Bytes>, hostname: Bytes, originalIp: Bytes) {
    hostname == [] || (NormalizeIPLikeHost(canonical, hostname) != [] && NormalizeIPLikeHost(canonical, hostname) == originalIp)
  }

  /** The rule as a scan of the configuration; `hostname` is None after a handshake error. */
  function ResolveByScan(servers: seq<Server>, canonical: Bytes -> Option<Bytes>, hostname: Option<Bytes>, originalIp: Bytes): Route {
    match hostname
    case Some(h) =>
      var named := LastWith(servers, ByHost(h));
      if named.Some? then Route(named, h, HostnameRoute)
      else if ShouldFallbackToOriginalIP(canonical, h, originalIp) && LastWith(servers, ByIp(originalIp)).Some?
      then Route(LastWith(servers, ByIp(originalIp)), originalIp, FallbackRoute)
      else Route(None, h, UnknownHostname)
    case None =>
      var atIp := LastWith(servers, ByIp(originalIp));
      Route(atIp, originalIp, if atIp.Some? then OriginalIpRoute else NoRoute)
  }

  /** Some server is configured at the address the client connected to. */
  ghost predicate ServedAt(servers: seq<Server>, originalIp: Bytes) {
    originalIp != [] && exists i :: 0 <= i < |servers| && servers[i].publicIp == originalIp
  }

  /** A parsed hostname is rejected exactly when no server has it configured and it neither is empty nor the literal of the
      address connected to, or nobody is served there. In particular a foreign name never falls back to the address. */
  lemma HostnameIsRejectedIff(servers: seq<Server>, canonical: Bytes -> Option<Bytes>, h: Bytes, originalIp: Bytes)
    ensures ResolveByScan(servers, canonical, Some(h), originalIp).server.None?
       <==> && (forall i :: 0 <= i < |servers| ==> !HasHost(servers[i].hostnames, h))
            && !(ServedAt(servers, originalIp) && (h == [] || canonical(TrimBrackets(h)) == Some(originalIp)))
  {
    LastWithNone(servers, ByHost(h));
    LastWithNone(servers, ByIp(originalIp));
    assert forall i :: 0 <= i < |servers| ==> (Claims(servers[i], ByHost(h)) <==> HasHost(servers[i].hostnames, h));
    assert forall i :: 0 <= i < |servers| ==> (Claims(servers[i], ByIp(originalIp)) <==> originalIp != [] && servers[i].publicIp == originalIp);
  }

  /** After a handshake error the address alone decides. */
  lemma AddressIsRejectedIff(servers: seq<Server>, canonical: Bytes -> Option<Bytes>, originalIp: Bytes)
    ensures ResolveByScan(servers, canonical, None, originalIp).server.None? <==> !ServedAt(servers, originalIp)
  {
    LastWithNone(servers, ByIp(originalIp));
    assert forall i :: 0 <= i < |servers| ==> (Claims(servers[i], ByIp(originalIp)) <==> originalIp != [] && servers[i].publicIp == originalIp);
  }

  /** Whoever is routed to has the hostname configured, or is the server at the very address connected to. */
  lemma RoutedServerHasClaim(servers: seq<Server>, canonical: Bytes -> Option<Bytes>, hostname: Option<Bytes>, originalIp: Bytes)
    requires ResolveByScan(servers, canonical, hostname, originalIp).server.Some?
    ensures var route := ResolveByScan(servers, canonical, hostname, originalIp);
            && route.server.value in servers
            && (if route.kind == HostnameRoute then hostname.Some? && HasHost(route.server.value.hostnames, hostname.value)
                else route.server.value.publicIp == originalIp)
  {
    if hostname.Some? && LastWith(servers, ByHost(hostname.value)).Some? {
      var i := FoundIsLast(servers, ByHost(hostname.value));
    } else {
      var i := FoundIsLast(servers, ByIp(originalIp));
    }
  }

  /** Routing does not depend on the order of servers whose normalised hostnames and public addresses are distinct. */
  lemma RoutingIsOrderFree(servers: seq<Server>, permuted: seq<Server>, canonical: Bytes -> Option<Bytes>, hostname: Option<Bytes>, originalIp: Bytes)
    requires multiset(servers) == multiset(permuted)
    requires forall c :: Unambiguous(servers, c)
    ensures ResolveByScan(permuted, canonical, hostname, originalIp) == ResolveByScan(servers, canonical, hostname, originalIp)
  {
    UnambiguousIsOrderFree(servers, permuted, ByIp(originalIp));
    if hostname.Some? {
      UnambiguousIsOrderFree(servers, permuted, ByHost(hostname.value));
    }
  }

  /** Every way of writing a name that normalises alike is routed alike, to the server that configured it in any way. */
  lemma SpellingDoesNotMatter(servers: seq<Server>, canonical: Bytes -> Option<Bytes>, asked: Bytes, configured: Bytes, i: nat, originalIp: Bytes)
    requires NormalizeHostname(asked) == NormalizeHostname(configured)
    requires i < |servers| && configured in servers[i].hostnames && Unambiguous(servers, ByHost(NormalizeHostname(asked)))
    ensures ResolveByScan(servers, canonical, Some(NormalizeHostname(asked)), originalIp)
         == Route(Some(servers[i]), NormalizeHostname(asked), HostnameRoute)
  {
    HasConfigured(servers[i].hostnames, configured);
    var c := ByHost(NormalizeHostname(asked));
    assert Claims(servers[i], c);
    LastWithNone(servers, c);
    var k := FoundIsLast(servers, c);
  }

  lemma {:induction false} HasConfigured(hostnames: seq<Bytes>, configured: Bytes)
    requires configured in hostnames
    ensures HasHost(hostnames, NormalizeHostname(configured))
  {
    if hostnames[0] != configured {
      HasConfigured(hostnames[1..], configured);
    }
  }

  // ---- what the pieces compute ----

  lemma {:induction false} HasHostIff(hostnames: seq<Bytes>, h: Bytes)
    ensures HasHost(hostnames, h) <==> exists k :: 0 <= k < |hostnames| && NormalizeHostname(hostnames[k]) == h
  {
    if hostnames != [] {
      HasHostIff(hostnames[1..], h);
      if k :| 0 <= k < |hostnames[1..]| && NormalizeHostname(hostnames[1..][k]) == h {
        assert NormalizeHostname(hostnames[k + 1]) == h;
      }
      if k :| 0 <= k < |hostnames| && NormalizeHostname(hostnames[k]) == h {
        if k > 0 {
          assert hostnames[1..][k - 1] == hostnames[k];
        }
      }
    }
  }

  /** Only brackets: 91 is '[' and 93 is ']'. */
  predicate Brackets(s: Bytes) { forall i :: 0 <= i < |s| ==> s[i] == 91 || s[i] == 93 }

  /** Brackets around a text that neither starts nor ends with one are taken off, however many, and nothing else is. */
  lemma {:induction false} TrimBracketsIs(left: Bytes, text: Bytes, right: Bytes)
    requires Brackets(left) && Brackets(right)
    requires text != [] ==> text[0] != 91 && text[0] != 93 && text[|text| - 1] != 91 && text[|text| - 1] != 93
    ensures TrimBrackets(left + (text + right)) == text
    decreases |left| + |right|
  {
    var s := left + (text + right);
    if left != [] {
      assert s[0] == left[0] && s[1..] == left[1..] + (text + right);
      TrimBracketsIs(left[1..], text, right);
    } else if right != [] && text != [] {
      var n := |right| - 1;
      assert s[0] == text[0] && s[|s| - 1] == right[n] && s[..|s| - 1] == left + (text + right[..n]);
      TrimBracketsIs(left, text, right[..n]);
    } else if right != [] {
      assert s[0] == right[0] && s[1..] == right[1..] + ([] + []);
      assert [] + (text + right) == right && right[1..] + (text + []) == right[1..] + ([] + []);
      TrimBracketsIs(right[1..], text, []);
    } else {
      assert s == text;
    }
  }

  /** A server that has the hostname wins, whoever is served at the address; a fallback goes to the last server there. */
  lemma NameComesFirst(servers: seq<Server>, canonical: Bytes -> Option<Bytes>, h: Bytes, originalIp: Bytes)
    ensures LastWith(servers, ByHost(h)).Some? ==>
              ResolveByScan(servers, canonical, Some(h), originalIp) == Route(LastWith(servers, ByHost(h)), h, HostnameRoute)
    ensures LastWith(servers, ByHost(h)).None? && ResolveByScan(servers, canonical, Some(h), originalIp).server.Some? ==>
              ResolveByScan(servers, canonical, Some(h), originalIp) == Route(LastWith(servers, ByIp(originalIp)), originalIp, FallbackRoute)
    ensures ResolveByScan(servers, canonical, None, originalIp).server == LastWith(servers, ByIp(originalIp))
  {
  }

  // ---- the indexes ----

  function Find(index: map<Bytes, Server>, key: Bytes): Option<Server> {
    if key in index then Some(index[key]) else None
  }

  class Index {
    const servers: seq<Server>
    const byIp: map<Bytes, Server>
    const byHostname: map<Bytes, Server>

    /** Looking up in the indexes is scanning the configuration. */
    ghost predicate Valid() {
      && (forall ip :: Find(byIp, ip) == LastWith(servers, ByIp(ip)))
      && (forall h :: Find(byHostname, h) == LastWith(servers, ByHost(h)))
    }

    constructor (servers: seq<Server>)
      ensures Valid() && this.servers == servers
    {
      var ips: map<Bytes, Server> := map[];
      var hosts: map<Bytes, Server> := map[];
      var i := 0;
      while i < |servers|
        invariant 0 <= i <= |servers|
        invariant forall ip :: Find(ips, ip) == LastWith(servers[..i], ByIp(ip))
        invariant forall h :: Find(hosts, h) == LastWith(servers[..i], ByHost(h))
      {
        var server := servers[i];
        assert servers[..i + 1][..i] == servers[..i];
        if server.publicIp != [] {
          ips := ips[server.publicIp := server];
        }
        hosts := AddHostnames(hosts, server);
        i := i + 1;
      }
      assert servers[..i] == servers;
      this.servers, byIp, byHostname := servers, ips, hosts;
    }

    /** The inner loop: every configured name of one server. */
    static method AddHostnames(hosts: map<Bytes, Server>, server: Server) returns (hosts': map<Bytes, Server>)
      ensures forall h :: Find(hosts', h) == if HasHost(server.hostnames, h) then Some(server) else Find(hosts, h)
    {
      hosts' := hosts;
      ghost var names := server.hostnames;
      var k := 0;
      while k < |server.hostnames|
        invariant 0 <= k <= |names|
        invariant forall h :: Find(hosts', h) == if HasHost(names[..k], h) then Some(server) else Find(hosts, h)
      {
        ghost var before := hosts';
        hosts' := hosts'[NormalizeHostname(server.hostnames[k]) := server];
        assert names[..k + 1] == names[..k] + [names[k]];
        forall h ensures Find(hosts', h) == if HasHost(names[..k + 1], h) then Some(server) else Find(hosts, h) {
          HasHostAppend(names[..k], names[k], h);
          assert Find(before, h) == if HasHost(names[..k], h) then Some(server) else Find(hosts, h);
        }
        k := k + 1;
      }
      assert names[..k] == names;
    }

    method ResolveServer(canonical: Bytes -> Option<Bytes>, hostname: Option<Bytes>, originalIp: Bytes) returns (route: Route)
      requires Valid()
      ensures route == ResolveByScan(servers, canonical, hostname, originalIp)
    {
      if hostname.Some? {
        var h := hostname.value;
        if h in byHostname {
          assert Find(byHostname, h) == LastWith(servers, ByHost(h));
          return Route(Some(byHostname[h]), h, HostnameRoute);
        }
        assert Find(byHostname, h) == None;
        if ShouldFallbackToOriginalIP(canonical, h, originalIp) {
          assert Find(byIp, originalIp) == LastWith(servers, ByIp(originalIp));
          if originalIp in byIp {
            return Route(Some(byIp[originalIp]), originalIp, FallbackRoute);
          }
        }
        return Route(None, h, UnknownHostname);
      }
      assert Find(byIp, originalIp) == LastWith(servers, ByIp(originalIp));
      if originalIp !in byIp {
        return Route(None, originalIp, NoRoute);
      }
      route := Route(Some(byIp[originalIp]), originalIp, OriginalIpRoute);
    }
  }

  lemma {:induction false} HasHostAppend(names: seq<Bytes>, name: Bytes, h: Bytes)
    ensures HasHost(names + [name], h) <==> HasHost(names, h) || NormalizeHostname(name) == h
  {
    if names == [] {
      assert [name][1..] == [] && names + [name] == [name];
    } else {
      HasHostAppend(names[1..], name, h);
      assert (names + [name])[1..] == names[1..] + [name];
    }
  }
}
