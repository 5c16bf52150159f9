/** One connection from accept to release: assign, install the NAT entry, read the handshake, route, dial, forward. */
module Router {
  import opened Wrappers
  import Redis
  import opened VarInt
  import opened Handshake
  import opened Routing
  import Assignment
  import Nat
  import Watcher
  import Connections
  import Identity
  import opened Hostnames

  /** What the outside does during one connection. `later` is what the client sends after the handshake was read or its
      deadline passed. */
  datatype Surroundings = Surroundings(
    assignFails: bool,
    addFault: bool,
    deleteFault: bool,
    originalDst: Option<(Bytes, int)>,
    dialFails: bool,
    later: Bytes)

  datatype Dial = Dial(source: string, destination: string, port: int)

  /** The address the connection is given. */
  function AddressFor(db: Redis.Db, service: Watcher.Service, realIp: string): string {
    Assignment.AssignScript(db, realIp, service.proxyID, service.proxyNum, service.ttl, false).1
  }

  /** The route of a client that has sent these bytes. */
  function RouteFor(servers: seq<Server>, canonical: Bytes -> Option<Bytes>, arrived: Bytes, originalIp: Bytes): Route {
    ResolveByScan(servers, canonical,
                  match HandshakeOf(ReadPacket(arrived)) case Ok(h) => Some(h.hostname) case Err(_) => None,
                  originalIp)
  }

  /** The backend this connection dials, if it gets that far. */
  function DialFor(db: Redis.Db, table: Nat.State, service: Watcher.Service, servers: seq<Server>, canonical: Bytes -> Option<Bytes>,
                   realIp: string, arrived: Bytes, around: Surroundings): Option<Dial>
  {
    if around.assignFails then None
    else
      var internalIp := AddressFor(db, service, realIp);
      if !Nat.Add(table, realIp, internalIp, around.addFault).1 then None
      else match around.originalDst
        case None => None
        case Some((originalIp, port)) =>
          match RouteFor(servers, canonical, arrived, originalIp).server
          case None => None
          case Some(server) => if around.dialFails then None else Some(Dial(internalIp, server.backendIp, port))
  }

  /** The NAT table after the connection has come and gone. */
  function TableAfter(db: Redis.Db, table: Nat.State, native: bool, service: Watcher.Service, realIp: string, around: Surroundings): Nat.State {
    if around.assignFails then table
    else
      var (held, ok) := Nat.Add(table, realIp, AddressFor(db, service, realIp), around.addFault);
      if ok then Nat.Delete(held, native, realIp, around.deleteFault).0 else held
  }

  class Router {
    const assigner: Watcher.Service
    const nats: Nat.NATManager
    const index: Index
    const canonical: Bytes -> Option<Bytes>

    constructor (servers: seq<Server>, canonical: Bytes -> Option<Bytes>, assigner: Watcher.Service, nats: Nat.NATManager)
      ensures index.Valid() && index.servers == servers
      ensures this.canonical == canonical && this.assigner == assigner && this.nats == nats
    {
      var built := new Index(servers);
      this.index, this.canonical, this.assigner, this.nats := built, canonical, assigner, nats;
    }

    /** Everything the handler acquires it releases again in reverse order; `delivered` is what the backend receives. */
    method HandleConn(client: Stream, realIp: string, around: Surroundings) returns (dialled: Option<Dial>, delivered: Bytes)
      requires index.Valid()
      modifies client, nats, assigner.server
      ensures assigner.server.Contents() ==
              if around.assignFails then old(assigner.server.Contents())
              else Assignment.AssignScript(old(assigner.server.Contents()), realIp, assigner.proxyID, assigner.proxyNum, assigner.ttl, false).0
      ensures nats.Contents() == TableAfter(old(assigner.server.Contents()), old(nats.Contents()), nats.native, assigner, realIp, around)
      ensures dialled == DialFor(old(assigner.server.Contents()), old(nats.Contents()), assigner,
                                 index.servers, canonical, realIp, old(client.unread), around)
      ensures delivered == if dialled.Some? then Delivered(old(client.unread), around.later) else []
    {
      dialled, delivered := None, [];
      if around.assignFails {
        return;
      }
      var internalIp := assigner.Assign(realIp);
      var installed := nats.AddMapping(realIp, internalIp, around.addFault);
      if !installed {
        return;
      }
      if around.originalDst.Some? {
        dialled, delivered := Connect(client, internalIp, around.originalDst.value.0, around.originalDst.value.1, around);
      }
      var removed := nats.DeleteMapping(realIp, around.deleteFault);
    }

    /** Between the NAT add and the NAT delete. */
    method Connect(client: Stream, internalIp: string, originalIp: Bytes, port: int, around: Surroundings)
      returns (dialled: Option<Dial>, delivered: Bytes)
      requires index.Valid()
      modifies client
      ensures dialled ==
              match RouteFor(index.servers, canonical, old(client.unread), originalIp).server
              case None => None
              case Some(server) => if around.dialFails then None else Some(Dial(internalIp, server.backendIp, port))
      ensures delivered == if dialled.Some? then Delivered(old(client.unread), around.later) else []
    {
      dialled, delivered := None, [];
      var handshakeBytes, handshake := ReadHandshakePacket(client);
      var hostname := if handshake.Ok? then Some(handshake.value.hostname) else None;
      var route := index.ResolveServer(canonical, hostname, originalIp);
      if route.server.None? || around.dialFails {
        return;
      }
      dialled := Some(Dial(internalIp, route.server.value.backendIp, port));
      if |handshakeBytes| > 0 {
        delivered := handshakeBytes;
      }
      delivered := delivered + client.unread + around.later;
      assert delivered == handshakeBytes + client.unread + around.later;
    }
  }

  /** The kept bytes, then the copy of everything else the client sends. */
  function Delivered(arrived: Bytes, later: Bytes): Bytes {
    Kept(ReadPacket(arrived)) + arrived[ReadPacket(arrived).consumed..] + later
  }

  /** The backend receives exactly what the client sent when the handshake parses or nothing had arrived; in every other
      case bytes are missing. */
  lemma DeliveredIsStreamIff(arrived: Bytes, later: Bytes)
    ensures Delivered(arrived, later) == arrived + later <==> ReadPacket(arrived).reply.Ok? || arrived == []
  {
    KeptPlusUnreadIsStreamIff(arrived);
    var forwarded := Kept(ReadPacket(arrived)) + arrived[ReadPacket(arrived).consumed..];
    if Delivered(arrived, later) == arrived + later {
      assert |forwarded| == |arrived|;
      assert forwarded == (forwarded + later)[..|arrived|] == (arrived + later)[..|arrived|] == arrived;
    }
  }

  /** A client that opens with an empty packet loses it: a server routed to by address receives only what follows. */
  lemma EmptyPacketIsLost(more: Bytes, later: Bytes)
    ensures Delivered([0] + more, later) == more + later
  {
    RoundTrip(0, more);
    assert Encode(0) == [0];
    assert ReadPacket([0] + more) == Reading(Err("invalid packet length"), 1);
    assert ([0] + more)[1..] == more;
    assert [] + more + later == more + later;
  }

  /** A client that sends an encoded handshake and then anything reaches the backend with every byte, whenever its name or
      address routes; how much of it has arrived when the handshake is read makes no difference. */
  lemma EncodedClientIsDelivered(host: Bytes, port: nat, version: nat, nextState: nat, more: Bytes, later: Bytes)
    requires port < 65536 && version < LIMIT && nextState < LIMIT && |Body(host, port, version, nextState)| < LIMIT
    ensures Delivered(Packet(host, port, version, nextState) + more, later) == Packet(host, port, version, nextState) + more + later
  {
    ReadingInvertsEncoding(host, port, version, nextState, more);
    DeliveredIsStreamIff(Packet(host, port, version, nextState) + more, later);
  }

  /** A connection leaves the NAT table and the kernel map as it found them unless its own final kernel delete failed, except that
      a leftover entry of its player goes with it; whatever it dials, it dials from the address installed at that moment. */
  lemma ConnectionIsBalanced(db: Redis.Db, table: Nat.State, native: bool, service: Watcher.Service, servers: seq<Server>,
                             canonical: Bytes -> Option<Bytes>, realIp: string, arrived: Bytes, around: Surroundings)
    requires Nat.Installed(table)
    ensures !around.deleteFault || realIp in table.refs ==>
              TableAfter(db, table, native, service, realIp, around)
              == if !around.assignFails && realIp !in table.refs
                    && Nat.Add(table, realIp, AddressFor(db, service, realIp), around.addFault).1
                 then table.(kernel := table.kernel - {realIp}) else table
    ensures match DialFor(db, table, service, servers, canonical, realIp, arrived, around)
            case Some(dial) =>
              var held := Nat.Add(table, realIp, AddressFor(db, service, realIp), around.addFault).0;
              realIp in held.kernel && held.kernel[realIp] == dial.source
            case None => true
  {
    if !around.assignFails {
      BalancedAt(table, native, realIp, AddressFor(db, service, realIp), around.addFault, around.deleteFault);
    }
  }

  lemma BalancedAt(table: Nat.State, native: bool, realIp: string, internalIp: string, addFault: bool, deleteFault: bool)
    requires Nat.Installed(table)
    ensures var (held, ok) := Nat.Add(table, realIp, internalIp, addFault);
            && (!ok ==> held == table)
            && (ok ==> realIp in held.kernel && held.kernel[realIp] == internalIp)
            && (ok && (!deleteFault || realIp in table.refs) ==>
                  Nat.Delete(held, native, realIp, deleteFault).0
                  == if realIp in table.refs then table else table.(kernel := table.kernel - {realIp}))
  {
    Nat.AddKeepsInstalled(table, realIp, internalIp, addFault);
    if Nat.Add(table, realIp, internalIp, addFault).1 {
      Nat.DeleteUndoesAdd(table, native, realIp, internalIp, addFault);
    }
  }

  // ---- where a connection goes ----

  /** Nothing fails on the way to the dial, and the client connected to this address and port. */
  predicate Smooth(db: Redis.Db, table: Nat.State, service: Watcher.Service, realIp: string, around: Surroundings, originalIp: Bytes, port: int) {
    && !around.assignFails && !around.dialFails && around.originalDst == Some((originalIp, port))
    && Nat.Add(table, realIp, Assigned(db, service, realIp), around.addFault).1
  }

  /** The script's answer to this service's own call. */
  function Assigned(db: Redis.Db, service: Watcher.Service, realIp: string): string {
    Identity.Answer(db, Identity.Assign(realIp, service.proxyID, service.proxyNum, service.ttl, false))
  }

  /** A client that sends an encoded handshake is connected, from the address it was assigned, to the backend of the server that has
      the hostname configured in any spelling that normalises alike, at the very port the client connected to. */
  lemma EncodedClientReachesItsServer(db: Redis.Db, table: Nat.State, service: Watcher.Service, servers: seq<Server>,
                                      canonical: Bytes -> Option<Bytes>, realIp: string, around: Surroundings, originalIp: Bytes, originalPort: int,
                                      host: Bytes, port: nat, version: nat, nextState: nat, more: Bytes, i: nat, configured: Bytes)
    requires port < 65536 && version < LIMIT && nextState < LIMIT && |Body(host, port, version, nextState)| < LIMIT
    requires Smooth(db, table, service, realIp, around, originalIp, originalPort)
    requires i < |servers| && configured in servers[i].hostnames && NormalizeHostname(configured) == NormalizeHostname(host)
    requires Unambiguous(servers, ByHost(NormalizeHostname(host)))
    ensures DialFor(db, table, service, servers, canonical, realIp, Packet(host, port, version, nextState) + more, around)
         == Some(Dial(Assigned(db, service, realIp), servers[i].backendIp, originalPort))
  {
    ReadingInvertsEncoding(host, port, version, nextState, more);
    SpellingDoesNotMatter(servers, canonical, host, configured, i, originalIp);
  }

  /** It is connected to nobody when no server has the hostname and it is neither empty nor the literal of the address connected
      to, or nobody is served there. */
  lemma EncodedClientIsRejected(db: Redis.Db, table: Nat.State, service: Watcher.Service, servers: seq<Server>,
                                canonical: Bytes -> Option<Bytes>, realIp: string, around: Surroundings, originalIp: Bytes, originalPort: int,
                                host: Bytes, port: nat, version: nat, nextState: nat, more: Bytes)
    requires port < 65536 && version < LIMIT && nextState < LIMIT && |Body(host, port, version, nextState)| < LIMIT
    requires around.originalDst == Some((originalIp, originalPort))
    requires forall i :: 0 <= i < |servers| ==> !HasHost(servers[i].hostnames, NormalizeHostname(host))
    requires !(ServedAt(servers, originalIp) && (NormalizeHostname(host) == [] || canonical(TrimBrackets(NormalizeHostname(host))) == Some(originalIp)))
    ensures DialFor(db, table, service, servers, canonical, realIp, Packet(host, port, version, nextState) + more, around) == None
  {
    ReadingInvertsEncoding(host, port, version, nextState, more);
    HostnameIsRejectedIff(servers, canonical, NormalizeHostname(host), originalIp);
  }

  /** It is connected to the server at the address when it sent that address for a name, or none, and no server has that name. */
  lemma EncodedClientFallsBack(db: Redis.Db, table: Nat.State, service: Watcher.Service, servers: seq<Server>,
                               canonical: Bytes -> Option<Bytes>, realIp: string, around: Surroundings, originalIp: Bytes, originalPort: int,
                               host: Bytes, port: nat, version: nat, nextState: nat, more: Bytes, i: nat)
    requires port < 65536 && version < LIMIT && nextState < LIMIT && |Body(host, port, version, nextState)| < LIMIT
    requires Smooth(db, table, service, realIp, around, originalIp, originalPort)
    requires forall j :: 0 <= j < |servers| ==> !HasHost(servers[j].hostnames, NormalizeHostname(host))
    requires NormalizeHostname(host) == [] || canonical(TrimBrackets(NormalizeHostname(host))) == Some(originalIp)
    requires originalIp != [] && IsLast(servers, ByIp(originalIp), i)
    ensures servers[i].publicIp == originalIp
    ensures DialFor(db, table, service, servers, canonical, realIp, Packet(host, port, version, nextState) + more, around)
         == Some(Dial(Assigned(db, service, realIp), servers[i].backendIp, originalPort))
  {
    var h := NormalizeHostname(host);
    ReadingInvertsEncoding(host, port, version, nextState, more);
    assert forall j :: 0 <= j < |servers| ==> (Claims(servers[j], ByHost(h)) <==> HasHost(servers[j].hostnames, h));
    LastWithNone(servers, ByHost(h));
    LastIsFound(servers, ByIp(originalIp), i);
    HostnameIsRejectedIff(servers, canonical, h, originalIp);
    NameComesFirst(servers, canonical, h, originalIp);
  }

  /** A client whose handshake does not parse is connected to the server at the address alone. */
  lemma UnreadableClientGoesByAddress(db: Redis.Db, table: Nat.State, service: Watcher.Service, servers: seq<Server>,
                                      canonical: Bytes -> Option<Bytes>, realIp: string, around: Surroundings, originalIp: Bytes, originalPort: int,
                                      arrived: Bytes, i: nat)
    requires ReadPacket(arrived).reply.Err? && Smooth(db, table, service, realIp, around, originalIp, originalPort)
    requires IsLast(servers, ByIp(originalIp), i)
    ensures servers[i].publicIp == originalIp
    ensures DialFor(db, table, service, servers, canonical, realIp, arrived, around)
         == Some(Dial(Assigned(db, service, realIp), servers[i].backendIp, originalPort))
  {
    LastIsFound(servers, ByIp(originalIp), i);
    NameComesFirst(servers, canonical, [], originalIp);
  }

  /** Whoever is dialled, nothing has failed before, it is a configured server's backend, and the port is the client's. */
  lemma DialledOnlyWhenSmooth(db: Redis.Db, table: Nat.State, service: Watcher.Service, servers: seq<Server>,
                              canonical: Bytes -> Option<Bytes>, realIp: string, arrived: Bytes, around: Surroundings)
    requires DialFor(db, table, service, servers, canonical, realIp, arrived, around).Some?
    ensures around.originalDst.Some?
    ensures var dial := DialFor(db, table, service, servers, canonical, realIp, arrived, around).value;
            var (originalIp, port) := around.originalDst.value;
            && Smooth(db, table, service, realIp, around, originalIp, port)
            && dial.source == Assigned(db, service, realIp) && dial.port == port
            && exists i :: 0 <= i < |servers| && servers[i].backendIp == dial.destination
  {
    var (originalIp, port) := around.originalDst.value;
    var hostname := match HandshakeOf(ReadPacket(arrived)) case Ok(h) => Some(h.hostname) case Err(_) => None;
    RoutedServerHasClaim(servers, canonical, hostname, originalIp);
  }

  // ---- the handler as a run of the concurrent system ----

  /** The steps of one handler that runs with nobody in between, up to the dial. */
  function Opening(c: nat, realIp: string, around: Surroundings, dials: bool): seq<Connections.Action> {
    [Connections.Accept(c, realIp)]
    + if around.assignFails then []
      else [Connections.CallAssign(c)] + ([Connections.AddNat(c, around.addFault)] + if dials then [Connections.Dial(c)] else [])
  }

  /** What its deferred calls do, whatever made it return. */
  function Releasing(c: nat, around: Surroundings): seq<Connections.Action> {
    [Connections.GiveUp(c)] + ([Connections.DeleteNat(c, around.deleteFault)] + [])
  }

  lemma RunsHead(proxy: Connections.Proxy, s: Connections.System, a: Connections.Action, rest: seq<Connections.Action>)
    ensures Connections.RunAll(proxy, s, [a] + rest) == Connections.RunAll(proxy, Connections.Next(proxy, s, a), rest)
  {
    assert ([a] + rest)[1..] == rest;
  }

  lemma ReleasingRun(proxy: Connections.Proxy, s: Connections.System, c: nat, around: Surroundings)
    requires c in s.conns && !s.conns[c].phase.Closing?
    ensures var after := Connections.RunAll(proxy, s, Releasing(c, around));
            && after.db == s.db && c in after.conns && after.conns[c].phase.Closed?
            && after.table == (if s.conns[c].phase.Holds() then Nat.Delete(s.table, proxy.native, s.conns[c].realIp, around.deleteFault).0 else s.table)
  {
    var give, delete := Connections.GiveUp(c), Connections.DeleteNat(c, around.deleteFault);
    RunsHead(proxy, s, give, [delete] + []);
    RunsHead(proxy, Connections.Next(proxy, s, give), delete, []);
  }

  /** The service runs under the identity of this proxy. */
  predicate ServiceOf(proxy: Connections.Proxy, service: Watcher.Service) {
    service.proxyID == proxy.id && service.proxyNum == proxy.num && service.ttl == proxy.ttl
  }

  lemma AddressedRun(proxy: Connections.Proxy, s: Connections.System, c: nat, service: Watcher.Service, realIp: string)
    requires c !in s.conns && ServiceOf(proxy, service)
    ensures var addressed := Connections.Next(proxy, Connections.Next(proxy, s, Connections.Accept(c, realIp)), Connections.CallAssign(c));
            && addressed.table == s.table
            && addressed.db == Assignment.AssignScript(s.db, realIp, service.proxyID, service.proxyNum, service.ttl, false).0
            && addressed.conns == s.conns[c := Connections.Conn(realIp, Connections.Assigned(AddressFor(s.db, service, realIp)))]
  {
  }

  lemma AddedRun(proxy: Connections.Proxy, s: Connections.System, c: nat, realIp: string, internalIp: string, around: Surroundings, dials: bool)
    requires c in s.conns && s.conns[c] == Connections.Conn(realIp, Connections.Assigned(internalIp))
    requires dials ==> Nat.Add(s.table, realIp, internalIp, around.addFault).1
    ensures var add := [Connections.AddNat(c, around.addFault)] + if dials then [Connections.Dial(c)] else [];
            var reached := Connections.RunAll(proxy, s, add);
            var (table, ok) := Nat.Add(s.table, realIp, internalIp, around.addFault);
            && reached.db == s.db && reached.table == table && c in reached.conns
            && reached.conns[c] == Connections.Conn(realIp, if dials then Connections.Open(internalIp)
                                                           else if ok then Connections.Held(internalIp) else Connections.Closed)
  {
    var add, dial := Connections.AddNat(c, around.addFault), Connections.Dial(c);
    RunsHead(proxy, s, add, if dials then [dial] + [] else []);
    if dials {
      assert [dial] + [] == [dial];
      RunsHead(proxy, Connections.Next(proxy, s, add), dial, []);
    }
  }

  lemma OpeningRun(proxy: Connections.Proxy, s: Connections.System, c: nat, service: Watcher.Service, realIp: string, around: Surroundings, dials: bool)
    requires c !in s.conns && ServiceOf(proxy, service) && !around.assignFails
    requires dials ==> Nat.Add(s.table, realIp, AddressFor(s.db, service, realIp), around.addFault).1
    ensures var reached := Connections.RunAll(proxy, s, Opening(c, realIp, around, dials));
            var internalIp := AddressFor(s.db, service, realIp);
            var (table, ok) := Nat.Add(s.table, realIp, internalIp, around.addFault);
            && reached.db == Assignment.AssignScript(s.db, realIp, service.proxyID, service.proxyNum, service.ttl, false).0
            && reached.table == table && c in reached.conns
            && reached.conns[c] == Connections.Conn(realIp, if dials then Connections.Open(internalIp)
                                                           else if ok then Connections.Held(internalIp) else Connections.Closed)
  {
    var accept, call := Connections.Accept(c, realIp), Connections.CallAssign(c);
    var add := [Connections.AddNat(c, around.addFault)] + if dials then [Connections.Dial(c)] else [];
    var accepted := Connections.Next(proxy, s, accept);
    RunsHead(proxy, s, accept, [call] + add);
    RunsHead(proxy, accepted, call, add);
    AddressedRun(proxy, s, c, service, realIp);
    AddedRun(proxy, Connections.Next(proxy, accepted, call), c, realIp, AddressFor(s.db, service, realIp), around, dials);
  }

  /** A handler that HandleConn runs undisturbed is these steps of the concurrent system: it dials exactly when its phase becomes Open,
      from the address in that phase, and leaves the database and the NAT table the steps leave. So what holds in every
      interleaving there holds of it, dial included. */
  lemma HandlerIsARun(proxy: Connections.Proxy, s: Connections.System, c: nat, service: Watcher.Service, servers: seq<Server>,
                      canonical: Bytes -> Option<Bytes>, realIp: string, arrived: Bytes, around: Surroundings)
    requires c !in s.conns && ServiceOf(proxy, service)
    ensures var dial := DialFor(s.db, s.table, service, servers, canonical, realIp, arrived, around);
            var reached := Connections.RunAll(proxy, s, Opening(c, realIp, around, dial.Some?));
            var after := Connections.RunAll(proxy, reached, Releasing(c, around));
            && c in reached.conns && reached.conns[c].realIp == realIp
            && (dial.Some? <==> reached.conns[c].phase.Open?)
            && (dial.Some? ==> reached.conns[c].phase.internalIp == dial.value.source)
            && after.table == TableAfter(s.db, s.table, proxy.native, service, realIp, around)
            && after.db == (if around.assignFails then s.db
                            else Assignment.AssignScript(s.db, realIp, service.proxyID, service.proxyNum, service.ttl, false).0)
            && c in after.conns && after.conns[c].phase.Closed?
  {
    var dial := DialFor(s.db, s.table, service, servers, canonical, realIp, arrived, around);
    if around.assignFails {
      RunsHead(proxy, s, Connections.Accept(c, realIp), []);
    } else {
      OpeningRun(proxy, s, c, service, realIp, around, dial.Some?);
    }
    ReleasingRun(proxy, Connections.RunAll(proxy, s, Opening(c, realIp, around, dial.Some?)), c, around);
  }
}
