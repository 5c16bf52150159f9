/** All connections of one proxy at once: each handler assigns, installs its NAT entry, dials and releases, one
    step at a time, while the shared database changes and expires underneath. */
module Connections {
  import opened Wrappers
  import opened Redis
  import opened Assignment
  import opened Identity
  import Nat
  import Text

  /** Where a handler is. From Assigned on it carries the address it was given. */
  datatype Phase =
    | Accepted
    | Assigned(internalIp: string)
    | Held(internalIp: string)      // NAT entry held, no backend yet
    | Open(internalIp: string)      // backend dialled from that address
    | Closing(internalIp: string)   // backend closed or never opened, NAT delete still to run
    | Closed
  {
    predicate HasAddress() { !Accepted? && !Closed? }

    predicate Holds() { Held? || Open? || Closing? }
  }

  datatype Conn = Conn(realIp: string, phase: Phase)

  /** The proxy: the numbering everybody uses, its own id, the number and TTL it runs with, which element runner it has, and what
      an earlier process left in the kernel map. */
  datatype Proxy = Proxy(cfg: Config, id: string, num: nat, ttl: int, native: bool, leftovers: map<string, string>) {
    ghost predicate Valid() {
      num in cfg.user && cfg.user[num] == id
    }
  }

  /** The database with its allocation history, the NAT manager, the handlers, and the real addresses whose last
      kernel delete has failed. */
  datatype System = System(db: Db, owners: Owners, table: Nat.State, conns: map<nat, Conn>, leaked: set<string>)

  /** Nobody connected yet, an empty table, and the kernel map as it was found. */
  function Start(proxy: Proxy): System {
    System(EMPTY, map[], Nat.State(map[], proxy.leftovers), map[], {})
  }

  datatype Action =
    | Accept(conn: nat, realIp: string)
    | CallAssign(conn: nat)
    | AddNat(conn: nat, fault: bool)
    | Dial(conn: nat)
    | GiveUp(conn: nat)             // any failure, rejection or end that makes the handler return
    | DeleteNat(conn: nat, fault: bool)
    | Others(event: Event)          // another proxy, a watcher, or time

  function At(s: System, c: nat): Conn {
    if c in s.conns then s.conns[c] else Conn("", Closed)
  }

  function SetPhase(s: System, c: nat, phase: Phase): System {
    s.(conns := s.conns[c := Conn(At(s, c).realIp, phase)])
  }

  function OwnCall(proxy: Proxy, realIp: string): Event
  {
    Assign(realIp, proxy.id, proxy.num, proxy.ttl, false)
  }

  function Observe(s: System, e: Event): System {
    s.(db := Identity.Step(s.db, e), owners := Record(s.owners, s.db, e))
  }

  function Next(proxy: Proxy, s: System, a: Action): System
  {
    match a
    case Accept(c, realIp) => if c in s.conns then s else s.(conns := s.conns[c := Conn(realIp, Accepted)])
    case CallAssign(c) =>
      if !At(s, c).phase.Accepted? then s
      else
        var call := OwnCall(proxy, At(s, c).realIp);
        SetPhase(Observe(s, call), c, Assigned(Answer(s.db, call)))
    case AddNat(c, fault) =>
      var Conn(realIp, phase) := At(s, c);
      if !phase.Assigned? then s
      else
        var (table, ok) := Nat.Add(s.table, realIp, phase.internalIp, fault);
        SetPhase(s.(table := table), c, if ok then Held(phase.internalIp) else Closed)
    case Dial(c) => if At(s, c).phase.Held? then SetPhase(s, c, Open(At(s, c).phase.internalIp)) else s
    case GiveUp(c) =>
      var phase := At(s, c).phase;
      // deferred calls run last in, first out: the backend is closed before the NAT entry is given back
      if phase.Accepted? || phase.Assigned? then SetPhase(s, c, Closed)
      else if phase.Held? || phase.Open? then SetPhase(s, c, Closing(phase.internalIp))
      else s
    case DeleteNat(c, fault) =>
      var Conn(realIp, phase) := At(s, c);
      if !phase.Closing? then s
      else
        var (table, ok) := Nat.Delete(s.table, proxy.native, realIp, fault);
        SetPhase(s.(table := table, leaked := if ok then s.leaked else s.leaked + {realIp}), c, Closed)
    case Others(e) => Observe(s, e)
  }

  function RunAll(proxy: Proxy, s: System, acts: seq<Action>): System
    decreases |acts|
  {
    if acts == [] then s else RunAll(proxy, Next(proxy, s, acts[0]), acts[1..])
  }

  predicate Allowed(proxy: Proxy, acts: seq<Action>) {
    forall i :: 0 <= i < |acts| && acts[i].Others? ==> proxy.cfg.Allows(acts[i].event)
  }

  /** The handlers that hold a reference for this real address. */
  function Holders(conns: map<nat, Conn>, realIp: string): set<nat> {
    set c | c in conns && conns[c].realIp == realIp && conns[c].phase.Holds()
  }

  // ---- invariant ----

  ghost predicate AddressOk(proxy: Proxy, owners: Owners, realIp: string, internalIp: string) {
    internalIp in owners && owners[internalIp] == Reverse(realIp, proxy.id)
  }

  ghost predicate HandlerOk(proxy: Proxy, s: System, c: nat)
    requires c in s.conns
  {
    var Conn(realIp, phase) := s.conns[c];
    && (phase.HasAddress() ==> AddressOk(proxy, s.owners, realIp, phase.internalIp))
    && (phase.Holds() ==> realIp in s.table.refs && s.table.refs[realIp].internalIp == phase.internalIp)
  }

  /** References exceed live handlers by one exactly for the leaked addresses. */
  ghost predicate CountOk(s: System, realIp: string) {
    Nat.RefCount(s.table, realIp) == |Holders(s.conns, realIp)| + if realIp in s.leaked then 1 else 0
  }

  /** What in the kernel is not the table's was there from the start. */
  ghost predicate LeftoversOk(proxy: Proxy, s: System) {
    forall r :: r in Nat.Leftovers(s.table) ==> r in proxy.leftovers && Nat.Leftovers(s.table)[r] == proxy.leftovers[r]
  }

  ghost predicate NatOk(proxy: Proxy, s: System) {
    && Nat.Installed(s.table)
    && LeftoversOk(proxy, s)
    && (forall r :: r in s.table.refs ==> AddressOk(proxy, s.owners, r, s.table.refs[r].internalIp))
    && (forall c :: c in s.conns ==> HandlerOk(proxy, s, c))
    && (forall r :: CountOk(s, r))
  }

  ghost predicate SysInv(proxy: Proxy, s: System) {
    Inv(proxy.cfg, s.db, s.owners) && NatOk(proxy, s)
  }

  function HoldsFor(conn: Conn, realIp: string): nat {
    if conn.realIp == realIp && conn.phase.Holds() then 1 else 0
  }

  lemma ReplaceMember(before: set<nat>, after: set<nat>, c: nat)
    requires before - {c} == after - {c}
    ensures |after| == |before| - (if c in before then 1 else 0) + (if c in after then 1 else 0)
  {
    assert |before - {c}| == |before| - (if c in before then 1 else 0);
    assert |after - {c}| == |after| - (if c in after then 1 else 0);
  }

  /** Moving one handler changes the number of holders by what that handler held before and holds after. */
  lemma HoldersAfter(conns: map<nat, Conn>, c: nat, conn: Conn, r: string)
    ensures |Holders(conns[c := conn], r)| ==
            |Holders(conns, r)| - (if c in conns then HoldsFor(conns[c], r) else 0) + HoldsFor(conn, r)
  {
    ReplaceMember(Holders(conns, r), Holders(conns[c := conn], r), c);
  }

  /** The NAT side does not look at the database, and only needs the history to grow. */
  lemma NatOkWithMoreHistory(proxy: Proxy, s: System, db: Db, owners: Owners)
    requires NatOk(proxy, s) && forall i :: i in s.owners ==> i in owners && owners[i] == s.owners[i]
    ensures NatOk(proxy, s.(db := db, owners := owners))
  {
    var next := s.(db := db, owners := owners);
    forall c | c in next.conns ensures HandlerOk(proxy, next, c) {
      assert HandlerOk(proxy, s, c);
    }
    forall r ensures CountOk(next, r) {
      assert CountOk(s, r);
    }
  }

  lemma ObserveKeeps(proxy: Proxy, s: System, e: Event)
    requires proxy.Valid() && SysInv(proxy, s) && proxy.cfg.Allows(e) && WithinRange(Identity.Step(s.db, e))
    ensures SysInv(proxy, Observe(s, e))
    ensures e.Assign? ==> AddressOk(proxy.(id := e.proxy), Observe(s, e).owners, e.realIp, Answer(s.db, e))
  {
    InvAfterStep(proxy.cfg, s.db, s.owners, e);
    OwnersKept(proxy.cfg, s.db, s.owners, e);
    NatOkWithMoreHistory(proxy, s, Identity.Step(s.db, e), Record(s.owners, s.db, e));
  }

  /** A handler that moves on without touching the NAT table keeps the invariant. */
  lemma PhaseKeeps(proxy: Proxy, s: System, c: nat, conn: Conn)
    requires NatOk(proxy, s)
    requires if c in s.conns then s.conns[c].realIp == conn.realIp && s.conns[c].phase.Holds() == conn.phase.Holds()
             else !conn.phase.Holds()
    requires conn.phase.HasAddress() ==> AddressOk(proxy, s.owners, conn.realIp, conn.phase.internalIp)
    requires conn.phase.Holds() ==> s.conns[c].phase.internalIp == conn.phase.internalIp
    ensures NatOk(proxy, s.(conns := s.conns[c := conn]))
  {
    var next := s.(conns := s.conns[c := conn]);
    forall d | d in next.conns ensures HandlerOk(proxy, next, d) {
      assert d in s.conns ==> HandlerOk(proxy, s, d);
    }
    forall r ensures CountOk(next, r) {
      assert CountOk(s, r);
      HoldersAfter(s.conns, c, conn, r);
    }
  }

  lemma AddNatHandlers(proxy: Proxy, s: System, c: nat, fault: bool, d: nat)
    requires NatOk(proxy, s) && At(s, c).phase.Assigned?
    requires d in Next(proxy, s, AddNat(c, fault)).conns
    ensures HandlerOk(proxy, Next(proxy, s, AddNat(c, fault)), d)
  {
    assert HandlerOk(proxy, s, d) && HandlerOk(proxy, s, c);
    Nat.AddKeepsInstalled(s.table, At(s, c).realIp, At(s, c).phase.internalIp, fault);
  }

  lemma AddNatCounts(proxy: Proxy, s: System, c: nat, fault: bool, r: string)
    requires NatOk(proxy, s) && At(s, c).phase.Assigned?
    ensures CountOk(Next(proxy, s, AddNat(c, fault)), r)
  {
    var next := Next(proxy, s, AddNat(c, fault));
    assert CountOk(s, r);
    Nat.AddKeepsInstalled(s.table, At(s, c).realIp, At(s, c).phase.internalIp, fault);
    HoldersAfter(s.conns, c, next.conns[c], r);
  }

  lemma AddNatKeeps(proxy: Proxy, s: System, c: nat, fault: bool)
    requires NatOk(proxy, s) && At(s, c).phase.Assigned?
    ensures NatOk(proxy, Next(proxy, s, AddNat(c, fault)))
  {
    var next := Next(proxy, s, AddNat(c, fault));
    assert HandlerOk(proxy, s, c);
    Nat.AddKeepsInstalled(s.table, At(s, c).realIp, At(s, c).phase.internalIp, fault);
    forall d | d in next.conns ensures HandlerOk(proxy, next, d) {
      AddNatHandlers(proxy, s, c, fault, d);
    }
    forall r ensures CountOk(next, r) {
      AddNatCounts(proxy, s, c, fault, r);
    }
  }

  lemma DeleteNatKeeps(proxy: Proxy, s: System, c: nat, fault: bool)
    requires NatOk(proxy, s) && At(s, c).phase.Closing?
    ensures NatOk(proxy, Next(proxy, s, DeleteNat(c, fault)))
  {
    var realIp := At(s, c).realIp;
    assert HandlerOk(proxy, s, c);
    Nat.DeleteKeepsInstalled(s.table, proxy.native, realIp, fault);
    var next := Next(proxy, s, DeleteNat(c, fault));
    assert CountOk(s, realIp) && c in Holders(s.conns, realIp);
    forall r ensures CountOk(next, r) {
      assert CountOk(s, r);
      HoldersAfter(s.conns, c, next.conns[c], r);
    }
    forall d | d in next.conns ensures HandlerOk(proxy, next, d) {
      assert HandlerOk(proxy, s, d);
      if d != c && next.conns[d].realIp == realIp && next.conns[d].phase.Holds() {
        assert {c, d} <= Holders(s.conns, realIp) && |{c, d}| == 2;
        AtLeastTwo(Holders(s.conns, realIp), c, d);
      }
    }
  }

  lemma AtLeastTwo(holders: set<nat>, c: nat, d: nat)
    requires c in holders && d in holders && c != d
    ensures |holders| >= 2
  {
    assert |holders - {c}| == |holders| - 1 && d in holders - {c};
  }

  /** Accepting, dialling and giving up change no database, table or kernel entry. */
  predicate MovesOnly(a: Action) { a.Accept? || a.Dial? || a.GiveUp? }

  lemma MoveKeeps(proxy: Proxy, s: System, a: Action)
    requires NatOk(proxy, s) && MovesOnly(a)
    ensures NatOk(proxy, Next(proxy, s, a))
  {
    var c := a.conn;
    if a.Accept? {
      if c !in s.conns { PhaseKeeps(proxy, s, c, Conn(a.realIp, Accepted)); }
    } else if Next(proxy, s, a) != s {
      assert HandlerOk(proxy, s, c);
      PhaseKeeps(proxy, s, c, Next(proxy, s, a).conns[c]);
    }
  }

  lemma CallAssignKeeps(proxy: Proxy, s: System, c: nat)
    requires proxy.Valid() && SysInv(proxy, s) && At(s, c).phase.Accepted? && WithinRange(Next(proxy, s, CallAssign(c)).db)
    ensures SysInv(proxy, Next(proxy, s, CallAssign(c)))
  {
    var call := OwnCall(proxy, At(s, c).realIp);
    ObserveKeeps(proxy, s, call);
    PhaseKeeps(proxy, Observe(s, call), c, Conn(At(s, c).realIp, Assigned(Answer(s.db, call))));
  }

  lemma SysInvAfterAction(proxy: Proxy, s: System, a: Action)
    requires proxy.Valid() && SysInv(proxy, s) && Allowed(proxy, [a]) && WithinRange(Next(proxy, s, a).db)
    ensures SysInv(proxy, Next(proxy, s, a))
  {
    match a
    case Others(e) => assert [a][0] == a; ObserveKeeps(proxy, s, e);
    case CallAssign(c) => if At(s, c).phase.Accepted? { CallAssignKeeps(proxy, s, c); }
    case AddNat(c, fault) => if At(s, c).phase.Assigned? { AddNatKeeps(proxy, s, c, fault); }
    case DeleteNat(c, fault) => if At(s, c).phase.Closing? { DeleteNatKeeps(proxy, s, c, fault); }
    case _ => MoveKeeps(proxy, s, a);
  }

  lemma CountersGrow(proxy: Proxy, s: System, a: Action)
    ensures forall p :: Counter(s.db, p) <= Counter(Next(proxy, s, a).db, p)
  {
    var e :=
      if a.Others? then Some(a.event)
      else if a.CallAssign? && At(s, a.conn).phase.Accepted? then Some(OwnCall(proxy, At(s, a.conn).realIp))
      else None;
    assert Next(proxy, s, a).db == if e.Some? then Identity.Step(s.db, e.value) else s.db;
    forall p ensures Counter(s.db, p) <= Counter(Next(proxy, s, a).db, p) {
      if e.Some? { StepCounters(s.db, e.value, p); }
    }
  }

  lemma {:induction false} RunStaysWithinRange(proxy: Proxy, s: System, acts: seq<Action>)
    requires WithinRange(RunAll(proxy, s, acts).db)
    ensures WithinRange(s.db)
    decreases |acts|
  {
    if acts != [] {
      RunStaysWithinRange(proxy, Next(proxy, s, acts[0]), acts[1..]);
      CountersGrow(proxy, s, acts[0]);
      forall p ensures Counter(s.db, p) <= 65536 {
        assert Counter(Next(proxy, s, acts[0]).db, p) <= 65536;
      }
    }
  }

  lemma {:induction false} SysInvAfterRun(proxy: Proxy, s: System, acts: seq<Action>)
    requires proxy.Valid() && SysInv(proxy, s) && Allowed(proxy, acts) && WithinRange(RunAll(proxy, s, acts).db)
    ensures SysInv(proxy, RunAll(proxy, s, acts))
    decreases |acts|
  {
    if acts != [] {
      RunStaysWithinRange(proxy, Next(proxy, s, acts[0]), acts[1..]);
      assert Allowed(proxy, [acts[0]]);
      SysInvAfterAction(proxy, s, acts[0]);
      SysInvAfterRun(proxy, Next(proxy, s, acts[0]), acts[1..]);
    }
  }

  /** The systems that some interleaving reaches from an empty database and table and any kernel map. */
  ghost predicate Reaches(proxy: Proxy, s: System) {
    && proxy.Valid() && WithinRange(s.db)
    && exists acts :: Allowed(proxy, acts) && RunAll(proxy, Start(proxy), acts) == s
  }

  lemma StartInv(proxy: Proxy)
    ensures SysInv(proxy, Start(proxy))
  {
    InvInitially(proxy.cfg);
    forall r ensures CountOk(Start(proxy), r) {
      assert Holders(Start(proxy).conns, r) == {};
    }
  }

  lemma ReachesInv(proxy: Proxy, s: System)
    requires Reaches(proxy, s)
    ensures SysInv(proxy, s)
  {
    var acts :| Allowed(proxy, acts) && RunAll(proxy, Start(proxy), acts) == s;
    StartInv(proxy);
    SysInvAfterRun(proxy, Start(proxy), acts);
  }

  // ---- main results ----

  predicate Holding(s: System, c: nat) {
    c in s.conns && s.conns[c].phase.Holds()
  }

  /** Every handler between its NAT add and its NAT delete, in particular one with an open backend, has its own
      address installed in the kernel. */
  lemma InstalledAddress(proxy: Proxy, s: System, c: nat)
    requires Reaches(proxy, s) && Holding(s, c)
    ensures s.conns[c].realIp in s.table.kernel
    ensures s.table.kernel[s.conns[c].realIp] == s.conns[c].phase.internalIp
  {
    ReachesInv(proxy, s);
    assert HandlerOk(proxy, s, c);
  }

  /** Live connections share an address exactly when they come from the same real address, even when the identity
      expired and was assigned anew in between. */
  lemma SharedAddressIffSamePlayer(proxy: Proxy, s: System, c: nat, d: nat)
    requires Reaches(proxy, s) && Holding(s, c) && Holding(s, d)
    ensures s.conns[c].phase.internalIp == s.conns[d].phase.internalIp <==> s.conns[c].realIp == s.conns[d].realIp
  {
    ReachesInv(proxy, s);
    assert HandlerOk(proxy, s, c) && HandlerOk(proxy, s, d);
  }

  /** The kernel map is the projection of the table, which translates no two real addresses to one internal address, and
      otherwise holds only leftovers as they were found; from an empty kernel map it is the projection. */
  lemma KernelIsInjectiveProjection(proxy: Proxy, s: System)
    requires Reaches(proxy, s)
    ensures s.table.kernel == Nat.Leftovers(s.table) + Nat.Projection(s.table.refs)
    ensures forall r, q :: r in s.table.refs && q in s.table.refs && s.table.kernel[r] == s.table.kernel[q] ==> r == q
    ensures forall r :: r in Nat.Leftovers(s.table) ==> r in proxy.leftovers && s.table.kernel[r] == proxy.leftovers[r]
    ensures proxy.leftovers == map[] ==> s.table.kernel == Nat.Projection(s.table.refs)
  {
    ReachesInv(proxy, s);
    Nat.InstalledIsProjection(s.table);
    if proxy.leftovers == map[] {
      assert Nat.Leftovers(s.table) == map[];
    }
    forall r, q | r in s.table.refs && q in s.table.refs && s.table.kernel[r] == s.table.kernel[q] ensures r == q {
      assert AddressOk(proxy, s.owners, r, s.table.refs[r].internalIp);
      assert AddressOk(proxy, s.owners, q, s.table.refs[q].internalIp);
    }
  }

  /** References exceed live connections by at most one, and by one exactly when a final kernel delete has failed for
      that real address. */
  lemma ReferencesCountLiveConnections(proxy: Proxy, s: System, realIp: string)
    requires Reaches(proxy, s)
    ensures 0 <= Nat.RefCount(s.table, realIp) - |Holders(s.conns, realIp)| <= 1
    ensures Nat.RefCount(s.table, realIp) - |Holders(s.conns, realIp)| == 1 <==> realIp in s.leaked
  {
    ReachesInv(proxy, s);
    assert CountOk(s, realIp);
  }

  /** A real address is counted as leaked exactly from the moment the kernel delete for its last reference fails. */
  lemma LeakedByFailedFinalDelete(proxy: Proxy, s: System, a: Action)
    requires Reaches(proxy, s)
    ensures Next(proxy, s, a).leaked == s.leaked +
            if a.DeleteNat? && a.fault && At(s, a.conn).phase.Closing? && Nat.RefCount(s.table, At(s, a.conn).realIp) == 1
            then {At(s, a.conn).realIp} else {}
  {
    ReachesInv(proxy, s);
    if a.DeleteNat? {
      Nat.DeleteKeepsInstalled(s.table, proxy.native, At(s, a.conn).realIp, a.fault);
    }
  }

  /** With no failed final delete, closing every connection empties the table and leaves only leftovers in the kernel map;
      otherwise exactly the leaked addresses remain as well. */
  lemma OnlyLeaksRemain(proxy: Proxy, s: System)
    requires Reaches(proxy, s) && forall c :: c in s.conns ==> s.conns[c].phase.Closed?
    ensures forall r :: r in s.table.refs <==> r in s.leaked
    ensures s.table.kernel.Keys == Nat.Leftovers(s.table).Keys + s.leaked
    ensures s.leaked == {} && proxy.leftovers == map[] ==> s.table == Nat.State(map[], map[])
  {
    ReachesInv(proxy, s);
    forall r ensures r in s.table.refs <==> r in s.leaked {
      assert CountOk(s, r);
      assert Holders(s.conns, r) == {};
    }
    Nat.InstalledIsProjection(s.table);
    if s.leaked == {} && proxy.leftovers == map[] {
      assert s.table.refs == map[];
      assert Nat.Leftovers(s.table) == map[];
    }
  }

  /** No step of any other party takes away or changes the kernel entry of a connection that is live before and
      after it. */
  lemma OthersDoNotDisturb(proxy: Proxy, s: System, a: Action, d: nat)
    requires Reaches(proxy, s) && Allowed(proxy, [a]) && WithinRange(Next(proxy, s, a).db)
    requires Holding(s, d) && Holding(Next(proxy, s, a), d)
    ensures s.conns[d].realIp in s.table.kernel && s.conns[d].realIp in Next(proxy, s, a).table.kernel
    ensures Next(proxy, s, a).table.kernel[s.conns[d].realIp] == s.table.kernel[s.conns[d].realIp]
    ensures Next(proxy, s, a).conns[d].phase.internalIp == s.conns[d].phase.internalIp
  {
    ReachesInv(proxy, s);
    SysInvAfterAction(proxy, s, a);
    assert HandlerOk(proxy, s, d) && HandlerOk(proxy, Next(proxy, s, a), d);
    SameConnection(proxy, s, a, d);
  }

  lemma SameConnection(proxy: Proxy, s: System, a: Action, d: nat)
    requires Holding(s, d) && Holding(Next(proxy, s, a), d)
    ensures Next(proxy, s, a).conns[d].realIp == s.conns[d].realIp
    ensures Next(proxy, s, a).conns[d].phase.internalIp == s.conns[d].phase.internalIp
  {
  }

  lemma LeakKept(proxy: Proxy, s: System, a: Action, realIp: string)
    requires proxy.Valid() && SysInv(proxy, s) && Allowed(proxy, [a]) && WithinRange(Next(proxy, s, a).db)
    requires realIp in s.leaked
    ensures realIp in Next(proxy, s, a).leaked
    ensures realIp in s.table.kernel && realIp in Next(proxy, s, a).table.kernel
    ensures Next(proxy, s, a).table.kernel[realIp] == s.table.kernel[realIp]
  {
    SysInvAfterAction(proxy, s, a);
    assert CountOk(s, realIp) && CountOk(Next(proxy, s, a), realIp);
    TableAfterAction(proxy, s, a);
    EntriesKeepAddress(proxy, s, a, realIp);
  }

  lemma {:induction false} LeakKeptForever(proxy: Proxy, s: System, acts: seq<Action>, realIp: string)
    requires proxy.Valid() && SysInv(proxy, s) && Allowed(proxy, acts) && WithinRange(RunAll(proxy, s, acts).db)
    requires realIp in s.leaked
    ensures realIp in RunAll(proxy, s, acts).leaked
    ensures realIp in s.table.kernel && realIp in RunAll(proxy, s, acts).table.kernel
    ensures RunAll(proxy, s, acts).table.kernel[realIp] == s.table.kernel[realIp]
    decreases |acts|
  {
    if acts == [] {
      assert CountOk(s, realIp);
    } else {
      RunStaysWithinRange(proxy, Next(proxy, s, acts[0]), acts[1..]);
      assert Allowed(proxy, [acts[0]]);
      LeakKept(proxy, s, acts[0], realIp);
      SysInvAfterAction(proxy, s, acts[0]);
      LeakKeptForever(proxy, Next(proxy, s, acts[0]), acts[1..], realIp);
    }
  }

  /** A leaked entry is never removed and never changes, whatever happens later: deletes only count references down. */
  lemma LeakIsPermanent(proxy: Proxy, s: System, acts: seq<Action>, realIp: string)
    requires Reaches(proxy, s) && Allowed(proxy, acts) && WithinRange(RunAll(proxy, s, acts).db)
    requires realIp in s.leaked
    ensures realIp in RunAll(proxy, s, acts).leaked
    ensures realIp in s.table.kernel && realIp in RunAll(proxy, s, acts).table.kernel
    ensures RunAll(proxy, s, acts).table.kernel[realIp] == s.table.kernel[realIp]
  {
    ReachesInv(proxy, s);
    LeakKeptForever(proxy, s, acts, realIp);
  }

  lemma TableAfterAction(proxy: Proxy, s: System, a: Action)
    ensures match a
            case AddNat(c, fault) =>
              var Conn(realIp, phase) := At(s, c);
              phase.Assigned? ==> Next(proxy, s, a).table == Nat.Add(s.table, realIp, phase.internalIp, fault).0
            case DeleteNat(c, fault) =>
              At(s, c).phase.Closing? ==> Next(proxy, s, a).table == Nat.Delete(s.table, proxy.native, At(s, c).realIp, fault).0
            case _ => true
    ensures !(a.AddNat? && At(s, a.conn).phase.Assigned?) && !(a.DeleteNat? && At(s, a.conn).phase.Closing?) ==>
              Next(proxy, s, a).table == s.table
    ensures s.leaked <= Next(proxy, s, a).leaked
  {
  }

  /** An entry that stays keeps its address. */
  lemma EntriesKeepAddress(proxy: Proxy, s: System, a: Action, realIp: string)
    requires realIp in s.table.refs
    ensures realIp in Next(proxy, s, a).table.refs ==> Next(proxy, s, a).table.refs[realIp].internalIp == s.table.refs[realIp].internalIp
  {
    TableAfterAction(proxy, s, a);
  }

  /** A handler's NAT add succeeds exactly when its address agrees with the kernel entry in place, or there is no entry and
      no kernel fault; with a connection or a leak of his in place a fault cannot matter. So after a leak, and for a leftover
      of an earlier process, a player whose identity was assigned anew is refused. */
  lemma AddSucceedsIff(proxy: Proxy, s: System, c: nat, fault: bool)
    requires Reaches(proxy, s) && At(s, c).phase.Assigned?
    ensures var Conn(realIp, phase) := At(s, c);
            var inUse := Holders(s.conns, realIp) != {} || realIp in s.leaked;
            Next(proxy, s, AddNat(c, fault)).conns[c].phase.Held?
            <==> (realIp in s.table.kernel ==> s.table.kernel[realIp] == phase.internalIp) && (fault ==> inUse)
  {
    ReachesInv(proxy, s);
    var Conn(realIp, phase) := At(s, c);
    Nat.AddKeepsInstalled(s.table, realIp, phase.internalIp, fault);
    assert CountOk(s, realIp);
    assert realIp in s.table.refs <==> Nat.RefCount(s.table, realIp) >= 1;
  }

  lemma ActionKeepsOwners(proxy: Proxy, s: System, a: Action)
    requires proxy.Valid() && SysInv(proxy, s) && Allowed(proxy, [a]) && WithinRange(Next(proxy, s, a).db)
    ensures forall i :: i in s.owners ==> i in Next(proxy, s, a).owners && Next(proxy, s, a).owners[i] == s.owners[i]
  {
    if a.Others? {
      assert [a][0] == a;
      OwnersKept(proxy.cfg, s.db, s.owners, a.event);
    } else if a.CallAssign? && At(s, a.conn).phase.Accepted? {
      OwnersKept(proxy.cfg, s.db, s.owners, OwnCall(proxy, At(s, a.conn).realIp));
    }
  }

  lemma {:induction false} RunKeepsOwners(proxy: Proxy, s: System, acts: seq<Action>)
    requires proxy.Valid() && SysInv(proxy, s) && Allowed(proxy, acts) && WithinRange(RunAll(proxy, s, acts).db)
    ensures forall i :: i in s.owners ==> i in RunAll(proxy, s, acts).owners && RunAll(proxy, s, acts).owners[i] == s.owners[i]
    decreases |acts|
  {
    if acts != [] {
      var next := Next(proxy, s, acts[0]);
      RunStaysWithinRange(proxy, next, acts[1..]);
      assert Allowed(proxy, [acts[0]]);
      ActionKeepsOwners(proxy, s, acts[0]);
      SysInvAfterAction(proxy, s, acts[0]);
      RunKeepsOwners(proxy, next, acts[1..]);
    }
  }

  /** Over a whole run, across expiries and restarts of identities, one internal address is only ever given to handlers of
      one real address: what a backend sees never changes hands. */
  lemma AddressNeverChangesHands(proxy: Proxy, s: System, acts: seq<Action>, c: nat, d: nat)
    requires Reaches(proxy, s) && Allowed(proxy, acts) && WithinRange(RunAll(proxy, s, acts).db)
    requires c in s.conns && s.conns[c].phase.HasAddress()
    requires var later := RunAll(proxy, s, acts);
             d in later.conns && later.conns[d].phase.HasAddress() && later.conns[d].phase.internalIp == s.conns[c].phase.internalIp
    ensures RunAll(proxy, s, acts).conns[d].realIp == s.conns[c].realIp
  {
    ReachesInv(proxy, s);
    SysInvAfterRun(proxy, s, acts);
    RunKeepsOwners(proxy, s, acts);
    assert HandlerOk(proxy, s, c) && HandlerOk(proxy, RunAll(proxy, s, acts), d);
  }

  // ---- leftovers of an earlier process ----

  /** This action adds the entry of a player from the very address that the kernel map holds for him. */
  predicate Agrees(s: System, a: Action, realIp: string, internalIp: string) {
    a.AddNat? && !a.fault && At(s, a.conn) == Conn(realIp, Assigned(internalIp))
  }

  predicate NeverAgrees(proxy: Proxy, s: System, acts: seq<Action>, realIp: string, internalIp: string)
    decreases |acts|
  {
    acts == [] || (!Agrees(s, acts[0], realIp, internalIp) && NeverAgrees(proxy, Next(proxy, s, acts[0]), acts[1..], realIp, internalIp))
  }

  /** No connection of this player gets past its NAT add. */
  predicate NeverAdmitted(proxy: Proxy, s: System, acts: seq<Action>, realIp: string)
    decreases |acts|
  {
    realIp !in s.table.refs && (acts == [] || NeverAdmitted(proxy, Next(proxy, s, acts[0]), acts[1..], realIp))
  }

  lemma LeftoverAfterAction(proxy: Proxy, s: System, a: Action, realIp: string)
    requires Nat.Installed(s.table) && realIp !in s.table.refs && realIp in s.table.kernel
    ensures realIp in Next(proxy, s, a).table.refs <==> Agrees(s, a, realIp, s.table.kernel[realIp])
    ensures realIp in Next(proxy, s, a).table.kernel && Next(proxy, s, a).table.kernel[realIp] == s.table.kernel[realIp]
  {
    TableAfterAction(proxy, s, a);
    if a.AddNat? && At(s, a.conn).phase.Assigned? {
      Nat.AddKeepsInstalled(s.table, At(s, a.conn).realIp, At(s, a.conn).phase.internalIp, a.fault);
    } else if a.DeleteNat? && At(s, a.conn).phase.Closing? {
      Nat.DeleteKeepsInstalled(s.table, proxy.native, At(s, a.conn).realIp, a.fault);
    }
  }

  lemma {:induction false} LeftoverAfterRun(proxy: Proxy, s: System, acts: seq<Action>, realIp: string)
    requires proxy.Valid() && SysInv(proxy, s) && Allowed(proxy, acts) && WithinRange(RunAll(proxy, s, acts).db)
    requires realIp !in s.table.refs && realIp in s.table.kernel
    ensures NeverAdmitted(proxy, s, acts, realIp) <==> NeverAgrees(proxy, s, acts, realIp, s.table.kernel[realIp])
    decreases |acts|
  {
    if acts != [] {
      var next := Next(proxy, s, acts[0]);
      RunStaysWithinRange(proxy, next, acts[1..]);
      assert Allowed(proxy, [acts[0]]);
      SysInvAfterAction(proxy, s, acts[0]);
      LeftoverAfterAction(proxy, s, acts[0], realIp);
      if realIp !in next.table.refs {
        LeftoverAfterRun(proxy, next, acts[1..], realIp);
      }
    }
  }

  /** A player with a leftover entry is refused for as long as no connection of his is given the very address of that entry, and
      no longer: for ever if his identity was assigned anew. */
  lemma RefusedByLeftoverIff(proxy: Proxy, s: System, acts: seq<Action>, realIp: string)
    requires Reaches(proxy, s) && Allowed(proxy, acts) && WithinRange(RunAll(proxy, s, acts).db)
    requires realIp in Nat.Leftovers(s.table)
    ensures realIp in proxy.leftovers
    ensures NeverAdmitted(proxy, s, acts, realIp) <==> NeverAgrees(proxy, s, acts, realIp, proxy.leftovers[realIp])
  {
    ReachesInv(proxy, s);
    LeftoverAfterRun(proxy, s, acts, realIp);
  }

  /** The very first connection of a player is refused when the kernel still holds another address for him. */
  lemma RefusedByLeftover(proxy: Proxy, realIp: string)
    requires proxy.leftovers == map[realIp := Text.ScriptAddress(proxy.num, 2)]
    ensures var back := Next(proxy, Next(proxy, Start(proxy), Accept(0, realIp)), CallAssign(0));
            && At(back, 0) == Conn(realIp, Assigned(Text.ScriptAddress(proxy.num, 1)))
            && At(Next(proxy, back, AddNat(0, false)), 0).phase.Closed?
  {
    ScriptTouchesTwoKeys(EMPTY, OwnCall(proxy, realIp));
    Text.AddressTextEqualIff(proxy.num, 1, proxy.num, 2);
  }

  // ---- a player locked out by a leak ----

  lemma RunThree(proxy: Proxy, s: System, a: Action, b: Action, c: Action, rest: seq<Action>)
    ensures RunAll(proxy, s, [a, b, c] + rest) == RunAll(proxy, Next(proxy, Next(proxy, Next(proxy, s, a), b), c), rest)
  {
    var acts := [a, b, c] + rest;
    var s' := Next(proxy, s, a);
    assert acts[1..][0] == b && acts[1..][1..][0] == c && acts[1..][1..][1..] == rest;
    assert RunAll(proxy, s, acts) == RunAll(proxy, s', acts[1..]);
    assert RunAll(proxy, s', acts[1..]) == RunAll(proxy, Next(proxy, s', b), acts[1..][1..]);
  }

  /** The system after one player's first connection has come as far as its NAT entry. */
  function Visited(proxy: Proxy, realIp: string): System {
    Next(proxy, Next(proxy, Next(proxy, Start(proxy), Accept(0, realIp)), CallAssign(0)), AddNat(0, false))
  }

  lemma VisitedState(proxy: Proxy, realIp: string)
    requires proxy.ttl > 0 && realIp !in proxy.leftovers
    ensures var s := Visited(proxy, realIp);
            && s.conns == map[0 := Conn(realIp, Held(Text.ScriptAddress(proxy.num, 1)))]
            && s.table.refs == map[realIp := Nat.Entry(Text.ScriptAddress(proxy.num, 1), 1)]
            && s.db.now == 0 && realIp in s.db.maps && s.db.maps[realIp].expires == Deadline.At(MS_PER_SECOND * proxy.ttl)
            && Counter(s.db, proxy.id) == 1 && s.leaked == {}
  {
    ScriptTouchesTwoKeys(EMPTY, OwnCall(proxy, realIp));
    StepCounters(EMPTY, OwnCall(proxy, realIp), proxy.id);
  }

  /** The player's lease has run out, and his first address is still in the table. */
  ghost predicate OutlivesLease(proxy: Proxy, s: System, realIp: string) {
    && realIp !in s.db.maps && Counter(s.db, proxy.id) == 1
    && realIp in s.table.refs && s.table.refs[realIp].internalIp == Text.ScriptAddress(proxy.num, 1)
  }

  /** He comes again, is given a new address, and his connection is refused because the entry in place disagrees. */
  lemma SecondVisitIsRefused(proxy: Proxy, s: System, realIp: string)
    requires OutlivesLease(proxy, s, realIp) && 1 !in s.conns
    ensures var back := Next(proxy, Next(proxy, s, Accept(1, realIp)), CallAssign(1));
            && back.conns == s.conns[1 := Conn(realIp, Assigned(Text.ScriptAddress(proxy.num, 2)))]
            && Next(proxy, back, AddNat(1, false)).conns[1].phase.Closed?
  {
    Text.AddressTextEqualIff(proxy.num, 1, proxy.num, 2);
  }

  function Wait(proxy: Proxy): Action
    requires proxy.ttl > 0
  {
    Others(Elapse(MS_PER_SECOND * proxy.ttl + 1))
  }

  /** No kernel failure is needed: a player whose open connection outlives his lease is refused a second one. */
  lemma RefusedWhileConnected(proxy: Proxy, realIp: string)
    requires proxy.ttl > 0 && realIp !in proxy.leftovers
    ensures var s := RunAll(proxy, Start(proxy), [Accept(0, realIp), CallAssign(0), AddNat(0, false), Dial(0), Wait(proxy), Accept(1, realIp)]);
            var back := Next(proxy, s, CallAssign(1));
            && s.leaked == {} && At(s, 0) == Conn(realIp, Open(Text.ScriptAddress(proxy.num, 1)))
            && At(back, 1).phase == Assigned(Text.ScriptAddress(proxy.num, 2))
            && At(Next(proxy, back, AddNat(1, false)), 1).phase.Closed?
  {
    var visited := Visited(proxy, realIp);
    var second := [Dial(0), Wait(proxy), Accept(1, realIp)];
    assert [Accept(0, realIp), CallAssign(0), AddNat(0, false)] + second
        == [Accept(0, realIp), CallAssign(0), AddNat(0, false), Dial(0), Wait(proxy), Accept(1, realIp)];
    RunThree(proxy, Start(proxy), Accept(0, realIp), CallAssign(0), AddNat(0, false), second);
    assert second + [] == second;
    RunThree(proxy, visited, Dial(0), Wait(proxy), Accept(1, realIp), []);
    VisitedState(proxy, realIp);
    StaysOpen(proxy, visited, realIp);
    SecondVisitIsRefused(proxy, Next(proxy, Next(proxy, visited, Dial(0)), Wait(proxy)), realIp);
  }

  lemma StaysOpen(proxy: Proxy, s: System, realIp: string)
    requires proxy.ttl > 0 && realIp !in proxy.leftovers && s == Visited(proxy, realIp)
    ensures var after := Next(proxy, Next(proxy, s, Dial(0)), Wait(proxy));
            && after.conns == map[0 := Conn(realIp, Open(Text.ScriptAddress(proxy.num, 1)))]
            && after.leaked == {} && OutlivesLease(proxy, after, realIp)
  {
    VisitedState(proxy, realIp);
  }

  /** One connection comes, its release fails in the kernel, and the player's identity expires. */
  function LeakingVisit(proxy: Proxy, realIp: string): seq<Action>
    requires proxy.ttl > 0
  {
    [Accept(0, realIp), CallAssign(0), AddNat(0, false)] + ([GiveUp(0), DeleteNat(0, true), Wait(proxy)] + [])
  }

  lemma LeakingVisitRun(proxy: Proxy, realIp: string)
    requires proxy.ttl > 0
    ensures RunAll(proxy, Start(proxy), LeakingVisit(proxy, realIp))
         == Next(proxy, Next(proxy, Next(proxy, Visited(proxy, realIp), GiveUp(0)), DeleteNat(0, true)), Wait(proxy))
  {
    RunThree(proxy, Start(proxy), Accept(0, realIp), CallAssign(0), AddNat(0, false), [GiveUp(0), DeleteNat(0, true), Wait(proxy)] + []);
    RunThree(proxy, Visited(proxy, realIp), GiveUp(0), DeleteNat(0, true), Wait(proxy), []);
  }

  lemma FailedRelease(proxy: Proxy, s: System, c: nat, ms: nat)
    requires c in s.conns && s.conns[c].phase.Held?
    requires Nat.RefCount(s.table, s.conns[c].realIp) == 1
    ensures var after := Next(proxy, Next(proxy, Next(proxy, s, GiveUp(c)), DeleteNat(c, true)), Others(Elapse(ms)));
            && after.table == s.table && after.conns == s.conns[c := Conn(s.conns[c].realIp, Closed)]
            && after.db == Advance(s.db, ms)
  {
  }

  lemma AfterLeakingVisit(proxy: Proxy, realIp: string)
    requires proxy.ttl > 0 && realIp !in proxy.leftovers
    ensures var s := RunAll(proxy, Start(proxy), LeakingVisit(proxy, realIp));
            s.conns == map[0 := Conn(realIp, Closed)] && OutlivesLease(proxy, s, realIp)
  {
    LeakingVisitRun(proxy, realIp);
    VisitedState(proxy, realIp);
    FailedRelease(proxy, Visited(proxy, realIp), 0, MS_PER_SECOND * proxy.ttl + 1);
  }

  /** After a failed release the player is refused although he has no connection open. */
  lemma RefusedAfterLeak(proxy: Proxy, realIp: string)
    requires proxy.ttl > 0 && realIp !in proxy.leftovers
    ensures var s := RunAll(proxy, Start(proxy), LeakingVisit(proxy, realIp));
            var back := Next(proxy, Next(proxy, s, Accept(1, realIp)), CallAssign(1));
            && Holders(back.conns, realIp) == {}
            && back.conns[1].phase == Assigned(Text.ScriptAddress(proxy.num, 2))
            && Next(proxy, back, AddNat(1, false)).conns[1].phase.Closed?
  {
    AfterLeakingVisit(proxy, realIp);
    SecondVisitIsRefused(proxy, RunAll(proxy, Start(proxy), LeakingVisit(proxy, realIp)), realIp);
  }
}
