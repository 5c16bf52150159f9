/** Connections of different players beyond 65536 allocations: when two of them are given the same internal address. Nothing
    here bounds the number of allocations. */
module LiveSharing {
  import opened Wrappers
  import opened Redis
  import opened Assignment
  import opened Identity
  import opened Connections
  import opened Wraparound
  import Text

  /** A system with the history of allocations: the latest of every identity, who drew which number and counter value, and from
      which of them the address of each connection was printed. */
  datatype Traced = Traced(s: System, births: Births, draws: map<Birth, Reverse>, origins: map<nat, Birth>)

  function BirthOf(db: Db, e: Event): Birth
    requires e.Assign?
  {
    Birth(e.num, Counter(db, e.proxy) + 1)
  }

  function Witness(t: Traced, e: Event): Traced {
    if Allocates(t.s.db, e)
    then t.(births := Note(t.births, t.s.db, e), draws := t.draws[BirthOf(t.s.db, e) := Reverse(e.realIp, e.proxy)])
    else t
  }

  /** The event that an action brings to the database, if any. */
  function EventOf(proxy: Proxy, s: System, a: Action): Option<Event> {
    if a.Others? then Some(a.event)
    else if a.CallAssign? && Connections.At(s, a.conn).phase.Accepted? then Some(OwnCall(proxy, Connections.At(s, a.conn).realIp))
    else None
  }

  /** A handler's own call sets the origin of its address to its player's latest allocation. */
  function OriginsAfter(t: Traced, births: Births, a: Action, e: Option<Event>): map<nat, Birth> {
    match e
    case Some(Assign(realIp, proxy, _, _, _)) =>
      if a.CallAssign? && Reverse(realIp, proxy) in births then t.origins[a.conn := births[Reverse(realIp, proxy)]] else t.origins
    case _ => t.origins
  }

  function TracedNext(proxy: Proxy, t: Traced, a: Action): Traced {
    var e := EventOf(proxy, t.s, a);
    var seen := if e.Some? then Witness(t, e.value) else t;
    Traced(Connections.Next(proxy, t.s, a), seen.births, seen.draws, OriginsAfter(t, seen.births, a, e))
  }

  function TracedRun(proxy: Proxy, t: Traced, acts: seq<Action>): Traced
    decreases |acts|
  {
    if acts == [] then t else TracedRun(proxy, TracedNext(proxy, t, acts[0]), acts[1..])
  }

  function TracedStart(proxy: Proxy): Traced {
    Traced(Start(proxy), map[], map[], map[])
  }

  /** The history only watches. */
  lemma {:induction false} TraceWatches(proxy: Proxy, t: Traced, acts: seq<Action>)
    ensures TracedRun(proxy, t, acts).s == RunAll(proxy, t.s, acts)
    decreases |acts|
  {
    if acts != [] {
      TraceWatches(proxy, TracedNext(proxy, t, acts[0]), acts[1..]);
    }
  }

  // ---- invariant ----

  ghost predicate DrawsOk(cfg: Config, db: Db, births: Births, draws: map<Birth, Reverse>) {
    && (forall b: Birth :: b in draws ==>
          b.num in cfg.user && cfg.user[b.num] == draws[b].proxy && 1 <= b.count <= Counter(db, draws[b].proxy))
    && (forall id: Reverse :: Live(db, id) ==> id in births && births[id] in draws && draws[births[id]] == id)
  }

  ghost predicate OriginOk(proxy: Proxy, t: Traced, c: nat)
    requires c in t.s.conns
  {
    var Conn(realIp, phase) := t.s.conns[c];
    phase.HasAddress() ==>
      && c in t.origins && t.origins[c] in t.draws && t.draws[t.origins[c]] == Reverse(realIp, proxy.id)
      && phase.internalIp == Text.ScriptAddress(t.origins[c].num, t.origins[c].count)
  }

  ghost predicate TracedOk(proxy: Proxy, t: Traced) {
    && BirthsOk(proxy.cfg, t.s.db, t.births)
    && DrawsOk(proxy.cfg, t.s.db, t.births, t.draws)
    && forall c :: c in t.s.conns ==> OriginOk(proxy, t, c)
  }

  /** What one event does to the history: nobody's draw is overwritten. */
  lemma DrawsAfterStep(cfg: Config, t: Traced, e: Event)
    requires BirthsOk(cfg, t.s.db, t.births) && DrawsOk(cfg, t.s.db, t.births, t.draws) && cfg.Allows(e)
    ensures DrawsOk(cfg, Step(t.s.db, e), Witness(t, e).births, Witness(t, e).draws)
    ensures forall b: Birth :: b in t.draws ==> b in Witness(t, e).draws && Witness(t, e).draws[b] == t.draws[b]
  {
    var db, after, seen := t.s.db, Step(t.s.db, e), Witness(t, e);
    forall b: Birth | b in seen.draws
      ensures b.num in cfg.user && cfg.user[b.num] == seen.draws[b].proxy && 1 <= b.count <= Counter(after, seen.draws[b].proxy)
    {
      StepCounters(db, e, seen.draws[b].proxy);
    }
    forall id: Reverse | Live(after, id)
      ensures id in seen.births && seen.births[id] in seen.draws && seen.draws[seen.births[id]] == id
    {
      LiveBefore(db, e, id);
    }
  }

  /** A call is answered with the address printed from its caller's latest allocation. */
  lemma AnswerIsPrinted(cfg: Config, t: Traced, e: Event)
    requires BirthsOk(cfg, t.s.db, t.births) && DrawsOk(cfg, t.s.db, t.births, t.draws) && cfg.Allows(e) && e.Assign?
    ensures var id, seen := Reverse(e.realIp, e.proxy), Witness(t, e);
            && id in seen.births && seen.births[id] in seen.draws && seen.draws[seen.births[id]] == id
            && Answer(t.s.db, e) == Text.ScriptAddress(seen.births[id].num, seen.births[id].count)
  {
    var id := Reverse(e.realIp, e.proxy);
    LiveAfterCall(t.s.db, e, id);
    DrawsAfterStep(cfg, t, e);
    BirthsOkAfterStep(cfg, t.s.db, t.births, e);
    assert Live(Step(t.s.db, e), id);
    assert BornAs(cfg, Step(t.s.db, e), Note(t.births, t.s.db, e), id);
  }

  lemma DatabaseAfter(proxy: Proxy, s: System, a: Action)
    ensures Connections.Next(proxy, s, a).db == match EventOf(proxy, s, a) case Some(e) => Step(s.db, e) case None => s.db
  {
  }

  lemma EventAllowed(proxy: Proxy, s: System, a: Action)
    requires proxy.Valid() && Allowed(proxy, [a])
    ensures EventOf(proxy, s, a).Some? ==> proxy.cfg.Allows(EventOf(proxy, s, a).value)
  {
    assert [a][0] == a;
  }

  /** A handler keeps the address it was given; only its own call gives it one. */
  lemma AddressesAfter(proxy: Proxy, s: System, a: Action, c: nat)
    requires c in Connections.Next(proxy, s, a).conns && Connections.Next(proxy, s, a).conns[c].phase.HasAddress()
    ensures c in s.conns && Connections.Next(proxy, s, a).conns[c].realIp == s.conns[c].realIp
    ensures if a == CallAssign(c) && s.conns[c].phase.Accepted?
            then Connections.Next(proxy, s, a).conns[c].phase.internalIp == Answer(s.db, OwnCall(proxy, s.conns[c].realIp))
            else s.conns[c].phase.HasAddress() && Connections.Next(proxy, s, a).conns[c].phase.internalIp == s.conns[c].phase.internalIp
  {
  }

  lemma OwnOriginAfter(proxy: Proxy, t: Traced, c: nat)
    requires proxy.Valid() && TracedOk(proxy, t) && c in t.s.conns && t.s.conns[c].phase.Accepted?
    ensures OriginOk(proxy, TracedNext(proxy, t, CallAssign(c)), c)
  {
    var call := OwnCall(proxy, t.s.conns[c].realIp);
    AnswerIsPrinted(proxy.cfg, t, call);
    AddressesAfter(proxy, t.s, CallAssign(c), c);
  }

  lemma OriginKept(proxy: Proxy, t: Traced, a: Action, c: nat)
    requires proxy.Valid() && TracedOk(proxy, t) && Allowed(proxy, [a])
    requires c in t.s.conns && t.s.conns[c].phase.HasAddress()
    ensures var next := TracedNext(proxy, t, a);
            && c in next.origins && next.origins[c] == t.origins[c]
            && t.origins[c] in next.draws && next.draws[t.origins[c]] == t.draws[t.origins[c]]
  {
    assert OriginOk(proxy, t, c);
    EventAllowed(proxy, t.s, a);
    var e := EventOf(proxy, t.s, a);
    if e.Some? {
      DrawsAfterStep(proxy.cfg, t, e.value);
    }
  }

  lemma OriginAfter(proxy: Proxy, t: Traced, a: Action, c: nat)
    requires proxy.Valid() && TracedOk(proxy, t) && Allowed(proxy, [a]) && c in TracedNext(proxy, t, a).s.conns
    ensures OriginOk(proxy, TracedNext(proxy, t, a), c)
  {
    if TracedNext(proxy, t, a).s.conns[c].phase.HasAddress() {
      AddressesAfter(proxy, t.s, a, c);
      if a == CallAssign(c) && t.s.conns[c].phase.Accepted? {
        OwnOriginAfter(proxy, t, c);
      } else {
        assert OriginOk(proxy, t, c);
        OriginKept(proxy, t, a, c);
      }
    }
  }

  lemma TracedOkAfter(proxy: Proxy, t: Traced, a: Action)
    requires proxy.Valid() && TracedOk(proxy, t) && Allowed(proxy, [a])
    ensures TracedOk(proxy, TracedNext(proxy, t, a))
  {
    var next := TracedNext(proxy, t, a);
    var e := EventOf(proxy, t.s, a);
    EventAllowed(proxy, t.s, a);
    DatabaseAfter(proxy, t.s, a);
    if e.Some? {
      BirthsOkAfterStep(proxy.cfg, t.s.db, t.births, e.value);
      DrawsAfterStep(proxy.cfg, t, e.value);
    }
    forall c | c in next.s.conns ensures OriginOk(proxy, next, c) {
      OriginAfter(proxy, t, a, c);
    }
  }

  lemma {:induction false} TracedOkAfterRun(proxy: Proxy, t: Traced, acts: seq<Action>)
    requires proxy.Valid() && TracedOk(proxy, t) && Allowed(proxy, acts)
    ensures TracedOk(proxy, TracedRun(proxy, t, acts))
    decreases |acts|
  {
    if acts != [] {
      assert Allowed(proxy, [acts[0]]);
      TracedOkAfter(proxy, t, acts[0]);
      TracedOkAfterRun(proxy, TracedNext(proxy, t, acts[0]), acts[1..]);
    }
  }

  // ---- main results ----

  /** Two connections of different players have the same internal address exactly when it was printed for one number from two
      different counter values that are equal modulo 65536. */
  lemma ShareAddressIff(proxy: Proxy, acts: seq<Action>, c: nat, d: nat)
    requires proxy.Valid() && Allowed(proxy, acts)
    requires var s := RunAll(proxy, Start(proxy), acts);
             && c in s.conns && d in s.conns && s.conns[c].realIp != s.conns[d].realIp
             && s.conns[c].phase.HasAddress() && s.conns[d].phase.HasAddress()
    ensures var t := TracedRun(proxy, TracedStart(proxy), acts);
            var s := RunAll(proxy, Start(proxy), acts);
            && t.s == s && c in t.origins && d in t.origins && t.origins[c] != t.origins[d]
            && (s.conns[c].phase.internalIp == s.conns[d].phase.internalIp
                <==> t.origins[c].num == t.origins[d].num
                     && t.origins[c].count % Text.ADDRESSES_PER_PROXY == t.origins[d].count % Text.ADDRESSES_PER_PROXY)
  {
    var t := TracedRun(proxy, TracedStart(proxy), acts);
    TraceWatches(proxy, TracedStart(proxy), acts);
    TracedOkAfterRun(proxy, TracedStart(proxy), acts);
    assert OriginOk(proxy, t, c) && OriginOk(proxy, t, d);
    Text.AddressTextEqualIff(t.origins[c].num, t.origins[c].count, t.origins[d].num, t.origins[d].count);
  }

  /** So as long as both were given addresses out of the last 65536 of the proxy, they have different ones. */
  lemma WindowSeparatesConnections(proxy: Proxy, acts: seq<Action>, c: nat, d: nat)
    requires proxy.Valid() && Allowed(proxy, acts)
    requires var s := RunAll(proxy, Start(proxy), acts);
             && c in s.conns && d in s.conns && s.conns[c].realIp != s.conns[d].realIp
             && s.conns[c].phase.HasAddress() && s.conns[d].phase.HasAddress()
    requires var t := TracedRun(proxy, TracedStart(proxy), acts);
             forall k | k in {c, d} && k in t.origins :: Counter(t.s.db, proxy.id) < t.origins[k].count + Text.ADDRESSES_PER_PROXY
    ensures var s := RunAll(proxy, Start(proxy), acts);
            s.conns[c].phase.internalIp != s.conns[d].phase.internalIp
  {
    var t := TracedRun(proxy, TracedStart(proxy), acts);
    ShareAddressIff(proxy, acts, c, d);
    TracedOkAfterRun(proxy, TracedStart(proxy), acts);
    assert OriginOk(proxy, t, c) && OriginOk(proxy, t, d);
    if t.origins[c].num == t.origins[d].num {
      WithinOneCycle(t.origins[c].count, t.origins[d].count, Counter(t.s.db, proxy.id));
    }
  }
}
