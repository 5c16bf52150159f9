/** How long an identity's two mappings live: a machine of its own, driven only by the clock and the calls for its player,
    each call with its own TTL. */
module Leases {
  import opened Wrappers
  import opened Redis
  import opened Assignment
  import opened Identity
  import Text

  /** The time a key has left. */
  datatype Life = Gone | Left(ms: int) | Ever {
    predicate Lasts(t: nat) {
      Ever? || (Left? && t <= ms)
    }

    function Spent(t: nat): Life {
      if Ever? then Ever else if Lasts(t) then Left(ms - t) else Gone
    }

    /** After a call that renews the key, for a player who was reserved before it or not. */
    function Renewed(reserved: bool, ttl: int, reserve: bool): Life {
      if Gone? then Gone
      else if reserve then Ever
      else if !reserved && ttl > 0 then Left(MS_PER_SECOND * ttl)
      else this
    }
  }

  function LifeUntil(now: int, expires: Deadline): Life {
    match expires
    case Never => Ever
    case At(ms) => Left(ms - now)
  }

  /** Whether the player is reserved, how long the identity will still hold its address, and how long the address will
      still name it. */
  datatype Lease = Lease(reserved: bool, held: Life, named: Life)

  function LeaseOf(db: Db, id: Reverse, internalIp: string): Lease {
    Lease(id.realIp in db.reserved,
          if HGet(db, id.realIp, id.proxy) == Some(internalIp) then LifeUntil(db.now, db.maps[id.realIp].expires) else Gone,
          if internalIp in db.rmaps then LifeUntil(db.now, db.rmaps[internalIp].expires) else Gone)
  }

  /** What one event means: every call for the player renews the hash, a call on the identity's own proxy also the reverse
      key, as long as the address is still held, and what is gone stays gone. */
  function Next(l: Lease, id: Reverse, e: Event): Lease {
    match e
    case Elapse(ms) => Lease(l.reserved, l.held.Spent(ms), l.named.Spent(ms))
    case Assign(realIp, proxy, _, ttl, reserve) =>
      if realIp != id.realIp then l
      else
        Lease(l.reserved || reserve,
              l.held.Renewed(l.reserved, ttl, reserve),
              if proxy == id.proxy && !l.held.Gone? then l.named.Renewed(l.reserved, ttl, reserve) else l.named)
  }

  function After(l: Lease, id: Reverse, es: seq<Event>): Lease
    decreases |es|
  {
    if es == [] then l else After(Next(l, id, es[0]), id, es[1..])
  }

  // ---- every identity of the system is such a machine ----

  lemma LeaseAfterEffect(db: Db, after: Db, owners: Owners, e: Event, answer: string, internalIp: string)
    requires ScriptEffect(db, after, e, answer) && (Allocates(db, e) ==> answer !in owners)
    requires ForwardOk(db, owners) && internalIp in owners
    ensures LeaseOf(after, owners[internalIp], internalIp) == Next(LeaseOf(db, owners[internalIp], internalIp), owners[internalIp], e)
  {
    if !Allocates(db, e) {
      assert owners[db.maps[e.realIp].fields[e.proxy]] == Reverse(e.realIp, e.proxy);
    }
  }

  lemma LeaseAfterElapse(db: Db, ms: nat, id: Reverse, internalIp: string)
    ensures LeaseOf(Advance(db, ms), id, internalIp) == Next(LeaseOf(db, id, internalIp), id, Elapse(ms))
  {
  }

  lemma LeaseAfterStep(cfg: Config, db: Db, owners: Owners, e: Event, internalIp: string)
    requires Inv(cfg, db, owners) && cfg.Allows(e) && WithinRange(Step(db, e)) && internalIp in owners
    ensures LeaseOf(Step(db, e), owners[internalIp], internalIp)
         == Next(LeaseOf(db, owners[internalIp], internalIp), owners[internalIp], e)
  {
    match e
    case Elapse(ms) => LeaseAfterElapse(db, ms, owners[internalIp], internalIp);
    case Assign(_, _, _, _, _) =>
      ScriptTouchesTwoKeys(db, e);
      AnswerIsNew(cfg, db, owners, e);
      LeaseAfterEffect(db, Step(db, e), owners, e, Answer(db, e), internalIp);
  }

  lemma {:induction false} LeaseAfterRun(cfg: Config, db: Db, owners: Owners, es: seq<Event>, internalIp: string)
    requires Inv(cfg, db, owners) && cfg.AllowsAll(es) && WithinRange(Run(db, es)) && internalIp in owners
    ensures LeaseOf(Run(db, es), owners[internalIp], internalIp) == After(LeaseOf(db, owners[internalIp], internalIp), owners[internalIp], es)
    decreases |es|
  {
    if es != [] {
      InvAfterHead(cfg, db, owners, es[0], es[1..]);
      OwnersKept(cfg, db, owners, es[0]);
      LeaseAfterStep(cfg, db, owners, es[0], internalIp);
      LeaseAfterRun(cfg, Step(db, es[0]), Record(owners, db, es[0]), es[1..], internalIp);
    }
  }

  /** The identity holds the address, or the address names it. */
  predicate Known(db: Db, id: Reverse, internalIp: string) {
    HGet(db, id.realIp, id.proxy) == Some(internalIp) || Get(db, internalIp) == Some(id)
  }

  /** Whatever other players, proxies and watchers do, with whatever TTLs: how long an identity holds its address and how
      long the address names it follows this machine and nothing else in the database. */
  lemma IdentityFollowsLease(cfg: Config, db: Db, id: Reverse, internalIp: string, es: seq<Event>)
    requires Reachable(cfg, db) && Known(db, id, internalIp) && cfg.AllowsAll(es) && WithinRange(Run(db, es))
    ensures LeaseOf(Run(db, es), id, internalIp) == After(LeaseOf(db, id, internalIp), id, es)
  {
    var owners := ReachableInv(cfg, db);
    assert internalIp in owners && owners[internalIp] == id;
    LeaseAfterRun(cfg, db, owners, es, internalIp);
  }

  // ---- what the machine says about call times ----

  /** A call for this real address, on the given proxy or on any. */
  predicate Renews(e: Event, realIp: string, on: Option<string>) {
    Mentions(e, realIp) && (on.None? || e.proxy == on.value)
  }

  /** A key with this life never runs out: no stretch between renewing calls is longer than what the last one left. This is
      about the times, TTLs and reserve flags of the player's calls alone. */
  predicate KeptUp(es: seq<Event>, realIp: string, on: Option<string>, reserved: bool, life: Life)
    decreases |es|
  {
    if es == [] then true
    else match es[0]
      case Elapse(ms) => life.Lasts(ms) && KeptUp(es[1..], realIp, on, reserved, life.Spent(ms))
      case Assign(_, _, _, ttl, reserve) =>
        KeptUp(es[1..], realIp, on, reserved || (Mentions(es[0], realIp) && reserve),
               if Renews(es[0], realIp, on) then life.Renewed(reserved, ttl, reserve) else life)
  }

  /** The hash runs out before the reverse key does, which then lives out its time without being renewed. */
  predicate Outlives(es: seq<Event>, id: Reverse, reserved: bool, held: Life, named: Life)
    decreases |es|
  {
    if es == [] then false
    else match es[0]
      case Elapse(ms) =>
        if held.Lasts(ms) then named.Lasts(ms) && Outlives(es[1..], id, reserved, held.Spent(ms), named.Spent(ms))
        else named.Lasts(Elapsed(es))
      case Assign(_, _, _, ttl, reserve) =>
        Outlives(es[1..], id, reserved || (Mentions(es[0], id.realIp) && reserve),
                 if Renews(es[0], id.realIp, None) then held.Renewed(reserved, ttl, reserve) else held,
                 if Renews(es[0], id.realIp, Some(id.proxy)) then named.Renewed(reserved, ttl, reserve) else named)
  }

  lemma {:induction false} GoneStaysGone(l: Lease, id: Reverse, es: seq<Event>)
    ensures l.held.Gone? ==> After(l, id, es).held.Gone?
    ensures l.named.Gone? ==> After(l, id, es).named.Gone?
    decreases |es|
  {
    if es != [] {
      GoneStaysGone(Next(l, id, es[0]), id, es[1..]);
    }
  }

  lemma {:induction false} HeldIffKeptUp(l: Lease, id: Reverse, es: seq<Event>)
    requires !l.held.Gone?
    ensures !After(l, id, es).held.Gone? <==> KeptUp(es, id.realIp, None, l.reserved, l.held)
    decreases |es|
  {
    if es != [] {
      var next := Next(l, id, es[0]);
      if next.held.Gone? {
        GoneStaysGone(next, id, es[1..]);
      } else {
        HeldIffKeptUp(next, id, es[1..]);
      }
    }
  }

  lemma {:induction false} NamedIffKeptUp(l: Lease, id: Reverse, es: seq<Event>)
    requires !l.named.Gone? && !After(l, id, es).held.Gone?
    ensures !After(l, id, es).named.Gone? <==> KeptUp(es, id.realIp, Some(id.proxy), l.reserved, l.named)
    decreases |es|
  {
    GoneStaysGone(l, id, es);
    if es != [] {
      var next := Next(l, id, es[0]);
      if next.named.Gone? {
        GoneStaysGone(next, id, es[1..]);
      } else {
        NamedIffKeptUp(next, id, es[1..]);
      }
    }
  }

  /** Once the hash is gone the reverse key is on its own. */
  lemma {:induction false} NamedOnItsOwn(l: Lease, id: Reverse, es: seq<Event>)
    requires l.held.Gone? && l.named.Lasts(0)
    ensures !After(l, id, es).named.Gone? <==> l.named.Lasts(Elapsed(es))
    decreases |es|
  {
    if es != [] {
      var next := Next(l, id, es[0]);
      if next.named.Gone? {
        GoneStaysGone(next, id, es[1..]);
      } else {
        NamedOnItsOwn(next, id, es[1..]);
      }
    }
  }

  lemma {:induction false} OutlivesIff(l: Lease, id: Reverse, es: seq<Event>)
    requires l.held.Lasts(0) && l.named.Lasts(0)
    ensures After(l, id, es).held.Gone? && !After(l, id, es).named.Gone? <==> Outlives(es, id, l.reserved, l.held, l.named)
    decreases |es|
  {
    if es != [] {
      var next := Next(l, id, es[0]);
      if next.named.Gone? {
        GoneStaysGone(next, id, es[1..]);
      } else if next.held.Gone? {
        GoneStaysGone(next, id, es[1..]);
        NamedOnItsOwn(next, id, es[1..]);
      } else {
        OutlivesIff(next, id, es[1..]);
      }
    }
  }

  // ---- when the two mappings are live ----

  lemma LeaseOfReachable(cfg: Config, db: Db, id: Reverse, internalIp: string)
    requires Reachable(cfg, db)
    ensures var l := LeaseOf(db, id, internalIp);
            && (l.held.Lasts(0) || l.held.Gone?) && (l.named.Lasts(0) || l.named.Gone?)
            && (HGet(db, id.realIp, id.proxy) == Some(internalIp) <==> !l.held.Gone?)
            && (Get(db, internalIp).Some? <==> !l.named.Gone?)
  {
    var owners := ReachableInv(cfg, db);
  }

  lemma LeaseAtEnd(db: Db, id: Reverse, internalIp: string)
    ensures HGet(db, id.realIp, id.proxy) == Some(internalIp) <==> !LeaseOf(db, id, internalIp).held.Gone?
    ensures Get(db, internalIp).Some? <==> !LeaseOf(db, id, internalIp).named.Gone?
  {
  }

  /** From any state in which an identity holds an address, it holds it after a run exactly when the player was kept up, by
      calls on whatever proxies. */
  lemma ForwardLiveIff(cfg: Config, db: Db, id: Reverse, internalIp: string, es: seq<Event>)
    requires Reachable(cfg, db) && cfg.AllowsAll(es) && WithinRange(Run(db, es))
    requires HGet(db, id.realIp, id.proxy) == Some(internalIp)
    ensures var l := LeaseOf(db, id, internalIp);
            HGet(Run(db, es), id.realIp, id.proxy) == Some(internalIp) <==> KeptUp(es, id.realIp, None, l.reserved, l.held)
  {
    IdentityFollowsLease(cfg, db, id, internalIp, es);
    LeaseAtEnd(Run(db, es), id, internalIp);
    HeldIffKeptUp(LeaseOf(db, id, internalIp), id, es);
  }

  /** From any state in which an identity holds an address that names it: after a run the address is held and names nobody
      exactly when the player was kept up by the proxies together but not by his own one alone. */
  lemma ForwardWithoutReverseIff(cfg: Config, db: Db, id: Reverse, internalIp: string, es: seq<Event>)
    requires Reachable(cfg, db) && cfg.AllowsAll(es) && WithinRange(Run(db, es))
    requires HGet(db, id.realIp, id.proxy) == Some(internalIp) && Get(db, internalIp).Some?
    ensures var l, later := LeaseOf(db, id, internalIp), Run(db, es);
            HGet(later, id.realIp, id.proxy) == Some(internalIp) && Get(later, internalIp) == None
            <==> KeptUp(es, id.realIp, None, l.reserved, l.held) && !KeptUp(es, id.realIp, Some(id.proxy), l.reserved, l.named)
  {
    var l := LeaseOf(db, id, internalIp);
    IdentityFollowsLease(cfg, db, id, internalIp, es);
    LeaseAtEnd(Run(db, es), id, internalIp);
    HeldIffKeptUp(l, id, es);
    if !After(l, id, es).held.Gone? {
      NamedIffKeptUp(l, id, es);
    }
  }

  /** And it names the identity without being held exactly when the hash ran out first and the address's own time has not
      run out since: never under one common TTL, but possible as soon as another proxy has a shorter one. */
  lemma ReverseWithoutForwardIff(cfg: Config, db: Db, id: Reverse, internalIp: string, es: seq<Event>)
    requires Reachable(cfg, db) && cfg.AllowsAll(es) && WithinRange(Run(db, es))
    requires HGet(db, id.realIp, id.proxy) == Some(internalIp) && Get(db, internalIp).Some?
    ensures var l, later := LeaseOf(db, id, internalIp), Run(db, es);
            HGet(later, id.realIp, id.proxy) != Some(internalIp) && Get(later, internalIp).Some?
            <==> Outlives(es, id, l.reserved, l.held, l.named)
  {
    IdentityFollowsLease(cfg, db, id, internalIp, es);
    LeaseAtEnd(Run(db, es), id, internalIp);
    LeaseOfReachable(cfg, db, id, internalIp);
    OutlivesIff(LeaseOf(db, id, internalIp), id, es);
  }

  /** A call answers an address its identity held before a run exactly when the player was kept up in between. */
  lemma AddressIsAnsweredIff(cfg: Config, db: Db, internalIp: string, es: seq<Event>, later: Event)
    requires Reachable(cfg, db) && cfg.AllowsAll(es) && cfg.Allows(later) && WithinRange(Step(Run(db, es), later))
    requires later.Assign? && HGet(db, later.realIp, later.proxy) == Some(internalIp)
    ensures var l := LeaseOf(db, Reverse(later.realIp, later.proxy), internalIp);
            Answer(Run(db, es), later) == internalIp <==> KeptUp(es, later.realIp, None, l.reserved, l.held)
  {
    var owners := ReachableInv(cfg, db);
    StepWithinRange(Run(db, es), later);
    assert internalIp in owners;
    AnsweredAgainIff(cfg, db, owners, es, later, internalIp);
    ForwardIsStaysLive(cfg, db, owners, es, later.realIp, later.proxy, internalIp);
    ForwardLiveIff(cfg, db, Reverse(later.realIp, later.proxy), internalIp, es);
  }

  lemma ForwardIsStaysLive(cfg: Config, db: Db, owners: Owners, es: seq<Event>, realIp: string, proxy: string, internalIp: string)
    requires Inv(cfg, db, owners) && cfg.AllowsAll(es) && WithinRange(Run(db, es))
    requires internalIp in owners && HGet(db, realIp, proxy) == Some(internalIp)
    ensures StaysLive(db, es, realIp) <==> HGet(Run(db, es), realIp, proxy) == Some(internalIp)
  {
    if StaysLive(db, es, realIp) {
      SameAddressWhileLive(db, es, realIp, proxy);
    } else {
      LostUnlessLive(cfg, db, owners, es, realIp, proxy, internalIp);
    }
  }

  // ---- after one call ----

  /** What a call starts: an ordinary one for a player not reserved gives both keys its TTL, a reserve call for ever, and any
      other leaves them the time they have. The reverse key takes part if the call allocated it or found it live. */
  lemma CallStartsLease(cfg: Config, db: Db, e: Event)
    requires Reachable(cfg, db) && cfg.Allows(e) && e.Assign?
    ensures var before := Lease(e.realIp in db.reserved,
                                if e.realIp in db.maps then LifeUntil(db.now, db.maps[e.realIp].expires) else Ever,
                                if Allocates(db, e) then Ever else LeaseOf(db, Reverse(e.realIp, e.proxy), Answer(db, e)).named);
            LeaseOf(Step(db, e), Reverse(e.realIp, e.proxy), Answer(db, e))
            == Lease(before.reserved || e.reserve,
                     before.held.Renewed(before.reserved, e.ttl, e.reserve),
                     before.named.Renewed(before.reserved, e.ttl, e.reserve))
  {
    ScriptTouchesTwoKeys(db, e);
  }

  predicate NeverCalled(es: seq<Event>, realIp: string, on: Option<string>) {
    forall i :: 0 <= i < |es| ==> !Renews(es[i], realIp, on)
  }

  lemma {:induction false} UncalledNamed(l: Lease, id: Reverse, es: seq<Event>)
    requires NeverCalled(es, id.realIp, Some(id.proxy)) && l.named.Lasts(0)
    ensures !After(l, id, es).named.Gone? <==> l.named.Lasts(Elapsed(es))
    decreases |es|
  {
    if es != [] {
      var next := Next(l, id, es[0]);
      assert !Renews(es[0], id.realIp, Some(id.proxy));
      if next.named.Gone? {
        GoneStaysGone(next, id, es[1..]);
      } else {
        UncalledNamed(next, id, es[1..]);
      }
    }
  }

  /** An ordinary call with a TTL, for a player who is not reserved, which allocates or finds its reverse mapping live. */
  ghost predicate StartsLease(cfg: Config, db: Db, e: Event) {
    && Reachable(cfg, db) && cfg.Allows(e)
    && e.Assign? && !e.reserve && e.ttl > 0 && e.realIp !in db.reserved
    && (Allocates(db, e) || Answer(db, e) in db.rmaps)
  }

  lemma LeaseStarted(cfg: Config, db: Db, e: Event)
    requires StartsLease(cfg, db, e)
    ensures LeaseOf(Step(db, e), Reverse(e.realIp, e.proxy), Answer(db, e))
         == Lease(false, Left(MS_PER_SECOND * e.ttl), Left(MS_PER_SECOND * e.ttl))
  {
    CallStartsLease(cfg, db, e);
  }

  lemma KnownAfterCall(cfg: Config, db: Db, e: Event, es: seq<Event>)
    requires Reachable(cfg, db) && cfg.Allows(e) && e.Assign? && WithinRange(Run(Step(db, e), es))
    ensures Reachable(cfg, Step(db, e)) && HGet(Step(db, e), e.realIp, e.proxy) == Some(Answer(db, e))
  {
    ReachableAfterHead(cfg, db, e, es);
    ScriptTouchesTwoKeys(db, e);
  }

  /** Without a further call of the same player on the same proxy, the reverse mapping lives for exactly the call's TTL,
      whatever happens on other proxies under whatever TTLs, and even if the player is reserved there. */
  lemma ReverseLiveIff(cfg: Config, db: Db, e: Event, es: seq<Event>)
    requires StartsLease(cfg, db, e) && cfg.AllowsAll(es) && WithinRange(Run(Step(db, e), es))
    requires NeverCalled(es, e.realIp, Some(e.proxy))
    ensures Get(Run(Step(db, e), es), Answer(db, e)).Some? <==> Elapsed(es) <= MS_PER_SECOND * e.ttl
  {
    var id := Reverse(e.realIp, e.proxy);
    LeaseStarted(cfg, db, e);
    KnownAfterCall(cfg, db, e, es);
    IdentityFollowsLease(cfg, Step(db, e), id, Answer(db, e), es);
    LeaseAtEnd(Run(Step(db, e), es), id, Answer(db, e));
    UncalledNamed(LeaseOf(Step(db, e), id, Answer(db, e)), id, es);
  }

  // ---- at least as long as the shortest TTL ----

  /** No ordinary call that renews brings a shorter TTL than this time. */
  predicate NoShorter(es: seq<Event>, realIp: string, on: Option<string>, t: int) {
    forall i :: 0 <= i < |es| && Renews(es[i], realIp, on) ==> es[i].reserve || es[i].ttl <= 0 || t <= MS_PER_SECOND * es[i].ttl
  }

  lemma {:induction false} KeptUpByShortest(es: seq<Event>, realIp: string, on: Option<string>, reserved: bool, life: Life)
    requires life.Lasts(Elapsed(es)) && NoShorter(es, realIp, on, Elapsed(es))
    ensures KeptUp(es, realIp, on, reserved, life)
    decreases |es|
  {
    if es != [] {
      var e := es[0];
      assert Renews(e, realIp, on) ==> e.reserve || e.ttl <= 0 || Elapsed(es) <= MS_PER_SECOND * e.ttl;
      if e.Elapse? {
        KeptUpByShortest(es[1..], realIp, on, reserved, life.Spent(e.ms));
      } else {
        KeptUpByShortest(es[1..], realIp, on, reserved || (Mentions(e, realIp) && e.reserve),
                         if Renews(e, realIp, on) then life.Renewed(reserved, e.ttl, e.reserve) else life);
      }
    }
  }

  lemma {:induction false} NamedByShortest(l: Lease, id: Reverse, es: seq<Event>)
    requires l.named.Lasts(Elapsed(es)) && NoShorter(es, id.realIp, Some(id.proxy), Elapsed(es))
    ensures !After(l, id, es).named.Gone?
    decreases |es|
  {
    if es != [] {
      var e := es[0];
      assert Renews(e, id.realIp, Some(id.proxy)) ==> e.reserve || e.ttl <= 0 || Elapsed(es) <= MS_PER_SECOND * e.ttl;
      NamedByShortest(Next(l, id, e), id, es[1..]);
    }
  }

  /** For one TTL after a call, whatever else happens, a call for the same identity gets the same answer, unless a proxy with a
      shorter TTL was called for the player meanwhile. */
  lemma AddressIsStableForOneTtl(cfg: Config, db: Db, e: Event, es: seq<Event>, later: Event)
    requires Reachable(cfg, db) && cfg.Allows(e) && cfg.AllowsAll(es) && cfg.Allows(later)
    requires WithinRange(Step(Run(Step(db, e), es), later))
    requires e.Assign? && later.Assign? && later.realIp == e.realIp && later.proxy == e.proxy
    requires e.reserve || e.realIp in db.reserved || Elapsed(es) <= MS_PER_SECOND * e.ttl
    requires e.reserve || e.ttl > 0 || e.realIp in db.reserved
    requires NoShorter(es, e.realIp, None, Elapsed(es))
    ensures Answer(Run(Step(db, e), es), later) == Answer(db, e)
  {
    StepWithinRange(Run(Step(db, e), es), later);
    KnownAfterCall(cfg, db, e, es);
    CallLasts(cfg, db, e, Elapsed(es));
    var l := LeaseOf(Step(db, e), Reverse(e.realIp, e.proxy), Answer(db, e));
    KeptUpByShortest(es, e.realIp, None, l.reserved, l.held);
    AddressIsAnsweredIff(cfg, Step(db, e), Answer(db, e), es, later);
  }

  lemma CallLasts(cfg: Config, db: Db, e: Event, t: nat)
    requires Reachable(cfg, db) && cfg.Allows(e) && e.Assign?
    requires e.reserve || e.realIp in db.reserved || (e.ttl > 0 && t <= MS_PER_SECOND * e.ttl)
    ensures LeaseOf(Step(db, e), Reverse(e.realIp, e.proxy), Answer(db, e)).held.Lasts(t)
    ensures e.reserve || e.realIp !in db.reserved ==>
              Allocates(db, e) || Answer(db, e) in db.rmaps ==>
                LeaseOf(Step(db, e), Reverse(e.realIp, e.proxy), Answer(db, e)).named.Lasts(t)
  {
    CallStartsLease(cfg, db, e);
    var owners := ReachableInv(cfg, db);
    assert e.realIp in db.reserved ==> Reserved(db, e.realIp);
  }

  /** A call renews the reverse mapping of its answer for its TTL, and a reserve call for ever, provided it allocated the address
      or the mapping was still live, no later call on this proxy brings a shorter TTL, and an ordinary call finds the player not
      reserved: a reserved one keeps whatever deadline its reverse mapping has. */
  lemma ReverseIsStableAfterCall(cfg: Config, db: Db, e: Event, es: seq<Event>)
    requires Reachable(cfg, db) && cfg.Allows(e) && e.Assign? && cfg.AllowsAll(es) && WithinRange(Run(Step(db, e), es))
    requires Allocates(db, e) || Answer(db, e) in db.rmaps
    requires e.reserve || (e.realIp !in db.reserved && e.ttl > 0 && Elapsed(es) <= MS_PER_SECOND * e.ttl)
    requires NoShorter(es, e.realIp, Some(e.proxy), Elapsed(es))
    ensures Get(Run(Step(db, e), es), Answer(db, e)) == Some(Reverse(e.realIp, e.proxy))
  {
    var id := Reverse(e.realIp, e.proxy);
    KnownAfterCall(cfg, db, e, es);
    CallLasts(cfg, db, e, Elapsed(es));
    IdentityFollowsLease(cfg, Step(db, e), id, Answer(db, e), es);
    NamedByShortest(LeaseOf(Step(db, e), id, Answer(db, e)), id, es);
    LeaseAtEnd(Run(Step(db, e), es), id, Answer(db, e));
    ReverseLookupNamesThePlayer(cfg, db, e, es);
  }

  lemma {:induction false} UncalledIsKeptUpIff(es: seq<Event>, realIp: string, on: Option<string>, reserved: bool, life: Life)
    requires NeverCalled(es, realIp, on) && life.Lasts(0)
    ensures KeptUp(es, realIp, on, reserved, life) <==> life.Lasts(Elapsed(es))
    decreases |es|
  {
    if es != [] {
      assert !Renews(es[0], realIp, on);
      match es[0]
      case Elapse(ms) => if life.Lasts(ms) { UncalledIsKeptUpIff(es[1..], realIp, on, reserved, life.Spent(ms)); }
      case Assign(_, _, _, _, reserve) => UncalledIsKeptUpIff(es[1..], realIp, on, reserved || (Mentions(es[0], realIp) && reserve), life);
    }
  }

  /** A player nobody asks for keeps each of his two mappings exactly as long as its own time lasts. */
  lemma IdleIdentityExpiresIff(cfg: Config, db: Db, id: Reverse, internalIp: string, es: seq<Event>)
    requires Reachable(cfg, db) && cfg.AllowsAll(es) && WithinRange(Run(db, es))
    requires HGet(db, id.realIp, id.proxy) == Some(internalIp) && Get(db, internalIp).Some?
    requires NeverCalled(es, id.realIp, None)
    ensures var l, later := LeaseOf(db, id, internalIp), Run(db, es);
            && (HGet(later, id.realIp, id.proxy) == Some(internalIp) <==> l.held.Lasts(Elapsed(es)))
            && (Get(later, internalIp).Some? <==> l.named.Lasts(Elapsed(es)))
  {
    var l := LeaseOf(db, id, internalIp);
    LeaseOfReachable(cfg, db, id, internalIp);
    ForwardLiveIff(cfg, db, id, internalIp, es);
    UncalledIsKeptUpIff(es, id.realIp, None, l.reserved, l.held);
    assert NeverCalled(es, id.realIp, Some(id.proxy));
    IdentityFollowsLease(cfg, db, id, internalIp, es);
    UncalledNamed(l, id, es);
    LeaseAtEnd(Run(db, es), id, internalIp);
  }

  // ---- a lost reverse mapping is lost for good ----

  /** Once the reverse mapping of an address handed out is gone no later event brings it back, not even a reserve call. */
  lemma LostReverseStaysLost(cfg: Config, db: Db, e: Event, es: seq<Event>, fs: seq<Event>)
    requires Reachable(cfg, db) && cfg.Allows(e) && e.Assign? && cfg.AllowsAll(es) && cfg.AllowsAll(fs)
    requires WithinRange(Run(Run(Step(db, e), es), fs))
    requires Get(Run(Step(db, e), es), Answer(db, e)) == None
    ensures Get(Run(Run(Step(db, e), es), fs), Answer(db, e)) == None
  {
    var lost := Run(Step(db, e), es);
    PrefixWithinRange(lost, fs, 0);
    assert fs[..0] == [];
    var owners := ReachableInv(cfg, db);
    InvAfterHead(cfg, db, owners, e, es);
    OwnersKept(cfg, db, owners, e);
    LostFrom(cfg, Step(db, e), Record(owners, db, e), es, fs, Answer(db, e));
  }

  lemma LostFrom(cfg: Config, db: Db, owners: Owners, es: seq<Event>, fs: seq<Event>, internalIp: string)
    requires Inv(cfg, db, owners) && cfg.AllowsAll(es) && cfg.AllowsAll(fs) && internalIp in owners
    requires WithinRange(Run(db, es)) && WithinRange(Run(Run(db, es), fs))
    requires Get(Run(db, es), internalIp) == None
    ensures Get(Run(Run(db, es), fs), internalIp) == None
  {
    var lost, id := Run(db, es), owners[internalIp];
    InvAfterRun(cfg, db, owners, es);
    HistoryKeepsOwner(cfg, db, owners, es, internalIp);
    LeaseAfterRun(cfg, lost, History(owners, db, es), fs, internalIp);
    GoneStaysGone(LeaseOf(lost, id, internalIp), id, fs);
  }

  /** A reservation made after the loss makes the address permanent, and no reverse lookup of it ever succeeds again: it can
      be seen by the backend for ever and never be promoted. */
  lemma PermanentButUnresolvable(cfg: Config, db: Db, e: Event, es: seq<Event>, reserve: Event, fs: seq<Event>, later: Event)
    requires Reachable(cfg, db) && cfg.Allows(e) && e.Assign? && cfg.AllowsAll(es)
    requires Get(Run(Step(db, e), es), Answer(db, e)) == None
    requires HGet(Run(Step(db, e), es), e.realIp, e.proxy) == Some(Answer(db, e))
    requires cfg.Allows(reserve) && cfg.AllowsAll(fs) && WithinRange(Run(Run(Step(db, e), es), [reserve] + fs))
    requires Mentions(reserve, e.realIp) && reserve.reserve && reserve.proxy == e.proxy
    requires Mentions(later, e.realIp) && later.proxy == e.proxy
    ensures var after := Run(Run(Step(db, e), es), [reserve] + fs);
            Answer(after, later) == Answer(db, e) && Get(after, Answer(db, e)) == None
  {
    var lost := Run(Step(db, e), es);
    LostReverseStaysLost(cfg, db, e, es, [reserve] + fs);
    RunConcat(lost, [reserve], fs);
    RunOne(lost, reserve);
    StickyAnswer(lost, reserve, Answer(db, e));
    ReservedAnswerIsForever(lost, reserve, fs, later);
  }

  // ---- two concrete runs ----

  /** The state after the first call for a real address on proxy number 1 and some time. */
  function AfterFirstCall(realIp: string, proxy: string, ttl: int, ms: nat): Db {
    Run(EMPTY, [Assign(realIp, proxy, 1, ttl, false), Elapse(ms)])
  }

  lemma FirstCall(realIp: string, proxy: string, ttl: int, ms: nat)
    requires ttl > 0 && ms <= MS_PER_SECOND * ttl
    ensures var db := AfterFirstCall(realIp, proxy, ttl, ms);
            var internalIp := Text.ScriptAddress(1, 1);
            && db.now == ms && db.reserved == {} && Counter(db, proxy) == 1
            && db.maps == map[realIp := Hash(map[proxy := internalIp], At(MS_PER_SECOND * ttl))]
            && db.rmaps == map[internalIp := Cell(Reverse(realIp, proxy), At(MS_PER_SECOND * ttl))]
  {
    var first, wait := Assign(realIp, proxy, 1, ttl, false), Elapse(ms);
    ScriptTouchesTwoKeys(EMPTY, first);
    StepCounters(EMPTY, first, proxy);
    RunOne(Step(EMPTY, first), wait);
    assert [first, wait][1..] == [wait];
  }

  lemma CallOnAnotherProxy(db: Db, call: Event, proxy: string, internalIp: string)
    requires call.Assign? && !call.reserve && call.ttl > 0 && call.proxy != proxy && call.realIp !in db.reserved
    requires HGet(db, call.realIp, proxy) == Some(internalIp) && internalIp in db.rmaps && Answer(db, call) != internalIp
    ensures var next := Step(db, call);
            && next.now == db.now && internalIp in next.rmaps && next.rmaps[internalIp] == db.rmaps[internalIp]
            && HGet(next, call.realIp, proxy) == Some(internalIp)
            && next.maps[call.realIp].expires == At(db.now + MS_PER_SECOND * call.ttl)
  {
    ScriptTouchesTwoKeys(db, call);
  }

  lemma WaitAfter(db: Db, realIp: string, proxy: string, internalIp: string, hash: int, key: int, wait: nat)
    requires HGet(db, realIp, proxy) == Some(internalIp) && db.maps[realIp].expires == At(hash)
    requires internalIp in db.rmaps && db.rmaps[internalIp].expires == At(key)
    ensures HGet(Step(db, Elapse(wait)), realIp, proxy) == Some(internalIp) <==> db.now + wait <= hash
    ensures Get(Step(db, Elapse(wait)), internalIp).Some? <==> db.now + wait <= key
  {
  }

  /** A player calls on p, at some later time within p's TTL on q, and then waits. */
  lemma SecondProxy(realIp: string, p: string, q: string, ttlP: int, ttlQ: int, before: nat, wait: nat)
    requires p != q && ttlP > 0 && ttlQ > 0 && before <= MS_PER_SECOND * ttlP
    ensures var internalIp := Text.ScriptAddress(1, 1);
            var after := Step(Step(AfterFirstCall(realIp, p, ttlP, before), Assign(realIp, q, 2, ttlQ, false)), Elapse(wait));
            && (HGet(after, realIp, p) == Some(internalIp) <==> wait <= MS_PER_SECOND * ttlQ)
            && (Get(after, internalIp).Some? <==> before + wait <= MS_PER_SECOND * ttlP)
  {
    var db, call, internalIp := AfterFirstCall(realIp, p, ttlP, before), Assign(realIp, q, 2, ttlQ, false), Text.ScriptAddress(1, 1);
    FirstCall(realIp, p, ttlP, before);
    Text.AddressTextEqualIff(1, 1, 2, Counter(db, q) + 1);
    CallOnAnotherProxy(db, call, p, internalIp);
    WaitAfter(Step(db, call), realIp, p, internalIp, before + MS_PER_SECOND * ttlQ, MS_PER_SECOND * ttlP, wait);
  }

  /** Two proxies sharing a player under one TTL: he calls on the second one when the lease of the first has ended, and a
      millisecond later his first address is held and names nobody. */
  lemma ForwardWithoutReverse(realIp: string, p: string, q: string, ttl: int)
    requires p != q && ttl > 0
    ensures var after := Step(Step(AfterFirstCall(realIp, p, ttl, MS_PER_SECOND * ttl), Assign(realIp, q, 2, ttl, false)), Elapse(1));
            HGet(after, realIp, p) == Some(Text.ScriptAddress(1, 1)) && Get(after, Text.ScriptAddress(1, 1)) == None
  {
    SecondProxy(realIp, p, q, ttl, ttl, MS_PER_SECOND * ttl, 1);
  }

  /** With a shorter TTL on the second proxy it is the other way round: the address names the player and is not held. */
  lemma ReverseWithoutForward(realIp: string, p: string, q: string, ttlP: int, ttlQ: int)
    requires p != q && 0 < ttlQ < ttlP
    ensures var after := Step(Step(AfterFirstCall(realIp, p, ttlP, 0), Assign(realIp, q, 2, ttlQ, false)), Elapse(MS_PER_SECOND * ttlQ + 1));
            HGet(after, realIp, p) != Some(Text.ScriptAddress(1, 1)) && Get(after, Text.ScriptAddress(1, 1)).Some?
  {
    SecondProxy(realIp, p, q, ttlP, ttlQ, 0, MS_PER_SECOND * ttlQ + 1);
  }
}
