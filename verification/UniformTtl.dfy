/** Runs in which every proxy is configured with one and the same TTL: there a live reverse mapping always has a live
    forward mapping behind it, which Leases.ReverseWithoutForwardIff shows to fail otherwise. */
module UniformTtl {
  import opened Wrappers
  import opened Redis
  import opened Assignment
  import opened Identity
  import Leases

  /** Only reserve calls may bring another TTL. */
  predicate HasTtl(e: Event, ttl: int) {
    e.Assign? ==> e.reserve || e.ttl == ttl
  }

  predicate HaveTtl(es: seq<Event>, ttl: int) {
    forall i :: 0 <= i < |es| ==> HasTtl(es[i], ttl)
  }

  /** A live reverse mapping points back along a live forward mapping that dies no earlier. */
  predicate PointsBack(db: Db, internalIp: string)
    requires internalIp in db.rmaps
  {
    var Cell(Reverse(r, p), expires) := db.rmaps[internalIp];
    HGet(db, r, p) == Some(internalIp) && db.maps[r].expires.Covers(expires)
  }

  ghost predicate ReverseOk(db: Db) {
    forall i :: i in db.rmaps ==> PointsBack(db, i)
  }

  /** The expiry of a mapping that is not reserved is never further ahead than one TTL. */
  ghost predicate LeaseOk(ttl: int, db: Db) {
    forall r :: r in db.maps && r !in db.reserved ==>
      if ttl > 0 then At(db.now + MS_PER_SECOND * ttl).Covers(db.maps[r].expires) else db.maps[r].expires == Never
  }

  /** The new expiry of the refreshed hash covers every expiry the old one covered. */
  lemma ChosenCovers(ttl: int, db: Db, e: Event, d: Deadline)
    requires ReservedOk(db) && LeaseOk(ttl, db) && e.Assign? && HasTtl(e, ttl)
    requires e.realIp in db.maps && db.maps[e.realIp].expires.Covers(d)
    ensures Chosen(db, e, db.maps[e.realIp].expires).Covers(d)
  {
    assert e.realIp in db.reserved ==> Reserved(db, e.realIp);
  }

  lemma PointsBackElsewhere(ttl: int, db: Db, after: Db, e: Event, internalIp: string, i: string)
    requires ScriptEffect(db, after, e, internalIp) && ReverseOk(db) && ReservedOk(db) && LeaseOk(ttl, db) && HasTtl(e, ttl)
    requires i in db.rmaps && i != internalIp
    ensures i in after.rmaps && PointsBack(after, i)
  {
    assert PointsBack(db, i);
    assert after.rmaps[i] == db.rmaps[i];
    var Cell(Reverse(r, p), expires) := db.rmaps[i];
    if r == e.realIp {
      ChosenCovers(ttl, db, e, expires);
      assert p != e.proxy;
    }
  }

  lemma PointsBackAtAllocation(ttl: int, db: Db, after: Db, e: Event, internalIp: string)
    requires ScriptEffect(db, after, e, internalIp) && LeaseOk(ttl, db) && ReservedOk(db) && HasTtl(e, ttl) && Allocates(db, e)
    ensures internalIp in after.rmaps && PointsBack(after, internalIp)
  {
    assert e.realIp in db.reserved ==> Reserved(db, e.realIp);
  }

  lemma PointsBackAtSticky(ttl: int, db: Db, after: Db, owners: Owners, e: Event, internalIp: string)
    requires ScriptEffect(db, after, e, internalIp) && HasTtl(e, ttl) && !Allocates(db, e)
    requires ForwardOk(db, owners) && ReverseOk(db) && LeaseOk(ttl, db) && ReservedOk(db)
    requires internalIp in after.rmaps
    ensures PointsBack(after, internalIp)
  {
    assert internalIp in db.rmaps && PointsBack(db, internalIp);
    var Cell(Reverse(r, p), expires) := db.rmaps[internalIp];
    assert owners[db.maps[r].fields[p]] == Reverse(r, p);
    assert owners[db.maps[e.realIp].fields[e.proxy]] == Reverse(e.realIp, e.proxy);
    ChosenCovers(ttl, db, e, expires);
  }

  lemma ReverseAfterEffect(ttl: int, db: Db, after: Db, owners: Owners, e: Event, internalIp: string)
    requires ScriptEffect(db, after, e, internalIp) && HasTtl(e, ttl)
    requires ForwardOk(db, owners) && ReverseOk(db) && LeaseOk(ttl, db) && ReservedOk(db)
    ensures ReverseOk(after)
  {
    forall i | i in after.rmaps ensures PointsBack(after, i) {
      if i != internalIp {
        assert i in db.rmaps;
        PointsBackElsewhere(ttl, db, after, e, internalIp, i);
      } else if Allocates(db, e) {
        PointsBackAtAllocation(ttl, db, after, e, internalIp);
      } else {
        PointsBackAtSticky(ttl, db, after, owners, e, internalIp);
      }
    }
  }

  lemma LeaseAfterEffect(ttl: int, db: Db, after: Db, e: Event, internalIp: string)
    requires ScriptEffect(db, after, e, internalIp) && ReservedOk(db) && LeaseOk(ttl, db) && HasTtl(e, ttl)
    ensures ReservedOk(after) && LeaseOk(ttl, after)
  {
  }

  lemma PointsBackAfterElapse(db: Db, ms: nat)
    requires ReverseOk(db)
    ensures ReverseOk(Advance(db, ms))
  {
    forall i | i in Advance(db, ms).rmaps ensures PointsBack(Advance(db, ms), i) {
      assert PointsBack(db, i);
    }
  }

  lemma LeaseAfterElapse(ttl: int, db: Db, ms: nat)
    requires LeaseOk(ttl, db)
    ensures LeaseOk(ttl, Advance(db, ms))
  {
  }

  lemma UniformAfterStep(cfg: Config, ttl: int, db: Db, owners: Owners, e: Event)
    requires Inv(cfg, db, owners) && ReverseOk(db) && LeaseOk(ttl, db) && HasTtl(e, ttl)
    ensures ReverseOk(Step(db, e)) && LeaseOk(ttl, Step(db, e))
  {
    match e
    case Elapse(ms) =>
      PointsBackAfterElapse(db, ms);
      LeaseAfterElapse(ttl, db, ms);
    case Assign(_, _, _, _, _) =>
      ScriptTouchesTwoKeys(db, e);
      ReverseAfterEffect(ttl, db, Step(db, e), owners, e, Answer(db, e));
      LeaseAfterEffect(ttl, db, Step(db, e), e, Answer(db, e));
  }

  lemma {:induction false} UniformAfterRun(cfg: Config, ttl: int, db: Db, owners: Owners, es: seq<Event>)
    requires Inv(cfg, db, owners) && ReverseOk(db) && LeaseOk(ttl, db)
    requires cfg.AllowsAll(es) && HaveTtl(es, ttl) && WithinRange(Run(db, es))
    ensures ReverseOk(Run(db, es)) && LeaseOk(ttl, Run(db, es))
    decreases |es|
  {
    if es != [] {
      InvAfterHead(cfg, db, owners, es[0], es[1..]);
      UniformAfterStep(cfg, ttl, db, owners, es[0]);
      UniformAfterRun(cfg, ttl, Step(db, es[0]), Record(owners, db, es[0]), es[1..]);
    }
  }

  /** The states that runs under this one TTL reach from the empty database. */
  ghost predicate ReachableWith(cfg: Config, ttl: int, db: Db) {
    WithinRange(db) && exists es :: cfg.AllowsAll(es) && HaveTtl(es, ttl) && Run(EMPTY, es) == db
  }

  lemma UniformInv(cfg: Config, ttl: int, db: Db)
    requires ReachableWith(cfg, ttl, db)
    ensures ReverseOk(db) && LeaseOk(ttl, db)
  {
    var es :| cfg.AllowsAll(es) && HaveTtl(es, ttl) && Run(EMPTY, es) == db;
    InvInitially(cfg);
    UniformAfterRun(cfg, ttl, EMPTY, map[], es);
  }

  /** A reverse mapping that can be looked up names an identity whose forward mapping is live, holds it, and
      expires no earlier. */
  lemma LiveReverseHasForward(cfg: Config, ttl: int, db: Db, internalIp: string)
    requires ReachableWith(cfg, ttl, db) && internalIp in db.rmaps
    ensures var Reverse(realIp, proxy) := db.rmaps[internalIp].content;
            && HGet(db, realIp, proxy) == Some(internalIp)
            && db.maps[realIp].expires.Covers(db.rmaps[internalIp].expires)
  {
    UniformInv(cfg, ttl, db);
    assert PointsBack(db, internalIp);
  }

  lemma {:induction false} UntouchedKeepsDeadline(db: Db, es: seq<Event>, realIp: string)
    requires forall i :: 0 <= i < |es| ==> !Mentions(es[i], realIp)
    ensures realIp in Run(db, es).reserved <==> realIp in db.reserved
    ensures realIp in Run(db, es).maps ==> realIp in db.maps && Run(db, es).maps[realIp] == db.maps[realIp]
    ensures Run(db, es).now == db.now + Elapsed(es)
    decreases |es|
  {
    if es != [] {
      var e := es[0];
      assert !Mentions(e, realIp);
      if e.Assign? {
        ScriptTouchesTwoKeys(db, e);
      }
      UntouchedKeepsDeadline(Step(db, e), es[1..], realIp);
    }
  }

  /** An identity that is not reserved and that nobody asks for during more than one TTL is forgotten, in both
      directions and on every proxy. */
  lemma IdleIdentityExpires(cfg: Config, ttl: int, db: Db, es: seq<Event>, realIp: string)
    requires ttl > 0 && ReachableWith(cfg, ttl, db) && cfg.AllowsAll(es) && HaveTtl(es, ttl) && WithinRange(Run(db, es))
    requires realIp !in db.reserved && forall i :: 0 <= i < |es| ==> !Mentions(es[i], realIp)
    requires Elapsed(es) > MS_PER_SECOND * ttl
    ensures realIp !in Run(db, es).maps
    ensures forall i :: i in Run(db, es).rmaps ==> Run(db, es).rmaps[i].content.realIp != realIp
  {
    var after := Run(db, es);
    UniformInv(cfg, ttl, db);
    UntouchedKeepsDeadline(db, es, realIp);
    RunStaysUniform(cfg, ttl, db, es);
    UniformInv(cfg, ttl, after);
    NotPassed(cfg, ttl, after);
    forall i | i in after.rmaps ensures after.rmaps[i].content.realIp != realIp {
      assert PointsBack(after, i);
    }
  }

  lemma RunStaysUniform(cfg: Config, ttl: int, db: Db, fs: seq<Event>)
    requires ReachableWith(cfg, ttl, db) && cfg.AllowsAll(fs) && HaveTtl(fs, ttl) && WithinRange(Run(db, fs))
    ensures ReachableWith(cfg, ttl, Run(db, fs))
  {
    var es :| cfg.AllowsAll(es) && HaveTtl(es, ttl) && Run(EMPTY, es) == db;
    RunConcat(EMPTY, es, fs);
    assert cfg.AllowsAll(es + fs) && HaveTtl(es + fs, ttl);
  }

  lemma NotPassed(cfg: Config, ttl: int, db: Db)
    requires ReachableWith(cfg, ttl, db)
    ensures LiveOk(db)
  {
    IsReachable(cfg, ttl, db);
    var owners := ReachableInv(cfg, db);
  }

  lemma IsReachable(cfg: Config, ttl: int, db: Db)
    requires ReachableWith(cfg, ttl, db)
    ensures Reachable(cfg, db)
  {
    var es :| cfg.AllowsAll(es) && HaveTtl(es, ttl) && Run(EMPTY, es) == db;
  }

  /** Under a common TTL that is not positive an address once held is held for ever. */
  lemma HeldForeverWithoutTtl(cfg: Config, ttl: int, db: Db, id: Reverse, internalIp: string, es: seq<Event>)
    requires ttl <= 0 && ReachableWith(cfg, ttl, db) && cfg.AllowsAll(es) && HaveTtl(es, ttl) && WithinRange(Run(db, es))
    requires HGet(db, id.realIp, id.proxy) == Some(internalIp)
    ensures HGet(Run(db, es), id.realIp, id.proxy) == Some(internalIp)
  {
    UniformInv(cfg, ttl, db);
    IsReachable(cfg, ttl, db);
    var owners := ReachableInv(cfg, db);
    assert id.realIp in db.reserved ==> Reserved(db, id.realIp);
    var l := Leases.LeaseOf(db, id, internalIp);
    assert l.held == Leases.Ever;
    forall i | 0 <= i < |es| && Leases.Renews(es[i], id.realIp, None) ensures es[i].reserve || es[i].ttl <= 0 {
      assert HasTtl(es[i], ttl);
    }
    Leases.KeptUpByShortest(es, id.realIp, None, l.reserved, l.held);
    Leases.ForwardLiveIff(cfg, db, id, internalIp, es);
  }
}
