/** Runs of the assignment script by any number of proxies and watchers, mixed with the passing of time. */
module Identity {
  import opened Wrappers
  import opened Redis
  import opened Assignment
  import Text

  /** One atomic step on the database: a script run by anyone, or the clock moving on. */
  datatype Event =
    | Assign(realIp: string, proxy: string, num: nat, ttl: int, reserve: bool)
    | Elapse(ms: nat)

  /** Who may call with which number. A number belongs to one proxy id, but an id may be in use under several numbers: two
      registrations racing for one id return different ones. TTLs are each caller's own. */
  datatype Config = Config(user: map<nat, string>) {
    predicate Allows(e: Event) {
      e.Assign? ==> e.num in user && user[e.num] == e.proxy
    }

    predicate AllowsAll(es: seq<Event>) {
      forall i :: 0 <= i < |es| ==> Allows(es[i])
    }
  }

  function Step(db: Db, e: Event): Db {
    match e
    case Assign(realIp, proxy, num, ttl, reserve) => AssignScript(db, realIp, proxy, num, ttl, reserve).0
    case Elapse(ms) => Advance(db, ms)
  }

  /** One event, carried out on the server. */
  method Execute(server: Server, e: Event)
    modifies server
    ensures server.Contents() == Step(old(server.Contents()), e)
  {
    match e
    case Assign(realIp, proxy, num, ttl, reserve) =>
      var answer := RunScript(server, realIp, proxy, num, ttl, reserve);
    case Elapse(ms) => server.Tick(ms);
  }

  function Answer(db: Db, e: Event): string
    requires e.Assign?
  {
    AssignScript(db, e.realIp, e.proxy, e.num, e.ttl, e.reserve).1
  }

  predicate Allocates(db: Db, e: Event) {
    e.Assign? && HGet(db, e.realIp, e.proxy) == None
  }

  function Run(db: Db, es: seq<Event>): Db
    decreases |es|
  {
    if es == [] then db else Run(Step(db, es[0]), es[1..])
  }

  /** No proxy has handed out more addresses than its range holds. */
  ghost predicate WithinRange(db: Db) {
    forall p :: Counter(db, p) <= Text.ADDRESSES_PER_PROXY
  }

  lemma {:induction false} RunConcat(db: Db, es: seq<Event>, fs: seq<Event>)
    ensures Run(db, es + fs) == Run(Run(db, es), fs)
    decreases |es|
  {
    if es == [] {
      assert es + fs == fs;
    } else {
      assert (es + fs)[0] == es[0] && (es + fs)[1..] == es[1..] + fs;
      RunConcat(Step(db, es[0]), es[1..], fs);
    }
  }

  lemma RunOne(db: Db, e: Event)
    ensures Run(db, [e]) == Step(db, e)
  {
    assert [e][1..] == [];
  }

  lemma RefreshKeepsCounters(db: Db, realIp: string, internalIp: string, ttl: int, reserve: bool)
    ensures Refresh(db, realIp, internalIp, ttl, reserve).counters == db.counters
  {
  }

  lemma AllocateCounts(db: Db, realIp: string, proxy: string, internalIp: string)
    ensures Allocate(db, realIp, proxy, internalIp).counters == db.counters[proxy := Counter(db, proxy) + 1]
  {
  }

  lemma StepCounters(db: Db, e: Event, p: string)
    ensures Counter(Step(db, e), p) == Counter(db, p) + if Allocates(db, e) && e.proxy == p then 1 else 0
  {
    if e.Assign? {
      match HGet(db, e.realIp, e.proxy)
      case Some(existing) => RefreshKeepsCounters(db, e.realIp, existing, e.ttl, e.reserve);
      case None =>
        var internalIp := NextAddress(db, e.proxy, e.num);
        AllocateCounts(db, e.realIp, e.proxy, internalIp);
        RefreshKeepsCounters(Allocate(db, e.realIp, e.proxy, internalIp), e.realIp, internalIp, e.ttl, e.reserve);
    }
  }

  lemma {:induction false} RunCounters(db: Db, es: seq<Event>)
    ensures forall p :: Counter(db, p) <= Counter(Run(db, es), p)
    decreases |es|
  {
    if es != [] {
      RunCounters(Step(db, es[0]), es[1..]);
      forall p ensures Counter(db, p) <= Counter(Run(db, es), p) {
        StepCounters(db, es[0], p);
      }
    }
  }

  lemma StepWithinRange(db: Db, e: Event)
    requires WithinRange(Step(db, e))
    ensures WithinRange(db)
  {
    forall p ensures Counter(db, p) <= Text.ADDRESSES_PER_PROXY {
      StepCounters(db, e, p);
      assert Counter(Step(db, e), p) <= Text.ADDRESSES_PER_PROXY;
    }
  }

  lemma PrefixWithinRange(db: Db, es: seq<Event>, k: nat)
    requires k <= |es| && WithinRange(Run(db, es))
    ensures WithinRange(Run(db, es[..k]))
  {
    assert es == es[..k] + es[k..];
    RunConcat(db, es[..k], es[k..]);
    RunCounters(Run(db, es[..k]), es[k..]);
    forall p ensures Counter(Run(db, es[..k]), p) <= Text.ADDRESSES_PER_PROXY {
      assert Counter(Run(db, es), p) <= Text.ADDRESSES_PER_PROXY;
    }
  }

  // ---- who was ever given an address ----

  /** The history of allocations: which identity each address was handed out to. */
  type Owners = map<string, Reverse>

  function Record(owners: Owners, db: Db, e: Event): Owners {
    if Allocates(db, e) then owners[Answer(db, e) := Reverse(e.realIp, e.proxy)] else owners
  }

  function History(owners: Owners, db: Db, es: seq<Event>): Owners
    decreases |es|
  {
    if es == [] then owners else History(Record(owners, db, es[0]), Step(db, es[0]), es[1..])
  }

  // ---- the invariant ----

  /** An address in the history was printed for a number of its proxy and a counter value reached so far. */
  ghost predicate IssuedBy(cfg: Config, db: Db, proxy: string, internalIp: string) {
    exists num: nat, n: nat :: num in cfg.user && cfg.user[num] == proxy && 1 <= n <= Counter(db, proxy) && internalIp == Text.ScriptAddress(num, n)
  }

  ghost predicate HistoryOk(cfg: Config, db: Db, owners: Owners) {
    forall i :: i in owners ==> IssuedBy(cfg, db, owners[i].proxy, i)
  }

  ghost predicate ForwardOk(db: Db, owners: Owners) {
    forall r, p :: r in db.maps && p in db.maps[r].fields ==>
      && db.maps[r].fields[p] in owners
      && owners[db.maps[r].fields[p]] == Reverse(r, p)
  }

  /** A live reverse mapping names the identity its address was handed out to. */
  ghost predicate NamedOk(db: Db, owners: Owners) {
    forall i :: i in db.rmaps ==> i in owners && db.rmaps[i].content == owners[i]
  }

  predicate Reserved(db: Db, realIp: string) {
    realIp in db.reserved && realIp in db.maps && db.maps[realIp].expires == Never
  }

  ghost predicate ReservedOk(db: Db) {
    forall r :: r in db.reserved ==> Reserved(db, r)
  }

  /** No stored key is past its deadline. */
  ghost predicate LiveOk(db: Db) {
    && (forall r :: r in db.maps ==> !db.maps[r].expires.Passed(db.now))
    && (forall i :: i in db.rmaps ==> !db.rmaps[i].expires.Passed(db.now))
  }

  ghost predicate Inv(cfg: Config, db: Db, owners: Owners) {
    && HistoryOk(cfg, db, owners)
    && ForwardOk(db, owners)
    && NamedOk(db, owners)
    && ReservedOk(db)
    && LiveOk(db)
  }

  lemma InvInitially(cfg: Config)
    ensures Inv(cfg, EMPTY, map[])
  {
  }

  /** An address about to be allocated has never been handed out before. */
  lemma NextAddressIsNew(cfg: Config, db: Db, owners: Owners, num: nat)
    requires HistoryOk(cfg, db, owners) && num in cfg.user
    requires Counter(db, cfg.user[num]) < Text.ADDRESSES_PER_PROXY
    ensures Text.ScriptAddress(num, Counter(db, cfg.user[num]) + 1) !in owners
  {
    var c := Counter(db, cfg.user[num]) + 1;
    var internalIp := Text.ScriptAddress(num, c);
    if internalIp in owners {
      var q := owners[internalIp].proxy;
      assert IssuedBy(cfg, db, q, internalIp);
      var m: nat, n: nat :| m in cfg.user && cfg.user[m] == q && 1 <= n <= Counter(db, q) && internalIp == Text.ScriptAddress(m, n);
      Text.AddressDeterminesAllocation(num, c, m, n);
      assert false;
    }
  }

  lemma AnswerIsNew(cfg: Config, db: Db, owners: Owners, e: Event)
    requires HistoryOk(cfg, db, owners) && cfg.Allows(e) && WithinRange(Step(db, e))
    ensures Allocates(db, e) ==> Answer(db, e) !in owners
  {
    if Allocates(db, e) {
      StepCounters(db, e, e.proxy);
      NextAddressIsNew(cfg, db, owners, e.num);
    }
  }

  lemma HistoryKept(cfg: Config, db: Db, owners: Owners, e: Event)
    requires cfg.Allows(e) && HistoryOk(cfg, db, owners)
    ensures HistoryOk(cfg, Step(db, e), Record(owners, db, e))
  {
    var owners' := Record(owners, db, e);
    forall i | i in owners' ensures IssuedBy(cfg, Step(db, e), owners'[i].proxy, i) {
      if Allocates(db, e) && i == Answer(db, e) {
        StepCounters(db, e, e.proxy);
      } else {
        var p := owners[i].proxy;
        assert IssuedBy(cfg, db, p, i);
        var m: nat, n: nat :| m in cfg.user && cfg.user[m] == p && 1 <= n <= Counter(db, p) && i == Text.ScriptAddress(m, n);
        StepCounters(db, e, p);
      }
    }
  }

  lemma InvAfterElapse(cfg: Config, db: Db, owners: Owners, ms: nat)
    requires Inv(cfg, db, owners)
    ensures Inv(cfg, Advance(db, ms), owners)
  {
    HistoryKept(cfg, db, owners, Elapse(ms));
  }

  // ---- what one script run does, key by key ----

  function Chosen(db: Db, e: Event, otherwise: Deadline): Deadline
    requires e.Assign?
  {
    if e.reserve then Never
    else if e.realIp !in db.reserved && e.ttl > 0 then At(db.now + MS_PER_SECOND * e.ttl)
    else otherwise
  }

  ghost predicate MapEffect(db: Db, after: Db, e: Event, internalIp: string)
    requires e.Assign?
  {
    var before := if e.realIp in db.maps then db.maps[e.realIp] else Hash(map[], Never);
    after.maps == db.maps[e.realIp := Hash(before.fields[e.proxy := internalIp], Chosen(db, e, before.expires))]
  }

  ghost predicate ReverseEffect(db: Db, after: Db, e: Event, internalIp: string)
    requires e.Assign?
  {
    if HGet(db, e.realIp, e.proxy) == None then
      after.rmaps == db.rmaps[internalIp := Cell(Reverse(e.realIp, e.proxy), Chosen(db, e, Never))]
    else if internalIp in db.rmaps then
      var cell := db.rmaps[internalIp];
      after.rmaps == db.rmaps[internalIp := cell.(expires := Chosen(db, e, cell.expires))]
    else
      after.rmaps == db.rmaps
  }

  ghost predicate ScriptEffect(db: Db, after: Db, e: Event, internalIp: string) {
    && e.Assign?
    && internalIp == HGet(db, e.realIp, e.proxy).GetOr(NextAddress(db, e.proxy, e.num))
    && MapEffect(db, after, e, internalIp)
    && ReverseEffect(db, after, e, internalIp)
    && after.now == db.now
    && after.reserved == db.reserved + (if e.reserve then {e.realIp} else {})
  }

  lemma EffectOnExisting(db: Db, e: Event, internalIp: string)
    requires e.Assign? && HGet(db, e.realIp, e.proxy) == Some(internalIp)
    ensures ScriptEffect(db, Refresh(db, e.realIp, internalIp, e.ttl, e.reserve), e, internalIp)
  {
    var fields := db.maps[e.realIp].fields;
    assert fields[e.proxy := internalIp] == fields;
    if internalIp in db.rmaps {
      assert db.rmaps[internalIp := db.rmaps[internalIp]] == db.rmaps;
    }
    assert db.maps[e.realIp := db.maps[e.realIp]] == db.maps;
  }

  lemma EffectOfAllocation(db: Db, e: Event, internalIp: string)
    requires e.Assign? && HGet(db, e.realIp, e.proxy) == None
    requires internalIp == NextAddress(db, e.proxy, e.num)
    ensures ScriptEffect(db, Refresh(Allocate(db, e.realIp, e.proxy, internalIp), e.realIp, internalIp, e.ttl, e.reserve), e, internalIp)
  {
  }

  /** Every script run changes the forward hash of its real address and the one reverse key of the answer,
      stores the answer under the proxy, and gives both keys the same new expiry. */
  lemma ScriptTouchesTwoKeys(db: Db, e: Event)
    requires e.Assign?
    ensures ScriptEffect(db, Step(db, e), e, Answer(db, e))
  {
    if Allocates(db, e) {
      EffectOfAllocation(db, e, NextAddress(db, e.proxy, e.num));
    } else {
      EffectOnExisting(db, e, HGet(db, e.realIp, e.proxy).value);
    }
  }

  lemma ForwardAfterEffect(db: Db, after: Db, owners: Owners, e: Event, internalIp: string)
    requires ScriptEffect(db, after, e, internalIp) && ForwardOk(db, owners)
    requires Allocates(db, e) ==> internalIp !in owners
    ensures ForwardOk(after, if Allocates(db, e) then owners[internalIp := Reverse(e.realIp, e.proxy)] else owners)
  {
  }

  lemma NamedAfterEffect(db: Db, after: Db, owners: Owners, e: Event, internalIp: string)
    requires ScriptEffect(db, after, e, internalIp) && NamedOk(db, owners)
    requires Allocates(db, e) ==> internalIp !in owners
    ensures NamedOk(after, if Allocates(db, e) then owners[internalIp := Reverse(e.realIp, e.proxy)] else owners)
  {
  }

  lemma ReservedAfterEffect(db: Db, after: Db, e: Event, internalIp: string)
    requires ScriptEffect(db, after, e, internalIp) && ReservedOk(db)
    ensures ReservedOk(after)
  {
    assert e.realIp in db.reserved ==> Reserved(db, e.realIp);
  }

  lemma LiveAfterEffect(db: Db, after: Db, e: Event, internalIp: string)
    requires ScriptEffect(db, after, e, internalIp) && LiveOk(db)
    ensures LiveOk(after)
  {
  }

  lemma InvAfterAssign(cfg: Config, db: Db, owners: Owners, e: Event)
    requires Inv(cfg, db, owners) && cfg.Allows(e) && e.Assign?
    requires WithinRange(Step(db, e))
    ensures Inv(cfg, Step(db, e), Record(owners, db, e))
  {
    HistoryKept(cfg, db, owners, e);
    ScriptTouchesTwoKeys(db, e);
    AnswerIsNew(cfg, db, owners, e);
    ForwardAfterEffect(db, Step(db, e), owners, e, Answer(db, e));
    NamedAfterEffect(db, Step(db, e), owners, e, Answer(db, e));
    ReservedAfterEffect(db, Step(db, e), e, Answer(db, e));
    LiveAfterEffect(db, Step(db, e), e, Answer(db, e));
  }

  lemma InvAfterStep(cfg: Config, db: Db, owners: Owners, e: Event)
    requires Inv(cfg, db, owners) && cfg.Allows(e)
    requires WithinRange(Step(db, e))
    ensures Inv(cfg, Step(db, e), Record(owners, db, e))
  {
    match e
    case Assign(_, _, _, _, _) => InvAfterAssign(cfg, db, owners, e);
    case Elapse(ms) => InvAfterElapse(cfg, db, owners, ms);
  }

  lemma InvAfterHead(cfg: Config, db: Db, owners: Owners, e: Event, rest: seq<Event>)
    requires Inv(cfg, db, owners) && cfg.Allows(e)
    requires WithinRange(Run(Step(db, e), rest))
    ensures Inv(cfg, Step(db, e), Record(owners, db, e))
    ensures WithinRange(Step(db, e))
  {
    PrefixWithinRange(Step(db, e), rest, 0);
    assert rest[..0] == [];
    InvAfterStep(cfg, db, owners, e);
  }

  lemma {:induction false} InvAfterRun(cfg: Config, db: Db, owners: Owners, es: seq<Event>)
    requires Inv(cfg, db, owners) && cfg.AllowsAll(es)
    requires WithinRange(Run(db, es))
    ensures Inv(cfg, Run(db, es), History(owners, db, es))
    decreases |es|
  {
    if es != [] {
      InvAfterHead(cfg, db, owners, es[0], es[1..]);
      InvAfterRun(cfg, Step(db, es[0]), Record(owners, db, es[0]), es[1..]);
    }
  }

  /** The states that some admissible run of all parties reaches from the empty database. */
  ghost predicate Reachable(cfg: Config, db: Db) {
    WithinRange(db) && exists es :: cfg.AllowsAll(es) && Run(EMPTY, es) == db
  }

  lemma ReachableInv(cfg: Config, db: Db) returns (owners: Owners)
    requires Reachable(cfg, db)
    ensures Inv(cfg, db, owners)
  {
    var es :| cfg.AllowsAll(es) && Run(EMPTY, es) == db;
    InvInitially(cfg);
    InvAfterRun(cfg, EMPTY, map[], es);
    owners := History(map[], EMPTY, es);
  }

  lemma ReachableAfterRun(cfg: Config, db: Db, fs: seq<Event>)
    requires Reachable(cfg, db) && cfg.AllowsAll(fs) && WithinRange(Run(db, fs))
    ensures Reachable(cfg, Run(db, fs))
  {
    var es :| cfg.AllowsAll(es) && Run(EMPTY, es) == db;
    RunConcat(EMPTY, es, fs);
    assert cfg.AllowsAll(es + fs);
  }

  lemma ReachableAfterHead(cfg: Config, db: Db, e: Event, rest: seq<Event>)
    requires Reachable(cfg, db) && cfg.Allows(e) && WithinRange(Run(Step(db, e), rest))
    ensures Reachable(cfg, Step(db, e))
  {
    PrefixWithinRange(Step(db, e), rest, 0);
    assert rest[..0] == [];
    RunOne(db, e);
    ReachableAfterRun(cfg, db, [e]);
  }

  // ---- what every run keeps ----

  /** No two identities hold the same address at the same time. */
  lemma LiveAddressesAreUnique(cfg: Config, db: Db, r: string, p: string, r': string, p': string)
    requires Reachable(cfg, db)
    requires HGet(db, r, p).Some? && HGet(db, r, p) == HGet(db, r', p')
    ensures r == r' && p == p'
  {
    var owners := ReachableInv(cfg, db);
    assert owners[HGet(db, r, p).value] == Reverse(r, p);
  }

  lemma OwnersKept(cfg: Config, db: Db, owners: Owners, e: Event)
    requires Inv(cfg, db, owners) && cfg.Allows(e) && WithinRange(Step(db, e))
    ensures forall i :: i in owners ==> i in Record(owners, db, e) && Record(owners, db, e)[i] == owners[i]
    ensures e.Assign? ==> Answer(db, e) in Record(owners, db, e) && Record(owners, db, e)[Answer(db, e)] == Reverse(e.realIp, e.proxy)
  {
    AnswerIsNew(cfg, db, owners, e);
  }

  lemma {:induction false} HistoryGrows(cfg: Config, db: Db, owners: Owners, es: seq<Event>, internalIp: string)
    requires internalIp in owners
    ensures internalIp in History(owners, db, es)
    decreases |es|
  {
    if es != [] {
      HistoryGrows(cfg, Step(db, es[0]), Record(owners, db, es[0]), es[1..], internalIp);
    }
  }

  lemma NotIssuedAgain(cfg: Config, db: Db, owners: Owners, es: seq<Event>, f: Event, internalIp: string)
    requires Inv(cfg, db, owners) && cfg.AllowsAll(es) && cfg.Allows(f)
    requires WithinRange(Step(Run(db, es), f)) && Allocates(Run(db, es), f)
    requires internalIp in owners
    ensures NextAddress(Run(db, es), f.proxy, f.num) != internalIp
  {
    StepWithinRange(Run(db, es), f);
    InvAfterRun(cfg, db, owners, es);
    HistoryGrows(cfg, db, owners, es, internalIp);
    StepCounters(Run(db, es), f, f.proxy);
    NextAddressIsNew(cfg, Run(db, es), History(owners, db, es), f.num);
  }

  lemma {:induction false} HistoryKeepsOwner(cfg: Config, db: Db, owners: Owners, es: seq<Event>, internalIp: string)
    requires Inv(cfg, db, owners) && cfg.AllowsAll(es) && WithinRange(Run(db, es))
    requires internalIp in owners
    ensures internalIp in History(owners, db, es) && History(owners, db, es)[internalIp] == owners[internalIp]
    decreases |es|
  {
    if es != [] {
      InvAfterHead(cfg, db, owners, es[0], es[1..]);
      OwnersKept(cfg, db, owners, es[0]);
      HistoryKeepsOwner(cfg, Step(db, es[0]), Record(owners, db, es[0]), es[1..], internalIp);
    }
  }

  /** However much later an address is looked up, the answer never names anyone but the identity it was once given to. */
  lemma ReverseLookupNamesThePlayer(cfg: Config, db: Db, e: Event, es: seq<Event>)
    requires Reachable(cfg, db) && cfg.Allows(e) && e.Assign? && cfg.AllowsAll(es)
    requires WithinRange(Run(Step(db, e), es))
    ensures var found := Get(Run(Step(db, e), es), Answer(db, e));
            found.Some? ==> found.value == Reverse(e.realIp, e.proxy)
  {
    var owners := ReachableInv(cfg, db);
    InvAfterHead(cfg, db, owners, e, es);
    OwnersKept(cfg, db, owners, e);
    NamesOwnerAfterRun(cfg, Step(db, e), Record(owners, db, e), es, Answer(db, e));
  }

  lemma NamesOwnerAfterRun(cfg: Config, db: Db, owners: Owners, es: seq<Event>, internalIp: string)
    requires Inv(cfg, db, owners) && cfg.AllowsAll(es) && WithinRange(Run(db, es))
    requires internalIp in owners
    ensures Get(Run(db, es), internalIp).Some? ==> Get(Run(db, es), internalIp).value == owners[internalIp]
  {
    InvAfterRun(cfg, db, owners, es);
    HistoryKeepsOwner(cfg, db, owners, es, internalIp);
  }

  /** Of two allocations in one run the later one never hands out the address of the earlier one again,
      whatever expired in between. */
  lemma AddressesAreNeverReissued(cfg: Config, db: Db, e: Event, between: seq<Event>, f: Event)
    requires Reachable(cfg, db) && cfg.Allows(e) && cfg.AllowsAll(between) && cfg.Allows(f)
    requires WithinRange(Step(Run(Step(db, e), between), f))
    requires Allocates(db, e) && Allocates(Run(Step(db, e), between), f)
    ensures Answer(db, e) != Answer(Run(Step(db, e), between), f)
  {
    var owners := ReachableInv(cfg, db);
    StepWithinRange(Run(Step(db, e), between), f);
    InvAfterHead(cfg, db, owners, e, between);
    NotIssuedAgain(cfg, Step(db, e), Record(owners, db, e), between, f, Answer(db, e));
  }

  // ---- reservations ----

  lemma ReserveStepReserves(db: Db, e: Event)
    requires e.Assign? && e.reserve
    ensures Reserved(Step(db, e), e.realIp)
    ensures HGet(Step(db, e), e.realIp, e.proxy) == Some(Answer(db, e))
  {
    ScriptTouchesTwoKeys(db, e);
  }

  lemma ReservedAfterStep(db: Db, e: Event, realIp: string)
    requires Reserved(db, realIp)
    ensures Reserved(Step(db, e), realIp)
    ensures forall p :: p in db.maps[realIp].fields ==> HGet(Step(db, e), realIp, p) == HGet(db, realIp, p)
    ensures Allocates(db, e) && e.realIp == realIp ==>
              Answer(db, e) in Step(db, e).rmaps && Step(db, e).rmaps[Answer(db, e)].expires == Never
  {
    if e.Assign? {
      ScriptTouchesTwoKeys(db, e);
    }
  }

  /** After a reserve step the hash of the real address never expires again, and no address in it is ever
      changed or removed: whatever calls follow, with whatever numbers and TTLs. */
  lemma {:induction false} ReservationIsForever(db: Db, es: seq<Event>, realIp: string)
    requires Reserved(db, realIp)
    ensures Reserved(Run(db, es), realIp)
    ensures forall p :: p in db.maps[realIp].fields ==> HGet(Run(db, es), realIp, p) == HGet(db, realIp, p)
    decreases |es|
  {
    if es != [] {
      var next := Step(db, es[0]);
      ReservedAfterStep(db, es[0], realIp);
      ReservationIsForever(next, es[1..], realIp);
      forall p | p in db.maps[realIp].fields ensures HGet(Run(db, es), realIp, p) == HGet(db, realIp, p) {
        assert HGet(next, realIp, p) == HGet(db, realIp, p) && p in next.maps[realIp].fields;
      }
    }
  }

  /** So every later call for that real address on that proxy answers the reserved address. */
  lemma ReservedAnswerIsForever(db: Db, reserve: Event, es: seq<Event>, later: Event)
    requires reserve.Assign? && reserve.reserve
    requires later.Assign? && later.realIp == reserve.realIp && later.proxy == reserve.proxy
    ensures Answer(Run(Step(db, reserve), es), later) == Answer(db, reserve)
  {
    ReserveStepReserves(db, reserve);
    ReservationIsForever(Step(db, reserve), es, reserve.realIp);
  }

  // ---- time and calls ----

  function Elapsed(es: seq<Event>): nat
    decreases |es|
  {
    if es == [] then 0 else (if es[0].Elapse? then es[0].ms else 0) + Elapsed(es[1..])
  }

  predicate Mentions(e: Event, realIp: string) {
    e.Assign? && e.realIp == realIp
  }

  lemma StickyAnswer(db: Db, e: Event, internalIp: string)
    requires e.Assign? && HGet(db, e.realIp, e.proxy) == Some(internalIp)
    ensures Answer(db, e) == internalIp
  {
  }

  // ---- losing an identity ----

  /** The hash of the real address is live before and after every one of the steps. */
  predicate StaysLive(db: Db, es: seq<Event>, realIp: string)
    decreases |es|
  {
    realIp in db.maps && (es == [] || StaysLive(Step(db, es[0]), es[1..], realIp))
  }

  lemma {:induction false} SameAddressWhileLive(db: Db, es: seq<Event>, realIp: string, proxy: string)
    requires StaysLive(db, es, realIp) && HGet(db, realIp, proxy).Some?
    ensures HGet(Run(db, es), realIp, proxy) == HGet(db, realIp, proxy)
    decreases |es|
  {
    if es != [] {
      if es[0].Assign? {
        ScriptTouchesTwoKeys(db, es[0]);
      }
      assert realIp in Step(db, es[0]).maps;
      SameAddressWhileLive(Step(db, es[0]), es[1..], realIp, proxy);
    }
  }

  lemma LostAfterEffect(db: Db, after: Db, owners: Owners, e: Event, answer: string, realIp: string, proxy: string, internalIp: string)
    requires ScriptEffect(db, after, e, answer) && (Allocates(db, e) ==> answer !in owners)
    requires internalIp in owners && HGet(db, realIp, proxy) != Some(internalIp)
    ensures HGet(after, realIp, proxy) != Some(internalIp)
    ensures Mentions(e, realIp) && e.proxy == proxy ==> answer != internalIp
  {
  }

  lemma LostAfterStep(cfg: Config, db: Db, owners: Owners, e: Event, realIp: string, proxy: string, internalIp: string)
    requires Inv(cfg, db, owners) && cfg.Allows(e) && WithinRange(Step(db, e))
    requires internalIp in owners && HGet(db, realIp, proxy) != Some(internalIp)
    ensures HGet(Step(db, e), realIp, proxy) != Some(internalIp)
    ensures Mentions(e, realIp) && e.proxy == proxy ==> Answer(db, e) != internalIp
  {
    if e.Assign? {
      ScriptTouchesTwoKeys(db, e);
      AnswerIsNew(cfg, db, owners, e);
      LostAfterEffect(db, Step(db, e), owners, e, Answer(db, e), realIp, proxy, internalIp);
    }
  }

  /** An address that an identity no longer holds is never given back to it. */
  lemma {:induction false} LostForGood(cfg: Config, db: Db, owners: Owners, es: seq<Event>, realIp: string, proxy: string, internalIp: string)
    requires Inv(cfg, db, owners) && cfg.AllowsAll(es) && WithinRange(Run(db, es))
    requires internalIp in owners && HGet(db, realIp, proxy) != Some(internalIp)
    ensures HGet(Run(db, es), realIp, proxy) != Some(internalIp)
    ensures internalIp in History(owners, db, es)
    decreases |es|
  {
    if es != [] {
      InvAfterHead(cfg, db, owners, es[0], es[1..]);
      LostAfterStep(cfg, db, owners, es[0], realIp, proxy, internalIp);
      LostForGood(cfg, Step(db, es[0]), Record(owners, db, es[0]), es[1..], realIp, proxy, internalIp);
    }
  }

  lemma {:induction false} LostUnlessLive(cfg: Config, db: Db, owners: Owners, es: seq<Event>, realIp: string, proxy: string, internalIp: string)
    requires Inv(cfg, db, owners) && cfg.AllowsAll(es) && WithinRange(Run(db, es))
    requires internalIp in owners && !StaysLive(db, es, realIp)
    ensures HGet(Run(db, es), realIp, proxy) != Some(internalIp)
    decreases |es|
  {
    if realIp !in db.maps {
      LostForGood(cfg, db, owners, es, realIp, proxy, internalIp);
    } else {
      InvAfterHead(cfg, db, owners, es[0], es[1..]);
      LostUnlessLive(cfg, Step(db, es[0]), Record(owners, db, es[0]), es[1..], realIp, proxy, internalIp);
    }
  }

  /** A call for an identity answers the address a reverse lookup named it by earlier exactly when the identity held it
      then and its forward mapping stayed live in between. */
  lemma LookedUpAddressIsAnsweredIff(cfg: Config, db: Db, internalIp: string, es: seq<Event>, call: Event)
    requires Reachable(cfg, db) && cfg.AllowsAll(es) && cfg.Allows(call)
    requires WithinRange(Step(Run(db, es), call))
    requires Get(db, internalIp).Some? && call.Assign?
    requires Get(db, internalIp) == Some(Reverse(call.realIp, call.proxy))
    ensures Answer(Run(db, es), call) == internalIp
       <==> HGet(db, call.realIp, call.proxy) == Some(internalIp) && StaysLive(db, es, call.realIp)
  {
    var owners := ReachableInv(cfg, db);
    StepWithinRange(Run(db, es), call);
    AnsweredAgainIff(cfg, db, owners, es, call, internalIp);
  }

  /** The same for any address that was ever handed out to this identity. */
  lemma AnsweredAgainIff(cfg: Config, db: Db, owners: Owners, es: seq<Event>, call: Event, internalIp: string)
    requires Inv(cfg, db, owners) && cfg.AllowsAll(es) && cfg.Allows(call) && WithinRange(Run(db, es))
    requires WithinRange(Step(Run(db, es), call)) && internalIp in owners && call.Assign?
    ensures Answer(Run(db, es), call) == internalIp
       <==> HGet(db, call.realIp, call.proxy) == Some(internalIp) && StaysLive(db, es, call.realIp)
  {
    if HGet(db, call.realIp, call.proxy) == Some(internalIp) && StaysLive(db, es, call.realIp) {
      SameAddressWhileLive(db, es, call.realIp, call.proxy);
      StickyAnswer(Run(db, es), call, internalIp);
    } else {
      if StaysLive(db, es, call.realIp) {
        LostForGood(cfg, db, owners, es, call.realIp, call.proxy, internalIp);
      } else {
        LostUnlessLive(cfg, db, owners, es, call.realIp, call.proxy, internalIp);
      }
      InvAfterRun(cfg, db, owners, es);
      HistoryGrows(cfg, db, owners, es, internalIp);
      LostAfterStep(cfg, Run(db, es), History(owners, db, es), call, call.realIp, call.proxy, internalIp);
    }
  }
}
