/** Promotion of a banned address: reverse lookup, then one reserve call per registered proxy. The calls are
    separate script runs, so anyone else may act before each of them. */
module Promotion {
  import opened Wrappers
  import opened Redis
  import opened Assignment
  import opened Identity
  import Leases
  import opened Sorting
  import Text

  // ---- registered proxies in sorted order ----

  lemma {:induction false} KeysCanBeSorted(keys: set<string>) returns (ids: seq<string>)
    ensures Ascending(ids, StringLe) && multiset(ids) == multiset(keys)
  {
    StringLeIsTotal();
    if keys == {} {
      ids := [];
    } else {
      var k :| k in keys;
      var rest := KeysCanBeSorted(keys - {k});
      ids := Insert(k, rest, StringLe);
      InsertPermutes(k, rest, StringLe);
      InsertAscends(k, rest, StringLe);
      assert multiset(keys) == multiset(keys - {k}) + multiset{k};
    }
  }

  /** The ids in the one order SortedProxyIDs can return them. */
  ghost function SortedIds(keys: set<string>): (ids: seq<string>)
    ensures Ascending(ids, StringLe) && multiset(ids) == multiset(keys)
    ensures forall id :: id in ids <==> id in keys
  {
    assert exists ids :: Ascending(ids, StringLe) && multiset(ids) == multiset(keys) by {
      var ids := KeysCanBeSorted(keys);
    }
    var ids :| Ascending(ids, StringLe) && multiset(ids) == multiset(keys);
    assert forall id :: id in ids <==> id in multiset(ids);
    ids
  }

  method SortedProxyIDs(subnets: map<string, string>) returns (ids: seq<string>)
    ensures ids == SortedIds(subnets.Keys)
  {
    var unsorted: seq<string> := [];
    var rest := subnets.Keys;
    while rest != {}
      invariant rest <= subnets.Keys
      invariant multiset(unsorted) + multiset(rest) == multiset(subnets.Keys)
      decreases |rest|
    {
      var id :| id in rest;
      unsorted := unsorted + [id];
      rest := rest - {id};
    }
    ids := Sort(unsorted, StringLe);
    StringLeIsTotal();
    SortIsAscendingPermutation(unsorted, StringLe);
    AscendingIsUnique(ids, SortedIds(subnets.Keys), StringLe);
  }

  // ---- reserving for every proxy ----

  /** What happens before a reserve call: steps of others, and whether the call itself fails. */
  datatype Turn = Turn(others: seq<Event>, fails: bool)

  datatype Outcome = Outcome(db: Db, reply: Result<map<string, string>>)

  function ReserveCall(realIp: string, proxy: string, num: nat, ttl: int): Event {
    Assign(realIp, proxy, num, ttl, true)
  }

  function Join(first: map<string, string>, rest: Result<map<string, string>>): Result<map<string, string>> {
    match rest
    case Err(_) => rest
    case Ok(out) => Ok(first + out)
  }

  /** The number in a proxy's registry entry; Go reads a missing entry as one without a subnet. */
  function NumOf(subnets: map<string, string>, id: string): Result<nat> {
    Text.ProxyNumFromSubnet(if id in subnets then subnets[id] else "")
  }

  lemma MissingHasNoNumber(subnets: map<string, string>, id: string)
    requires NumOf(subnets, id).Ok?
    ensures id in subnets
  {
  }

  function ReserveEach(db: Db, realIp: string, ids: seq<string>, subnets: map<string, string>, ttl: int, turns: seq<Turn>): Outcome
    requires |turns| == |ids|
    decreases |ids|
  {
    if ids == [] then Outcome(db, Ok(map[]))
    else
      var now := Run(db, turns[0].others);
      match NumOf(subnets, ids[0])
      case Err(m) => Outcome(now, Err(m))
      case Ok(num) =>
        if turns[0].fails then Outcome(now, Err("reserve mapping"))
        else
          var call := ReserveCall(realIp, ids[0], num, ttl);
          var rest := ReserveEach(Step(now, call), realIp, ids[1..], subnets, ttl, turns[1..]);
          rest.(reply := Join(map[ids[0] := Answer(now, call)], rest.reply))
  }

  /** Everything that happens to the database during a promotion that succeeds. */
  function Trace(realIp: string, ids: seq<string>, subnets: map<string, string>, ttl: int, turns: seq<Turn>): seq<Event>
    requires |turns| == |ids| && forall id :: id in ids ==> NumOf(subnets, id).Ok?
    decreases |ids|
  {
    if ids == [] then []
    else
      turns[0].others
      + [ReserveCall(realIp, ids[0], NumOf(subnets, ids[0]).value, ttl)]
      + Trace(realIp, ids[1..], subnets, ttl, turns[1..])
  }

  lemma RunOneTurn(db: Db, others: seq<Event>, call: Event, rest: seq<Event>)
    ensures Run(db, others + [call] + rest) == Run(Step(Run(db, others), call), rest)
  {
    assert others + [call] + rest == others + ([call] + rest);
    RunConcat(db, others, [call] + rest);
    assert ([call] + rest)[1..] == rest;
  }

  lemma {:induction false} SuccessParses(db: Db, realIp: string, ids: seq<string>, subnets: map<string, string>, ttl: int, turns: seq<Turn>)
    requires |turns| == |ids|
    requires ReserveEach(db, realIp, ids, subnets, ttl, turns).reply.Ok?
    ensures forall id :: id in ids ==> NumOf(subnets, id).Ok?
    ensures ReserveEach(db, realIp, ids, subnets, ttl, turns).reply.value.Keys == (set id | id in ids)
    decreases |ids|
  {
    if ids != [] {
      var now := Run(db, turns[0].others);
      var call := ReserveCall(realIp, ids[0], NumOf(subnets, ids[0]).value, ttl);
      SuccessParses(Step(now, call), realIp, ids[1..], subnets, ttl, turns[1..]);
      assert forall id :: id in ids <==> id == ids[0] || id in ids[1..];
    }
  }

  lemma {:induction false} SuccessRunsTrace(db: Db, realIp: string, ids: seq<string>, subnets: map<string, string>, ttl: int, turns: seq<Turn>)
    requires |turns| == |ids| && forall id :: id in ids ==> NumOf(subnets, id).Ok?
    requires ReserveEach(db, realIp, ids, subnets, ttl, turns).reply.Ok?
    ensures ReserveEach(db, realIp, ids, subnets, ttl, turns).db == Run(db, Trace(realIp, ids, subnets, ttl, turns))
    decreases |ids|
  {
    if ids != [] {
      var now := Run(db, turns[0].others);
      var call := ReserveCall(realIp, ids[0], NumOf(subnets, ids[0]).value, ttl);
      SuccessRunsTrace(Step(now, call), realIp, ids[1..], subnets, ttl, turns[1..]);
      RunOneTurn(db, turns[0].others, call, Trace(realIp, ids[1..], subnets, ttl, turns[1..]));
    }
  }

  lemma StoredForever(db: Db, call: Event, es: seq<Event>)
    requires call.Assign? && call.reserve
    ensures Reserved(Run(Step(db, call), es), call.realIp)
    ensures HGet(Run(Step(db, call), es), call.realIp, call.proxy) == Some(Answer(db, call))
  {
    ReserveStepReserves(db, call);
    ReservationIsForever(Step(db, call), es, call.realIp);
  }

  /** A promotion that succeeds reports for each proxy the address which that proxy's permanent mapping holds at the
      end. */
  lemma {:induction false} ReportedIsStored(db: Db, realIp: string, ids: seq<string>, subnets: map<string, string>, ttl: int, turns: seq<Turn>)
    requires |turns| == |ids|
    requires ReserveEach(db, realIp, ids, subnets, ttl, turns).reply.Ok?
    ensures var Outcome(after, reply) := ReserveEach(db, realIp, ids, subnets, ttl, turns);
            && (ids != [] ==> Reserved(after, realIp))
            && forall id :: id in ids ==> id in reply.value && HGet(after, realIp, id) == Some(reply.value[id])
    decreases |ids|
  {
    if ids != [] {
      var now := Run(db, turns[0].others);
      var call := ReserveCall(realIp, ids[0], NumOf(subnets, ids[0]).value, ttl);
      var rest := ReserveEach(Step(now, call), realIp, ids[1..], subnets, ttl, turns[1..]);
      ReportedIsStored(Step(now, call), realIp, ids[1..], subnets, ttl, turns[1..]);
      SuccessParses(Step(now, call), realIp, ids[1..], subnets, ttl, turns[1..]);
      SuccessRunsTrace(Step(now, call), realIp, ids[1..], subnets, ttl, turns[1..]);
      StoredForever(now, call, Trace(realIp, ids[1..], subnets, ttl, turns[1..]));
      assert ReserveEach(db, realIp, ids, subnets, ttl, turns)
          == rest.(reply := Ok(map[ids[0] := Answer(now, call)] + rest.reply.value));
      assert forall id :: id in ids <==> id == ids[0] || id in ids[1..];
    }
  }

  /** The first proxy whose registry entry does not parse or whose call fails; how many there are if none does. */
  function FirstFailure(ids: seq<string>, subnets: map<string, string>, turns: seq<Turn>): (k: nat)
    requires |turns| == |ids|
    ensures k <= |ids|
    decreases |ids|
  {
    if ids == [] || NumOf(subnets, ids[0]).Err? || turns[0].fails then 0
    else 1 + FirstFailure(ids[1..], subnets, turns[1..])
  }

  lemma PrefixOfTail<T>(s: seq<T>, k: nat)
    requires 1 <= k <= |s|
    ensures s[..k][0] == s[0] && s[..k][1..] == s[1..][..k - 1]
  {
  }

  /** A promotion does what a promotion of the proxies before the first failure does, which succeeds; if there is a failure,
      only what others do before that call is added. */
  lemma {:induction false} PromotionIsPrefix(db: Db, realIp: string, ids: seq<string>, subnets: map<string, string>, ttl: int, turns: seq<Turn>)
    requires |turns| == |ids|
    ensures var k := FirstFailure(ids, subnets, turns);
            var Outcome(after, reply) := ReserveEach(db, realIp, ids, subnets, ttl, turns);
            var done := ReserveEach(db, realIp, ids[..k], subnets, ttl, turns[..k]);
            && done.reply.Ok? && (reply.Err? <==> k < |ids|)
            && after == if k < |ids| then Run(done.db, turns[k].others) else done.db
    decreases |ids|
  {
    var k := FirstFailure(ids, subnets, turns);
    if k == 0 {
      assert ids[..0] == [] && turns[..0] == [];
    } else {
      PrefixOfTail(ids, k);
      PrefixOfTail(turns, k);
      PrefixAfterCall(db, realIp, ids, subnets, ttl, turns);
      PrefixAfterCall(db, realIp, ids[..k], subnets, ttl, turns[..k]);
      PromotionIsPrefix(AfterCall(db, realIp, ids, subnets, ttl, turns), realIp, ids[1..], subnets, ttl, turns[1..]);
    }
  }

  /** The database after the first call. */
  function AfterCall(db: Db, realIp: string, ids: seq<string>, subnets: map<string, string>, ttl: int, turns: seq<Turn>): Db
    requires |turns| == |ids| && ids != [] && NumOf(subnets, ids[0]).Ok?
  {
    Step(Run(db, turns[0].others), ReserveCall(realIp, ids[0], NumOf(subnets, ids[0]).value, ttl))
  }

  lemma PrefixAfterCall(db: Db, realIp: string, ids: seq<string>, subnets: map<string, string>, ttl: int, turns: seq<Turn>)
    requires |turns| == |ids| && ids != [] && NumOf(subnets, ids[0]).Ok? && !turns[0].fails
    ensures var whole := ReserveEach(db, realIp, ids, subnets, ttl, turns);
            var rest := ReserveEach(AfterCall(db, realIp, ids, subnets, ttl, turns), realIp, ids[1..], subnets, ttl, turns[1..]);
            whole.db == rest.db && (whole.reply.Ok? <==> rest.reply.Ok?)
  {
  }

  /** What a promotion leaves that fails part way: every proxy before the failing one holds for good the address reserved
      for it, and the player is in the reserved set as soon as there is one. */
  lemma FailedPromotionKeepsItsPart(db: Db, realIp: string, ids: seq<string>, subnets: map<string, string>, ttl: int, turns: seq<Turn>, es: seq<Event>)
    requires |turns| == |ids|
    ensures var k := FirstFailure(ids, subnets, turns);
            var later := Run(ReserveEach(db, realIp, ids, subnets, ttl, turns).db, es);
            var done := ReserveEach(db, realIp, ids[..k], subnets, ttl, turns[..k]);
            && done.reply.Ok? && (k > 0 ==> Reserved(later, realIp))
            && forall i :: 0 <= i < k ==> ids[i] in done.reply.value && HGet(later, realIp, ids[i]) == Some(done.reply.value[ids[i]])
  {
    var k := FirstFailure(ids, subnets, turns);
    var done := ReserveEach(db, realIp, ids[..k], subnets, ttl, turns[..k]);
    PromotionIsPrefix(db, realIp, ids, subnets, ttl, turns);
    ReportedIsStored(db, realIp, ids[..k], subnets, ttl, turns[..k]);
    if k > 0 {
      var others := if k < |ids| then turns[k].others else [];
      RunConcat(done.db, others, es);
      assert forall i :: 0 <= i < k ==> ids[i] in ids[..k];
      ReservationIsForever(done.db, others + es, realIp);
    }
  }

  /** Whatever happens during and after a promotion that succeeds, every later call for that real address on a proxy
      it covered answers the address it reported. */
  lemma PromotedIdentityIsPermanent(db: Db, realIp: string, ids: seq<string>, subnets: map<string, string>, ttl: int, turns: seq<Turn>,
                                    es: seq<Event>, later: Event)
    requires |turns| == |ids|
    requires ReserveEach(db, realIp, ids, subnets, ttl, turns).reply.Ok?
    requires later.Assign? && later.realIp == realIp && later.proxy in ids
    ensures var Outcome(after, reply) := ReserveEach(db, realIp, ids, subnets, ttl, turns);
            && later.proxy in reply.value
            && Answer(Run(after, es), later) == reply.value[later.proxy]
            && realIp in Run(after, es).reserved
  {
    ReportedIsStored(db, realIp, ids, subnets, ttl, turns);
    var Outcome(after, reply) := ReserveEach(db, realIp, ids, subnets, ttl, turns);
    ReservationIsForever(after, es, realIp);
    assert HGet(Run(after, es), realIp, later.proxy) == Some(reply.value[later.proxy]);
    StickyAnswer(Run(after, es), later, reply.value[later.proxy]);
  }

  // ---- the banned address itself ----

  lemma {:induction false} StaysLiveAcross(db: Db, es: seq<Event>, fs: seq<Event>, realIp: string)
    ensures StaysLive(db, es + fs, realIp) <==> StaysLive(db, es, realIp) && StaysLive(Run(db, es), fs, realIp)
    decreases |es|
  {
    if es == [] {
      assert es + fs == fs;
    } else {
      StaysLiveAcross(Step(db, es[0]), es[1..], fs, realIp);
      assert (es + fs)[1..] == es[1..] + fs;
    }
  }

  lemma {:induction false} ReservedStaysLive(db: Db, es: seq<Event>, realIp: string)
    requires Reserved(db, realIp)
    ensures StaysLive(db, es, realIp)
    decreases |es|
  {
    if es != [] {
      ReservedAfterStep(db, es[0], realIp);
      ReservedStaysLive(Step(db, es[0]), es[1..], realIp);
    }
  }

  /** Only the time before the first reserve call matters: from then on the hash cannot be lost. */
  lemma LiveUntilFirstCall(db: Db, realIp: string, others: seq<Event>, call: Event, rest: seq<Event>)
    requires call.Assign? && call.reserve && call.realIp == realIp
    ensures StaysLive(db, others + [call] + rest, realIp) <==> StaysLive(db, others, realIp)
  {
    assert others + [call] + rest == others + ([call] + rest);
    StaysLiveAcross(db, others, [call] + rest, realIp);
    if StaysLive(db, others, realIp) {
      var now := Run(db, others);
      StaysLiveAcross(db, others, [], realIp);
      assert others + [] == others;
      ReserveStepReserves(now, call);
      ReservedStaysLive(Step(now, call), rest, realIp);
      assert ([call] + rest)[1..] == rest;
    }
  }

  /** The registry a promotion reads names numbers of the proxies, though not necessarily the ones they run with. */
  ghost predicate Agrees(cfg: Config, subnets: map<string, string>) {
    forall id :: id in subnets ==> var num := NumOf(subnets, id); num.Ok? && num.value in cfg.user && cfg.user[num.value] == id
  }

  lemma {:induction false} TraceIsAllowed(cfg: Config, realIp: string, ids: seq<string>, subnets: map<string, string>, ttl: int, turns: seq<Turn>)
    requires |turns| == |ids| && Agrees(cfg, subnets) && forall id :: id in ids ==> NumOf(subnets, id).Ok?
    requires forall i :: 0 <= i < |turns| ==> cfg.AllowsAll(turns[i].others)
    ensures cfg.AllowsAll(Trace(realIp, ids, subnets, ttl, turns))
    decreases |ids|
  {
    if ids != [] {
      MissingHasNoNumber(subnets, ids[0]);
      TraceIsAllowed(cfg, realIp, ids[1..], subnets, ttl, turns[1..]);
      assert cfg.AllowsAll(turns[0].others);
    }
  }

  /** The address reserved for the source proxy is the banned address exactly when the player held it at the lookup and his
      hash stayed live from then to the first reserve call. */
  lemma BannedAddressIsFrozenIff(cfg: Config, db: Db, banned: string, source: Reverse, ids: seq<string>, subnets: map<string, string>,
                                 ttl: int, turns: seq<Turn>, out: map<string, string>)
    requires Reachable(cfg, db) && Agrees(cfg, subnets)
    requires |turns| == |ids|
    requires forall i :: 0 <= i < |turns| ==> cfg.AllowsAll(turns[i].others)
    requires Get(db, banned) == Some(source) && source.proxy in ids
    requires ReserveEach(db, source.realIp, ids, subnets, ttl, turns).reply == Ok(out)
    requires WithinRange(ReserveEach(db, source.realIp, ids, subnets, ttl, turns).db)
    ensures source.proxy in out
    ensures out[source.proxy] == banned
       <==> HGet(db, source.realIp, source.proxy) == Some(banned) && StaysLive(db, turns[0].others, source.realIp)
  {
    var realIp, proxy := source.realIp, source.proxy;
    ReportedIsStored(db, realIp, ids, subnets, ttl, turns);
    SuccessParses(db, realIp, ids, subnets, ttl, turns);
    SuccessRunsTrace(db, realIp, ids, subnets, ttl, turns);
    var trace := Trace(realIp, ids, subnets, ttl, turns);
    TraceIsAllowed(cfg, realIp, ids, subnets, ttl, turns);
    LiveUntilFirstCall(db, realIp, turns[0].others,
                       ReserveCall(realIp, ids[0], NumOf(subnets, ids[0]).value, ttl),
                       Trace(realIp, ids[1..], subnets, ttl, turns[1..]));
    HeldIffLive(cfg, db, banned, source, trace);
  }

  lemma HeldIffLive(cfg: Config, db: Db, banned: string, source: Reverse, es: seq<Event>)
    requires Reachable(cfg, db) && cfg.AllowsAll(es) && WithinRange(Run(db, es))
    requires Get(db, banned) == Some(source)
    ensures HGet(Run(db, es), source.realIp, source.proxy) == Some(banned)
       <==> HGet(db, source.realIp, source.proxy) == Some(banned) && StaysLive(db, es, source.realIp)
  {
    var owners := ReachableInv(cfg, db);
    if HGet(db, source.realIp, source.proxy) != Some(banned) {
      LostForGood(cfg, db, owners, es, source.realIp, source.proxy, banned);
    } else if StaysLive(db, es, source.realIp) {
      SameAddressWhileLive(db, es, source.realIp, source.proxy);
    } else {
      LostUnlessLive(cfg, db, owners, es, source.realIp, source.proxy, banned);
    }
  }

  lemma WithinRangeAtFirstCall(db: Db, realIp: string, ids: seq<string>, subnets: map<string, string>, ttl: int, turns: seq<Turn>)
    requires |turns| == |ids| && ids != []
    requires ReserveEach(db, realIp, ids, subnets, ttl, turns).reply.Ok?
    requires WithinRange(ReserveEach(db, realIp, ids, subnets, ttl, turns).db)
    ensures WithinRange(Run(db, turns[0].others))
  {
    SuccessParses(db, realIp, ids, subnets, ttl, turns);
    SuccessRunsTrace(db, realIp, ids, subnets, ttl, turns);
    var trace := Trace(realIp, ids, subnets, ttl, turns);
    PrefixWithinRange(db, trace, |turns[0].others|);
    assert trace[..|turns[0].others|] == turns[0].others;
  }

  /** The same as a condition on the lookup and on the calls for the player before the first reserve call: he was kept up, by calls
      on whatever proxies with whatever TTLs. */
  lemma BannedAddressIsFrozenIffKeptUp(cfg: Config, db: Db, banned: string, source: Reverse, ids: seq<string>, subnets: map<string, string>,
                                       ttl: int, turns: seq<Turn>, out: map<string, string>)
    requires Reachable(cfg, db) && Agrees(cfg, subnets)
    requires |turns| == |ids|
    requires forall i :: 0 <= i < |turns| ==> cfg.AllowsAll(turns[i].others)
    requires Get(db, banned) == Some(source) && source.proxy in ids
    requires ReserveEach(db, source.realIp, ids, subnets, ttl, turns).reply == Ok(out)
    requires WithinRange(ReserveEach(db, source.realIp, ids, subnets, ttl, turns).db)
    ensures var l := Leases.LeaseOf(db, source, banned);
            && source.proxy in out
            && (out[source.proxy] == banned
                <==> HGet(db, source.realIp, source.proxy) == Some(banned)
                     && Leases.KeptUp(turns[0].others, source.realIp, None, l.reserved, l.held))
  {
    BannedAddressIsFrozenIff(cfg, db, banned, source, ids, subnets, ttl, turns, out);
    if HGet(db, source.realIp, source.proxy) == Some(banned) {
      WithinRangeAtFirstCall(db, source.realIp, ids, subnets, ttl, turns);
      LiveIffKeptUp(cfg, db, banned, source, turns[0].others);
    }
  }

  lemma LiveIffKeptUp(cfg: Config, db: Db, banned: string, source: Reverse, others: seq<Event>)
    requires Reachable(cfg, db) && cfg.AllowsAll(others) && WithinRange(Run(db, others))
    requires HGet(db, source.realIp, source.proxy) == Some(banned)
    ensures var l := Leases.LeaseOf(db, source, banned);
            StaysLive(db, others, source.realIp) <==> Leases.KeptUp(others, source.realIp, None, l.reserved, l.held)
  {
    var owners := ReachableInv(cfg, db);
    Leases.ForwardLiveIff(cfg, db, source, banned, others);
    Leases.ForwardIsStaysLive(cfg, db, owners, others, source.realIp, source.proxy, banned);
  }

  /** In particular the ban is frozen when the hash had enough time left at the lookup and nobody has given it less since. */
  lemma BannedAddressIsFrozenInTime(cfg: Config, db: Db, banned: string, source: Reverse, ids: seq<string>, subnets: map<string, string>,
                                    ttl: int, turns: seq<Turn>, out: map<string, string>)
    requires Reachable(cfg, db) && Agrees(cfg, subnets)
    requires |turns| == |ids|
    requires forall i :: 0 <= i < |turns| ==> cfg.AllowsAll(turns[i].others)
    requires Get(db, banned) == Some(source) && source.proxy in ids && HGet(db, source.realIp, source.proxy) == Some(banned)
    requires Leases.LeaseOf(db, source, banned).held.Lasts(Elapsed(turns[0].others))
    requires Leases.NoShorter(turns[0].others, source.realIp, None, Elapsed(turns[0].others))
    requires ReserveEach(db, source.realIp, ids, subnets, ttl, turns).reply == Ok(out)
    requires WithinRange(ReserveEach(db, source.realIp, ids, subnets, ttl, turns).db)
    ensures source.proxy in out && out[source.proxy] == banned
  {
    BannedAddressIsFrozenIffKeptUp(cfg, db, banned, source, ids, subnets, ttl, turns, out);
    var l := Leases.LeaseOf(db, source, banned);
    Leases.KeptUpByShortest(turns[0].others, source.realIp, None, l.reserved, l.held);
  }

  /** It may come too late: one millisecond after the lease of the player's first address has ended, a promotion that looked
      the address up in time reserves another one. */
  lemma FrozenUnderAnotherAddress(realIp: string, proxy: string, ttl: int)
    requires ttl > 0
    ensures var db := Leases.AfterFirstCall(realIp, proxy, ttl, MS_PER_SECOND * ttl);
            var subnets := map[proxy := Text.SubnetText(1)];
            && Get(db, Text.ScriptAddress(1, 1)) == Some(Reverse(realIp, proxy))
            && ReserveEach(db, realIp, [proxy], subnets, ttl, [Turn([Elapse(1)], false)]).reply == Ok(map[proxy := Text.ScriptAddress(1, 2)])
            && Text.ScriptAddress(1, 2) != Text.ScriptAddress(1, 1)
  {
    Leases.FirstCall(realIp, proxy, ttl, MS_PER_SECOND * ttl);
    Text.SubnetRoundTrip(1);
    Text.AddressTextEqualIff(1, 1, 1, 2);
    LateCall(Leases.AfterFirstCall(realIp, proxy, ttl, MS_PER_SECOND * ttl), realIp, proxy, ttl);
  }

  lemma LateCall(db: Db, realIp: string, proxy: string, ttl: int)
    requires Text.ProxyNumFromSubnet(Text.SubnetText(1)) == Ok(1)
    requires realIp in db.maps && db.maps[realIp].expires == At(db.now)
    ensures ReserveEach(db, realIp, [proxy], map[proxy := Text.SubnetText(1)], ttl, [Turn([Elapse(1)], false)]).reply
         == Ok(map[proxy := Text.ScriptAddress(1, Counter(db, proxy) + 1)])
  {
    RunOne(db, Elapse(1));
    ReserveForOne(db, realIp, proxy, map[proxy := Text.SubnetText(1)], 1, ttl, Turn([Elapse(1)], false));
    AnswerAfterExpiry(db, realIp, proxy, ttl);
  }

  lemma AnswerAfterExpiry(db: Db, realIp: string, proxy: string, ttl: int)
    requires realIp in db.maps && db.maps[realIp].expires == At(db.now)
    ensures Answer(Advance(db, 1), ReserveCall(realIp, proxy, 1, ttl)) == Text.ScriptAddress(1, Counter(db, proxy) + 1)
  {
    assert HGet(Advance(db, 1), realIp, proxy) == None;
  }

  /** With one registered proxy the promotion is one call. */
  lemma ReserveForOne(db: Db, realIp: string, proxy: string, subnets: map<string, string>, num: nat, ttl: int, turn: Turn)
    requires NumOf(subnets, proxy) == Ok(num) && !turn.fails
    ensures ReserveEach(db, realIp, [proxy], subnets, ttl, [turn]).reply
         == Ok(map[proxy := Answer(Run(db, turn.others), ReserveCall(realIp, proxy, num, ttl))])
  {
    var now := Run(db, turn.others);
    var call := ReserveCall(realIp, proxy, num, ttl);
    var answered := map[proxy := Answer(now, call)];
    assert [proxy][1..] == [] && [turn][1..] == [];
    assert answered + map[] == answered;
  }
}
