/** What happens when a proxy has handed out more than 65536 addresses: the texts repeat, and live identities share one
    exactly when their counter values lie a multiple of 65536 apart. Nothing here bounds the number of allocations. */
module Wraparound {
  import opened Wrappers
  import opened Redis
  import opened Assignment
  import opened Identity
  import Text

  /** The number and the counter value an identity's address was printed from. */
  datatype Birth = Birth(num: nat, count: nat)

  /** The latest allocation of every identity. */
  type Births = map<Reverse, Birth>

  function Note(births: Births, db: Db, e: Event): Births {
    if Allocates(db, e) then births[Reverse(e.realIp, e.proxy) := Birth(e.num, Counter(db, e.proxy) + 1)] else births
  }

  function BirthsAfter(births: Births, db: Db, es: seq<Event>): Births
    decreases |es|
  {
    if es == [] then births else BirthsAfter(Note(births, db, es[0]), Step(db, es[0]), es[1..])
  }

  predicate Live(db: Db, id: Reverse) {
    HGet(db, id.realIp, id.proxy).Some?
  }

  ghost predicate BornAs(cfg: Config, db: Db, births: Births, id: Reverse) {
    && id in births
    && var Birth(num, n) := births[id];
       && num in cfg.user && cfg.user[num] == id.proxy && 1 <= n <= Counter(db, id.proxy)
       && HGet(db, id.realIp, id.proxy) == Some(Text.ScriptAddress(num, n))
  }

  ghost predicate BirthsOk(cfg: Config, db: Db, births: Births) {
    && (forall id: Reverse :: Live(db, id) ==> BornAs(cfg, db, births, id))
    && (forall id: Reverse, other: Reverse :: Live(db, id) && Live(db, other) && id != other && id.proxy == other.proxy ==>
          births[id].count != births[other].count)
  }

  lemma LiveAfterElapse(db: Db, ms: nat, id: Reverse)
    requires Live(Advance(db, ms), id)
    ensures Live(db, id) && HGet(Advance(db, ms), id.realIp, id.proxy) == HGet(db, id.realIp, id.proxy)
  {
  }

  lemma LiveAfterCall(db: Db, e: Event, id: Reverse)
    requires e.Assign?
    ensures HGet(Step(db, e), id.realIp, id.proxy) ==
            if id == Reverse(e.realIp, e.proxy) then Some(Answer(db, e)) else HGet(db, id.realIp, id.proxy)
    ensures Answer(db, e) == HGet(db, e.realIp, e.proxy).GetOr(Text.ScriptAddress(e.num, Counter(db, e.proxy) + 1))
  {
    ScriptTouchesTwoKeys(db, e);
  }

  /** An identity that is live after a step was live before with the same address, or is the one just allocated. */
  lemma LiveBefore(db: Db, e: Event, id: Reverse)
    requires Live(Step(db, e), id)
    ensures if Allocates(db, e) && id == Reverse(e.realIp, e.proxy)
            then HGet(Step(db, e), id.realIp, id.proxy) == Some(Text.ScriptAddress(e.num, Counter(db, e.proxy) + 1))
            else Live(db, id) && HGet(Step(db, e), id.realIp, id.proxy) == HGet(db, id.realIp, id.proxy)
  {
    match e
    case Elapse(ms) => LiveAfterElapse(db, ms, id);
    case Assign(_, _, _, _, _) => LiveAfterCall(db, e, id);
  }

  lemma BornAfterStep(cfg: Config, db: Db, births: Births, e: Event, id: Reverse)
    requires BirthsOk(cfg, db, births) && cfg.Allows(e) && Live(Step(db, e), id)
    ensures BornAs(cfg, Step(db, e), Note(births, db, e), id)
  {
    LiveBefore(db, e, id);
    StepCounters(db, e, id.proxy);
  }

  lemma BirthsOkAfterStep(cfg: Config, db: Db, births: Births, e: Event)
    requires BirthsOk(cfg, db, births) && cfg.Allows(e)
    ensures BirthsOk(cfg, Step(db, e), Note(births, db, e))
  {
    var after, births' := Step(db, e), Note(births, db, e);
    forall id: Reverse | Live(after, id) ensures BornAs(cfg, after, births', id) {
      BornAfterStep(cfg, db, births, e, id);
    }
    forall id: Reverse, other: Reverse | Live(after, id) && Live(after, other) && id != other && id.proxy == other.proxy
      ensures births'[id].count != births'[other].count
    {
      LiveBefore(db, e, id);
      LiveBefore(db, e, other);
      assert Live(db, id) ==> BornAs(cfg, db, births, id);
      assert Live(db, other) ==> BornAs(cfg, db, births, other);
    }
  }

  lemma {:induction false} BirthsOkAfterRun(cfg: Config, db: Db, births: Births, es: seq<Event>)
    requires BirthsOk(cfg, db, births) && cfg.AllowsAll(es)
    ensures BirthsOk(cfg, Run(db, es), BirthsAfter(births, db, es))
    decreases |es|
  {
    if es != [] {
      BirthsOkAfterStep(cfg, db, births, es[0]);
      BirthsOkAfterRun(cfg, Step(db, es[0]), Note(births, db, es[0]), es[1..]);
    }
  }

  // ---- runs from the empty database, of any length ----

  function Births0(es: seq<Event>): Births {
    BirthsAfter(map[], EMPTY, es)
  }

  lemma BirthsOkAlways(cfg: Config, es: seq<Event>)
    requires cfg.AllowsAll(es)
    ensures BirthsOk(cfg, Run(EMPTY, es), Births0(es))
  {
    BirthsOkAfterRun(cfg, EMPTY, map[], es);
  }

  /** Two live identities share an address exactly when it was printed for the same number from counter values that are equal
      modulo 65536. */
  lemma ShareAddressIff(cfg: Config, es: seq<Event>, id: Reverse, other: Reverse)
    requires cfg.AllowsAll(es) && Live(Run(EMPTY, es), id) && Live(Run(EMPTY, es), other) && id != other
    ensures var births := Births0(es);
            && id in births && other in births
            && (HGet(Run(EMPTY, es), id.realIp, id.proxy) == HGet(Run(EMPTY, es), other.realIp, other.proxy)
                <==> births[id].num == births[other].num
                     && births[id].count % Text.ADDRESSES_PER_PROXY == births[other].count % Text.ADDRESSES_PER_PROXY)
  {
    BirthsOkAlways(cfg, es);
    var births := Births0(es);
    assert BornAs(cfg, Run(EMPTY, es), births, id) && BornAs(cfg, Run(EMPTY, es), births, other);
    Text.AddressTextEqualIff(births[id].num, births[id].count, births[other].num, births[other].count);
  }

  /** This identity's address is among the last 65536 its proxy has handed out. */
  predicate Recent(db: Db, births: Births, id: Reverse) {
    id in births && Counter(db, id.proxy) < births[id].count + Text.ADDRESSES_PER_PROXY
  }

  lemma WithinOneCycle(n: nat, m: nat, top: nat)
    requires n != m && n <= top && m <= top && top < n + Text.ADDRESSES_PER_PROXY && top < m + Text.ADDRESSES_PER_PROXY
    ensures n % Text.ADDRESSES_PER_PROXY != m % Text.ADDRESSES_PER_PROXY
  {
  }

  /** However many addresses were handed out and expired: as long as every live identity got its address within the last 65536
      of its proxy, no two of them share one. */
  lemma WindowKeepsAddressesUnique(cfg: Config, es: seq<Event>, id: Reverse, other: Reverse)
    requires cfg.AllowsAll(es) && Live(Run(EMPTY, es), id) && Live(Run(EMPTY, es), other) && id != other
    requires Recent(Run(EMPTY, es), Births0(es), id) && Recent(Run(EMPTY, es), Births0(es), other)
    ensures HGet(Run(EMPTY, es), id.realIp, id.proxy) != HGet(Run(EMPTY, es), other.realIp, other.proxy)
  {
    BirthsOkAlways(cfg, es);
    ShareAddressIff(cfg, es, id, other);
    var db, births := Run(EMPTY, es), Births0(es);
    assert BornAs(cfg, db, births, id) && BornAs(cfg, db, births, other);
    if id.proxy == other.proxy {
      WithinOneCycle(births[id].count, births[other].count, Counter(db, id.proxy));
    }
  }

  /** An allocation hands out the address of a live identity exactly when one of the same number was allocated a multiple of
      65536 counter values ago. */
  lemma AllocationCollidesIff(cfg: Config, es: seq<Event>, e: Event)
    requires cfg.AllowsAll(es) && cfg.Allows(e) && Allocates(Run(EMPTY, es), e)
    ensures var db, births := Run(EMPTY, es), Births0(es);
            (exists id: Reverse :: Live(db, id) && HGet(db, id.realIp, id.proxy) == Some(Answer(db, e)))
            <==> exists id: Reverse :: Live(db, id) && id in births && births[id].num == e.num
                   && (Counter(db, e.proxy) + 1) % Text.ADDRESSES_PER_PROXY == births[id].count % Text.ADDRESSES_PER_PROXY
  {
    BirthsOkAlways(cfg, es);
    var db, births := Run(EMPTY, es), Births0(es);
    LiveAfterCall(db, e, Reverse(e.realIp, e.proxy));
    forall id: Reverse | Live(db, id)
      ensures id in births
      ensures HGet(db, id.realIp, id.proxy) == Some(Answer(db, e))
         <==> births[id].num == e.num
              && (Counter(db, e.proxy) + 1) % Text.ADDRESSES_PER_PROXY == births[id].count % Text.ADDRESSES_PER_PROXY
    {
      assert BornAs(cfg, db, births, id);
      Text.AddressTextEqualIff(births[id].num, births[id].count, e.num, Counter(db, e.proxy) + 1);
    }
  }

  // ---- a collision ----

  /** The first k players of one proxy, under a TTL that lets nothing expire. */
  function Players(proxy: string, k: nat): seq<Event> {
    if k == 0 then [] else Players(proxy, k - 1) + [Assign(Text.Decimal(k - 1), proxy, 1, 0, false)]
  }

  function Full(proxy: string, k: nat): Db {
    Run(EMPTY, Players(proxy, k))
  }

  lemma NextPlayer(proxy: string, k: nat)
    ensures Full(proxy, k + 1) == Step(Full(proxy, k), Assign(Text.Decimal(k), proxy, 1, 0, false))
  {
    var e := Assign(Text.Decimal(k), proxy, 1, 0, false);
    RunConcat(EMPTY, Players(proxy, k), [e]);
    RunOne(Full(proxy, k), e);
  }

  lemma {:induction false} StrangersAreNew(proxy: string, k: nat, stranger: string)
    requires forall i: nat :: i < k ==> Text.Decimal(i) != stranger
    ensures HGet(Full(proxy, k), stranger, proxy) == None
  {
    if k > 0 {
      StrangersAreNew(proxy, k - 1, stranger);
      NextPlayer(proxy, k - 1);
      LiveAfterCall(Full(proxy, k - 1), Assign(Text.Decimal(k - 1), proxy, 1, 0, false), Reverse(stranger, proxy));
    }
  }

  lemma {:induction false} EachPlayerHolds(proxy: string, k: nat, i: nat)
    requires i < k
    ensures Counter(Full(proxy, k), proxy) == k
    ensures HGet(Full(proxy, k), Text.Decimal(i), proxy) == Some(Text.ScriptAddress(1, i + 1))
  {
    var e := Assign(Text.Decimal(k - 1), proxy, 1, 0, false);
    NextPlayer(proxy, k - 1);
    forall j: nat | j < k - 1 ensures Text.Decimal(j) != Text.Decimal(k - 1) {
      DifferentNames(j, k - 1);
    }
    StrangersAreNew(proxy, k - 1, Text.Decimal(k - 1));
    StepCounters(Full(proxy, k - 1), e, proxy);
    LiveAfterCall(Full(proxy, k - 1), e, Reverse(Text.Decimal(i), proxy));
    if k > 1 {
      EachPlayerHolds(proxy, k - 1, if i < k - 1 then i else 0);
    }
  }

  lemma DifferentNames(i: nat, j: nat)
    requires i != j
    ensures Text.Decimal(i) != Text.Decimal(j)
  {
    if Text.Decimal(i) == Text.Decimal(j) {
      Text.DecimalInjective(i, j);
    }
  }

  /** The 65537th player is given the address that the first one still holds. */
  lemma LateComerSharesAddress(proxy: string, cycle: nat)
    requires cycle == Text.ADDRESSES_PER_PROXY
    ensures var db, first, last := Full(proxy, cycle + 1), Text.Decimal(0), Text.Decimal(cycle);
            && first != last
            && HGet(db, first, proxy) == HGet(db, last, proxy) == Some(Text.ScriptAddress(1, 1))
  {
    EachPlayerHolds(proxy, cycle + 1, 0);
    EachPlayerHolds(proxy, cycle + 1, cycle);
    Text.AddressTextEqualIff(1, 1, 1, cycle + 1);
    DifferentNames(0, cycle);
  }
}
