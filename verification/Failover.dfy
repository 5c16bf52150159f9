/** The failover controller: health evaluations per hostname, then its DNS records. */
module Failover {
  import opened Wrappers
  import opened Sorting
  import opened Dns
  import opened RegionHealth

  datatype Region = Region(name: string, answerIPs: seq<string>)
  datatype Hostname = Hostname(name: string, region: string, ttl: int)
  datatype Config = Config(fallbackRegion: string, windowSeconds: int, regions: seq<Region>, hostnames: seq<Hostname>)

  // ---- regions by name ----

  function RegionNamed(regions: seq<Region>, name: string): Region {
    if regions == [] then Region("", [])
    else if regions[|regions| - 1].name == name then regions[|regions| - 1]
    else RegionNamed(regions[..|regions| - 1], name)
  }

  /** A Go map lookup: the zero region when the name is missing. */
  function FindRegion(regions: map<string, Region>, name: string): Region {
    if name in regions then regions[name] else Region("", [])
  }

  // ---- one pass as functions of its inputs ----

  /** What a pass observes: the fallback's health, the answer each hostname's region would give to a probe at its turn,
      and the clock at each hostname's turn. */
  datatype Observed = Observed(fallbackHealthy: bool, probes: seq<bool>, clock: seq<int>)

  predicate Covers(o: Observed, hostnames: seq<Hostname>) {
    |o.probes| == |hostnames| == |o.clock|
  }

  /** The first hostname that has this region: the one whose turn probes it; later ones reuse the verdict. */
  function FirstWith(hostnames: seq<Hostname>, region: string): (i: nat)
    ensures i <= |hostnames|
    ensures i < |hostnames| ==> hostnames[i].region == region
    ensures forall j :: 0 <= j < i ==> hostnames[j].region != region
  {
    if hostnames == [] then 0
    else if hostnames[0].region == region then 0
    else 1 + FirstWith(hostnames[1..], region)
  }

  function EvaluationAt(hostnames: seq<Hostname>, o: Observed, i: nat): Evaluation
    requires Covers(o, hostnames) && i < |hostnames|
  {
    Evaluation(o.clock[i], o.probes[FirstWith(hostnames, hostnames[i].region)], o.fallbackHealthy)
  }

  type States = map<string, RegionState>

  function StateOf(states: States, region: string): RegionState {
    if region in states then states[region] else INITIAL
  }

  /** The region states after the i-th hostname's turn. */
  function Turn(cfg: Config, states: States, o: Observed, i: nat): States
    requires Covers(o, cfg.hostnames) && i < |cfg.hostnames|
  {
    var region := cfg.hostnames[i].region;
    states[region := Evaluate(StateOf(states, region), EvaluationAt(cfg.hostnames, o, i), cfg.windowSeconds)]
  }

  /** The region whose answers the i-th hostname gets at its turn. */
  function Target(cfg: Config, states: States, o: Observed, i: nat): Region
    requires Covers(o, cfg.hostnames) && i < |cfg.hostnames|
  {
    var region := cfg.hostnames[i].region;
    RegionNamed(cfg.regions, if ServesFallback(StateOf(states, region), EvaluationAt(cfg.hostnames, o, i), cfg.windowSeconds)
                             then cfg.fallbackRegion else region)
  }

  /** The region states after the first n hostnames of a pass. */
  function StatesAfter(cfg: Config, states: States, o: Observed, n: nat): States
    requires Covers(o, cfg.hostnames) && n <= |cfg.hostnames|
  {
    if n == 0 then states else Turn(cfg, StatesAfter(cfg, states, o, n - 1), o, n - 1)
  }

  /** The region whose answers the i-th hostname gets in this pass. */
  function Chosen(cfg: Config, states: States, o: Observed, i: nat): Region
    requires Covers(o, cfg.hostnames) && i < |cfg.hostnames|
  {
    Target(cfg, StatesAfter(cfg, states, o, i), o, i)
  }

  /** The answers each hostname gets in this pass. */
  type Answers = nat -> seq<string>

  function AnswersOf(cfg: Config, states: States, o: Observed): Answers
    requires Covers(o, cfg.hostnames)
  {
    (i: nat) => if i < |cfg.hostnames| then Chosen(cfg, states, o, i).answerIPs else []
  }

  /** The zone after the first n hostnames have been aligned with these answers. */
  function AlignAll(z: Zone, hostnames: seq<Hostname>, answers: Answers, n: nat): Zone
    requires n <= |hostnames|
  {
    if n == 0 then z
    else Align(AlignAll(z, hostnames, answers, n - 1), hostnames[n - 1].name, hostnames[n - 1].ttl, answers(n - 1))
  }

  // ---- the controller's region states are the machines of RegionHealth ----

  /** The evaluations this region gets from the first n hostnames of a pass. */
  function EvaluationsOf(cfg: Config, o: Observed, region: string, n: nat): seq<Evaluation>
    requires Covers(o, cfg.hostnames) && n <= |cfg.hostnames|
  {
    if n == 0 then []
    else
      EvaluationsOf(cfg, o, region, n - 1)
      + if cfg.hostnames[n - 1].region == region then [EvaluationAt(cfg.hostnames, o, n - 1)] else []
  }

  /** A pass feeds each region the evaluations of its hostnames, all with the same verdict, and no region anything else. */
  lemma {:induction false} StatesFollowEvaluations(cfg: Config, states: States, o: Observed, region: string, es: seq<Evaluation>, n: nat)
    requires Covers(o, cfg.hostnames) && n <= |cfg.hostnames|
    requires StateOf(states, region) == After(es, cfg.windowSeconds)
    ensures StateOf(StatesAfter(cfg, states, o, n), region) == After(es + EvaluationsOf(cfg, o, region, n), cfg.windowSeconds)
  {
    if n == 0 {
      assert es + [] == es;
    } else {
      StatesFollowEvaluations(cfg, states, o, region, es, n - 1);
      var before := es + EvaluationsOf(cfg, o, region, n - 1);
      var e := EvaluationAt(cfg.hostnames, o, n - 1);
      if cfg.hostnames[n - 1].region == region {
        assert es + EvaluationsOf(cfg, o, region, n) == before + [e];
        assert (before + [e])[..|before|] == before;
      } else {
        assert es + EvaluationsOf(cfg, o, region, n) == before;
      }
    }
  }

  lemma {:induction false} OneVerdictPerPass(cfg: Config, o: Observed, region: string, n: nat)
    requires Covers(o, cfg.hostnames) && n <= |cfg.hostnames|
    ensures forall e, f :: e in EvaluationsOf(cfg, o, region, n) && f in EvaluationsOf(cfg, o, region, n) ==>
              e.healthy == f.healthy && e.fallbackHealthy == f.fallbackHealthy
  {
    VerdictOfFirst(cfg, o, region, n);
  }

  lemma {:induction false} VerdictOfFirst(cfg: Config, o: Observed, region: string, n: nat)
    requires Covers(o, cfg.hostnames) && n <= |cfg.hostnames|
    ensures forall e :: e in EvaluationsOf(cfg, o, region, n) ==>
              FirstWith(cfg.hostnames, region) < |cfg.hostnames|
              && e.healthy == o.probes[FirstWith(cfg.hostnames, region)] && e.fallbackHealthy == o.fallbackHealthy
  {
    if n > 0 {
      VerdictOfFirst(cfg, o, region, n - 1);
    }
  }

  /** A run of the controller from its start: what each pass observes, and how many hostnames' turns it got through. */
  datatype Pass = Pass(o: Observed, turns: nat)

  ghost predicate Complete(cfg: Config, passes: seq<Pass>) {
    forall i :: 0 <= i < |passes| ==> Covers(passes[i].o, cfg.hostnames) && passes[i].turns <= |cfg.hostnames|
  }

  ghost function StatesOver(cfg: Config, passes: seq<Pass>): States
    requires Complete(cfg, passes)
  {
    if passes == [] then map[]
    else
      var last := passes[|passes| - 1];
      StatesAfter(cfg, StatesOver(cfg, passes[..|passes| - 1]), last.o, last.turns)
  }

  ghost function EvaluationsOver(cfg: Config, passes: seq<Pass>, region: string): seq<Evaluation>
    requires Complete(cfg, passes)
  {
    if passes == [] then []
    else
      var last := passes[|passes| - 1];
      EvaluationsOver(cfg, passes[..|passes| - 1], region) + EvaluationsOf(cfg, last.o, region, last.turns)
  }

  /** Over all passes, completed or cut short, a region's state is that of its own machine after exactly its own
      evaluations. So what is proved of one region's run holds of the region inside the controller. */
  lemma {:induction false} RegionsRunIndependently(cfg: Config, passes: seq<Pass>, region: string)
    requires Complete(cfg, passes)
    ensures StateOf(StatesOver(cfg, passes), region) == After(EvaluationsOver(cfg, passes, region), cfg.windowSeconds)
  {
    if passes != [] {
      var last, earlier := passes[|passes| - 1], passes[..|passes| - 1];
      RegionsRunIndependently(cfg, earlier, region);
      StatesFollowEvaluations(cfg, StatesOver(cfg, earlier), last.o, region, EvaluationsOver(cfg, earlier, region), last.turns);
    }
  }

  // ---- which evaluations a region gets ----

  /** The turns among the first n that belong to hostnames of this region. */
  function TurnsOf(hostnames: seq<Hostname>, region: string, n: nat): seq<nat>
    requires n <= |hostnames|
  {
    if n == 0 then []
    else TurnsOf(hostnames, region, n - 1) + if hostnames[n - 1].region == region then [n - 1] else []
  }

  /** These are all such turns, each once and in order. */
  lemma {:induction false} TurnsOfIff(hostnames: seq<Hostname>, region: string, n: nat, i: nat)
    requires n <= |hostnames|
    ensures i in TurnsOf(hostnames, region, n) <==> i < n && hostnames[i].region == region
    ensures forall j, k :: 0 <= j < k < |TurnsOf(hostnames, region, n)| ==> TurnsOf(hostnames, region, n)[j] < TurnsOf(hostnames, region, n)[k]
    ensures forall j :: 0 <= j < |TurnsOf(hostnames, region, n)| ==> TurnsOf(hostnames, region, n)[j] < n
  {
    if n > 0 {
      TurnsOfIff(hostnames, region, n - 1, i);
    }
  }

  /** In a pass a region is evaluated once for each of its hostnames, at the clock of that hostname's turn, with the probe of the
      first of them and the one probe of the fallback. */
  lemma {:induction false} EvaluationsCarryTheirClocks(cfg: Config, o: Observed, region: string, n: nat)
    requires Covers(o, cfg.hostnames) && n <= |cfg.hostnames|
    ensures var turns, es := TurnsOf(cfg.hostnames, region, n), EvaluationsOf(cfg, o, region, n);
            && |es| == |turns|
            && forall k :: 0 <= k < |es| ==>
                 && turns[k] < |o.clock| && turns[0] < |o.probes|
                 && es[k].at == o.clock[turns[k]] && es[k].healthy == o.probes[turns[0]] && es[k].fallbackHealthy == o.fallbackHealthy
  {
    if n > 0 {
      EvaluationsCarryTheirClocks(cfg, o, region, n - 1);
      TurnsOfIff(cfg.hostnames, region, n - 1, 0);
      if cfg.hostnames[n - 1].region == region {
        FirstTurn(cfg.hostnames, region, n);
      }
    }
  }

  lemma FirstTurn(hostnames: seq<Hostname>, region: string, n: nat)
    requires 1 <= n <= |hostnames| && hostnames[n - 1].region == region
    ensures TurnsOf(hostnames, region, n) != [] && TurnsOf(hostnames, region, n)[0] == FirstWith(hostnames, region)
  {
    var turns, first := TurnsOf(hostnames, region, n), FirstWith(hostnames, region);
    TurnsOfIff(hostnames, region, n, first);
    var k :| 0 <= k < |turns| && turns[k] == first;
    var head := turns[0];
    TurnsOfIff(hostnames, region, n, head);
    assert head in turns && first <= head;
  }

  // ---- where a hostname points ----

  /** With distinct region names a configured region is found under its own name. */
  lemma {:induction false} RegionNamedIsConfigured(regions: seq<Region>, i: nat)
    requires i < |regions| && forall j, k :: 0 <= j < k < |regions| ==> regions[j].name != regions[k].name
    ensures RegionNamed(regions, regions[i].name) == regions[i]
  {
    if i < |regions| - 1 {
      RegionNamedIsConfigured(regions[..|regions| - 1], i);
    }
  }

  /** Of several regions with one name the last counts; a name nobody has stands for a region without answers. */
  lemma {:induction false} RegionNamedIsLast(regions: seq<Region>, name: string)
    ensures (exists i :: 0 <= i < |regions| && regions[i].name == name && RegionNamed(regions, name) == regions[i]
                         && forall j :: i < j < |regions| ==> regions[j].name != name)
            || ((forall i :: 0 <= i < |regions| ==> regions[i].name != name) && RegionNamed(regions, name) == Region("", []))
  {
    if regions != [] {
      var n := |regions| - 1;
      var front := regions[..n];
      RegionNamedIsLast(front, name);
      if regions[n].name != name {
        if i :| 0 <= i < |front| && front[i].name == name && RegionNamed(front, name) == front[i]
               && forall j :: i < j < |front| ==> front[j].name != name {
          assert regions[i] == front[i];
          assert forall j :: i < j < n ==> regions[j] == front[j];
        } else {
          assert forall i :: 0 <= i < n ==> regions[i] == front[i];
        }
      }
    }
  }

  /** A hostname gets the fallback's answers exactly when its region is on fallback after its turn and either of the two
      regions is healthy, and otherwise its own region's, healthy or not. */
  lemma ChosenIsFallbackIff(cfg: Config, states: States, o: Observed, i: nat)
    requires Covers(o, cfg.hostnames) && i < |cfg.hostnames|
    ensures var region := cfg.hostnames[i].region;
            var healthy := o.probes[FirstWith(cfg.hostnames, region)];
            Chosen(cfg, states, o, i) == RegionNamed(cfg.regions,
              if StateOf(StatesAfter(cfg, states, o, i + 1), region).onFallback && (healthy || o.fallbackHealthy)
              then cfg.fallbackRegion else region)
  {
    var before := StateOf(StatesAfter(cfg, states, o, i), cfg.hostnames[i].region);
    ServesFallbackIff(before, EvaluationAt(cfg.hostnames, o, i), cfg.windowSeconds);
  }

  /** With distinct region names that is the configured region itself, with its answers. */
  lemma ChosenRegionIsConfigured(cfg: Config, states: States, o: Observed, i: nat, own: nat, fallback: nat)
    requires Covers(o, cfg.hostnames) && i < |cfg.hostnames| && own < |cfg.regions| && fallback < |cfg.regions|
    requires forall j, k :: 0 <= j < k < |cfg.regions| ==> cfg.regions[j].name != cfg.regions[k].name
    requires cfg.regions[own].name == cfg.hostnames[i].region && cfg.regions[fallback].name == cfg.fallbackRegion
    ensures var region := cfg.hostnames[i].region;
            Chosen(cfg, states, o, i)
            == cfg.regions[if StateOf(StatesAfter(cfg, states, o, i + 1), region).onFallback
                              && (o.probes[FirstWith(cfg.hostnames, region)] || o.fallbackHealthy)
                           then fallback else own]
  {
    ChosenIsFallbackIff(cfg, states, o, i);
    RegionNamedIsConfigured(cfg.regions, own);
    RegionNamedIsConfigured(cfg.regions, fallback);
  }

  // ---- convergence of a whole pass ----

  ghost predicate DistinctNames(hostnames: seq<Hostname>) {
    forall i, j :: 0 <= i < j < |hostnames| ==> hostnames[i].name != hostnames[j].name
  }

  /** From any zone, one pass over hostnames with distinct names brings each of them in line with its own answers. */
  lemma {:induction false} PassConverges(z: Zone, hostnames: seq<Hostname>, answers: Answers, n: nat, i: nat)
    requires DistinctNames(hostnames) && i < n <= |hostnames|
    ensures InLine(AlignAll(z, hostnames, answers, n).records, hostnames[i].name, answers(i))
  {
    var before, last := AlignAll(z, hostnames, answers, n - 1), hostnames[n - 1];
    if i < n - 1 {
      PassConverges(z, hostnames, answers, n - 1, i);
      InLineSurvives(before, last, answers(n - 1), hostnames[i].name, answers(i));
    } else {
      AlignConverges(before, last.name, last.ttl, answers(n - 1), last.name);
    }
  }

  lemma InLineSurvives(z: Zone, h: Hostname, answers: seq<string>, other: string, expected: seq<string>)
    requires InLine(z.records, other, expected) && h.name != other
    ensures InLine(Align(z, h.name, h.ttl, answers).records, other, expected)
  {
    AlignConverges(z, h.name, h.ttl, answers, other);
  }

  ghost predicate AllInLine(records: seq<Record>, hostnames: seq<Hostname>, answers: Answers, n: nat)
    requires n <= |hostnames|
  {
    forall i :: 0 <= i < n ==> InLine(records, hostnames[i].name, answers(i))
  }

  lemma AlignInLine(z: Zone, name: string, ttl: int, answers: seq<string>)
    requires InLine(z.records, name, answers)
    ensures Align(z, name, ttl, answers) == z
  {
  }

  lemma {:induction false} AlignedZoneIsLeftAlone(z: Zone, hostnames: seq<Hostname>, answers: Answers, n: nat)
    requires n <= |hostnames| && AllInLine(z.records, hostnames, answers, n)
    ensures AlignAll(z, hostnames, answers, n) == z
  {
    if n > 0 {
      assert InLine(z.records, hostnames[n - 1].name, answers(n - 1));
      AlignedZoneIsLeftAlone(z, hostnames, answers, n - 1);
      AlignInLine(z, hostnames[n - 1].name, hostnames[n - 1].ttl, answers(n - 1));
    }
  }

  /** Repeating a pass with the same decisions changes and writes nothing. */
  lemma PassIsIdempotent(z: Zone, hostnames: seq<Hostname>, answers: Answers)
    requires DistinctNames(hostnames)
    ensures var once := AlignAll(z, hostnames, answers, |hostnames|);
            AlignAll(once, hostnames, answers, |hostnames|) == once
  {
    var n := |hostnames|;
    var once := AlignAll(z, hostnames, answers, n);
    forall i | 0 <= i < n ensures InLine(once.records, hostnames[i].name, answers(i)) {
      PassConverges(z, hostnames, answers, n, i);
    }
    AlignedZoneIsLeftAlone(once, hostnames, answers, n);
  }

  /** The records that are not address records of one of the names. */
  function Foreign(records: seq<Record>, names: set<string>): seq<Record> {
    if records == [] then []
    else if records[0].kind == ADDRESS && records[0].name in names then Foreign(records[1..], names)
    else [records[0]] + Foreign(records[1..], names)
  }

  lemma {:induction false} ForeignFromOthers(a: seq<Record>, name: string, names: set<string>)
    requires name in names
    ensures Foreign(Others(a, name), names) == Foreign(a, names)
  {
    if a != [] {
      ForeignFromOthers(a[1..], name, names);
      if !Lists(a[0], name) {
        assert Others(a, name)[1..] == Others(a[1..], name);
      }
    }
  }

  lemma SameOthersSameForeign(a: seq<Record>, b: seq<Record>, name: string, names: set<string>)
    requires name in names && Others(a, name) == Others(b, name)
    ensures Foreign(a, names) == Foreign(b, names)
  {
    ForeignFromOthers(a, name, names);
    ForeignFromOthers(b, name, names);
  }

  /** A pass leaves every record that is not an address record of one of its hostnames as it was. */
  lemma {:induction false} PassLeavesForeign(z: Zone, hostnames: seq<Hostname>, answers: Answers, n: nat, names: set<string>)
    requires n <= |hostnames|
    requires forall i :: 0 <= i < n ==> hostnames[i].name in names
    ensures Foreign(AlignAll(z, hostnames, answers, n).records, names) == Foreign(z.records, names)
  {
    if n > 0 {
      PassLeavesForeign(z, hostnames, answers, n - 1, names);
      var before := AlignAll(z, hostnames, answers, n - 1);
      var h := hostnames[n - 1];
      AlignConverges(before, h.name, h.ttl, answers(n - 1), h.name);
      SameOthersSameForeign(Align(before, h.name, h.ttl, answers(n - 1)).records, before.records, h.name, names);
    }
  }

  // ---- the DNS client and the loops that use it ----

  /** The remote zone. Each call may fail, as the schedule says for its place in the order of calls; a call that fails
      changes nothing. */
  class DnsClient {
    const faulty: nat -> bool
    var records: seq<Record>
    var nextId: nat
    var writes: nat
    var calls: nat
    var faults: nat

    constructor (records: seq<Record>, nextId: nat, faulty: nat -> bool)
      ensures State() == Zone(records, nextId, 0) && calls == 0 && faults == 0 && this.faulty == faulty
    {
      this.records, this.nextId, this.faulty, writes, calls, faults := records, nextId, faulty, 0, 0, 0;
    }

    function State(): Zone
      reads this
    {
      Zone(records, nextId, writes)
    }

    /** Count one more call, and whether it fails. */
    method Called() returns (ok: bool)
      modifies this`calls, this`faults
      ensures calls == old(calls) + 1 && ok == !faulty(old(calls))
      ensures faults == old(faults) + if ok then 0 else 1
    {
      ok := !faulty(calls);
      calls := calls + 1;
      if !ok {
        faults := faults + 1;
      }
    }

    method ListARecords(name: string) returns (ok: bool, listing: seq<Record>)
      modifies this`calls, this`faults
      ensures faults == old(faults) + if ok then 0 else 1
      ensures ok ==> listing == Named(records, name)
    {
      ok := Called();
      listing := Named(records, name);
    }

    method DeleteRecord(id: nat) returns (ok: bool)
      modifies this`records, this`writes, this`calls, this`faults
      ensures faults == old(faults) + if ok then 0 else 1
      ensures State() == if ok then Zone(Without(old(records), {id}), nextId, old(writes) + 1) else old(State())
    {
      ok := Called();
      if ok {
        records := Without(records, {id});
        writes := writes + 1;
      }
    }

    method CreateARecord(name: string, content: string, ttl: int) returns (ok: bool)
      modifies this`records, this`nextId, this`writes, this`calls, this`faults
      ensures faults == old(faults) + if ok then 0 else 1
      ensures State() == if ok then Zone(old(records) + [Record(old(nextId), name, ADDRESS, content, ttl)], old(nextId) + 1, old(writes) + 1)
                         else old(State())
    {
      ok := Called();
      if ok {
        records := records + [Record(nextId, name, ADDRESS, content, ttl)];
        nextId := nextId + 1;
        writes := writes + 1;
      }
    }
  }

  lemma {:induction false} WithoutKeepsOthers(zone: seq<Record>, ids: set<nat>, name: string)
    requires forall i :: 0 <= i < |zone| && zone[i].id in ids ==> Lists(zone[i], name)
    ensures Others(Without(zone, ids), name) == Others(zone, name)
  {
    if zone != [] {
      WithoutKeepsOthers(zone[1..], ids, name);
      if zone[0].id !in ids {
        assert Without(zone, ids)[1..] == Without(zone[1..], ids);
      }
    }
  }

  lemma {:induction false} NamedIdIsListed(zone: seq<Record>, name: string, i: nat)
    requires DistinctIds(zone) && i < |zone| && zone[i].id in Ids(Named(zone, name))
    ensures Lists(zone[i], name)
  {
    var rest := zone[1..];
    if Lists(zone[0], name) {
      assert Named(zone, name)[1..] == Named(rest, name);
    }
    HeadIsNotNamed(zone, name);
    if i > 0 && rest[i - 1].id in Ids(Named(rest, name)) {
      NamedIdIsListed(rest, name, i - 1);
    }
  }

  lemma {:induction false} IdsOfWithout(zone: seq<Record>, ids: set<nat>)
    ensures Ids(Without(zone, ids)) <= Ids(zone)
  {
    if zone != [] {
      IdsOfWithout(zone[1..], ids);
      if zone[0].id !in ids {
        assert Without(zone, ids)[1..] == Without(zone[1..], ids);
      }
    }
  }

  lemma {:induction false} WithoutStaysDistinct(zone: seq<Record>, ids: set<nat>)
    requires DistinctIds(zone)
    ensures DistinctIds(Without(zone, ids))
  {
    if zone != [] {
      var rest := Without(zone[1..], ids);
      WithoutStaysDistinct(zone[1..], ids);
      IdsOfWithout(zone[1..], ids);
      forall j | 0 <= j < |rest| ensures rest[j].id != zone[0].id {
        IdsMembers(rest, j);
        if rest[j].id == zone[0].id {
          var k := IdsSource(zone[1..], zone[0].id);
          assert false;
        }
      }
    }
  }

  lemma {:induction false} WithoutStaysBelow(zone: seq<Record>, ids: set<nat>, n: nat)
    requires IdsBelow(zone, n)
    ensures IdsBelow(Without(zone, ids), n)
  {
    if zone != [] {
      WithoutStaysBelow(zone[1..], ids, n);
    }
  }

  lemma {:induction false} CreatedSoFar(nextId: nat, name: string, answers: seq<string>, ttl: int, j: nat)
    requires j < |answers|
    ensures Created(nextId, name, answers[..j + 1], ttl)
         == Created(nextId, name, answers[..j], ttl) + [Record(nextId + j, name, ADDRESS, answers[j], ttl)]
    decreases |answers|
  {
    if j == 0 {
      assert answers[..1] == [answers[0]] && answers[..0] == [];
      assert Created(nextId + 1, name, [], ttl) == [];
      assert [answers[0]][1..] == [];
    } else {
      CreatedSoFar(nextId + 1, name, answers[1..], ttl, j - 1);
      assert answers[..j + 1][1..] == answers[1..][..j] && answers[..j][1..] == answers[1..][..j - 1];
    }
  }

  /** What a failed delete leaves of a name: the listed records from some point on. */
  ghost predicate SomeDeleted(records: seq<Record>, name: string, listing: seq<Record>) {
    exists k :: 0 <= k <= |listing| && Named(records, name) == listing[k..]
  }

  /** What a failed create leaves: the first few new records. */
  ghost predicate SomeCreated(records: seq<Record>, before: seq<Record>, nextId: nat, name: string, answers: seq<string>, ttl: int) {
    exists k :: 0 <= k < |answers| && records == before + Created(nextId, name, answers[..k], ttl)
  }

  /** Old and new records of a name never stand side by side, even when a call fails half way. */
  ghost predicate Interrupted(records: seq<Record>, before: Zone, name: string, answers: seq<string>, ttl: int) {
    || SomeDeleted(records, name, Named(before.records, name))
    || SomeCreated(records, Others(before.records, name), before.nextId, name, answers, ttl)
  }

  /** Delete the listed records one by one. */
  method DeleteListed(client: DnsClient, name: string, listing: seq<Record>) returns (ok: bool)
    requires ZoneOk(client.State()) && listing == Named(client.records, name)
    modifies client
    ensures client.nextId == old(client.nextId)
    ensures ok <==> client.faults == old(client.faults)
    ensures ZoneOk(client.State())
    ensures Others(client.records, name) == old(Others(client.records, name))
    ensures ok ==> client.records == old(Others(client.records, name)) && client.writes == old(client.writes) + |listing|
    ensures !ok ==> SomeDeleted(client.records, name, listing)
  {
    ghost var zone := client.records;
    var i := 0;
    WithoutNone(zone);
    assert listing[..0] == [];
    while i < |listing|
      invariant 0 <= i <= |listing|
      invariant client.nextId == old(client.nextId)
      invariant client.faults == old(client.faults)
      invariant client.records == Without(zone, Ids(listing[..i])) && client.writes == old(client.writes) + i
      invariant Ids(listing[..i]) <= Ids(Named(zone, name))
    {
      IdsOfPrefix(listing, i);
      IdsMembers(listing, i);
      WithoutMore(zone, Ids(listing[..i]), listing[i].id);
      var deleted := client.DeleteRecord(listing[i].id);
      if !deleted {
        PartlyDeleted(zone, client.nextId, name, Ids(listing[..i]));
        NamedAfterDeletes(zone, name, i);
        return false;
      }
      i := i + 1;
    }
    assert listing[..i] == listing;
    PartlyDeleted(zone, client.nextId, name, Ids(listing));
    WithoutNamedIsOthers(zone, name);
    ok := true;
  }

  /** After the first i listed records are deleted, the others are still listed. */
  lemma {:induction false} NamedAfterDeletes(zone: seq<Record>, name: string, i: nat)
    requires DistinctIds(zone) && i <= |Named(zone, name)|
    ensures Named(Without(zone, Ids(Named(zone, name)[..i])), name) == Named(zone, name)[i..]
  {
    if i == 0 {
      assert Named(zone, name)[..0] == [];
      WithoutNone(zone);
    } else {
      HeadIsNotNamed(zone, name);
      if Lists(zone[0], name) {
        NamedAfterDeletes(zone[1..], name, i - 1);
        DeletesFromListedHead(zone, name, i);
      } else {
        NamedAfterDeletes(zone[1..], name, i);
        IdsOfSomeFirst(Named(zone, name), i);
        NamedBehindOther(zone, name, Ids(Named(zone, name)[..i]));
      }
    }
  }

  lemma DeletesFromListedHead(zone: seq<Record>, name: string, i: nat)
    requires zone != [] && Lists(zone[0], name) && 0 < i <= |Named(zone, name)|
    requires zone[0].id !in Ids(zone[1..])
    ensures Named(zone, name)[i..] == Named(zone[1..], name)[i - 1..]
    ensures Without(zone, Ids(Named(zone, name)[..i])) == Without(zone[1..], Ids(Named(zone[1..], name)[..i - 1]))
  {
    var first := Named(zone, name)[..i];
    assert first[1..] == Named(zone[1..], name)[..i - 1];
    assert Ids(first) == Ids(first[1..]) + {zone[0].id};
    WithoutAbsent(zone[1..], Ids(first[1..]), zone[0].id);
  }

  lemma NamedBehindOther(zone: seq<Record>, name: string, ids: set<nat>)
    requires zone != [] && !Lists(zone[0], name) && zone[0].id !in ids
    ensures Named(Without(zone, ids), name) == Named(Without(zone[1..], ids), name)
  {
    assert Without(zone, ids)[1..] == Without(zone[1..], ids);
  }

  lemma HeadIsNotNamed(zone: seq<Record>, name: string)
    requires DistinctIds(zone) && zone != []
    ensures zone[0].id !in Ids(zone[1..]) && zone[0].id !in Ids(Named(zone[1..], name))
  {
    NamedIdsAreInZone(zone[1..], name);
    if zone[0].id in Ids(zone[1..]) {
      var k := IdsSource(zone[1..], zone[0].id);
      assert false;
    }
  }

  lemma {:induction false} IdsOfSomeFirst(records: seq<Record>, i: nat)
    requires i <= |records|
    ensures Ids(records[..i]) <= Ids(records)
  {
    if i > 0 {
      IdsOfSomeFirst(records[1..], i - 1);
      assert records[..i][1..] == records[1..][..i - 1];
    }
  }

  lemma PartlyDeleted(zone: seq<Record>, nextId: nat, name: string, ids: set<nat>)
    requires DistinctIds(zone) && IdsBelow(zone, nextId) && ids <= Ids(Named(zone, name))
    ensures DistinctIds(Without(zone, ids)) && IdsBelow(Without(zone, ids), nextId)
    ensures Others(Without(zone, ids), name) == Others(zone, name)
  {
    WithoutStaysDistinct(zone, ids);
    WithoutStaysBelow(zone, ids, nextId);
    forall i | 0 <= i < |zone| && zone[i].id in ids ensures Lists(zone[i], name) {
      NamedIdIsListed(zone, name, i);
    }
    WithoutKeepsOthers(zone, ids, name);
  }

  /** Create one record per answer. */
  method CreateAnswers(client: DnsClient, name: string, ttl: int, answers: seq<string>) returns (ok: bool)
    requires ZoneOk(client.State())
    modifies client
    ensures ok <==> client.faults == old(client.faults)
    ensures ZoneOk(client.State())
    ensures Others(client.records, name) == old(Others(client.records, name))
    ensures ok ==> client.State() == Zone(old(client.records) + Created(old(client.nextId), name, answers, ttl),
                                          old(client.nextId) + |answers|, old(client.writes) + |answers|)
    ensures !ok ==> SomeCreated(client.records, old(client.records), old(client.nextId), name, answers, ttl)
  {
    ghost var zone, nextId := client.records, client.nextId;
    var j := 0;
    assert answers[..0] == [] && zone + [] == zone;
    while j < |answers|
      invariant 0 <= j <= |answers|
      invariant client.faults == old(client.faults)
      invariant ZoneOk(client.State()) && client.nextId == nextId + j && client.writes == old(client.writes) + j
      invariant client.records == zone + Created(nextId, name, answers[..j], ttl)
      invariant Others(client.records, name) == Others(zone, name)
    {
      CreatedSoFar(nextId, name, answers, ttl, j);
      OthersWithNew(client.records, Record(client.nextId, name, ADDRESS, answers[j], ttl), name);
      var created := client.CreateARecord(name, answers[j], ttl);
      if !created {
        return false;
      }
      j := j + 1;
    }
    assert answers[..j] == answers;
    ok := true;
  }

  lemma OthersWithNew(zone: seq<Record>, r: Record, name: string)
    requires Lists(r, name)
    ensures Others(zone + [r], name) == Others(zone, name)
  {
    OthersOfParts(zone, [r], name);
    assert [r][1..] == [];
    assert Others([r], name) == [];
  }

  /** List, compare sorted contents, and if they differ delete everything listed, then create every answer. A pass that
      fails half way leaves what Interrupted says, and nothing else is touched. */
  method EnsureHostname(client: DnsClient, hostname: Hostname, answers: seq<string>) returns (ok: bool)
    requires ZoneOk(client.State())
    modifies client
    ensures ok <==> client.faults == old(client.faults)
    ensures ZoneOk(client.State())
    ensures Others(client.records, hostname.name) == old(Others(client.records, hostname.name))
    ensures ok ==> client.State() == Align(old(client.State()), hostname.name, hostname.ttl, answers)
    ensures !ok ==> Interrupted(client.records, old(client.State()), hostname.name, answers, hostname.ttl)
  {
    ghost var before := client.State();
    var listed, listing := client.ListARecords(hostname.name);
    if !listed {
      assert Named(before.records, hostname.name)[0..] == Named(before.records, hostname.name);
      return false;
    }
    var currentIPs := Sort(Contents(listing), StringLe);
    var desiredIPs := Sort(answers, StringLe);
    if currentIPs == desiredIPs {
      return true;
    }
    ok := Rewrite(client, hostname, answers, listing);
  }

  method Rewrite(client: DnsClient, hostname: Hostname, answers: seq<string>, listing: seq<Record>) returns (ok: bool)
    requires ZoneOk(client.State()) && listing == Named(client.records, hostname.name)
    requires !InLine(client.records, hostname.name, answers)
    modifies client
    ensures ok <==> client.faults == old(client.faults)
    ensures ZoneOk(client.State())
    ensures Others(client.records, hostname.name) == old(Others(client.records, hostname.name))
    ensures ok ==> client.State() == Align(old(client.State()), hostname.name, hostname.ttl, answers)
    ensures !ok ==> Interrupted(client.records, old(client.State()), hostname.name, answers, hostname.ttl)
  {
    OthersHaveNoneNamed(client.records, hostname.name, "");
    ok := DeleteListed(client, hostname.name, listing);
    if ok {
      ok := CreateAnswers(client, hostname.name, hostname.ttl, answers);
    }
  }

  /** The per-pass health cache after the first n turns: the first verdict of every region met so far. */
  function CacheAfter(hostnames: seq<Hostname>, o: Observed, n: nat): map<string, bool>
    requires Covers(o, hostnames) && n <= |hostnames|
  {
    if n == 0 then map[]
    else
      var cache := CacheAfter(hostnames, o, n - 1);
      if hostnames[n - 1].region in cache then cache else cache[hostnames[n - 1].region := o.probes[n - 1]]
  }

  lemma {:induction false} CacheHoldsFirstVerdicts(hostnames: seq<Hostname>, o: Observed, n: nat, region: string)
    requires Covers(o, hostnames) && n <= |hostnames|
    ensures region in CacheAfter(hostnames, o, n) <==> FirstWith(hostnames, region) < n
    ensures region in CacheAfter(hostnames, o, n) ==> CacheAfter(hostnames, o, n)[region] == o.probes[FirstWith(hostnames, region)]
  {
    if n > 0 {
      CacheHoldsFirstVerdicts(hostnames, o, n - 1, region);
    }
  }

  /** Probe the region of the n-th hostname unless this pass has done so before. */
  method Probe(hostnames: seq<Hostname>, o: Observed, cache: map<string, bool>, n: nat) returns (cache': map<string, bool>, healthy: bool)
    requires Covers(o, hostnames) && n < |hostnames| && cache == CacheAfter(hostnames, o, n)
    ensures cache' == CacheAfter(hostnames, o, n + 1)
    ensures healthy == EvaluationAt(hostnames, o, n).healthy
  {
    var region := hostnames[n].region;
    cache' := cache;
    if region !in cache {
      cache' := cache[region := o.probes[n]];
    }
    CacheHoldsFirstVerdicts(hostnames, o, n + 1, region);
    healthy := cache'[region];
  }

  /** The states and the zone after the first n hostnames of a pass without faults. The zone is stated of every number equal to n, so
      that it is looked at only where the aligned zone is mentioned. */
  ghost predicate Progress(cfg: Config, states: States, zone: Zone, o: Observed, n: nat, states': States, zone': Zone)
    requires Covers(o, cfg.hostnames)
  {
    && n <= |cfg.hostnames| && ZoneOk(zone')
    && states' == StatesAfter(cfg, states, o, n)
    && forall k: nat :: k == n ==> zone' == AlignAll(zone, cfg.hostnames, AnswersOf(cfg, states, o), k)
  }

  lemma ProgressMeans(cfg: Config, states: States, zone: Zone, o: Observed, n: nat, states': States, zone': Zone)
    requires Covers(o, cfg.hostnames) && Progress(cfg, states, zone, o, n, states', zone')
    ensures states' == StatesAfter(cfg, states, o, n) && zone' == AlignAll(zone, cfg.hostnames, AnswersOf(cfg, states, o), n)
    ensures ZoneOk(zone')
  {
  }

  /** A pass that a fault stopped at the n-th hostname: its region's state is stored, and no foreign record is touched. */
  ghost predicate Stopped(cfg: Config, states: States, zone: Zone, o: Observed, n: nat, states': States, zone': Zone) {
    && Covers(o, cfg.hostnames) && n < |cfg.hostnames|
    && states' == StatesAfter(cfg, states, o, n + 1)
    && ZoneOk(zone')
    && Foreign(zone'.records, Names(cfg.hostnames)) == Foreign(zone.records, Names(cfg.hostnames))
  }

  lemma TurnFollows(cfg: Config, states: States, zone: Zone, o: Observed, n: nat, states': States, zone': Zone)
    requires Covers(o, cfg.hostnames) && n < |cfg.hostnames|
    requires states' == StatesAfter(cfg, states, o, n) && zone' == AlignAll(zone, cfg.hostnames, AnswersOf(cfg, states, o), n)
    ensures StatesAfter(cfg, states, o, n + 1) == Turn(cfg, states', o, n)
    ensures AlignAll(zone, cfg.hostnames, AnswersOf(cfg, states, o), n + 1)
         == Align(zone', cfg.hostnames[n].name, cfg.hostnames[n].ttl, Target(cfg, states', o, n).answerIPs)
  {
  }

  /** One more turn without a fault. */
  lemma ProgressNext(cfg: Config, states: States, zone: Zone, o: Observed, n: nat, states': States, zone': Zone, states'': States, zone'': Zone)
    requires Covers(o, cfg.hostnames) && Progress(cfg, states, zone, o, n, states', zone') && n < |cfg.hostnames|
    requires states'' == Turn(cfg, states', o, n) && ZoneOk(zone'')
    requires zone'' == Align(zone', cfg.hostnames[n].name, cfg.hostnames[n].ttl, Target(cfg, states', o, n).answerIPs)
    ensures Progress(cfg, states, zone, o, n + 1, states'', zone'')
  {
    ProgressMeans(cfg, states, zone, o, n, states', zone');
    TurnFollows(cfg, states, zone, o, n, states', zone');
  }

  /** One more turn, in which a call fails. */
  lemma StoppedNext(cfg: Config, states: States, zone: Zone, o: Observed, n: nat, states': States, zone': Zone, states'': States, zone'': Zone)
    requires Covers(o, cfg.hostnames) && Progress(cfg, states, zone, o, n, states', zone') && n < |cfg.hostnames|
    requires states'' == Turn(cfg, states', o, n) && ZoneOk(zone'')
    requires Foreign(zone''.records, Names(cfg.hostnames)) == Foreign(zone'.records, Names(cfg.hostnames))
    ensures Stopped(cfg, states, zone, o, n, states'', zone'')
  {
    ProgressMeans(cfg, states, zone, o, n, states', zone');
    PassLeavesForeign(zone, cfg.hostnames, AnswersOf(cfg, states, o), n, Names(cfg.hostnames));
  }

  class Controller {
    const cfg: Config
    const client: DnsClient
    const regions: map<string, Region>
    const fallback: Region
    var state: States

    ghost predicate Valid() {
      && fallback == RegionNamed(cfg.regions, cfg.fallbackRegion)
      && forall name :: FindRegion(regions, name) == RegionNamed(cfg.regions, name)
    }

    constructor (cfg: Config, client: DnsClient)
      ensures Valid() && this.cfg == cfg && this.client == client && state == map[]
    {
      var byName: map<string, Region> := map[];
      var i := 0;
      while i < |cfg.regions|
        invariant 0 <= i <= |cfg.regions|
        invariant forall name :: FindRegion(byName, name) == RegionNamed(cfg.regions[..i], name)
      {
        assert cfg.regions[..i + 1][..i] == cfg.regions[..i];
        byName := byName[cfg.regions[i].name := cfg.regions[i]];
        i := i + 1;
      }
      assert cfg.regions[..i] == cfg.regions;
      this.cfg, this.client, this.state, this.regions := cfg, client, map[], byName;
      this.fallback := FindRegion(byName, cfg.fallbackRegion);
    }

    /** One evaluation of a region: store its new state and pick where the hostname shall point. */
    method Judge(region: string, e: Evaluation) returns (desired: Region)
      requires Valid()
      modifies this`state
      ensures state == old(state)[region := Evaluate(StateOf(old(state), region), e, cfg.windowSeconds)]
      ensures desired == RegionNamed(cfg.regions, if ServesFallback(StateOf(old(state), region), e, cfg.windowSeconds)
                                                  then cfg.fallbackRegion else region)
    {
      var s := StateOf(state, region);
      var primary := FindRegion(regions, region);
      desired := primary;
      if e.healthy {
        if s.healthySince.None? {
          s := s.(healthySince := Some(e.at));
        }
        if s.onFallback && cfg.windowSeconds > 0 && e.at - s.healthySince.value < cfg.windowSeconds * SECOND {
          desired := fallback;
        } else {
          s := s.(onFallback := false);
        }
      } else {
        s := s.(healthySince := None);
        if e.fallbackHealthy {
          desired := fallback;
          s := s.(onFallback := true);
        }
      }
      state := state[region := s];
    }

    /** One hostname's turn: probe its region once per pass, store the region's new state, bring the records in line. */
    method ReconcileHostname(o: Observed, n: nat, cache: map<string, bool>) returns (ok: bool, cache': map<string, bool>)
      requires Valid() && Covers(o, cfg.hostnames) && n < |cfg.hostnames| && cache == CacheAfter(cfg.hostnames, o, n) && ZoneOk(client.State())
      modifies this`state, client
      ensures cache' == CacheAfter(cfg.hostnames, o, n + 1)
      ensures ZoneOk(client.State())
      ensures ok <==> client.faults == old(client.faults)
      ensures state == Turn(cfg, old(state), o, n)
      ensures ok ==> client.State() == Align(old(client.State()), cfg.hostnames[n].name, cfg.hostnames[n].ttl,
                                             Target(cfg, old(state), o, n).answerIPs)
      ensures Foreign(client.records, Names(cfg.hostnames)) == old(Foreign(client.records, Names(cfg.hostnames)))
    {
      var hostname := cfg.hostnames[n];
      var healthy;
      cache', healthy := Probe(cfg.hostnames, o, cache, n);
      var desired := Judge(hostname.region, Evaluation(o.clock[n], healthy, o.fallbackHealthy));
      ghost var before := client.records;
      ok := EnsureHostname(client, hostname, desired.answerIPs);
      SameOthersSameForeign(client.records, before, hostname.name, Names(cfg.hostnames));
    }

    /** The same turn as a step of a pass that started from these states and this zone. */
    method ReconcileNext(o: Observed, n: nat, cache: map<string, bool>, ghost states: States, ghost zone: Zone)
      returns (ok: bool, cache': map<string, bool>)
      requires Valid() && n < |cfg.hostnames| && Covers(o, cfg.hostnames) && Progress(cfg, states, zone, o, n, state, client.State())
      requires cache == CacheAfter(cfg.hostnames, o, n)
      modifies this`state, client
      ensures cache' == CacheAfter(cfg.hostnames, o, n + 1)
      ensures ok <==> client.faults == old(client.faults)
      ensures if ok then Progress(cfg, states, zone, o, n + 1, state, client.State())
              else Stopped(cfg, states, zone, o, n, state, client.State())
    {
      ghost var states', zone' := state, client.State();
      ProgressMeans(cfg, states, zone, o, n, states', zone');
      ok, cache' := ReconcileHostname(o, n, cache);
      if ok {
        ProgressNext(cfg, states, zone, o, n, states', zone', state, client.State());
      } else {
        StoppedNext(cfg, states, zone, o, n, states', zone', state, client.State());
      }
    }

    /** One pass. `done` counts the hostnames brought in line; a failing DNS call ends the pass at the next one, after
        its region's state has been stored. */
    method Reconcile(o: Observed) returns (ok: bool, done: nat)
      requires Valid() && Covers(o, cfg.hostnames) && ZoneOk(client.State())
      modifies this`state, client
      ensures ok <==> client.faults == old(client.faults)
      ensures if ok then Progress(cfg, old(state), old(client.State()), o, |cfg.hostnames|, state, client.State())
              else Stopped(cfg, old(state), old(client.State()), o, done, state, client.State())
    {
      var regionHealth: map<string, bool> := map[];
      ghost var states, zone := state, client.State();
      done := 0;
      while done < |cfg.hostnames|
        invariant done <= |cfg.hostnames|
        invariant client.faults == old(client.faults)
        invariant regionHealth == CacheAfter(cfg.hostnames, o, done)
        invariant Progress(cfg, states, zone, o, done, state, client.State())
      {
        ok, regionHealth := ReconcileNext(o, done, regionHealth, states, zone);
        if !ok {
          return false, done;
        }
        done := done + 1;
      }
      return true, done;
    }
  }

  function Names(hostnames: seq<Hostname>): set<string> {
    set i | 0 <= i < |hostnames| :: hostnames[i].name
  }

  lemma ContentsAfterPass(z: Zone, hostnames: seq<Hostname>, answers: Answers, i: nat)
    requires DistinctNames(hostnames) && i < |hostnames|
    ensures multiset(Contents(Named(AlignAll(z, hostnames, answers, |hostnames|).records, hostnames[i].name))) == multiset(answers(i))
  {
    PassConverges(z, hostnames, answers, |hostnames|, i);
    InLineIff(AlignAll(z, hostnames, answers, |hostnames|).records, hostnames[i].name, answers(i));
  }

  /** A pass without faults keeps ids distinct, leaves records that are not address records of its hostnames alone, and
      gives each hostname exactly the answers of the region chosen at its turn. */
  lemma PassOutcome(cfg: Config, states: States, zone: Zone, o: Observed, states': States, zone': Zone, i: nat)
    requires Covers(o, cfg.hostnames) && Progress(cfg, states, zone, o, |cfg.hostnames|, states', zone')
    requires DistinctNames(cfg.hostnames) && i < |cfg.hostnames|
    ensures multiset(Contents(Named(zone'.records, cfg.hostnames[i].name))) == multiset(Chosen(cfg, states, o, i).answerIPs)
    ensures Foreign(zone'.records, Names(cfg.hostnames)) == Foreign(zone.records, Names(cfg.hostnames))
  {
    ProgressMeans(cfg, states, zone, o, |cfg.hostnames|, states', zone');
    ContentsAfterPass(zone, cfg.hostnames, AnswersOf(cfg, states, o), i);
    PassLeavesForeign(zone, cfg.hostnames, AnswersOf(cfg, states, o), |cfg.hostnames|, Names(cfg.hostnames));
  }

  /** A hostname's records after its turn: as they were if they were in line, and otherwise one address record per answer, in the order
      of the answers and with the hostname's own TTL. */
  ghost predicate Rewritten(before: seq<Record>, after: seq<Record>, h: Hostname, answers: seq<string>) {
    if InLine(before, h.name, answers) then Named(after, h.name) == Named(before, h.name)
    else |Named(after, h.name)| == |answers|
         && forall k :: 0 <= k < |answers| ==>
              var r := Named(after, h.name)[k];
              r.name == h.name && r.kind == "A" && r.content == answers[k] && r.ttl == h.ttl
  }

  /** So it is for each of them after a pass without faults. */
  lemma {:induction false} RecordsAfterPass(z: Zone, hostnames: seq<Hostname>, answers: Answers, n: nat, i: nat)
    requires DistinctNames(hostnames) && i < n <= |hostnames|
    ensures Rewritten(z.records, AlignAll(z, hostnames, answers, n).records, hostnames[i], answers(i))
  {
    var before, last := AlignAll(z, hostnames, answers, n - 1), hostnames[n - 1];
    if i < n - 1 {
      RecordsAfterPass(z, hostnames, answers, n - 1, i);
      OtherTurn(before, last, answers(n - 1), hostnames[i].name);
      SameNamedRewritten(z.records, z.records, before.records, Align(before, last.name, last.ttl, answers(n - 1)).records, hostnames[i], answers(i));
    } else {
      OwnRecordsUntil(z, hostnames, answers, i, i);
      RecordsAfterTurn(before, last, answers(i));
      var after := Align(before, last.name, last.ttl, answers(i)).records;
      SameNamedRewritten(before.records, z.records, after, after, last, answers(i));
    }
  }

  /** Only the name's own records matter. */
  lemma SameNamedRewritten(a: seq<Record>, b: seq<Record>, c: seq<Record>, d: seq<Record>, h: Hostname, answers: seq<string>)
    requires Named(a, h.name) == Named(b, h.name) && Named(c, h.name) == Named(d, h.name) && Rewritten(a, c, h, answers)
    ensures Rewritten(b, d, h, answers)
  {
  }

  lemma {:induction false} OwnRecordsUntil(z: Zone, hostnames: seq<Hostname>, answers: Answers, n: nat, i: nat)
    requires DistinctNames(hostnames) && n <= i < |hostnames|
    ensures Named(AlignAll(z, hostnames, answers, n).records, hostnames[i].name) == Named(z.records, hostnames[i].name)
  {
    if n > 0 {
      OwnRecordsUntil(z, hostnames, answers, n - 1, i);
      OtherTurn(AlignAll(z, hostnames, answers, n - 1), hostnames[n - 1], answers(n - 1), hostnames[i].name);
    }
  }

  lemma OtherTurn(z: Zone, h: Hostname, answers: seq<string>, other: string)
    requires h.name != other
    ensures Named(Align(z, h.name, h.ttl, answers).records, other) == Named(z.records, other)
  {
    AlignConverges(z, h.name, h.ttl, answers, other);
  }

  lemma RecordsAfterTurn(z: Zone, h: Hostname, answers: seq<string>)
    ensures Rewritten(z.records, Align(z, h.name, h.ttl, answers).records, h, answers)
  {
    if !InLine(z.records, h.name, answers) {
      NamedAfterRewrite(z, h.name, h.ttl, answers);
      forall k | 0 <= k < |answers|
        ensures Named(Align(z, h.name, h.ttl, answers).records, h.name)[k] == Record(z.nextId + k, h.name, ADDRESS, answers[k], h.ttl)
      {
        AlignedRecords(z, h.name, h.ttl, answers, k);
      }
    }
  }

  lemma NamedAfterRewrite(z: Zone, name: string, ttl: int, answers: seq<string>)
    requires !InLine(z.records, name, answers)
    ensures |Named(Align(z, name, ttl, answers).records, name)| == |answers|
  {
    NamedOfParts(Others(z.records, name), Created(z.nextId, name, answers, ttl), name);
    OthersHaveNoneNamed(z.records, name, "");
    CreatedIsNamed(z.nextId, name, answers, ttl, "");
  }
}
