/** The per-port translation chain of a backend node, rebuilt from a map of destinations. */
module NodeDnat {
  import opened Wrappers
  import opened Sorting

  /** Go's int, the key type of the destinations map. */
  newtype Port = x: int | -0x8000_0000_0000_0000 <= x < 0x8000_0000_0000_0000

  datatype Destination = Destination(ip: string, port: Port)

  predicate PortLe(a: Port, b: Port) { a <= b }

  lemma PortLeIsTotal()
    ensures TotalOrder(PortLe)
  {
  }

  /** "iifname <iface> tcp dport <port> dnat to <destination>". */
  datatype Rule = Rule(iface: string, port: Port, target: Destination)

  predicate Matches(rule: Rule, iface: string, port: Port) {
    rule.iface == iface && rule.port == port
  }

  /** How the kernel evaluates a chain: the first matching rule decides. */
  function FirstMatch(chain: seq<Rule>, iface: string, port: Port): Option<Destination> {
    if chain == [] then None
    else if Matches(chain[0], iface, port) then Some(chain[0].target)
    else FirstMatch(chain[1..], iface, port)
  }

  function Lookup(destinations: map<Port, Destination>, port: Port): Option<Destination> {
    if port in destinations then Some(destinations[port]) else None
  }

  function RulesFor(iface: string, ports: seq<Port>, destinations: map<Port, Destination>): (rules: seq<Rule>)
    requires forall p :: p in ports ==> p in destinations
    ensures |rules| == |ports|
    ensures forall i :: 0 <= i < |ports| ==> rules[i] == Rule(iface, ports[i], destinations[ports[i]])
  {
    if ports == [] then []
    else [Rule(iface, ports[0], destinations[ports[0]])] + RulesFor(iface, ports[1..], destinations)
  }

  /** The keys of the map, each once, in ascending order. */
  ghost predicate SortedKeys(ports: seq<Port>, destinations: map<Port, Destination>) {
    Ascending(ports, PortLe) && multiset(ports) == multiset(destinations.Keys)
  }

  lemma SortedKeysMembers(ports: seq<Port>, destinations: map<Port, Destination>)
    requires SortedKeys(ports, destinations)
    ensures forall p :: p in ports <==> p in destinations
    ensures forall i, j :: 0 <= i < j < |ports| ==> ports[i] != ports[j]
  {
    assert forall p :: p in ports <==> p in multiset(ports);
    forall i, j | 0 <= i < j < |ports| ensures ports[i] != ports[j] {
      assert ports == ports[..j] + ports[j..];
      assert ports[..j][i] == ports[i] && ports[j..][0] == ports[j];
      assert multiset(ports[..j])[ports[i]] >= 1 && multiset(ports[j..])[ports[j]] >= 1;
      assert multiset(ports)[ports[i]] <= 1;
    }
  }

  lemma {:induction false} PortsCanBeSorted(keys: set<Port>) returns (ports: seq<Port>)
    ensures Ascending(ports, PortLe) && multiset(ports) == multiset(keys)
  {
    PortLeIsTotal();
    if keys == {} {
      ports := [];
    } else {
      var k :| k in keys;
      var rest := PortsCanBeSorted(keys - {k});
      ports := Insert(k, rest, PortLe);
      InsertPermutes(k, rest, PortLe);
      InsertAscends(k, rest, PortLe);
      assert multiset(keys) == multiset(keys - {k}) + multiset{k};
    }
  }

  ghost function PortsOf(destinations: map<Port, Destination>): (ports: seq<Port>)
    ensures SortedKeys(ports, destinations)
    ensures forall p :: p in ports <==> p in destinations
  {
    assert exists ports :: SortedKeys(ports, destinations) by {
      var ports := PortsCanBeSorted(destinations.Keys);
      assert SortedKeys(ports, destinations);
    }
    var ports :| SortedKeys(ports, destinations);
    SortedKeysMembers(ports, destinations);
    ports
  }

  /** The whole chain for a map of destinations. */
  ghost function Rules(iface: string, destinations: map<Port, Destination>): seq<Rule> {
    RulesFor(iface, PortsOf(destinations), destinations)
  }

  /** The setup commands before the rules: the table, the chain, and flushing the chain. */
  const SETUP_COMMANDS: nat := 3

  /** Rebuilding a chain when the given command is the first that fails, if any does. A failed command changes nothing
      and ends the rebuild. */
  ghost function Rebuild(chain: seq<Rule>, iface: string, destinations: map<Port, Destination>, failing: Option<nat>): (seq<Rule>, bool) {
    var rules := Rules(iface, destinations);
    match failing
    case None => (rules, true)
    case Some(k) =>
      if k < SETUP_COMMANDS then (chain, false)
      else if k < SETUP_COMMANDS + |rules| then (rules[..k - SETUP_COMMANDS], false)
      else (rules, true)
  }

  class NodeDNATManager {
    var chain: seq<Rule>

    constructor (chain: seq<Rule>)
      ensures this.chain == chain
    {
      this.chain := chain;
    }

    /** Collect and sort the ports. */
    method SortedPorts(destinations: map<Port, Destination>) returns (ports: seq<Port>)
      ensures ports == PortsOf(destinations)
    {
      var unsorted: seq<Port> := [];
      var rest := destinations.Keys;
      while rest != {}
        invariant rest <= destinations.Keys
        invariant multiset(unsorted) + multiset(rest) == multiset(destinations.Keys)
        decreases |rest|
      {
        var port :| port in rest;
        unsorted := unsorted + [port];
        rest := rest - {port};
      }
      ports := Sort(unsorted, PortLe);
      PortLeIsTotal();
      SortIsAscendingPermutation(unsorted, PortLe);
      AscendingIsUnique(ports, PortsOf(destinations), PortLe);
    }

    /** Runs the commands one by one. */
    method EnsureDestinations(iface: string, destinations: map<Port, Destination>, failing: Option<nat>) returns (ok: bool)
      modifies this
      ensures (chain, ok) == Rebuild(old(chain), iface, destinations, failing)
    {
      var ports := SortedPorts(destinations);
      if failing.Some? && failing.value < SETUP_COMMANDS {
        return false;
      }
      chain := [];
      ok := AddRules(iface, ports, destinations, failing);
      ghost var rules := Rules(iface, destinations);
      assert rules[..|ports|] == rules;
    }

    /** One "add rule" command per port. */
    method AddRules(iface: string, ports: seq<Port>, destinations: map<Port, Destination>, failing: Option<nat>) returns (ok: bool)
      requires chain == [] && forall i :: 0 <= i < |ports| ==> ports[i] in destinations
      requires failing.Some? ==> failing.value >= SETUP_COMMANDS
      modifies this
      ensures ok <==> failing.None? || failing.value >= SETUP_COMMANDS + |ports|
      ensures chain == RulesFor(iface, ports, destinations)[..if ok then |ports| else failing.value - SETUP_COMMANDS]
    {
      ghost var rules := RulesFor(iface, ports, destinations);
      var i := 0;
      while i < |ports|
        invariant 0 <= i <= |ports|
        invariant chain == rules[..i]
        invariant failing.Some? ==> failing.value >= SETUP_COMMANDS + i
      {
        if failing.Some? && failing.value == SETUP_COMMANDS + i {
          return false;
        }
        assert rules[..i + 1] == rules[..i] + [rules[i]];
        chain := chain + [Rule(iface, ports[i], destinations[ports[i]])];
        i := i + 1;
      }
      ok := true;
    }
  }

  lemma {:induction false} FirstMatchOfDistinct(chain: seq<Rule>, iface: string, port: Port, k: nat)
    requires k < |chain| && Matches(chain[k], iface, port)
    requires forall i :: 0 <= i < k ==> !Matches(chain[i], iface, port)
    ensures FirstMatch(chain, iface, port) == Some(chain[k].target)
  {
    if k > 0 {
      FirstMatchOfDistinct(chain[1..], iface, port, k - 1);
    }
  }

  lemma {:induction false} NoMatch(chain: seq<Rule>, iface: string, port: Port)
    requires forall i :: 0 <= i < |chain| ==> !Matches(chain[i], iface, port)
    ensures FirstMatch(chain, iface, port) == None
  {
    if chain != [] {
      NoMatch(chain[1..], iface, port);
    }
  }

  lemma PrefixTranslates(iface: string, destinations: map<Port, Destination>, n: nat, from: string, port: Port)
    requires n <= |Rules(iface, destinations)|
    ensures FirstMatch(Rules(iface, destinations)[..n], from, port)
         == if from == iface && port in PortsOf(destinations)[..n] then Lookup(destinations, port) else None
  {
    var ports := PortsOf(destinations);
    SortedKeysMembers(ports, destinations);
    var chain := Rules(iface, destinations)[..n];
    if from == iface && port in ports[..n] {
      var k :| 0 <= k < n && ports[k] == port;
      FirstMatchOfDistinct(chain, from, port, k);
    } else {
      forall i | 0 <= i < |chain| ensures !Matches(chain[i], from, port) {
        assert chain[i].port == ports[..n][i];
      }
      NoMatch(chain, from, port);
    }
  }

  /** Whatever the chain held before, after a rebuild that succeeds it translates on the interface exactly as the map
      says and nothing elsewhere. */
  lemma RebuiltChainIsLookup(chain: seq<Rule>, iface: string, destinations: map<Port, Destination>, failing: Option<nat>, from: string, port: Port)
    requires Rebuild(chain, iface, destinations, failing).1
    ensures FirstMatch(Rebuild(chain, iface, destinations, failing).0, from, port)
         == if from == iface then Lookup(destinations, port) else None
  {
    var rules := Rules(iface, destinations);
    PrefixTranslates(iface, destinations, |rules|, from, port);
    assert rules[..|rules|] == rules && PortsOf(destinations)[..|rules|] == PortsOf(destinations);
  }

  /** After a rule command fails, the chain translates exactly the smallest ports, as many as there were rules before
      the failure, each as the map says; before the flush it is untouched. */
  lemma BrokenRebuildIsPartialLookup(chain: seq<Rule>, iface: string, destinations: map<Port, Destination>, k: nat, from: string, port: Port)
    requires !Rebuild(chain, iface, destinations, Some(k)).1
    ensures k < SETUP_COMMANDS + |destinations|
    ensures k < SETUP_COMMANDS ==> Rebuild(chain, iface, destinations, Some(k)).0 == chain
    ensures k >= SETUP_COMMANDS ==>
              FirstMatch(Rebuild(chain, iface, destinations, Some(k)).0, from, port)
              == if from == iface && port in destinations && |set p | p in destinations && p < port| < k - SETUP_COMMANDS
                 then Some(destinations[port]) else None
  {
    var ports := PortsOf(destinations);
    assert |ports| == |multiset(ports)| == |multiset(destinations.Keys)| == |destinations|;
    if k >= SETUP_COMMANDS {
      PrefixTranslates(iface, destinations, k - SETUP_COMMANDS, from, port);
      if port in destinations {
        RankIsIndex(ports, destinations, port, k - SETUP_COMMANDS);
      }
    }
  }

  lemma {:induction false} FirstSet(ports: seq<Port>, i: nat)
    requires i <= |ports| && forall a, b :: 0 <= a < b < |ports| ==> ports[a] != ports[b]
    ensures |set p | p in ports[..i]| == i
  {
    if i > 0 {
      FirstSet(ports, i - 1);
      var front := ports[..i - 1];
      assert ports[..i] == front + [ports[i - 1]];
      assert (set p | p in ports[..i]) == (set p | p in front) + {ports[i - 1]};
      assert ports[i - 1] !in front;
    }
  }

  /** A port's place in the sorted list is the number of smaller ports. */
  lemma RankIsIndex(ports: seq<Port>, destinations: map<Port, Destination>, port: Port, n: nat)
    requires SortedKeys(ports, destinations) && port in destinations && n <= |ports|
    ensures port in ports[..n] <==> |set p | p in destinations && p < port| < n
  {
    SortedKeysMembers(ports, destinations);
    assert port in ports;
    var i :| 0 <= i < |ports| && ports[i] == port;
    forall p ensures p in destinations && p < port <==> p in ports[..i] {
      if p in destinations {
        assert p in ports;
        var j :| 0 <= j < |ports| && ports[j] == p;
        if j < i {
          assert PortLe(ports[j], ports[i]) && ports[..i][j] == p;
        } else if j > i {
          assert PortLe(ports[i], ports[j]);
        }
      }
    }
    assert (set p | p in destinations && p < port) == (set p | p in ports[..i]);
    FirstSet(ports, i);
    if i < n {
      assert ports[..n][i] == port;
    }
  }

  /** A rebuild succeeds exactly when none of its commands fails: table, chain, flush, and one rule for each destination. */
  lemma RebuildSucceedsIff(chain: seq<Rule>, iface: string, destinations: map<Port, Destination>, failing: Option<nat>)
    ensures Rebuild(chain, iface, destinations, failing).1 <==> failing.None? || failing.value >= 3 + |destinations|
  {
    var ports := PortsOf(destinations);
    assert |ports| == |multiset(ports)| == |multiset(destinations.Keys)| == |destinations|;
  }
}
