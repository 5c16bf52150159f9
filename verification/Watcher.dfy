/** The watcher's memory of banned-ips.json files, and what it promotes when one of them changes. */
module Watcher {
  import opened Wrappers
  import opened Redis
  import opened Assignment
  import opened Identity
  import opened Promotion

  /** Reading one banned-ips.json: the file is gone, cannot be read or decoded, or lists these addresses. */
  datatype FileRead = Missing | Broken(message: string) | Listing(ips: seq<string>)

  type Snapshots = map<string, set<string>>

  function Addresses(ips: seq<string>): set<string> {
    set ip | ip in ips
  }

  /** The listed addresses that the snapshot does not know, in file order. */
  function NewEntries(known: set<string>, ips: seq<string>): (entries: seq<string>)
    ensures forall ip :: ip in entries <==> ip in ips && ip !in known
  {
    if ips == [] then []
    else if ips[0] in known then NewEntries(known, ips[1..])
    else [ips[0]] + NewEntries(known, ips[1..])
  }

  lemma {:induction false} NewEntriesAppend(known: set<string>, ips: seq<string>, ip: string)
    ensures NewEntries(known, ips + [ip]) == NewEntries(known, ips) + if ip in known then [] else [ip]
    ensures Addresses(ips + [ip]) == Addresses(ips) + {ip}
  {
    if ips != [] {
      NewEntriesAppend(known, ips[1..], ip);
      assert (ips + [ip])[1..] == ips[1..] + [ip];
    }
  }

  function Known(snapshots: Snapshots, dir: string): set<string> {
    if dir in snapshots then snapshots[dir] else {}
  }

  // ---- promotion without interference, as one process runs it ----

  const QUIET: Turn := Turn([], false)

  function ReserveQuietly(db: Db, realIp: string, ids: seq<string>, subnets: map<string, string>, ttl: int): Outcome
  {
    ReserveEach(db, realIp, ids, subnets, ttl, seq(|ids|, _ => QUIET))
  }

  ghost function Promote(db: Db, banned: string, subnets: map<string, string>, ttl: int): Outcome {
    match Get(db, banned)
    case None => Outcome(db, Err("lookup reverse mapping"))
    case Some(source) =>
      var ids := SortedIds(subnets.Keys);
      ReserveQuietly(db, source.realIp, ids, subnets, ttl)
  }

  lemma QuietCall(db: Db, realIp: string, ids: seq<string>, subnets: map<string, string>, ttl: int)
    requires ids != []
    ensures ReserveQuietly(db, realIp, ids, subnets, ttl) ==
            match NumOf(subnets, ids[0])
            case Err(m) => Outcome(db, Err(m))
            case Ok(num) =>
              var (after, internalIp) := AssignScript(db, realIp, ids[0], num, ttl, true);
              var rest := ReserveQuietly(after, realIp, ids[1..], subnets, ttl);
              rest.(reply := Join(map[ids[0] := internalIp], rest.reply))
  {
    assert Run(db, QUIET.others) == db;
    assert seq(|ids|, _ => QUIET)[1..] == seq(|ids[1..]|, _ => QUIET);
  }

  lemma JoinOne(out: map<string, string>, id: string, internalIp: string, rest: Result<map<string, string>>)
    ensures Join(out, Join(map[id := internalIp], rest)) == Join(out[id := internalIp], rest)
  {
    if rest.Ok? {
      assert out + (map[id := internalIp] + rest.value) == out[id := internalIp] + rest.value;
    }
  }

  /** What is done so far, joined with reserving for the remaining ids, is the whole. */
  ghost predicate Remains(whole: Outcome, db: Db, realIp: string, ids: seq<string>, subnets: map<string, string>, ttl: int, out: map<string, string>) {
    var rest := ReserveQuietly(db, realIp, ids, subnets, ttl);
    whole == rest.(reply := Join(out, rest.reply))
  }

  lemma RemainsAtStart(db: Db, realIp: string, ids: seq<string>, subnets: map<string, string>, ttl: int)
    ensures Remains(ReserveQuietly(db, realIp, ids, subnets, ttl), db, realIp, ids, subnets, ttl, map[])
  {
    var whole := ReserveQuietly(db, realIp, ids, subnets, ttl);
    if whole.reply.Ok? {
      assert map[] + whole.reply.value == whole.reply.value;
    }
  }

  lemma RemainsNext(whole: Outcome, db: Db, realIp: string, ids: seq<string>, subnets: map<string, string>, ttl: int, out: map<string, string>)
    requires ids != [] && Remains(whole, db, realIp, ids, subnets, ttl, out)
    ensures match NumOf(subnets, ids[0])
            case Err(m) => whole == Outcome(db, Err(m))
            case Ok(num) =>
              var (after, internalIp) := AssignScript(db, realIp, ids[0], num, ttl, true);
              Remains(whole, after, realIp, ids[1..], subnets, ttl, out[ids[0] := internalIp])
  {
    QuietCall(db, realIp, ids, subnets, ttl);
    var num := NumOf(subnets, ids[0]);
    if num.Ok? {
      var (after, internalIp) := AssignScript(db, realIp, ids[0], num.value, ttl, true);
      JoinOne(out, ids[0], internalIp, ReserveQuietly(after, realIp, ids[1..], subnets, ttl).reply);
    }
  }

  lemma RemainsAtEnd(whole: Outcome, db: Db, realIp: string, subnets: map<string, string>, ttl: int, out: map<string, string>)
    requires Remains(whole, db, realIp, [], subnets, ttl, out)
    ensures whole == Outcome(db, Ok(out))
  {
    assert out + map[] == out;
  }

  ghost function PromoteAll(db: Db, entries: seq<string>, subnets: map<string, string>, ttl: int): Db
    decreases |entries|
  {
    if entries == [] then db else PromoteAll(Promote(db, entries[0], subnets, ttl).db, entries[1..], subnets, ttl)
  }

  // ---- whom a ban promotes ----

  /** Some proxy is registered and every registered subnet has a number. */
  predicate Usable(subnets: map<string, string>) {
    subnets != map[] && forall id :: id in subnets ==> NumOf(subnets, id).Ok?
  }

  /** What a reservation touches outside its own player: nothing that is stored under another real address, and no reserved mark. */
  ghost predicate TouchesOnly(db: Db, after: Db, realIp: string) {
    && (forall r :: r != realIp ==> (r in after.maps <==> r in db.maps) && (r in db.maps ==> after.maps[r] == db.maps[r]))
    && (forall r :: r != realIp ==> (r in after.reserved <==> r in db.reserved))
    && (realIp in db.reserved ==> realIp in after.reserved)
    && after.now == db.now
  }

  lemma CallTouchesOnly(db: Db, call: Event)
    requires call.Assign?
    ensures TouchesOnly(db, Step(db, call), call.realIp)
  {
    ScriptTouchesTwoKeys(db, call);
  }

  lemma {:induction false} QuietTouchesOnly(db: Db, realIp: string, ids: seq<string>, subnets: map<string, string>, ttl: int)
    ensures TouchesOnly(db, ReserveQuietly(db, realIp, ids, subnets, ttl).db, realIp)
    decreases |ids|
  {
    if ids != [] {
      QuietCall(db, realIp, ids, subnets, ttl);
      if NumOf(subnets, ids[0]).Ok? {
        var call := ReserveCall(realIp, ids[0], NumOf(subnets, ids[0]).value, ttl);
        CallTouchesOnly(db, call);
        QuietTouchesOnly(Step(db, call), realIp, ids[1..], subnets, ttl);
      }
    }
  }

  lemma {:induction false} QuietSucceedsIff(ids: seq<string>, subnets: map<string, string>)
    ensures FirstFailure(ids, subnets, seq(|ids|, _ => QUIET)) == |ids| <==> forall i :: 0 <= i < |ids| ==> NumOf(subnets, ids[i]).Ok?
    decreases |ids|
  {
    if ids != [] {
      QuietSucceedsIff(ids[1..], subnets);
      assert seq(|ids|, _ => QUIET)[1..] == seq(|ids[1..]|, _ => QUIET);
      assert forall i :: 0 <= i < |ids[1..]| ==> ids[1..][i] == ids[i + 1];
    }
  }

  /** A banned address whose reverse mapping is gone promotes nobody. */
  lemma UnknownBanPromotesNobody(db: Db, banned: string, subnets: map<string, string>, ttl: int)
    requires Get(db, banned) == None
    ensures Promote(db, banned, subnets, ttl).db == db && Promote(db, banned, subnets, ttl).reply.Err?
  {
  }

  /** Reserving for a list of proxies, undisturbed. */
  lemma QuietOutcome(db: Db, realIp: string, ids: seq<string>, subnets: map<string, string>, ttl: int)
    ensures var Outcome(after, reply) := ReserveQuietly(db, realIp, ids, subnets, ttl);
            && (reply.Ok? <==> forall i :: 0 <= i < |ids| ==> NumOf(subnets, ids[i]).Ok?)
            && (reply.Ok? ==>
                  && reply.value.Keys == (set id | id in ids)
                  && (ids != [] ==> Reserved(after, realIp))
                  && forall id :: id in ids ==> HGet(after, realIp, id) == Some(reply.value[id]))
  {
    var turns := seq(|ids|, _ => QUIET);
    QuietSucceedsIff(ids, subnets);
    PromotionIsPrefix(db, realIp, ids, subnets, ttl, turns);
    if ReserveEach(db, realIp, ids, subnets, ttl, turns).reply.Ok? {
      ReportedIsStored(db, realIp, ids, subnets, ttl, turns);
      SuccessParses(db, realIp, ids, subnets, ttl, turns);
    }
  }

  /** A banned address promotes the player it names, and nobody else: if the registry is usable he is reserved, every registered
      proxy holds for him the address reported for it, and nothing stored for other players changes. The promotion fails exactly
      when some registered subnet has no number. */
  lemma BanPromotesThePlayerItNames(db: Db, banned: string, source: Reverse, subnets: map<string, string>, ttl: int)
    requires Get(db, banned) == Some(source)
    ensures var Outcome(after, reply) := Promote(db, banned, subnets, ttl);
            && TouchesOnly(db, after, source.realIp)
            && (reply.Ok? <==> forall id :: id in subnets ==> NumOf(subnets, id).Ok?)
            && (reply.Ok? ==>
                  && reply.value.Keys == subnets.Keys
                  && (subnets != map[] ==> Reserved(after, source.realIp))
                  && forall id :: id in subnets ==> HGet(after, source.realIp, id) == Some(reply.value[id]))
  {
    var ids := SortedIds(subnets.Keys);
    QuietTouchesOnly(db, source.realIp, ids, subnets, ttl);
    QuietOutcome(db, source.realIp, ids, subnets, ttl);
    AllOfKeys(ids, subnets);
  }

  lemma AllOfKeys(ids: seq<string>, subnets: map<string, string>)
    requires forall id :: id in ids <==> id in subnets
    ensures (forall i :: 0 <= i < |ids| ==> NumOf(subnets, ids[i]).Ok?) <==> forall id :: id in subnets ==> NumOf(subnets, id).Ok?
    ensures (set id | id in ids) == subnets.Keys
    ensures subnets != map[] ==> ids != []
  {
    assert forall i :: 0 <= i < |ids| ==> ids[i] in subnets;
    if subnets != map[] {
      var id :| id in subnets;
      assert id in ids;
    }
  }

  /** The database when the k-th entry has its turn. */
  ghost function AtTurn(db: Db, entries: seq<string>, k: nat, subnets: map<string, string>, ttl: int): Db
    requires k <= |entries|
  {
    if k == 0 then db else Promote(AtTurn(db, entries, k - 1, subnets, ttl), entries[k - 1], subnets, ttl).db
  }

  lemma {:induction false} TurnsFromSecond(db: Db, entries: seq<string>, k: nat, subnets: map<string, string>, ttl: int)
    requires 1 <= k <= |entries|
    ensures AtTurn(db, entries, k, subnets, ttl) == AtTurn(Promote(db, entries[0], subnets, ttl).db, entries[1..], k - 1, subnets, ttl)
  {
    if k > 1 {
      TurnsFromSecond(db, entries, k - 1, subnets, ttl);
    }
  }

  lemma {:induction false} AllHaveTheirTurn(db: Db, entries: seq<string>, subnets: map<string, string>, ttl: int)
    ensures PromoteAll(db, entries, subnets, ttl) == AtTurn(db, entries, |entries|, subnets, ttl)
    decreases |entries|
  {
    if entries != [] {
      AllHaveTheirTurn(Promote(db, entries[0], subnets, ttl).db, entries[1..], subnets, ttl);
      TurnsFromSecond(db, entries, |entries|, subnets, ttl);
    }
  }

  /** A promotion keeps every reservation, with its addresses. */
  lemma PromotionKeepsReserved(db: Db, banned: string, subnets: map<string, string>, ttl: int, realIp: string)
    requires Reserved(db, realIp)
    ensures var after := Promote(db, banned, subnets, ttl).db;
            Reserved(after, realIp) && forall p :: p in db.maps[realIp].fields ==> HGet(after, realIp, p) == HGet(db, realIp, p)
  {
    if Get(db, banned).Some? {
      QuietKeepsReserved(db, Get(db, banned).value.realIp, SortedIds(subnets.Keys), subnets, ttl, realIp);
    }
  }

  lemma {:induction false} QuietKeepsReserved(db: Db, player: string, ids: seq<string>, subnets: map<string, string>, ttl: int, realIp: string)
    requires Reserved(db, realIp)
    ensures var after := ReserveQuietly(db, player, ids, subnets, ttl).db;
            Reserved(after, realIp) && forall p :: p in db.maps[realIp].fields ==> HGet(after, realIp, p) == HGet(db, realIp, p)
    decreases |ids|
  {
    if ids != [] {
      QuietCall(db, player, ids, subnets, ttl);
      if NumOf(subnets, ids[0]).Ok? {
        var call := ReserveCall(player, ids[0], NumOf(subnets, ids[0]).value, ttl);
        var next := Step(db, call);
        ReservedAfterStep(db, call, realIp);
        QuietKeepsReserved(next, player, ids[1..], subnets, ttl, realIp);
        var after := ReserveQuietly(next, player, ids[1..], subnets, ttl).db;
        forall p | p in db.maps[realIp].fields ensures HGet(after, realIp, p) == HGet(db, realIp, p) {
          assert HGet(next, realIp, p) == HGet(db, realIp, p) && p in next.maps[realIp].fields;
        }
      }
    }
  }

  lemma {:induction false} StaysPromoted(db: Db, entries: seq<string>, k: nat, n: nat, subnets: map<string, string>, ttl: int, realIp: string)
    requires k <= n <= |entries| && Reserved(AtTurn(db, entries, k, subnets, ttl), realIp)
    ensures Reserved(AtTurn(db, entries, n, subnets, ttl), realIp)
    ensures forall p :: p in AtTurn(db, entries, k, subnets, ttl).maps[realIp].fields ==>
              HGet(AtTurn(db, entries, n, subnets, ttl), realIp, p) == HGet(AtTurn(db, entries, k, subnets, ttl), realIp, p)
  {
    if n > k {
      StaysPromoted(db, entries, k, n - 1, subnets, ttl, realIp);
      var first, before := AtTurn(db, entries, k, subnets, ttl), AtTurn(db, entries, n - 1, subnets, ttl);
      PromotionKeepsReserved(before, entries[n - 1], subnets, ttl, realIp);
      forall p | p in first.maps[realIp].fields
        ensures HGet(AtTurn(db, entries, n, subnets, ttl), realIp, p) == HGet(first, realIp, p)
      {
        assert HGet(before, realIp, p) == HGet(first, realIp, p) && p in before.maps[realIp].fields;
      }
    }
  }

  /** Every newly listed address that names a player at its turn leaves him reserved on every registered proxy, wherever in the
      list it stands. */
  lemma EveryNewBanIsPromoted(db: Db, entries: seq<string>, k: nat, source: Reverse, subnets: map<string, string>, ttl: int)
    requires k < |entries| && Usable(subnets) && Get(AtTurn(db, entries, k, subnets, ttl), entries[k]) == Some(source)
    ensures var after := PromoteAll(db, entries, subnets, ttl);
            && Reserved(after, source.realIp)
            && forall id :: id in subnets ==> HGet(after, source.realIp, id).Some?
  {
    var next := AtTurn(db, entries, k + 1, subnets, ttl);
    BanPromotesThePlayerItNames(AtTurn(db, entries, k, subnets, ttl), entries[k], source, subnets, ttl);
    StaysPromoted(db, entries, k + 1, |entries|, subnets, ttl, source.realIp);
    AllHaveTheirTurn(db, entries, subnets, ttl);
    forall id | id in subnets ensures HGet(PromoteAll(db, entries, subnets, ttl), source.realIp, id).Some? {
      assert HGet(next, source.realIp, id).Some?;
      assert id in next.maps[source.realIp].fields;
    }
  }

  /** One of the first n entries names this player at its turn. */
  ghost predicate NamedByEntry(db: Db, entries: seq<string>, n: nat, subnets: map<string, string>, ttl: int, realIp: string)
    requires n <= |entries|
  {
    exists k :: 0 <= k < n && Get(AtTurn(db, entries, k, subnets, ttl), entries[k]).Some?
                && Get(AtTurn(db, entries, k, subnets, ttl), entries[k]).value.realIp == realIp
  }

  lemma {:induction false} UnnamedUntil(db: Db, entries: seq<string>, n: nat, subnets: map<string, string>, ttl: int, realIp: string)
    requires n <= |entries| && !NamedByEntry(db, entries, n, subnets, ttl, realIp)
    ensures var after := AtTurn(db, entries, n, subnets, ttl);
            && (realIp in after.reserved <==> realIp in db.reserved)
            && (realIp in after.maps <==> realIp in db.maps) && (realIp in db.maps ==> after.maps[realIp] == db.maps[realIp])
  {
    if n > 0 {
      UnnamedUntil(db, entries, n - 1, subnets, ttl, realIp);
      var before := AtTurn(db, entries, n - 1, subnets, ttl);
      match Get(before, entries[n - 1])
      case None => UnknownBanPromotesNobody(before, entries[n - 1], subnets, ttl);
      case Some(source) => BanPromotesThePlayerItNames(before, entries[n - 1], source, subnets, ttl);
    }
  }

  /** And nobody else becomes reserved or has anything changed: only players whom an entry names at its turn. */
  lemma OnlyNamedPlayersArePromoted(db: Db, entries: seq<string>, subnets: map<string, string>, ttl: int, realIp: string)
    requires !NamedByEntry(db, entries, |entries|, subnets, ttl, realIp)
    ensures var after := PromoteAll(db, entries, subnets, ttl);
            && (realIp in after.reserved <==> realIp in db.reserved)
            && (realIp in after.maps <==> realIp in db.maps) && (realIp in db.maps ==> after.maps[realIp] == db.maps[realIp])
  {
    AllHaveTheirTurn(db, entries, subnets, ttl);
    UnnamedUntil(db, entries, |entries|, subnets, ttl, realIp);
  }

  /** New entries are taken in file order and each time they are listed. */
  lemma {:induction false} NewEntriesInFileOrder(known: set<string>, ips: seq<string>, later: seq<string>, ip: string)
    ensures NewEntries(known, ips + later) == NewEntries(known, ips) + NewEntries(known, later)
    ensures NewEntries(known, [ip]) == if ip in known then [] else [ip]
  {
    assert [ip][1..] == [];
    if ips == [] {
      assert [] + later == later;
    } else {
      NewEntriesInFileOrder(known, ips[1..], later, ip);
      assert (ips + later)[0] == ips[0] && (ips + later)[1..] == ips[1..] + later;
    }
  }

  /** The assignment service of one process: its database connection, proxy and TTL. */
  class Service {
    const server: Server
    const proxyID: string
    const proxyNum: nat
    const ttl: int

    constructor (server: Server, proxyID: string, proxyNum: nat, ttl: int)
      ensures this.server == server && this.proxyID == proxyID && this.proxyNum == proxyNum && this.ttl == ttl
    {
      this.server, this.proxyID, this.proxyNum, this.ttl := server, proxyID, proxyNum, ttl;
    }

    method Assign(realIp: string) returns (internalIp: string)
      modifies server
      ensures (server.Contents(), internalIp) == AssignScript(old(server.Contents()), realIp, proxyID, proxyNum, ttl, false)
    {
      internalIp := RunScript(server, realIp, proxyID, proxyNum, ttl, false);
    }

    method ReserveForAllProxies(realIp: string, subnets: map<string, string>) returns (reply: Result<map<string, string>>)
      modifies server
      ensures Outcome(server.Contents(), reply) ==
              ReserveQuietly(old(server.Contents()), realIp, SortedIds(subnets.Keys), subnets, ttl)
    {
      var ids := SortedProxyIDs(subnets);
      ghost var whole := ReserveQuietly(server.Contents(), realIp, ids, subnets, ttl);
      var out: map<string, string> := map[];
      var i := 0;
      assert ids[0..] == ids;
      RemainsAtStart(server.Contents(), realIp, ids, subnets, ttl);
      while i < |ids|
        invariant 0 <= i <= |ids|
        invariant Remains(whole, server.Contents(), realIp, ids[i..], subnets, ttl, out)
      {
        var internalIp := ReserveForOne(realIp, ids[i..], subnets, whole, out);
        if internalIp.Err? {
          return Err(internalIp.message);
        }
        out := out[ids[i] := internalIp.value];
        i := i + 1;
      }
      RemainsAtEnd(whole, server.Contents(), realIp, subnets, ttl, out);
      reply := Ok(out);
    }

    /** One turn of the loop, for the first of the remaining ids. */
    method ReserveForOne(realIp: string, ids: seq<string>, subnets: map<string, string>, ghost whole: Outcome, ghost out: map<string, string>)
      returns (internalIp: Result<string>)
      requires ids != [] && Remains(whole, server.Contents(), realIp, ids, subnets, ttl, out)
      modifies server
      ensures match internalIp
              case Err(m) => whole == Outcome(server.Contents(), Err(m))
              case Ok(address) => Remains(whole, server.Contents(), realIp, ids[1..], subnets, ttl, out[ids[0] := address])
    {
      RemainsNext(whole, server.Contents(), realIp, ids, subnets, ttl, out);
      var num := NumOf(subnets, ids[0]);
      if num.Err? {
        return Err(num.message);
      }
      var address := RunScript(server, realIp, ids[0], num.value, ttl, true);
      internalIp := Ok(address);
    }

    method LookupReverse(internalIp: string) returns (found: Result<Reverse>)
      ensures found.Ok? <==> Get(server.Contents(), internalIp).Some?
      ensures found.Ok? ==> Some(found.value) == Get(server.Contents(), internalIp)
    {
      var value := Get(server.Contents(), internalIp);
      found := if value.Some? then Ok(value.value) else Err("lookup reverse mapping");
    }
  }

  class Watcher {
    const assigner: Service
    var ipSnapshot: Snapshots

    constructor (assigner: Service)
      ensures this.assigner == assigner && ipSnapshot == map[]
    {
      this.assigner, ipSnapshot := assigner, map[];
    }

    /** A directory comes under watch: its present bans are remembered, not promoted. */
    method RefreshSnapshots(dir: string, file: FileRead) returns (error: Option<string>)
      modifies this
      ensures ipSnapshot == SnapshotsAfter(old(ipSnapshot), Observation(dir, file, true))
      ensures error.Some? <==> file.Broken?
    {
      if file.Broken? {
        return Some(file.message);
      }
      ipSnapshot := ipSnapshot[dir := if file.Listing? then Addresses(file.ips) else {}];
      error := None;
    }

    /** The diff, under the lock: what is listed now, and what of it was not listed before. */
    method TakeSnapshot(dir: string, ips: seq<string>) returns (newEntries: seq<string>)
      modifies this
      ensures ipSnapshot == old(ipSnapshot)[dir := Addresses(ips)]
      ensures newEntries == NewEntries(Known(old(ipSnapshot), dir), ips)
    {
      var prev := if dir in ipSnapshot then ipSnapshot[dir] else {};
      var current: set<string> := {};
      newEntries := [];
      var i := 0;
      while i < |ips|
        invariant 0 <= i <= |ips|
        invariant current == Addresses(ips[..i])
        invariant newEntries == NewEntries(prev, ips[..i])
        invariant ipSnapshot == old(ipSnapshot)
      {
        NewEntriesAppend(prev, ips[..i], ips[i]);
        assert ips[..i + 1] == ips[..i] + [ips[i]];
        current := current + {ips[i]};
        if ips[i] !in prev {
          newEntries := newEntries + [ips[i]];
        }
        i := i + 1;
      }
      assert ips[..i] == ips;
      ipSnapshot := ipSnapshot[dir := current];
    }

    /** The file changed: remember the listing, then promote the addresses that were not in the last one.
        A promotion that fails is logged and not tried again. */
    method HandleBannedIPs(dir: string, file: FileRead, subnets: map<string, string>) returns (error: Option<string>)
      modifies this, assigner.server
      ensures ipSnapshot == SnapshotsAfter(old(ipSnapshot), Observation(dir, file, false))
      ensures assigner.server.Contents() ==
              PromoteAll(old(assigner.server.Contents()), Promoted(old(ipSnapshot), Observation(dir, file, false)), subnets, assigner.ttl)
      ensures error.Some? <==> file.Broken?
    {
      match file
      case Missing => return None;
      case Broken(m) => return Some(m);
      case Listing(ips) =>
        var newEntries := TakeSnapshot(dir, ips);
        PromoteEntries(newEntries, subnets);
        error := None;
    }

    method PromoteEntries(newEntries: seq<string>, subnets: map<string, string>)
      modifies assigner.server
      ensures assigner.server.Contents() == PromoteAll(old(assigner.server.Contents()), newEntries, subnets, assigner.ttl)
    {
      var k := 0;
      while k < |newEntries|
        invariant 0 <= k <= |newEntries|
        invariant PromoteAll(assigner.server.Contents(), newEntries[k..], subnets, assigner.ttl)
               == PromoteAll(old(assigner.server.Contents()), newEntries, subnets, assigner.ttl)
      {
        assert newEntries[k..][1..] == newEntries[k + 1..];
        var reply := PromoteIdentity(newEntries[k], subnets);
        k := k + 1;
      }
    }

    method PromoteIdentity(banned: string, subnets: map<string, string>) returns (reply: Result<map<string, string>>)
      modifies assigner.server
      ensures Outcome(assigner.server.Contents(), reply) == Promote(old(assigner.server.Contents()), banned, subnets, assigner.ttl)
    {
      var mapping := assigner.LookupReverse(banned);
      if mapping.Err? {
        return Err("lookup reverse mapping");
      }
      reply := assigner.ReserveForAllProxies(mapping.value.realIp, subnets);
    }
  }

  // ---- which entries are ever promoted ----

  /** One look at a file: either because its directory came under watch or because the file changed. */
  datatype Observation = Observation(dir: string, file: FileRead, starting: bool)

  function SnapshotsAfter(snapshots: Snapshots, o: Observation): Snapshots {
    match o.file
    case Broken(_) => snapshots
    case Missing => if o.starting then snapshots[o.dir := {}] else snapshots
    case Listing(ips) => snapshots[o.dir := Addresses(ips)]
  }

  function Promoted(snapshots: Snapshots, o: Observation): seq<string> {
    if o.starting || !o.file.Listing? then [] else NewEntries(Known(snapshots, o.dir), o.file.ips)
  }

  function SnapshotsAfterAll(snapshots: Snapshots, os: seq<Observation>): Snapshots {
    if os == [] then snapshots
    else SnapshotsAfter(SnapshotsAfterAll(snapshots, os[..|os| - 1]), os[|os| - 1])
  }

  /** The addresses in the latest effective look at this directory: a listing, or its absence when watching began. */
  function LastListed(os: seq<Observation>, dir: string): set<string> {
    if os == [] then {}
    else
      var o := os[|os| - 1];
      if o.dir == dir && o.file.Listing? then Addresses(o.file.ips)
      else if o.dir == dir && o.file.Missing? && o.starting then {}
      else LastListed(os[..|os| - 1], dir)
  }

  lemma {:induction false} SnapshotIsLastListing(os: seq<Observation>, dir: string)
    ensures Known(SnapshotsAfterAll(map[], os), dir) == LastListed(os, dir)
  {
    if os != [] {
      SnapshotIsLastListing(os[..|os| - 1], dir);
    }
  }

  /** After any history of looks at any directories, a change of one file promotes exactly the addresses it lists that the
      last listing of the same directory did not have. */
  lemma PromotedIffNewlyListed(os: seq<Observation>, dir: string, ips: seq<string>, ip: string)
    ensures ip in Promoted(SnapshotsAfterAll(map[], os), Observation(dir, Listing(ips), false))
       <==> ip in ips && ip !in LastListed(os, dir)
  {
    SnapshotIsLastListing(os, dir);
  }

  /** A ban that stays listed is not promoted again, even when its first promotion failed. */
  lemma StillListedIsNotRetried(os: seq<Observation>, dir: string, first: seq<string>, between: seq<Observation>, second: seq<string>, ip: string)
    requires ip in first
    requires forall i :: 0 <= i < |between| ==> between[i].dir != dir || between[i].file.Broken? || (between[i].file.Missing? && !between[i].starting)
    ensures ip !in Promoted(SnapshotsAfterAll(map[], os + [Observation(dir, Listing(first), false)] + between), Observation(dir, Listing(second), false))
  {
    var history := os + [Observation(dir, Listing(first), false)] + between;
    SkipIrrelevant(os + [Observation(dir, Listing(first), false)], between, dir);
    SnapshotIsLastListing(history, dir);
  }

  /** A ban that was there when watching began is not promoted; one that was lifted in between is promoted again. */
  lemma PresentBansAreOld(snapshots: Snapshots, dir: string, first: seq<string>, second: seq<string>, ip: string)
    requires ip in second
    ensures var watching := SnapshotsAfter(snapshots, Observation(dir, Listing(first), true));
            && Promoted(snapshots, Observation(dir, Listing(first), true)) == []
            && (ip in Promoted(watching, Observation(dir, Listing(second), false)) <==> ip !in first)
  {
  }

  lemma LiftedBanIsPromotedAgain(snapshots: Snapshots, dir: string, without: seq<string>, again: seq<string>, ip: string)
    requires ip !in without && ip in again
    ensures var lifted := SnapshotsAfter(snapshots, Observation(dir, Listing(without), false));
            ip in Promoted(lifted, Observation(dir, Listing(again), false))
  {
  }

  lemma {:induction false} SkipIrrelevant(os: seq<Observation>, between: seq<Observation>, dir: string)
    requires forall i :: 0 <= i < |between| ==> between[i].dir != dir || between[i].file.Broken? || (between[i].file.Missing? && !between[i].starting)
    ensures LastListed(os + between, dir) == LastListed(os, dir)
  {
    if between == [] {
      assert os + between == os;
    } else {
      var n := |between| - 1;
      assert (os + between)[..|os + between| - 1] == os + between[..n];
      SkipIrrelevant(os, between[..n], dir);
    }
  }
}
