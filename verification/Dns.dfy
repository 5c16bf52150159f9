/** A DNS zone as the controller's client sees it, and bringing one hostname's address records in line. */
module Dns {
  import opened Wrappers
  import opened Sorting

  datatype Record = Record(id: nat, name: string, kind: string, content: string, ttl: int)

  const ADDRESS: string := "A"

  predicate Lists(r: Record, name: string) {
    r.kind == ADDRESS && r.name == name
  }

  /** The address records of one name, as ListARecords returns them. */
  function Named(zone: seq<Record>, name: string): seq<Record> {
    if zone == [] then []
    else if Lists(zone[0], name) then [zone[0]] + Named(zone[1..], name)
    else Named(zone[1..], name)
  }

  /** Everything else in the zone. */
  function Others(zone: seq<Record>, name: string): seq<Record> {
    if zone == [] then []
    else if Lists(zone[0], name) then Others(zone[1..], name)
    else [zone[0]] + Others(zone[1..], name)
  }

  /** The zone without the records that have one of these ids. */
  function Without(zone: seq<Record>, ids: set<nat>): seq<Record> {
    if zone == [] then []
    else if zone[0].id in ids then Without(zone[1..], ids)
    else [zone[0]] + Without(zone[1..], ids)
  }

  function Contents(records: seq<Record>): (contents: seq<string>)
    ensures |contents| == |records|
    ensures forall i :: 0 <= i < |records| ==> contents[i] == records[i].content
  {
    if records == [] then [] else [records[0].content] + Contents(records[1..])
  }

  /** New records, one per answer, numbered from the next free id. */
  function Created(nextId: nat, name: string, answers: seq<string>, ttl: int): (records: seq<Record>)
    ensures |records| == |answers|
    decreases |answers|
  {
    if answers == [] then []
    else [Record(nextId, name, ADDRESS, answers[0], ttl)] + Created(nextId + 1, name, answers[1..], ttl)
  }

  /** The sorted address contents of a name are the sorted answers. */
  predicate InLine(zone: seq<Record>, name: string, answers: seq<string>) {
    Sort(Contents(Named(zone, name)), StringLe) == Sort(answers, StringLe)
  }

  datatype Zone = Zone(records: seq<Record>, nextId: nat, writes: nat)

  /** What one error-free pass over a hostname does. */
  function Align(z: Zone, name: string, ttl: int, answers: seq<string>): Zone {
    if InLine(z.records, name, answers) then z
    else Zone(Others(z.records, name) + Created(z.nextId, name, answers, ttl),
              z.nextId + |answers|,
              z.writes + |Named(z.records, name)| + |answers|)
  }

  ghost predicate DistinctIds(records: seq<Record>) {
    forall i, j :: 0 <= i < j < |records| ==> records[i].id != records[j].id
  }

  ghost predicate IdsBelow(records: seq<Record>, n: nat) {
    forall i :: 0 <= i < |records| ==> records[i].id < n
  }

  /** Record ids are distinct, and the server's next id is new. */
  ghost predicate ZoneOk(z: Zone) {
    DistinctIds(z.records) && IdsBelow(z.records, z.nextId)
  }

  // ---- deleting what was listed ----

  function Ids(records: seq<Record>): set<nat> {
    if records == [] then {} else {records[0].id} + Ids(records[1..])
  }

  lemma {:induction false} IdsMembers(records: seq<Record>, i: nat)
    requires i < |records|
    ensures records[i].id in Ids(records)
  {
    if i > 0 {
      IdsMembers(records[1..], i - 1);
    }
  }

  lemma {:induction false} IdsSource(records: seq<Record>, id: nat) returns (i: nat)
    requires id in Ids(records)
    ensures i < |records| && records[i].id == id
  {
    if records[0].id == id {
      i := 0;
    } else {
      var j := IdsSource(records[1..], id);
      i := j + 1;
    }
  }

  lemma {:induction false} IdsOfPrefix(records: seq<Record>, i: nat)
    requires i < |records|
    ensures Ids(records[..i + 1]) == Ids(records[..i]) + {records[i].id}
  {
    if i == 0 {
      assert records[..1] == [records[0]] && records[..0] == [];
      assert [records[0]][1..] == [];
    } else {
      IdsOfPrefix(records[1..], i - 1);
      assert records[..i + 1][1..] == records[1..][..i] && records[..i][1..] == records[1..][..i - 1];
    }
  }

  lemma {:induction false} WithoutMore(zone: seq<Record>, ids: set<nat>, id: nat)
    ensures Without(Without(zone, ids), {id}) == Without(zone, ids + {id})
  {
    if zone != [] {
      WithoutMore(zone[1..], ids, id);
      if zone[0].id !in ids {
        assert Without(zone, ids)[1..] == Without(zone[1..], ids);
      }
    }
  }

  lemma {:induction false} WithoutNone(zone: seq<Record>)
    ensures Without(zone, {}) == zone
  {
    if zone != [] {
      WithoutNone(zone[1..]);
    }
  }

  lemma {:induction false} NamedIdsAreInZone(zone: seq<Record>, name: string)
    ensures Ids(Named(zone, name)) <= Ids(zone)
  {
    if zone != [] {
      NamedIdsAreInZone(zone[1..], name);
      if Lists(zone[0], name) {
        assert Named(zone, name)[1..] == Named(zone[1..], name);
      }
    }
  }

  lemma {:induction false} WithoutAbsent(zone: seq<Record>, ids: set<nat>, id: nat)
    requires id !in Ids(zone)
    ensures Without(zone, ids + {id}) == Without(zone, ids)
  {
    if zone != [] {
      WithoutAbsent(zone[1..], ids, id);
    }
  }

  /** Deleting exactly the listed ids leaves exactly the other records. */
  lemma {:induction false} WithoutNamedIsOthers(zone: seq<Record>, name: string)
    requires DistinctIds(zone)
    ensures Without(zone, Ids(Named(zone, name))) == Others(zone, name)
  {
    if zone != [] {
      var rest := zone[1..];
      WithoutNamedIsOthers(rest, name);
      NamedIdsAreInZone(rest, name);
      assert zone[0].id !in Ids(rest) by {
        if zone[0].id in Ids(rest) {
          var i := IdsSource(rest, zone[0].id);
          assert false;
        }
      }
      if Lists(zone[0], name) {
        assert Named(zone, name)[1..] == Named(rest, name);
        assert Ids(Named(zone, name)) == Ids(Named(rest, name)) + {zone[0].id};
        WithoutAbsent(rest, Ids(Named(rest, name)), zone[0].id);
      }
    }
  }

  // ---- what aligning achieves ----

  lemma {:induction false} NamedOfParts(a: seq<Record>, b: seq<Record>, name: string)
    ensures Named(a + b, name) == Named(a, name) + Named(b, name)
  {
    if a == [] {
      assert a + b == b;
    } else {
      assert (a + b)[0] == a[0] && (a + b)[1..] == a[1..] + b;
      NamedOfParts(a[1..], b, name);
    }
  }

  lemma {:induction false} OthersOfParts(a: seq<Record>, b: seq<Record>, name: string)
    ensures Others(a + b, name) == Others(a, name) + Others(b, name)
  {
    if a == [] {
      assert a + b == b;
    } else {
      assert (a + b)[0] == a[0] && (a + b)[1..] == a[1..] + b;
      OthersOfParts(a[1..], b, name);
    }
  }

  lemma {:induction false} OthersHaveNoneNamed(zone: seq<Record>, name: string, other: string)
    ensures Named(Others(zone, name), name) == []
    ensures Others(Others(zone, name), name) == Others(zone, name)
    ensures other != name ==> Named(Others(zone, name), other) == Named(zone, other)
  {
    if zone != [] {
      OthersHaveNoneNamed(zone[1..], name, other);
      if !Lists(zone[0], name) {
        assert Others(zone, name)[1..] == Others(zone[1..], name);
      }
    }
  }

  lemma {:induction false} CreatedIsNamed(nextId: nat, name: string, answers: seq<string>, ttl: int, other: string)
    ensures Named(Created(nextId, name, answers, ttl), name) == Created(nextId, name, answers, ttl)
    ensures Contents(Created(nextId, name, answers, ttl)) == answers
    ensures Others(Created(nextId, name, answers, ttl), name) == []
    ensures other != name ==> Named(Created(nextId, name, answers, ttl), other) == []
    decreases |answers|
  {
    if answers != [] {
      CreatedIsNamed(nextId + 1, name, answers[1..], ttl, other);
      assert Created(nextId, name, answers, ttl)[1..] == Created(nextId + 1, name, answers[1..], ttl);
    }
  }

  /** From any zone, aligning a hostname brings its address contents in line with the answers, leaves every other
      record and the address records of every other name as they were, and a second time writes nothing. */
  lemma AlignConverges(z: Zone, name: string, ttl: int, answers: seq<string>, other: string)
    ensures InLine(Align(z, name, ttl, answers).records, name, answers)
    ensures Others(Align(z, name, ttl, answers).records, name) == Others(z.records, name)
    ensures other != name ==> Named(Align(z, name, ttl, answers).records, other) == Named(z.records, other)
    ensures Align(Align(z, name, ttl, answers), name, ttl, answers) == Align(z, name, ttl, answers)
  {
    if !InLine(z.records, name, answers) {
      var others, created := Others(z.records, name), Created(z.nextId, name, answers, ttl);
      NamedOfParts(others, created, name);
      NamedOfParts(others, created, other);
      OthersOfParts(others, created, name);
      OthersHaveNoneNamed(z.records, name, other);
      CreatedIsNamed(z.nextId, name, answers, ttl, other);
      assert Named(others + created, name) == created;
      assert others + [] == others;
      assert Named(z.records, other) + [] == Named(z.records, other);
    }
  }

  /** Aligning writes exactly when the contents differ, provided there is something to write. */
  lemma AlignWritesIff(z: Zone, name: string, ttl: int, answers: seq<string>)
    ensures Align(z, name, ttl, answers).writes == z.writes <==> InLine(z.records, name, answers)
  {
    if |Named(z.records, name)| + |answers| == 0 {
      assert Contents(Named(z.records, name)) == answers;
    }
  }

  /** A rewritten hostname has one fresh record per answer, in the order of the answers and with the hostname's TTL. An
      aligned one is left as it is, whatever TTL its records carry. */
  lemma AlignedRecords(z: Zone, name: string, ttl: int, answers: seq<string>, i: nat)
    requires !InLine(z.records, name, answers) && i < |answers|
    ensures |Named(Align(z, name, ttl, answers).records, name)| == |answers|
    ensures Named(Align(z, name, ttl, answers).records, name)[i] == Record(z.nextId + i, name, ADDRESS, answers[i], ttl)
  {
    NamedOfParts(Others(z.records, name), Created(z.nextId, name, answers, ttl), name);
    OthersHaveNoneNamed(z.records, name, "");
    CreatedIsNamed(z.nextId, name, answers, ttl, "");
    assert [] + Created(z.nextId, name, answers, ttl) == Created(z.nextId, name, answers, ttl);
    CreatedAt(z.nextId, name, answers, ttl, i);
  }

  lemma {:induction false} CreatedAt(nextId: nat, name: string, answers: seq<string>, ttl: int, i: nat)
    requires i < |answers|
    ensures Created(nextId, name, answers, ttl)[i] == Record(nextId + i, name, ADDRESS, answers[i], ttl)
    decreases i
  {
    if i > 0 {
      CreatedAt(nextId + 1, name, answers[1..], ttl, i - 1);
    }
  }

  /** Comparing the sorted lists decides whether contents and answers are the same multiset. */
  lemma InLineIff(zone: seq<Record>, name: string, answers: seq<string>)
    ensures InLine(zone, name, answers) <==> multiset(Contents(Named(zone, name))) == multiset(answers)
  {
    StringLeIsTotal();
    SortedEqualIffSameMultiset(Contents(Named(zone, name)), answers, StringLe);
  }
}
