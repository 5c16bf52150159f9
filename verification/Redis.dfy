/** The part of the shared Redis database that holds identities: one hash `map:<real>` with one expiry,
    one string `rmap:<internal>` with its own expiry, per-proxy counters and the set `reserved:real`.
    Expired keys are removed when the clock advances, so a stored key is a live key. */
module Redis {
  import opened Wrappers

  const MS_PER_SECOND: int := 1000

  datatype Deadline = Never | At(ms: int) {
    /** This key outlives (or dies together with) a key that has the other deadline. */
    predicate Covers(other: Deadline) {
      Never? || (other.At? && other.ms <= ms)
    }

    predicate Passed(now: int) {
      At? && ms < now
    }
  }

  datatype Reverse = Reverse(realIp: string, proxy: string)
  datatype Hash = Hash(fields: map<string, string>, expires: Deadline)
  datatype Cell = Cell(content: Reverse, expires: Deadline)
  datatype Key = MapKey(realIp: string) | RmapKey(internalIp: string)

  datatype Db = Db(
    now: int,
    maps: map<string, Hash>,
    rmaps: map<string, Cell>,
    counters: map<string, nat>,
    reserved: set<string>)

  const EMPTY: Db := Db(0, map[], map[], map[], {})

  function Counter(db: Db, proxy: string): nat {
    if proxy in db.counters then db.counters[proxy] else 0
  }

  // ---- commands ----

  function HGet(db: Db, realIp: string, proxy: string): Option<string> {
    if realIp in db.maps && proxy in db.maps[realIp].fields then Some(db.maps[realIp].fields[proxy]) else None
  }

  /** HSET creates the key without an expiry and otherwise keeps the expiry it has. */
  function HSet(db: Db, realIp: string, proxy: string, internalIp: string): Db {
    var hash := if realIp in db.maps then db.maps[realIp] else Hash(map[], Never);
    db.(maps := db.maps[realIp := hash.(fields := hash.fields[proxy := internalIp])])
  }

  function Get(db: Db, internalIp: string): Option<Reverse> {
    if internalIp in db.rmaps then Some(db.rmaps[internalIp].content) else None
  }

  /** SET replaces the value and clears the expiry. */
  function Set(db: Db, internalIp: string, content: Reverse): Db {
    db.(rmaps := db.rmaps[internalIp := Cell(content, Never)])
  }

  function Incr(db: Db, proxy: string): Db {
    db.(counters := db.counters[proxy := Counter(db, proxy) + 1])
  }

  function SAdd(db: Db, realIp: string): Db {
    db.(reserved := db.reserved + {realIp})
  }

  function SetDeadline(db: Db, key: Key, deadline: Deadline): Db {
    match key
    case MapKey(r) => if r in db.maps then db.(maps := db.maps[r := db.maps[r].(expires := deadline)]) else db
    case RmapKey(i) => if i in db.rmaps then db.(rmaps := db.rmaps[i := db.rmaps[i].(expires := deadline)]) else db
  }

  function Remove(db: Db, key: Key): Db {
    match key
    case MapKey(r) => db.(maps := db.maps - {r})
    case RmapKey(i) => db.(rmaps := db.rmaps - {i})
  }

  /** EXPIRE and PERSIST do nothing on a missing key; EXPIRE with a time that is not positive deletes. */
  function Expire(db: Db, key: Key, seconds: int): Db {
    if seconds <= 0 then Remove(db, key) else SetDeadline(db, key, At(db.now + MS_PER_SECOND * seconds))
  }

  function Persist(db: Db, key: Key): Db {
    SetDeadline(db, key, Never)
  }

  function Advance(db: Db, ms: nat): Db {
    var t := db.now + ms;
    Db(t,
       map r | r in db.maps && !db.maps[r].expires.Passed(t) :: db.maps[r],
       map i | i in db.rmaps && !db.rmaps[i].expires.Passed(t) :: db.rmaps[i],
       db.counters,
       db.reserved)
  }

  // ---- the commands, key by key ----

  lemma SecondsAreMilliseconds()
    ensures MS_PER_SECOND == 1000
  {
  }

  /** HSET: one field of one hash; the hash keeps its expiry, and a new one has none. */
  lemma HSetStoresOneField(db: Db, realIp: string, proxy: string, internalIp: string, r: string, p: string)
    ensures var after := HSet(db, realIp, proxy, internalIp);
            && HGet(after, r, p) == (if r == realIp && p == proxy then Some(internalIp) else HGet(db, r, p))
            && after.maps[realIp].expires == (if realIp in db.maps then db.maps[realIp].expires else Never)
            && (r != realIp ==> (r in after.maps <==> r in db.maps) && (r in db.maps ==> after.maps[r] == db.maps[r]))
            && after == db.(maps := after.maps)
  {
  }

  /** SET: the value of one key, without an expiry. */
  lemma SetReplacesOneKey(db: Db, internalIp: string, content: Reverse, i: string)
    ensures var after := Set(db, internalIp, content);
            && Get(after, i) == (if i == internalIp then Some(content) else Get(db, i))
            && after.rmaps[internalIp].expires == Never
            && (i in db.rmaps && i != internalIp ==> after.rmaps[i] == db.rmaps[i])
            && after == db.(rmaps := after.rmaps)
  {
  }

  /** INCR: one counter by one; a missing one counts as zero. */
  lemma IncrCountsOne(db: Db, proxy: string, p: string)
    ensures Counter(Incr(db, proxy), p) == Counter(db, p) + if p == proxy then 1 else 0
    ensures proxy !in db.counters ==> Counter(Incr(db, proxy), proxy) == 1
    ensures Incr(db, proxy) == db.(counters := Incr(db, proxy).counters)
  {
  }

  /** EXPIRE and PERSIST on a key that is missing do nothing; on a live one they set its deadline or take it away, and a time that
      is not positive deletes the key. */
  lemma ExpireAndPersist(db: Db, realIp: string, internalIp: string, seconds: int)
    ensures realIp !in db.maps ==> Expire(db, MapKey(realIp), seconds) == db && Persist(db, MapKey(realIp)) == db
    ensures internalIp !in db.rmaps ==> Expire(db, RmapKey(internalIp), seconds) == db && Persist(db, RmapKey(internalIp)) == db
    ensures realIp in db.maps ==>
              && Persist(db, MapKey(realIp)) == db.(maps := db.maps[realIp := Hash(db.maps[realIp].fields, Never)])
              && Expire(db, MapKey(realIp), seconds)
                 == if seconds <= 0 then db.(maps := db.maps - {realIp})
                    else db.(maps := db.maps[realIp := Hash(db.maps[realIp].fields, At(db.now + 1000 * seconds))])
    ensures internalIp in db.rmaps ==>
              && Persist(db, RmapKey(internalIp)) == db.(rmaps := db.rmaps[internalIp := Cell(db.rmaps[internalIp].content, Never)])
              && Expire(db, RmapKey(internalIp), seconds)
                 == if seconds <= 0 then db.(rmaps := db.rmaps - {internalIp})
                    else db.(rmaps := db.rmaps[internalIp := Cell(db.rmaps[internalIp].content, At(db.now + 1000 * seconds))])
  {
    if realIp !in db.maps {
      assert db.maps - {realIp} == db.maps;
    }
    if internalIp !in db.rmaps {
      assert db.rmaps - {internalIp} == db.rmaps;
    }
  }

  /** When time passes a key is removed exactly when its deadline lies strictly before the new time, and nothing else happens. */
  lemma AdvanceRemovesThePassed(db: Db, ms: nat, r: string, i: string)
    ensures var after := Advance(db, ms);
            && after.now == db.now + ms && after.counters == db.counters && after.reserved == db.reserved
            && (r in after.maps <==> r in db.maps && (db.maps[r].expires.At? ==> db.now + ms <= db.maps[r].expires.ms))
            && (i in after.rmaps <==> i in db.rmaps && (db.rmaps[i].expires.At? ==> db.now + ms <= db.rmaps[i].expires.ms))
            && (r in after.maps ==> after.maps[r] == db.maps[r]) && (i in after.rmaps ==> after.rmaps[i] == db.rmaps[i])
  {
  }

  /** The server that executes those commands on its own state. */
  class Server {
    var now: int
    var maps: map<string, Hash>
    var rmaps: map<string, Cell>
    var counters: map<string, nat>
    var reserved: set<string>

    function Contents(): Db
      reads this
    {
      Db(now, maps, rmaps, counters, reserved)
    }

    constructor ()
      ensures Contents() == EMPTY
    {
      now, maps, rmaps, counters, reserved := 0, map[], map[], map[], {};
    }

    method HashSet(realIp: string, proxy: string, internalIp: string)
      modifies this`maps
      ensures Contents() == HSet(old(Contents()), realIp, proxy, internalIp)
    {
      var hash := Hash(map[], Never);
      if realIp in maps {
        hash := maps[realIp];
      }
      maps := maps[realIp := Hash(hash.fields[proxy := internalIp], hash.expires)];
    }

    method StringSet(internalIp: string, content: Reverse)
      modifies this`rmaps
      ensures Contents() == Set(old(Contents()), internalIp, content)
    {
      rmaps := rmaps[internalIp := Cell(content, Never)];
    }

    method Increment(proxy: string) returns (n: nat)
      modifies this`counters
      ensures Contents() == Incr(old(Contents()), proxy)
      ensures n == Counter(Contents(), proxy)
    {
      n := 1;
      if proxy in counters {
        n := counters[proxy] + 1;
      }
      counters := counters[proxy := n];
    }

    method SetAdd(realIp: string)
      modifies this`reserved
      ensures Contents() == SAdd(old(Contents()), realIp)
    {
      reserved := reserved + {realIp};
    }

    method ExpireKey(key: Key, seconds: int)
      modifies this`maps, this`rmaps
      ensures Contents() == Expire(old(Contents()), key, seconds)
    {
      var deadline := At(now + MS_PER_SECOND * seconds);
      match key
      case MapKey(r) =>
        if seconds <= 0 {
          maps := maps - {r};
        } else if r in maps {
          maps := maps[r := maps[r].(expires := deadline)];
        }
      case RmapKey(i) =>
        if seconds <= 0 {
          rmaps := rmaps - {i};
        } else if i in rmaps {
          rmaps := rmaps[i := rmaps[i].(expires := deadline)];
        }
    }

    method PersistKey(key: Key)
      modifies this`maps, this`rmaps
      ensures Contents() == Persist(old(Contents()), key)
    {
      match key
      case MapKey(r) =>
        if r in maps {
          maps := maps[r := maps[r].(expires := Never)];
        }
      case RmapKey(i) =>
        if i in rmaps {
          rmaps := rmaps[i := rmaps[i].(expires := Never)];
        }
    }

    method Tick(ms: nat)
      modifies this`now, this`maps, this`rmaps
      ensures Contents() == Advance(old(Contents()), ms)
    {
      now := now + ms;
      maps := map r | r in maps && !maps[r].expires.Passed(now) :: maps[r];
      rmaps := map i | i in rmaps && !rmaps[i].expires.Passed(now) :: rmaps[i];
    }
  }
}
