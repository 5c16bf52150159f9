/** The assignment script: a function of the database, and the commands it issues one by one. */
module Assignment {
  import opened Wrappers
  import opened Redis
  import Text

  // ---- the script as a function of the database ----

  /** The tail of both branches: make the mapping permanent, or push its two expiries forward. */
  function Refresh(db: Db, realIp: string, internalIp: string, ttl: int, reserve: bool): Db {
    if reserve then
      Persist(Persist(SAdd(db, realIp), MapKey(realIp)), RmapKey(internalIp))
    else if realIp !in db.reserved && ttl > 0 then
      Expire(Expire(db, MapKey(realIp), ttl), RmapKey(internalIp), ttl)
    else db
  }

  /** The address that the next allocation of a proxy will print. */
  function NextAddress(db: Db, proxy: string, num: nat): string {
    Text.ScriptAddress(num, Counter(db, proxy) + 1)
  }

  /** First contact of a real address with a proxy: take the next counter value and store both mappings. */
  function Allocate(db: Db, realIp: string, proxy: string, internalIp: string): Db {
    Set(HSet(Incr(db, proxy), realIp, proxy, internalIp), internalIp, Reverse(realIp, proxy))
  }

  function AssignScript(db: Db, realIp: string, proxy: string, num: nat, ttl: int, reserve: bool): (Db, string) {
    match HGet(db, realIp, proxy)
    case Some(existing) => (Refresh(db, realIp, existing, ttl, reserve), existing)
    case None =>
      var internalIp := NextAddress(db, proxy, num);
      (Refresh(Allocate(db, realIp, proxy, internalIp), realIp, internalIp, ttl, reserve), internalIp)
  }

  /** The script itself: commands issued one after the other on the server. */
  method RunScript(server: Server, realIp: string, proxy: string, num: nat, ttl: int, reserve: bool)
    returns (internalIp: string)
    modifies server
    ensures (server.Contents(), internalIp) == AssignScript(old(server.Contents()), realIp, proxy, num, ttl, reserve)
  {
    var existing := HGet(server.Contents(), realIp, proxy);
    if existing.Some? {
      internalIp := existing.value;
      if reserve {
        server.SetAdd(realIp);
        server.PersistKey(MapKey(realIp));
        server.PersistKey(RmapKey(internalIp));
      } else {
        var isReserved := realIp in server.reserved;
        if !isReserved && ttl > 0 {
          server.ExpireKey(MapKey(realIp), ttl);
          server.ExpireKey(RmapKey(internalIp), ttl);
        }
      }
      return;
    }

    var n := server.Increment(proxy);
    internalIp := Text.ScriptAddress(num, n);
    server.HashSet(realIp, proxy, internalIp);
    server.StringSet(internalIp, Reverse(realIp, proxy));
    if reserve {
      server.SetAdd(realIp);
      server.PersistKey(MapKey(realIp));
      server.PersistKey(RmapKey(internalIp));
    } else {
      var isReserved := realIp in server.reserved;
      if !isReserved && ttl > 0 {
        server.ExpireKey(MapKey(realIp), ttl);
        server.ExpireKey(RmapKey(internalIp), ttl);
      }
    }
  }
}
