/** Reading the first packet of a Minecraft connection and keeping its bytes. */
module Handshake {
  import opened Wrappers
  import opened VarInt
  import opened Hostnames

  datatype Handshake = Handshake(hostname: Bytes, port: nat)

  // ---- the packet body ----

  /** The integer at a position and the position after it. */
  function IntAt(packet: Bytes, cursor: nat): (r: Option<(nat, nat)>)
    requires cursor <= |packet|
    ensures r.Some? ==> cursor < r.value.1 <= |packet|
  {
    match Decode(packet[cursor..])
    case None => None
    case Some((v, n)) => Some((v, cursor + n))
  }

  function StringAt(packet: Bytes, cursor: nat): (r: Option<(Bytes, nat)>)
    requires cursor <= |packet|
    ensures r.Some? ==> cursor < r.value.1 <= |packet|
  {
    match IntAt(packet, cursor)
    case None => None
    case Some((size, from)) => if from + size > |packet| then None else Some((packet[from..from + size], from + size))
  }

  /** binary.BigEndian.Uint16. */
  function BigEndian16(high: Byte, low: Byte): nat {
    256 * (high as int) + low as int
  }

  /** The port, and behind it a next state that is only looked at for being there. */
  function ParsePort(packet: Bytes, cursor: nat): Result<nat>
    requires cursor <= |packet|
  {
    if cursor + 2 > |packet| then Err("parse port")
    else if IntAt(packet, cursor + 2).None? then Err("parse next state")
    else Ok(BigEndian16(packet[cursor], packet[cursor + 1]))
  }

  /** Everything after the protocol version: the host as sent, and the port. */
  function ParseAddress(packet: Bytes, cursor: nat): Result<(Bytes, nat)>
    requires cursor <= |packet|
  {
    match StringAt(packet, cursor)
    case None => Err("parse hostname")
    case Some((host, c)) =>
      match ParsePort(packet, c)
      case Err(m) => Err(m)
      case Ok(port) => Ok((host, port))
  }

  function ParseFields(packet: Bytes): Result<(Bytes, nat)> {
    match IntAt(packet, 0)
    case None => Err("parse packet id")
    case Some((id, c)) =>
      if id != 0 then Err("unexpected packet id")
      else match IntAt(packet, c)
        case None => Err("parse protocol version")
        case Some((_, c')) => ParseAddress(packet, c')
  }

  function Parse(packet: Bytes): Result<Handshake> {
    match ParseFields(packet)
    case Err(m) => Err(m)
    case Ok((host, port)) => Ok(Handshake(NormalizeHostname(host), port))
  }

  method ParseString(packet: Bytes, start: nat) returns (value: Bytes, cursor: nat, ok: bool)
    requires start <= |packet|
    ensures start <= cursor <= |packet|
    ensures match StringAt(packet, start)
            case Some((v, c)) => ok && value == v && cursor == c
            case None => !ok
  {
    var size, from, error := ParseVarInt(packet, start);
    if error.Some? || from + size > |packet| {
      return [], from, false;
    }
    value, cursor, ok := packet[from..from + size], from + size, true;
  }

  /** The integer at a position, with the errors of the cursor decoder left out. */
  method ParseInt(packet: Bytes, start: nat) returns (value: nat, cursor: nat, ok: bool)
    requires start <= |packet|
    ensures start <= cursor <= |packet|
    ensures IntAt(packet, start) == if ok then Some((value, cursor)) else None
  {
    var error;
    value, cursor, error := ParseVarInt(packet, start);
    ok := error.None?;
  }

  method ParseHandshake(packet: Bytes) returns (reply: Result<Handshake>)
    ensures reply == Parse(packet)
  {
    var packetID, cursor, ok := ParseInt(packet, 0);
    if !ok {
      return Err("parse packet id");
    }
    if packetID != 0 {
      return Err("unexpected packet id");
    }
    var version;
    version, cursor, ok := ParseInt(packet, cursor);
    if !ok {
      return Err("parse protocol version");
    }
    var address := ParseRest(packet, cursor);
    reply := match address
      case Err(m) => Err(m)
      case Ok((host, port)) => Ok(Handshake(NormalizeHostname(host), port));
  }

  /** The second half of the parse: host, port and next state. */
  method ParseRest(packet: Bytes, start: nat) returns (address: Result<(Bytes, nat)>)
    requires start <= |packet|
    ensures address == ParseAddress(packet, start)
  {
    var host, cursor, ok := ParseString(packet, start);
    if !ok {
      return Err("parse hostname");
    }
    var port := ReadPort(packet, cursor);
    address := match port
      case Err(m) => Err(m)
      case Ok(number) => Ok((host, number));
  }

  method ReadPort(packet: Bytes, start: nat) returns (port: Result<nat>)
    requires start <= |packet|
    ensures port == ParsePort(packet, start)
  {
    var cursor := start;
    if cursor + 2 > |packet| {
      return Err("parse port");
    }
    var number := BigEndian16(packet[cursor], packet[cursor + 1]);
    cursor := cursor + 2;
    var nextState, end, ok := ParseInt(packet, cursor);
    if !ok {
      return Err("parse next state");
    }
    port := Ok(number);
  }

  // ---- the packet on the stream ----

  /** What reading a packet from these bytes returns, and how many of them it consumes. */
  datatype Reading = Reading(reply: Result<(Bytes, Handshake)>, consumed: nat)

  function ReadPacket(s: Bytes): (r: Reading)
    ensures r.consumed <= |s|
  {
    match Decode(s)
    case None => Reading(Err("read packet length"), Least(MAX_LENGTH, |s|))
    case Some((length, n)) =>
      if length == 0 then Reading(Err("invalid packet length"), n)
      else if n + length > |s| then Reading(Err("read packet body"), |s|)
      else AfterBody(s, n, length)
  }

  function AfterBody(s: Bytes, n: nat, length: nat): (r: Reading)
    requires n + length <= |s|
    ensures r.consumed == n + length
  {
    WithBody(s[..n], s[n..n + length])
  }

  /** The reading of a complete packet. */
  function WithBody(lengthBytes: Bytes, packet: Bytes): Reading {
    match Parse(packet)
    case Err(m) => Reading(Err(m), |lengthBytes| + |packet|)
    case Ok(h) => Reading(Ok((lengthBytes + packet, h)), |lengthBytes| + |packet|)
  }

  /** The bytes the router keeps for the backend: none after an error. */
  function Kept(reading: Reading): Bytes {
    if reading.reply.Ok? then reading.reply.value.0 else []
  }

  function HandshakeOf(reading: Reading): Result<Handshake> {
    match reading.reply
    case Ok((_, h)) => Ok(h)
    case Err(m) => Err(m)
  }

  method ReadHandshakePacket(r: Stream) returns (raw: Bytes, handshake: Result<Handshake>)
    modifies r
    ensures r.unread == old(r.unread)[ReadPacket(old(r.unread)).consumed..]
    ensures raw == Kept(ReadPacket(old(r.unread)))
    ensures handshake == HandshakeOf(ReadPacket(old(r.unread)))
  {
    ghost var all := r.unread;
    var packetLength, lengthBytes, error := ReadVarInt(r);
    if error.Some? {
      return [], Err("read packet length");
    }
    if packetLength == 0 {
      return [], Err("invalid packet length");
    }
    var ok, packet := r.ReadFull(packetLength);
    if !ok {
      return [], Err("read packet body");
    }
    BodyIsNext(all, packetLength, lengthBytes, packet, r.unread);
    handshake := ParseHandshake(packet);
    raw := if handshake.Ok? then lengthBytes + packet else [];
  }

  /** The packet's body and the rest of the stream, as the two reads cut them. */
  lemma BodyIsNext(all: Bytes, length: nat, lengthBytes: Bytes, packet: Bytes, unread: Bytes)
    requires Decode(all) == Some((length, |lengthBytes|)) && length > 0
    requires |lengthBytes| <= |all| && lengthBytes == all[..|lengthBytes|]
    requires length <= |all[|lengthBytes|..]|
    requires packet == all[|lengthBytes|..][..length] && unread == all[|lengthBytes|..][length..]
    ensures ReadPacket(all) == WithBody(lengthBytes, packet)
    ensures unread == all[|lengthBytes| + length..]
  {
    CutTwice(all, |lengthBytes|, length);
    assert ReadPacket(all) == AfterBody(all, |lengthBytes|, length);
  }

  lemma CutTwice(all: Bytes, n: nat, m: nat)
    requires n + m <= |all|
    ensures all[n..][..m] == all[n..n + m] && |all[..n]| == n
    ensures all[n..][m..] == all[n + m..]
    ensures all[..n] + all[n..n + m] == all[..n + m]
  {
  }

  // ---- nothing is lost ----

  lemma NothingKeptWithoutLength(s: Bytes)
    requires Decode(s).None?
    ensures ReadPacket(s).reply.Err? && (s != [] ==> ReadPacket(s).consumed >= 1)
  {
  }

  lemma NothingKeptWithoutBody(s: Bytes)
    requires Decode(s).Some? && (Decode(s).value.0 == 0 || Decode(s).value.1 + Decode(s).value.0 > |s|)
    ensures ReadPacket(s).reply.Err? && ReadPacket(s).consumed >= 1
  {
  }

  lemma WithBodyKeepsAll(lengthBytes: Bytes, packet: Bytes)
    ensures WithBody(lengthBytes, packet).reply.Ok? ==> WithBody(lengthBytes, packet).reply.value.0 == lengthBytes + packet
    ensures WithBody(lengthBytes, packet).consumed == |lengthBytes| + |packet|
  {
  }

  lemma CompletePacketIsRead(s: Bytes, n: nat, length: nat)
    requires Decode(s) == Some((length, n)) && length > 0 && n + length <= |s|
    ensures ReadPacket(s) == WithBody(s[..n], s[n..n + length])
  {
  }

  lemma CompletePacketIsKept(s: Bytes, n: nat, length: nat)
    requires n + length <= |s| && ReadPacket(s) == WithBody(s[..n], s[n..n + length])
    ensures ReadPacket(s).reply.Ok? ==> ReadPacket(s).reply.value.0 == s[..ReadPacket(s).consumed]
    ensures ReadPacket(s).consumed == n + length
  {
    var lengthBytes, packet := s[..n], s[n..n + length];
    CutTwice(s, n, length);
    WithBodyKeepsAll(lengthBytes, packet);
  }

  lemma ConsumedIsKept(s: Bytes)
    ensures ReadPacket(s).reply.Ok? ==> ReadPacket(s).reply.value.0 == s[..ReadPacket(s).consumed]
    ensures s != [] ==> ReadPacket(s).consumed >= 1
  {
    match Decode(s)
    case None => NothingKeptWithoutLength(s);
    case Some((length, n)) =>
      if length == 0 || n + length > |s| {
        NothingKeptWithoutBody(s);
      } else {
        CompletePacketIsRead(s, n, length);
        CompletePacketIsKept(s, n, length);
      }
  }

  /** The kept bytes followed by the unread ones are the stream exactly when the handshake parses, or there was nothing
      to read: after an error the bytes already consumed are gone. */
  lemma KeptPlusUnreadIsStreamIff(s: Bytes)
    ensures Kept(ReadPacket(s)) + s[ReadPacket(s).consumed..] == s <==> ReadPacket(s).reply.Ok? || s == []
  {
    ConsumedIsKept(s);
    CutAndJoin(s, ReadPacket(s).consumed);
  }

  lemma CutAndJoin(s: Bytes, n: nat)
    requires n <= |s|
    ensures s[..n] + s[n..] == s
    ensures [] + s[n..] == s <==> n == 0
  {
    assert |[] + s[n..]| == |s| - n;
    if n == 0 {
      assert s[0..] == s && [] + s == s;
    }
  }

  /** Bytes that arrive later do not change a reading that succeeds. */
  lemma LaterBytesDoNotMatter(s: Bytes, later: Bytes)
    requires ReadPacket(s).reply.Ok?
    ensures ReadPacket(s + later) == ReadPacket(s)
  {
    var (length, n) := Decode(s).value;
    DecodePrefix(s, later);
    SameBody(s, later, n, length);
  }

  lemma SameBody(s: Bytes, later: Bytes, n: nat, length: nat)
    requires n + length <= |s|
    ensures AfterBody(s + later, n, length) == AfterBody(s, n, length)
  {
    assert (s + later)[n..n + length] == s[n..n + length];
    assert (s + later)[..n] == s[..n];
  }

  lemma DecodePrefix(s: Bytes, later: Bytes)
    requires Decode(s).Some?
    ensures Decode(s + later) == Decode(s)
  {
    var n := Decode(s).value.1;
    forall i | 0 <= i < n - 1 ensures (s + later)[i] >= 128 {
      assert (s + later)[i] == s[i];
    }
    EndsHere(s + later, n);
    assert (s + later)[..n] == s[..n];
  }

  // ---- the layout of a handshake ----

  /** Where the pieces of a packet body end: packet id, protocol version, host size, host, next state. The two port bytes
      stand between host and next state; what follows the next state is not looked at. */
  datatype Cuts = Cuts(id: nat, version: nat, size: nat, host: nat, next: nat)

  predicate InBounds(packet: Bytes, k: Cuts) {
    k.id <= k.version <= k.size <= k.host && k.host + 2 <= k.next <= |packet|
  }

  predicate AddressLaidOut(packet: Bytes, k: Cuts) {
    && InBounds(packet, k)
    && IsInt(packet[k.version..k.size]) && Base128(packet[k.version..k.size]) == k.host - k.size
    && IsInt(packet[k.host + 2..k.next])
  }

  /** Integers in their places, id 0, and a host as long as announced. */
  predicate LaidOut(packet: Bytes, k: Cuts) {
    && AddressLaidOut(packet, k)
    && IsInt(packet[0..k.id]) && Base128(packet[0..k.id]) == 0
    && IsInt(packet[k.id..k.version])
  }

  function HostAndPort(packet: Bytes, k: Cuts): (Bytes, nat)
    requires InBounds(packet, k)
  {
    (packet[k.size..k.host], BigEndian16(packet[k.host], packet[k.host + 1]))
  }

  /** There is an integer between two positions exactly when the parser finds one there. */
  lemma IntAtIff(packet: Bytes, cursor: nat, v: nat, c: nat)
    requires cursor <= c <= |packet|
    ensures IntAt(packet, cursor) == Some((v, c)) <==> IsInt(packet[cursor..c]) && v == Base128(packet[cursor..c])
  {
    assert packet[cursor..c] == packet[cursor..][..c - cursor];
    DecodeIff(packet[cursor..], v, c - cursor);
  }

  lemma HostIsParsed(packet: Bytes, k: Cuts)
    requires AddressLaidOut(packet, k)
    ensures StringAt(packet, k.version) == Some((packet[k.size..k.host], k.host))
  {
    IntAtIff(packet, k.version, k.host - k.size, k.size);
  }

  lemma AddressIsParsed(packet: Bytes, k: Cuts)
    requires AddressLaidOut(packet, k)
    ensures ParseAddress(packet, k.version) == Ok(HostAndPort(packet, k))
  {
    HostIsParsed(packet, k);
    IntAtIff(packet, k.host + 2, Base128(packet[k.host + 2..k.next]), k.next);
  }

  lemma LaidOutIsParsed(packet: Bytes, k: Cuts)
    requires LaidOut(packet, k)
    ensures ParseFields(packet) == Ok(HostAndPort(packet, k))
  {
    IntAtIff(packet, 0, 0, k.id);
    IntAtIff(packet, k.id, Base128(packet[k.id..k.version]), k.version);
    AddressIsParsed(packet, k);
  }

  lemma IntIsLaidOut(packet: Bytes, cursor: nat) returns (v: nat, c: nat)
    requires cursor <= |packet| && IntAt(packet, cursor).Some?
    ensures IntAt(packet, cursor) == Some((v, c)) && cursor <= c <= |packet|
    ensures IsInt(packet[cursor..c]) && v == Base128(packet[cursor..c])
  {
    v, c := IntAt(packet, cursor).value.0, IntAt(packet, cursor).value.1;
    IntAtIff(packet, cursor, v, c);
  }

  lemma AddressIsLaidOut(packet: Bytes, id: nat, version: nat) returns (k: Cuts)
    requires id <= version <= |packet| && ParseAddress(packet, version).Ok?
    ensures AddressLaidOut(packet, k) && k.id == id && k.version == version
  {
    var size, from := IntIsLaidOut(packet, version);
    var next, end := IntIsLaidOut(packet, from + size + 2);
    k := Cuts(id, version, from, from + size, end);
  }

  lemma ParsedIsLaidOut(packet: Bytes) returns (k: Cuts)
    requires ParseFields(packet).Ok?
    ensures LaidOut(packet, k)
  {
    var v, c := IntIsLaidOut(packet, 0);
    var v', c' := IntIsLaidOut(packet, c);
    k := AddressIsLaidOut(packet, c, c');
  }

  /** A body parses to a handshake exactly when it can be cut into the pieces of one: the parser accepts every such
      body, nothing else, and reads no body in two ways. */
  lemma ParsesIffLaidOut(packet: Bytes, host: Bytes, port: nat)
    ensures ParseFields(packet) == Ok((host, port)) <==> exists k :: LaidOut(packet, k) && HostAndPort(packet, k) == (host, port)
  {
    if ParseFields(packet) == Ok((host, port)) {
      var k := ParsedIsLaidOut(packet);
      LaidOutIsParsed(packet, k);
      assert LaidOut(packet, k) && HostAndPort(packet, k) == (host, port);
    }
    forall k | LaidOut(packet, k) && HostAndPort(packet, k) == (host, port) ensures ParseFields(packet) == Ok((host, port)) {
      LaidOutIsParsed(packet, k);
    }
  }

  // ---- round trip ----

  function EncodeString(value: Bytes): Bytes {
    Encode(|value|) + value
  }

  function Body(host: Bytes, port: nat, version: nat, nextState: nat): Bytes
    requires port < 65536
  {
    Encode(0) + (Encode(version) + Tail(host, port, nextState))
  }

  function Packet(host: Bytes, port: nat, version: nat, nextState: nat): Bytes
    requires port < 65536
  {
    var body := Body(host, port, version, nextState);
    Encode(|body|) + body
  }

  lemma IntAtEncoding(packet: Bytes, cursor: nat, v: nat, rest: Bytes)
    requires cursor <= |packet| && packet[cursor..] == Encode(v) + rest && v < LIMIT
    ensures IntAt(packet, cursor) == Some((v, cursor + |Encode(v)|))
    ensures packet[cursor + |Encode(v)|..] == rest
  {
    RoundTrip(v, rest);
    assert packet[cursor + |Encode(v)|..] == packet[cursor..][|Encode(v)|..];
  }

  lemma StringAtEncoding(packet: Bytes, cursor: nat, value: Bytes, rest: Bytes)
    requires cursor <= |packet| && packet[cursor..] == EncodeString(value) + rest && |value| < LIMIT
    ensures StringAt(packet, cursor) == Some((value, cursor + |EncodeString(value)|))
    ensures packet[cursor + |EncodeString(value)|..] == rest
  {
    assert EncodeString(value) + rest == Encode(|value|) + (value + rest);
    IntAtEncoding(packet, cursor, |value|, value + rest);
    var from := cursor + |Encode(|value|)|;
    assert packet[from..] == value + rest;
    assert packet[from..from + |value|] == packet[from..][..|value|];
    assert packet[from + |value|..] == packet[from..][|value|..];
  }

  function Tail(host: Bytes, port: nat, nextState: nat): Bytes
    requires port < 65536
  {
    EncodeString(host) + ([port / 256, port % 256] + Encode(nextState))
  }

  lemma PortAndState(packet: Bytes, c: nat, port: nat, nextState: nat)
    requires port < 65536 && nextState < LIMIT
    requires c <= |packet| && packet[c..] == [port / 256, port % 256] + Encode(nextState)
    ensures c + 2 <= |packet| && BigEndian16(packet[c], packet[c + 1]) == port
    ensures IntAt(packet, c + 2).Some?
  {
    var last := packet[c..];
    assert packet[c] == last[0] && packet[c + 1] == last[1];
    assert packet[c + 2..] == last[2..] == Encode(nextState) + [];
    IntAtEncoding(packet, c + 2, nextState, []);
  }

  lemma AddressOfTail(packet: Bytes, cursor: nat, host: Bytes, port: nat, nextState: nat)
    requires port < 65536 && nextState < LIMIT && |host| < LIMIT
    requires cursor <= |packet| && packet[cursor..] == Tail(host, port, nextState)
    ensures ParseAddress(packet, cursor) == Ok((host, port))
  {
    StringAtEncoding(packet, cursor, host, [port / 256, port % 256] + Encode(nextState));
    PortAndState(packet, cursor + |EncodeString(host)|, port, nextState);
  }

  lemma FieldsOfBody(host: Bytes, port: nat, version: nat, nextState: nat)
    requires port < 65536 && version < LIMIT && nextState < LIMIT && |host| < LIMIT
    ensures ParseFields(Body(host, port, version, nextState)) == Ok((host, port))
  {
    var packet := Body(host, port, version, nextState);
    var tail := Tail(host, port, nextState);
    assert packet[0..] == Encode(0) + (Encode(version) + tail);
    IntAtEncoding(packet, 0, 0, Encode(version) + tail);
    IntAtEncoding(packet, |Encode(0)|, version, tail);
    AddressOfTail(packet, |Encode(0)| + |Encode(version)|, host, port, nextState);
  }

  /** Reading an encoded handshake followed by any bytes returns exactly that packet, its port and the normalised host, and
      leaves exactly those bytes. */
  lemma ReadingInvertsEncoding(host: Bytes, port: nat, version: nat, nextState: nat, rest: Bytes)
    requires port < 65536 && version < LIMIT && nextState < LIMIT
    requires |Body(host, port, version, nextState)| < LIMIT
    ensures var packet := Packet(host, port, version, nextState);
            && ReadPacket(packet + rest) == Reading(Ok((packet, Handshake(NormalizeHostname(host), port))), |packet|)
            && (packet + rest)[|packet|..] == rest
  {
    var body := Body(host, port, version, nextState);
    var packet := Packet(host, port, version, nextState);
    var n := |Encode(|body|)|;
    assert packet + rest == Encode(|body|) + (body + rest);
    RoundTrip(|body|, body + rest);
    EncodingDenotes(0);
    assert (packet + rest)[n..n + |body|] == body && (packet + rest)[..n] == Encode(|body|);
    FieldsOfBody(host, port, version, nextState);
  }
}
