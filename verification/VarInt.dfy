/** Bitwise operations on non-negative integers, digit by digit. */
module Bits {
  function Pow2(k: nat): (p: nat)
    ensures p >= 1
  {
    if k == 0 then 1 else 2 * Pow2(k - 1)
  }

  function And(a: nat, b: nat): nat
    decreases a
  {
    if a == 0 then 0 else 2 * And(a / 2, b / 2) + (a % 2) * (b % 2)
  }

  function Or(a: nat, b: nat): nat
    decreases a + b
  {
    if a == 0 && b == 0 then 0 else 2 * Or(a / 2, b / 2) + if a % 2 == 1 || b % 2 == 1 then 1 else 0
  }

  function ShiftLeft(a: nat, k: nat): nat {
    a * Pow2(k)
  }

  lemma {:induction false} OrZero(b: nat)
    ensures Or(0, b) == b
  {
    if b > 0 {
      OrZero(b / 2);
    }
  }

  lemma DoubleShift(v: nat, k: nat)
    requires k > 0
    ensures ShiftLeft(v, k) == 2 * ShiftLeft(v, k - 1)
  {
    assert v * (2 * Pow2(k - 1)) == 2 * (v * Pow2(k - 1));
  }

  /** OR-ing in a value shifted past all bits in use is addition. */
  lemma {:induction false} OrIsSum(a: nat, v: nat, k: nat)
    requires a < Pow2(k)
    ensures Or(a, ShiftLeft(v, k)) == a + ShiftLeft(v, k)
  {
    if k == 0 {
      OrZero(v);
    } else {
      DoubleShift(v, k);
      OrIsSum(a / 2, v, k - 1);
    }
  }

  /** The masks the decoders use. */
  lemma MasksOfByte(b: nat)
    requires b < 256
    ensures And(b, 0x7F) == b % 128
    ensures And(b, 0x80) == if b >= 128 then 128 else 0
  {
    LowMask(b, 7);
    OneBit(b, 7);
    assert Pow2(7) == 128 by {
      assert Pow2(4) == 16;
    }
    assert b / 128 < 2;
  }

  lemma {:induction false} LowMask(b: nat, k: nat)
    ensures And(b, Pow2(k) - 1) == b % Pow2(k)
  {
    if k == 0 {
      AndZero(b);
    } else if b > 0 {
      var p := Pow2(k - 1);
      var mask := 2 * p - 1;
      assert mask / 2 == p - 1 && mask % 2 == 1;
      LowMask(b / 2, k - 1);
      HalfMod(b, p);
      assert And(b, mask) == 2 * And(b / 2, p - 1) + b % 2;
    } else {
      assert 0 % Pow2(k) == 0;
    }
  }

  lemma {:induction false} AndZero(b: nat)
    ensures And(b, 0) == 0
  {
    if b > 0 {
      AndZero(b / 2);
    }
  }

  lemma HalfMod(b: nat, m: nat)
    requires m > 0
    ensures b % (2 * m) == 2 * ((b / 2) % m) + b % 2
    ensures b / (2 * m) == (b / 2) / m
  {
    var q, r := (b / 2) / m, (b / 2) % m;
    assert b == (2 * m) * q + (2 * r + b % 2) by {
      assert b / 2 == m * q + r;
      assert (2 * m) * q == 2 * (m * q);
    }
    DivModUnique(b, 2 * m, q, 2 * r + b % 2);
  }

  lemma DivModUnique(b: nat, m: nat, q: nat, r: nat)
    requires m > 0 && b == m * q + r && r < m
    ensures b / m == q && b % m == r
  {
    var d := b / m - q;
    assert m * (b / m) + b % m == b;
    assert m * d == r - b % m by {
      assert m * (b / m) - m * q == m * d;
    }
    assert d >= 1 ==> m * d >= m;
    assert d <= -1 ==> m * d + m <= 0;
  }

  lemma {:induction false} OneBit(b: nat, k: nat)
    ensures And(b, Pow2(k)) == Pow2(k) * ((b / Pow2(k)) % 2)
  {
    if b == 0 {
      assert 0 / Pow2(k) == 0;
    } else if k == 0 {
      AndZero(b / 2);
    } else {
      OneBit(b / 2, k - 1);
      HalfMod(b, Pow2(k - 1));
      assert Pow2(k) / 2 == Pow2(k - 1) && Pow2(k) % 2 == 0;
      assert Pow2(k) * ((b / Pow2(k)) % 2) == 2 * (Pow2(k - 1) * (((b / 2) / Pow2(k - 1)) % 2));
    }
  }
}

/** Variable-length integers: seven bits per byte, least significant first, at most five bytes. */
module VarInt {
  import opened Wrappers
  import opened Bits

  type Byte = b: int | 0 <= b < 256
  type Bytes = seq<Byte>

  const MAX_LENGTH: nat := 5

  /** 128 to the fifth: the first value that does not fit. */
  const LIMIT: nat := 0x8_0000_0000

  function Least(a: nat, b: nat): nat { if a < b then a else b }

  // ---- what a sequence of bytes denotes ----

  function Base128(raw: Bytes): nat {
    if raw == [] then 0 else raw[0] % 128 + 128 * Base128(raw[1..])
  }

  /** The length of the integer at the front: up to the first byte without continuation bit, if among the first `most`. */
  function Length(s: Bytes, most: nat): (n: Option<nat>)
    ensures n.Some? ==> 1 <= n.value <= most && n.value <= |s|
    decreases most
  {
    if s == [] || most == 0 then None
    else if s[0] < 128 then Some(1)
    else match Length(s[1..], most - 1)
      case None => None
      case Some(n) => Some(n + 1)
  }

  /** The integer at the front of the bytes and how many bytes it takes. */
  function Decode(s: Bytes): Option<(nat, nat)> {
    match Length(s, MAX_LENGTH)
    case None => None
    case Some(n) => Some((Base128(s[..n]), n))
  }

  function Encode(v: nat): Bytes {
    if v < 128 then [v] else [v % 128 + 128] + Encode(v / 128)
  }

  lemma {:induction false} Base128Append(raw: Bytes, b: Byte)
    ensures Base128(raw + [b]) == Base128(raw) + ShiftLeft(b % 128, 7 * |raw|)
  {
    if raw == [] {
      assert ([] + [b])[1..] == [];
      assert raw + [b] == [b];
    } else {
      Base128Append(raw[1..], b);
      assert (raw + [b])[1..] == raw[1..] + [b];
      Pow2Plus7(7 * |raw| - 7);
      var p := Pow2(7 * |raw| - 7);
      assert (b % 128) * (128 * p) == 128 * ((b % 128) * p);
    }
  }

  lemma Pow2Plus7(k: nat)
    ensures Pow2(k + 7) == 128 * Pow2(k)
  {
    assert Pow2(k + 7) == 2 * Pow2(k + 6) && Pow2(k + 6) == 2 * Pow2(k + 5) && Pow2(k + 5) == 2 * Pow2(k + 4);
    assert Pow2(k + 4) == 2 * Pow2(k + 3) && Pow2(k + 3) == 2 * Pow2(k + 2) && Pow2(k + 2) == 2 * Pow2(k + 1);
  }

  lemma {:induction false} Base128Bound(raw: Bytes)
    ensures Base128(raw) < Pow2(7 * |raw|)
  {
    if raw != [] {
      Base128Bound(raw[1..]);
      Pow2Plus7(7 * |raw| - 7);
    }
  }

  /** The step both decoders make: shift the low seven bits into place and OR them in. */
  lemma OrStepIsBase128(raw: Bytes, b: Byte)
    ensures Or(Base128(raw), ShiftLeft(And(b, 0x7F), 7 * |raw|)) == Base128(raw + [b])
    ensures And(b, 0x80) == 0 <==> b < 128
  {
    MasksOfByte(b);
    Base128Bound(raw);
    OrIsSum(Base128(raw), b % 128, 7 * |raw|);
    Base128Append(raw, b);
  }

  /** Every decoded value fits in 35 bits, so 64-bit arithmetic never overflows, and takes 1 to 5 bytes. */
  lemma DecodedIsSmall(s: Bytes)
    ensures Decode(s).Some? ==> Decode(s).value.0 < LIMIT && 1 <= Decode(s).value.1 <= MAX_LENGTH
  {
    if Decode(s).Some? {
      var n := Decode(s).value.1;
      Base128Bound(s[..n]);
      PowersOf128();
    }
  }

  lemma PowersOf128()
    ensures Pow2(7) == 0x80 && Pow2(14) == 0x4000 && Pow2(21) == 0x20_0000 && Pow2(28) == 0x1000_0000 && Pow2(35) == LIMIT
  {
    Pow2Plus7(0);
    Pow2Plus7(7);
    Pow2Plus7(14);
    Pow2Plus7(21);
    Pow2Plus7(28);
  }

  lemma {:induction false} EncodingDenotes(v: nat)
    ensures |Encode(v)| >= 1 && Base128(Encode(v)) == v
    ensures forall i :: 0 <= i < |Encode(v)| - 1 ==> Encode(v)[i] >= 128
    ensures Encode(v)[|Encode(v)| - 1] < 128
  {
    if v < 128 {
      assert Encode(v)[1..] == [];
    } else {
      EncodingDenotes(v / 128);
      assert Encode(v)[1..] == Encode(v / 128);
    }
  }

  lemma {:induction false} LengthOfEncoding(raw: Bytes, rest: Bytes, most: nat)
    requires |raw| >= 1 && raw[|raw| - 1] < 128 && forall i :: 0 <= i < |raw| - 1 ==> raw[i] >= 128
    ensures Length(raw + rest, most) == if |raw| <= most then Some(|raw|) else None
    decreases most
  {
    if most > 0 && |raw| > 1 {
      LengthOfEncoding(raw[1..], rest, most - 1);
      assert (raw + rest)[1..] == raw[1..] + rest;
    }
  }

  lemma {:induction false} EncodedSize(v: nat, n: nat)
    requires n >= 1
    ensures |Encode(v)| <= n <==> v < Pow2(7 * n)
    decreases n
  {
    Pow2Plus7(7 * n - 7);
    if n > 1 && v >= 128 {
      EncodedSize(v / 128, n - 1);
    } else if n > 1 {
      Pow2Plus7(7 * n - 14);
    } else if v >= 128 {
      EncodingDenotes(v / 128);
    }
  }

  /** Decoding an encoding followed by anything gives the value back below 2^35 and is refused from there on. */
  lemma RoundTrip(v: nat, rest: Bytes)
    ensures Decode(Encode(v) + rest) == if v < LIMIT then Some((v, |Encode(v)|)) else None
  {
    EncodingDenotes(v);
    LengthOfEncoding(Encode(v), rest, MAX_LENGTH);
    EncodedSize(v, MAX_LENGTH);
    PowersOf128();
    if |Encode(v)| <= MAX_LENGTH {
      assert (Encode(v) + rest)[..|Encode(v)|] == Encode(v);
    }
  }

  // ---- the two decoders ----

  datatype DecodeError = UnexpectedEof | TooLong

  /** A byte stream: what has arrived and is unread. Each read returns some non-empty part of it, of a size that
      `pieces` decides; reading at its end fails. */
  class Stream {
    var unread: Bytes
    var pieces: seq<nat>

    constructor (arrived: Bytes, pieces: seq<nat>)
      ensures unread == arrived && this.pieces == pieces
    {
      unread, this.pieces := arrived, pieces;
    }

    method Read(most: nat) returns (piece: Bytes)
      requires most > 0
      modifies this
      ensures piece + unread == old(unread) && |piece| <= most
      ensures old(unread) != [] ==> piece != []
    {
      var n := Least(most, |unread|);
      if pieces != [] {
        n := Least(n, pieces[0] + 1);
        pieces := pieces[1..];
      }
      piece := unread[..n];
      unread := unread[n..];
    }

    /** io.ReadFull: all of it or an error, however the reads are split. */
    method ReadFull(n: nat) returns (ok: bool, data: Bytes)
      modifies this
      ensures ok <==> n <= |old(unread)|
      ensures ok ==> data == old(unread)[..n] && unread == old(unread)[n..]
      ensures !ok ==> unread == []
    {
      data := [];
      while |data| < n
        invariant |data| <= n && data + unread == old(unread)
        decreases n - |data|
      {
        if unread == [] {
          return false, data;
        }
        var piece := this.Read(n - |data|);
        data := data + piece;
      }
      ok := true;
    }
  }

  lemma {:induction false} Unterminated(s: Bytes, most: nat)
    requires forall i :: 0 <= i < Least(most, |s|) ==> s[i] >= 128
    ensures Length(s, most) == None
    decreases most
  {
    if s != [] && most > 0 {
      Unterminated(s[1..], most - 1);
    }
  }

  method ReadVarInt(r: Stream) returns (value: nat, raw: Bytes, error: Option<DecodeError>)
    modifies r
    ensures match Decode(old(r.unread))
            case Some((v, n)) => error == None && value == v && raw == old(r.unread)[..n] && r.unread == old(r.unread)[n..]
            case None =>
              && error == Some(if |old(r.unread)| < MAX_LENGTH then UnexpectedEof else TooLong)
              && r.unread == old(r.unread)[Least(MAX_LENGTH, |old(r.unread)|)..]
  {
    ghost var all := r.unread;
    var numRead: nat := 0;
    value, raw := 0, [];
    while true
      invariant numRead <= MAX_LENGTH && numRead <= |all|
      invariant raw == all[..numRead] && r.unread == all[numRead..]
      invariant value == Base128(raw)
      invariant forall i :: 0 <= i < numRead ==> all[i] >= 128
      decreases MAX_LENGTH - numRead
    {
      if numRead >= MAX_LENGTH {
        Unterminated(all, MAX_LENGTH);
        return 0, [], Some(TooLong);
      }
      var ok, b := r.ReadFull(1);
      if !ok {
        Unterminated(all, MAX_LENGTH);
        return 0, [], Some(UnexpectedEof);
      }
      assert b == [all[numRead]];
      OrStepIsBase128(raw, b[0]);
      value := Or(value, ShiftLeft(And(b[0], 0x7F), 7 * numRead));
      raw := raw + b;
      numRead := numRead + 1;
      assert raw == all[..numRead];
      if And(b[0], 0x80) == 0 {
        EndsHere(all, numRead);
        return value, raw, None;
      }
    }
  }

  lemma EndsHere(s: Bytes, n: nat)
    requires 1 <= n <= |s| && n <= MAX_LENGTH && s[n - 1] < 128 && forall i :: 0 <= i < n - 1 ==> s[i] >= 128
    ensures Decode(s) == Some((Base128(s[..n]), n))
  {
    LengthOfEncoding(s[..n], s[n..], MAX_LENGTH);
    assert s == s[..n] + s[n..];
  }

  /** Bytes that are one integer: at most five, and all but the last have the continuation bit. */
  predicate IsInt(raw: Bytes) {
    1 <= |raw| <= MAX_LENGTH && raw[|raw| - 1] < 128 && forall i :: 0 <= i < |raw| - 1 ==> raw[i] >= 128
  }

  lemma {:induction false} LengthIsIntLength(s: Bytes, most: nat)
    ensures Length(s, most).Some? ==>
              var n := Length(s, most).value; s[n - 1] < 128 && forall i :: 0 <= i < n - 1 ==> s[i] >= 128
    decreases most
  {
    if s != [] && most > 0 && s[0] >= 128 {
      LengthIsIntLength(s[1..], most - 1);
      if Length(s, most).Some? {
        var n := Length(s, most).value;
        assert forall i :: 1 <= i < n ==> s[i] == s[1..][i - 1];
      }
    }
  }

  /** The decoder finds an integer at the front exactly when the bytes begin with one, and then yields its value and
      its length. */
  lemma DecodeIff(s: Bytes, v: nat, n: nat)
    ensures Decode(s) == Some((v, n)) <==> n <= |s| && IsInt(s[..n]) && v == Base128(s[..n])
  {
    LengthIsIntLength(s, MAX_LENGTH);
    if n <= |s| && IsInt(s[..n]) {
      assert forall i :: 0 <= i < n ==> s[i] == s[..n][i];
      EndsHere(s, n);
    }
  }

  method ParseVarInt(packet: Bytes, start: nat) returns (value: nat, cursor: nat, error: Option<DecodeError>)
    requires start <= |packet|
    ensures start <= cursor <= |packet|
    ensures match Decode(packet[start..])
            case Some((v, n)) => error == None && value == v && cursor == start + n
            case None =>
              && error == Some(if |packet| - start <= MAX_LENGTH then UnexpectedEof else TooLong)
              && cursor == start + Least(MAX_LENGTH, |packet| - start)
  {
    ghost var all := packet[start..];
    var numRead: nat := 0;
    value, cursor := 0, start;
    while true
      invariant cursor == start + numRead <= |packet| && numRead <= MAX_LENGTH
      invariant value == Base128(all[..numRead])
      invariant forall i :: 0 <= i < numRead ==> all[i] >= 128
      decreases MAX_LENGTH - numRead
    {
      if cursor >= |packet| {
        Unterminated(all, MAX_LENGTH);
        return 0, cursor, Some(UnexpectedEof);
      }
      if numRead >= MAX_LENGTH {
        Unterminated(all, MAX_LENGTH);
        return 0, cursor, Some(TooLong);
      }
      var b := packet[cursor];
      assert b == all[numRead] && all[..numRead + 1] == all[..numRead] + [b];
      OrStepIsBase128(all[..numRead], b);
      cursor := cursor + 1;
      value := Or(value, ShiftLeft(And(b, 0x7F), 7 * numRead));
      numRead := numRead + 1;
      if And(b, 0x80) == 0 {
        EndsHere(all, numRead);
        return value, cursor, None;
      }
    }
  }

  /** The vectors of the protocol's documentation, byte for byte, and the first value and length that are refused. */
  lemma Vectors()
    ensures Encode(0) == [0x00] && Encode(127) == [0x7F] && Encode(128) == [0x80, 0x01] && Encode(25565) == [0xDD, 0xC7, 0x01]
    ensures MAX_LENGTH == 5 && LIMIT == 0x8_0000_0000
    ensures Decode([0xDD, 0xC7, 0x01]) == Some((25565, 3))
    ensures Decode([0x80, 0x80, 0x80, 0x80, 0x80, 0x01]) == None
  {
    assert Encode(25565) == [0xDD] + Encode(199);
    assert Encode(25565) + [] == [0xDD, 0xC7, 0x01];
    RoundTrip(25565, []);
    Unterminated([0x80, 0x80, 0x80, 0x80, 0x80, 0x01], 5);
  }
}
