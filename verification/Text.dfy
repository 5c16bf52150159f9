/** Decimal numbers, dotted addresses and subnets as the text the system stores and compares. */
module Text {
  import opened Wrappers

  predicate IsDigit(c: char) { '0' <= c <= '9' }

  function DigitChar(d: nat): (c: char)
    requires d < 10
    ensures IsDigit(c) && DigitValue(c) == d
  {
    ('0' as int + d) as char
  }

  function DigitValue(c: char): nat
    requires IsDigit(c)
  {
    c as int - '0' as int
  }

  predicate AllDigits(s: string) { forall i :: 0 <= i < |s| ==> IsDigit(s[i]) }

  function Decimal(n: nat): string {
    if n < 10 then [DigitChar(n)] else Decimal(n / 10) + [DigitChar(n % 10)]
  }

  function DecimalValue(s: string): nat
    requires AllDigits(s)
  {
    if s == "" then 0 else 10 * DecimalValue(s[..|s| - 1]) + DigitValue(s[|s| - 1])
  }

  /** Printing has a left inverse, uses digits only and never pads with zeros. */
  lemma {:induction false} DecimalRoundTrip(n: nat)
    ensures Decimal(n) != "" && AllDigits(Decimal(n)) && DecimalValue(Decimal(n)) == n
    ensures n > 0 ==> Decimal(n)[0] != '0'
    ensures |Decimal(n)| > 1 ==> n > 0
  {
    if n < 10 {
      assert DecimalValue("") == 0;
    } else {
      DecimalRoundTrip(n / 10);
      assert Decimal(n)[..|Decimal(n)| - 1] == Decimal(n / 10);
    }
  }

  lemma DecimalInjective(m: nat, n: nat)
    requires Decimal(m) == Decimal(n)
    ensures m == n
  {
    DecimalRoundTrip(m);
    DecimalRoundTrip(n);
  }

  // ---- splitting at a separator ----

  function Split(s: string, separator: char): (fields: seq<string>)
    ensures |fields| >= 1
  {
    if s == "" then [""]
    else if s[0] == separator then [""] + Split(s[1..], separator)
    else
      var rest := Split(s[1..], separator);
      [[s[0]] + rest[0]] + rest[1..]
  }

  lemma {:induction false} SplitField(field: string, separator: char, rest: string)
    requires separator !in field
    ensures Split(field, separator) == [field]
    ensures Split(field + [separator] + rest, separator) == [field] + Split(rest, separator)
  {
    var whole := field + [separator] + rest;
    if field == "" {
      assert whole[1..] == rest;
    } else {
      SplitField(field[1..], separator, rest);
      assert whole[1..] == field[1..] + [separator] + rest;
      assert field == [field[0]] + field[1..];
    }
  }

  lemma DecimalHasNo(n: nat, c: char)
    requires !IsDigit(c)
    ensures c !in Decimal(n)
  {
    DecimalRoundTrip(n);
  }

  // ---- internal addresses ----

  const ADDRESSES_PER_PROXY: nat := 65536

  function Dotted(a: nat, b: nat, c: nat, d: nat): string {
    Decimal(a) + "." + (Decimal(b) + "." + (Decimal(c) + "." + Decimal(d)))
  }

  lemma DottedFields(a: nat, b: nat, c: nat, d: nat)
    ensures Split(Dotted(a, b, c, d), '.') == [Decimal(a), Decimal(b), Decimal(c), Decimal(d)]
  {
    DecimalHasNo(a, '.');
    DecimalHasNo(b, '.');
    DecimalHasNo(c, '.');
    DecimalHasNo(d, '.');
    SplitField(Decimal(d), '.', "");
    SplitField(Decimal(c), '.', Decimal(d));
    SplitField(Decimal(b), '.', Decimal(c) + "." + Decimal(d));
    SplitField(Decimal(a), '.', Decimal(b) + "." + (Decimal(c) + "." + Decimal(d)));
  }

  /** The script's text for the n-th allocation of proxy number p. */
  function ScriptAddress(p: nat, n: nat): string {
    Dotted(10, p, (n / 256) % 256, n % 256)
  }

  /** The Go formula, with its argument checks. */
  function CounterToInternalIP(proxyNum: int, counter: int): Result<string> {
    if proxyNum <= 0 || proxyNum >= 255 then Err("invalid proxy number")
    else if counter <= 0 then Err("counter must be positive")
    else Ok(Dotted(10, proxyNum, (counter / 256) % 256, counter % 256))
  }

  lemma TwoOctets(n: nat)
    ensures n % ADDRESSES_PER_PROXY == 256 * ((n / 256) % 256) + n % 256
  {
  }

  /** Two allocations print the same address exactly when they belong to the same proxy number and
      lie a multiple of 65536 apart. */
  lemma AddressTextEqualIff(p: nat, n: nat, q: nat, m: nat)
    ensures ScriptAddress(p, n) == ScriptAddress(q, m)
       <==> p == q && n % ADDRESSES_PER_PROXY == m % ADDRESSES_PER_PROXY
  {
    DottedFields(10, p, (n / 256) % 256, n % 256);
    DottedFields(10, q, (m / 256) % 256, m % 256);
    TwoOctets(n);
    TwoOctets(m);
    if ScriptAddress(p, n) == ScriptAddress(q, m) {
      DecimalInjective(p, q);
      DecimalInjective((n / 256) % 256, (m / 256) % 256);
      DecimalInjective(n % 256, m % 256);
    }
  }

  /** The address determines the proxy number and, among the first 65536 allocations, the counter value. */
  lemma AddressDeterminesAllocation(p: nat, n: nat, q: nat, m: nat)
    requires ScriptAddress(p, n) == ScriptAddress(q, m)
    ensures p == q
    ensures 1 <= n <= ADDRESSES_PER_PROXY && 1 <= m <= ADDRESSES_PER_PROXY ==> n == m
  {
    AddressTextEqualIff(p, n, q, m);
    if 1 <= n <= ADDRESSES_PER_PROXY && 1 <= m <= ADDRESSES_PER_PROXY {
      SmallModulo(n);
      SmallModulo(m);
    }
  }

  lemma SmallModulo(n: nat)
    requires 1 <= n <= ADDRESSES_PER_PROXY
    ensures n % ADDRESSES_PER_PROXY == if n == ADDRESSES_PER_PROXY then 0 else n
  {
  }

  /** The Go helper answers exactly the script's address, and errs exactly outside 1..254 and n >= 1. */
  lemma GoFormulaAgreesWithScript(p: int, n: int)
    ensures CounterToInternalIP(p, n).Ok? <==> 1 <= p <= 254 && n >= 1
    ensures 1 <= p <= 254 && n >= 1 ==> CounterToInternalIP(p, n) == Ok(ScriptAddress(p, n))
  {
  }

  // ---- proxy subnets ----

  /** fmt.Sprintf("10.%d.0.0/16", slot). */
  function SubnetText(slot: nat): string {
    Dotted(10, slot, 0, 0) + "/16"
  }

  /** One dotted-decimal field: digits, no leading zero, at most 255. */
  function ParseOctet(field: string): Option<nat> {
    if field == "" || !AllDigits(field) then None
    else if |field| > 1 && field[0] == '0' then None
    else if DecimalValue(field) > 255 then None
    else Some(DecimalValue(field))
  }

  function ParseIPv4(s: string): Option<(nat, nat, nat, nat)> {
    var fields := Split(s, '.');
    if |fields| != 4 then None
    else match (ParseOctet(fields[0]), ParseOctet(fields[1]), ParseOctet(fields[2]), ParseOctet(fields[3]))
      case (Some(a), Some(b), Some(c), Some(d)) => Some((a, b, c, d))
      case _ => None
  }

  /** The part of net.ParseCIDR that an IPv4 subnet can reach; the length may carry leading zeros.
      Any other notation ends in an error of the caller anyway, because its mask is not 32 bits wide. */
  function ParseCidr(s: string): Option<((nat, nat, nat, nat), nat)> {
    var parts := Split(s, '/');
    if |parts| != 2 || parts[1] == "" || !AllDigits(parts[1]) || DecimalValue(parts[1]) > 32 then None
    else match ParseIPv4(parts[0])
      case Some(ip) => Some((ip, DecimalValue(parts[1])))
      case None => None
  }

  function ProxyNumFromSubnet(subnet: string): Result<nat> {
    match ParseCidr(subnet)
    case None => Err("parse subnet")
    case Some(((a, b, c, d), ones)) =>
      if ones != 16 then Err("subnet must be /16")
      else if a != 10 || c != 0 || d != 0 then Err("subnet must match 10.<n>.0.0/16")
      else if b == 0 || b == 255 then Err("invalid proxy slot")
      else Ok(b)
  }

  lemma ParseOctetOfDecimal(n: nat)
    ensures ParseOctet(Decimal(n)) == if n <= 255 then Some(n) else None
  {
    DecimalRoundTrip(n);
  }

  lemma DottedHasNo(a: nat, b: nat, c: nat, d: nat, other: char)
    requires !IsDigit(other) && other != '.'
    ensures other !in Dotted(a, b, c, d)
  {
    DecimalHasNo(a, other);
    DecimalHasNo(b, other);
    DecimalHasNo(c, other);
    DecimalHasNo(d, other);
  }

  lemma ParseIPv4OfDotted(a: nat, b: nat, c: nat, d: nat)
    requires a <= 255 && c <= 255 && d <= 255
    ensures ParseIPv4(Dotted(a, b, c, d)) == if b <= 255 then Some((a, b, c, d)) else None
  {
    DottedFields(a, b, c, d);
    ParseOctetOfDecimal(a);
    ParseOctetOfDecimal(b);
    ParseOctetOfDecimal(c);
    ParseOctetOfDecimal(d);
  }

  lemma SubnetParts(slot: nat)
    ensures Split(SubnetText(slot), '/') == [Dotted(10, slot, 0, 0), "16"]
    ensures AllDigits("16") && DecimalValue("16") == 16
  {
    var address := Dotted(10, slot, 0, 0);
    DottedHasNo(10, slot, 0, 0, '/');
    SplitField(address, '/', "16");
    SplitField("16", '/', "");
    assert SubnetText(slot) == address + ['/'] + "16";
    assert "16"[..1] == "1" && "1"[..0] == "";
  }

  /** Parsing a printed subnet gives the slot back for 1..254 and is refused for every other slot. */
  lemma SubnetRoundTrip(slot: nat)
    ensures 1 <= slot <= 254 ==> ProxyNumFromSubnet(SubnetText(slot)) == Ok(slot)
    ensures !(1 <= slot <= 254) ==> ProxyNumFromSubnet(SubnetText(slot)).Err?
  {
    SubnetParts(slot);
    ParseIPv4OfDotted(10, slot, 0, 0);
  }

  lemma SubnetTextsDiffer(a: nat, b: nat)
    requires 1 <= a <= 254 && 1 <= b <= 254 && a != b
    ensures SubnetText(a) != SubnetText(b)
  {
    SubnetRoundTrip(a);
    SubnetRoundTrip(b);
  }

  /** Read as four octets, the n-th address of a proxy lies in that proxy's subnet and its low half is the counter. */
  lemma AddressDenotesCounter(p: nat, n: nat)
    requires p <= 255
    ensures ParseIPv4(ScriptAddress(p, n)).Some?
    ensures var (a, b, c, d) := ParseIPv4(ScriptAddress(p, n)).value;
            a == 10 && b == p && 256 * c + d == n % ADDRESSES_PER_PROXY
  {
    ParseIPv4OfDotted(10, p, (n / 256) % 256, n % 256);
    TwoOctets(n);
  }

  // ---- exactly which subnets are accepted ----

  function Join(fields: seq<string>, separator: char): string
    requires fields != []
  {
    if |fields| == 1 then fields[0] else fields[0] + [separator] + Join(fields[1..], separator)
  }

  lemma JoinLongerHead(c: char, fields: seq<string>, separator: char)
    requires fields != []
    ensures Join([[c] + fields[0]] + fields[1..], separator) == [c] + Join(fields, separator)
  {
    var longer := [[c] + fields[0]] + fields[1..];
    assert longer[1..] == fields[1..];
    if |fields| > 1 {
      var rest := Join(fields[1..], separator);
      assert ([c] + fields[0]) + [separator] + rest == [c] + (fields[0] + [separator] + rest);
    }
  }

  lemma {:induction false} JoinOfSplit(s: string, separator: char)
    ensures Join(Split(s, separator), separator) == s
  {
    if s != "" {
      var rest := Split(s[1..], separator);
      JoinOfSplit(s[1..], separator);
      if s[0] == separator {
        assert ([""] + rest)[1..] == rest;
        assert Join([""] + rest, separator) == "" + [separator] + Join(rest, separator);
      } else {
        JoinLongerHead(s[0], rest, separator);
      }
    }
  }

  function Zeros(k: nat): string {
    seq(k, _ => '0')
  }

  lemma {:induction false} PositiveValue(s: string)
    requires AllDigits(s) && s != "" && s[0] != '0'
    ensures DecimalValue(s) > 0
  {
    if |s| == 1 {
      assert s[..0] == "";
    } else {
      PositiveValue(s[..|s| - 1]);
    }
  }

  lemma AppendDigit(v: nat, c: char)
    requires v > 0 && IsDigit(c)
    ensures Decimal(10 * v + DigitValue(c)) == Decimal(v) + [c]
  {
    var n := 10 * v + DigitValue(c);
    assert n / 10 == v && n % 10 == DigitValue(c);
    assert DigitChar(DigitValue(c)) == c;
  }

  /** Digits without a leading zero are the printed form of their value. */
  lemma {:induction false} DigitsArePrinted(s: string)
    requires AllDigits(s) && s != "" && (|s| > 1 ==> s[0] != '0')
    ensures Decimal(DecimalValue(s)) == s
  {
    var front, last := s[..|s| - 1], s[|s| - 1];
    assert s == front + [last];
    if front == "" {
      assert DecimalValue(front) == 0;
    } else {
      DigitsArePrinted(front);
      PositiveValue(front);
      AppendDigit(DecimalValue(front), last);
    }
  }

  lemma {:induction false} ZerosDoNotCount(k: nat, s: string)
    requires AllDigits(s)
    ensures AllDigits(Zeros(k) + s) && DecimalValue(Zeros(k) + s) == DecimalValue(s)
    decreases |s|
  {
    if s == "" {
      assert Zeros(k) + s == Zeros(k);
      AllZeros(k);
    } else {
      ZerosDoNotCount(k, s[..|s| - 1]);
      assert (Zeros(k) + s)[..|Zeros(k) + s| - 1] == Zeros(k) + s[..|s| - 1];
    }
  }

  lemma {:induction false} AllZeros(k: nat)
    ensures DecimalValue(Zeros(k)) == 0
  {
    if k > 0 {
      AllZeros(k - 1);
      assert Zeros(k)[..k - 1] == Zeros(k - 1);
    }
  }

  lemma {:induction false} LeadingZeros(s: string) returns (k: nat)
    ensures k <= |s| && s[..k] == Zeros(k) && (k < |s| ==> s[k] != '0')
  {
    if s == "" || s[0] != '0' {
      k := 0;
    } else {
      var m := LeadingZeros(s[1..]);
      k := m + 1;
      assert s[..k] == ['0'] + s[1..][..m];
    }
  }

  lemma SixteenIsPrinted()
    ensures Decimal(16) == "16" && AllDigits("16") && DecimalValue("16") == 16
  {
    assert "16"[..1] == "1" && "1"[..0] == "";
    assert Decimal(1) == "1" && Decimal(16) == Decimal(1) + "6";
  }

  /** Digits denote 16 exactly when they are zeros and then "16". */
  lemma SixteenIff(s: string)
    ensures AllDigits(s) && DecimalValue(s) == 16 <==> exists k :: s == Zeros(k) + "16"
  {
    SixteenIsPrinted();
    if AllDigits(s) && DecimalValue(s) == 16 {
      var k := LeadingZeros(s);
      assert s == Zeros(k) + s[k..];
      ZerosDoNotCount(k, s[k..]);
      assert s[k..] != "";
      DigitsArePrinted(s[k..]);
    }
    if k :| s == Zeros(k) + "16" {
      ZerosDoNotCount(k, "16");
    }
  }

  lemma OctetIsPrinted(field: string)
    requires ParseOctet(field).Some?
    ensures field == Decimal(ParseOctet(field).value)
  {
    DigitsArePrinted(field);
  }

  lemma AddressIsPrinted(s: string)
    requires ParseIPv4(s).Some?
    ensures var (a, b, c, d) := ParseIPv4(s).value; s == Dotted(a, b, c, d)
  {
    var f := Split(s, '.');
    JoinOfSplit(s, '.');
    OctetIsPrinted(f[0]);
    OctetIsPrinted(f[1]);
    OctetIsPrinted(f[2]);
    OctetIsPrinted(f[3]);
    assert f[1..][1..] == f[2..] && f[2..][1..] == f[3..];
    assert Join(f[3..], '.') == f[3];
    assert Join(f[2..], '.') == f[2] + "." + f[3];
    assert Join(f[1..], '.') == f[1] + "." + (f[2] + "." + f[3]);
    assert Join(f, '.') == f[0] + "." + (f[1] + "." + (f[2] + "." + f[3]));
  }

  lemma AddressParsesIff(s: string, p: nat)
    requires 1 <= p <= 254
    ensures ParseIPv4(s) == Some((10, p, 0, 0)) <==> s == Dotted(10, p, 0, 0)
  {
    ParseIPv4OfDotted(10, p, 0, 0);
    if ParseIPv4(s) == Some((10, p, 0, 0)) {
      AddressIsPrinted(s);
    }
  }

  lemma CidrParts(subnet: string, address: string, mask: string)
    requires '/' !in address && '/' !in mask
    ensures Split(subnet, '/') == [address, mask] <==> subnet == address + "/" + mask
  {
    SplitField(address, '/', mask);
    SplitField(mask, '/', "");
    if Split(subnet, '/') == [address, mask] {
      JoinOfSplit(subnet, '/');
      assert [address, mask][1..] == [mask];
    }
  }

  /** A subnet is accepted with this number exactly when it is the printed network address, a slash, any zeros and "16". */
  lemma AcceptedSubnetIff(subnet: string, p: nat)
    ensures ProxyNumFromSubnet(subnet) == Ok(p)
       <==> 1 <= p <= 254 && exists k :: subnet == Dotted(10, p, 0, 0) + "/" + (Zeros(k) + "16")
  {
    if ProxyNumFromSubnet(subnet) == Ok(p) {
      AcceptedIsPrinted(subnet, p);
    }
    if 1 <= p <= 254 {
      forall k | subnet == Dotted(10, p, 0, 0) + "/" + (Zeros(k) + "16") ensures ProxyNumFromSubnet(subnet) == Ok(p) {
        PrintedIsAccepted(subnet, p, Zeros(k) + "16");
      }
    }
  }

  lemma AcceptedIsPrinted(subnet: string, p: nat)
    requires ProxyNumFromSubnet(subnet) == Ok(p)
    ensures 1 <= p <= 254 && exists k :: subnet == Dotted(10, p, 0, 0) + "/" + (Zeros(k) + "16")
  {
    var parts := Split(subnet, '/');
    JoinOfSplit(subnet, '/');
    assert parts == [parts[0], parts[1]] && parts[1..] == [parts[1]];
    AddressParsesIff(parts[0], p);
    SixteenIff(parts[1]);
  }

  lemma PrintedIsAccepted(subnet: string, p: nat, mask: string)
    requires 1 <= p <= 254 && subnet == Dotted(10, p, 0, 0) + "/" + mask && exists k :: mask == Zeros(k) + "16"
    ensures ProxyNumFromSubnet(subnet) == Ok(p)
  {
    SixteenIff(mask);
    DottedHasNo(10, p, 0, 0, '/');
    CidrParts(subnet, Dotted(10, p, 0, 0), mask);
    AddressParsesIff(Dotted(10, p, 0, 0), p);
  }

  /** Decimal digits, most significant first. */
  lemma DecimalDigits(n: nat)
    ensures n < 10 ==> Decimal(n) == ["0123456789"[n]]
    ensures n >= 10 ==> Decimal(n) == Decimal(n / 10) + ["0123456789"[n % 10]]
  {
    var d := n % 10;
    assert DigitChar(d) == "0123456789"[d] by {
      assert "0123456789"[d] as int == '0' as int + d;
    }
  }

  lemma PrintedOctets()
    ensures Decimal(0) == "0" && Decimal(1) == "1" && Decimal(2) == "2" && Decimal(7) == "7" && Decimal(10) == "10"
    ensures Decimal(254) == "254" && Decimal(255) == "255"
  {
    assert Decimal(25) == "25" by { assert Decimal(2) == "2"; }
  }

  /** The printed forms, letter by letter. */
  lemma PrintedForms()
    ensures ScriptAddress(1, 258) == "10.1.1.2"
    ensures ScriptAddress(254, 65535) == "10.254.255.255"
    ensures SubnetText(7) == "10.7.0.0/16"
  {
    PrintedOctets();
    assert Dotted(10, 1, 1, 2) == "10.1.1.2";
    assert Dotted(10, 254, 255, 255) == "10.254.255.255";
    assert Dotted(10, 7, 0, 0) == "10.7.0.0";
  }
}
