// The address form of section 5 of RFC 1928, shared by requests, replies and datagrams.

module SocksAddress {
  import opened Words
  import opened Cidr

  const ATYP_IPV4: byte := 1
  const ATYP_DOMAIN: byte := 3
  const ATYP_IPV6: byte := 4

  /** A host as Go reads it: a parsed net.IP is always held in sixteen bytes, anything else is a name. */
  datatype Host = Ip(bytes: seq<byte>) | Name(name: seq<byte>)

  datatype Address = Address(host: Host, port: nat)

  ghost predicate IsAddress(a: Address)
  {
    a.port < 0x1_0000 && (a.host.Ip? ==> |a.host.bytes| == 16)
  }

  function Port(p: nat): (b: seq<byte>)
    ensures |b| == 2
  {
    [(p / 256) % 256, p % 256]
  }

  function PortValue(b: seq<byte>): nat
    requires |b| == 2
  {
    var hi: int := b[0];
    hi * 256 + b[1]
  }

  lemma PortRoundTrip(p: nat)
    requires p < 0x1_0000
    ensures PortValue(Port(p)) == p
  {
  }

  /** ATYP, address and port; a name's length goes into one byte, whatever the length. */
  function Encode(a: Address): seq<byte>
  {
    match a.host
    case Name(n) => [ATYP_DOMAIN, |n| % 256] + n + Port(a.port)
    case Ip(ip) =>
      if IsMapped(ip) then [ATYP_IPV4] + ip[12..] + Port(a.port) else [ATYP_IPV6] + ip + Port(a.port)
  }

  /** On the wire: type 1 with four bytes for an IPv4 address, type 3 with a length byte for a name, type 4 with sixteen
      bytes for any other address; then the port, high byte first. */
  lemma EncodingLayout(a: Address)
    requires IsAddress(a)
    ensures var b := Encode(a);
            |b| >= 4 && b[|b| - 2] as int * 256 + b[|b| - 1] as int == a.port &&
            match a.host
            case Name(n) => b[0] == 3 && b[1] as int == |n| % 256 && b[2..|b| - 2] == n
            case Ip(ip) =>
              if ip[..12] == [0, 0, 0, 0, 0, 0, 0, 0, 0, 0, 255, 255] then b[0] == 1 && b[1..|b| - 2] == ip[12..]
              else b[0] == 4 && b[1..|b| - 2] == ip
  {
  }

  /** Outcome of reading a self-delimiting message off the front of a byte stream. */
  datatype Parse<+T> = Need | Bad | Done(value: T, rest: seq<byte>)

  function HostOf(atyp: byte, addr: seq<byte>): Host
  {
    if atyp == ATYP_DOMAIN then Name(addr) else if atyp == ATYP_IPV4 then Ip(V4_PREFIX + addr) else Ip(addr)
  }

  /** Length of the address part after ATYP and, for a name, the length byte. */
  function AddressLength(b: seq<byte>): Parse<nat>
  {
    if b == [] then Need
    else if b[0] == ATYP_IPV4 then Done(4, b[1..])
    else if b[0] == ATYP_IPV6 then Done(16, b[1..])
    else if b[0] != ATYP_DOMAIN then Bad
    else if |b| < 2 then Need
    else Done(b[1], b[2..])
  }

  function Decode(b: seq<byte>): Parse<Address>
  {
    match AddressLength(b)
    case Need => Need
    case Bad => Bad
    case Done(n, rest) =>
      if |rest| < n + 2 then Need
      else Done(Address(HostOf(b[0], rest[..n]), PortValue(rest[n..n + 2])), rest[n + 2..])
  }

  /** Decoding goes by the length that AddressLength reports. */
  lemma DecodeParts(b: seq<byte>, n: nat, addr: seq<byte>, p: nat, x: seq<byte>)
    requires |addr| == n && p < 0x1_0000
    requires AddressLength(b) == Done(n, addr + Port(p) + x)
    ensures Decode(b) == Done(Address(HostOf(b[0], addr), p), x)
  {
    var rest := addr + Port(p) + x;
    assert rest[..n] == addr && rest[n..n + 2] == Port(p) && rest[n + 2..] == x;
    PortRoundTrip(p);
  }

  lemma DecodeName(n: seq<byte>, port: nat, x: seq<byte>)
    requires |n| <= 255 && port < 0x1_0000
    ensures Decode(Encode(Address(Name(n), port)) + x) == Done(Address(Name(n), port), x)
  {
    var b := Encode(Address(Name(n), port)) + x;
    assert b[2..] == n + Port(port) + x;
    DecodeParts(b, |n|, n, port, x);
  }

  lemma DecodeIp(ip: seq<byte>, port: nat, x: seq<byte>)
    requires |ip| == 16 && port < 0x1_0000
    ensures Decode(Encode(Address(Ip(ip), port)) + x) == Done(Address(Ip(ip), port), x)
  {
    var b := Encode(Address(Ip(ip), port)) + x;
    if IsMapped(ip) {
      assert b[1..] == ip[12..] + Port(port) + x;
      DecodeParts(b, 4, ip[12..], port, x);
      assert V4_PREFIX + ip[12..] == ip;
    } else {
      assert b[1..] == ip + Port(port) + x;
      DecodeParts(b, 16, ip, port, x);
    }
  }

  lemma DecodeEncode(a: Address, x: seq<byte>)
    requires IsAddress(a) && (a.host.Name? ==> |a.host.name| <= 255)
    ensures Decode(Encode(a) + x) == Done(a, x)
  {
    match a.host
    case Name(n) => DecodeName(n, a.port, x);
    case Ip(ip) => DecodeIp(ip, a.port, x);
  }

  /** The encoding is faithful exactly for names of at most 255 bytes: the length byte wraps. */
  lemma DecodeEncodeIff(a: Address, x: seq<byte>)
    requires IsAddress(a)
    ensures Decode(Encode(a) + x) == Done(a, x) <==> (a.host.Name? ==> |a.host.name| <= 255)
  {
    if a.host.Name? && |a.host.name| > 255 {
      var b := Encode(a) + x;
      assert AddressLength(b) == Done(|a.host.name| % 256, b[2..]);
    } else {
      DecodeEncode(a, x);
    }
  }

  /** A finished or failed parse is not changed by bytes that arrive later. */
  lemma DecodeStable(b: seq<byte>, x: seq<byte>)
    ensures Decode(b).Bad? ==> Decode(b + x).Bad?
    ensures Decode(b).Done? ==> Decode(b + x) == Done(Decode(b).value, Decode(b).rest + x)
  {
    if AddressLength(b).Done? {
      var n, rest := AddressLength(b).value, AddressLength(b).rest;
      assert AddressLength(b + x) == Done(n, rest + x);
      if |rest| >= n + 2 {
        assert (rest + x)[..n] == rest[..n] && (rest + x)[n..n + 2] == rest[n..n + 2];
        assert (rest + x)[n + 2..] == rest[n + 2..] + x;
      }
    }
  }

  /** An IPv4 address written in sixteen bytes, as Encode never does. */
  predicate IsLongForm(b: seq<byte>)
  {
    |b| >= 17 && b[0] == ATYP_IPV6 && IsMapped(b[1..17])
  }

  lemma PortInverse(b: seq<byte>)
    requires |b| == 2
    ensures PortValue(b) < 0x1_0000 && Port(PortValue(b)) == b
  {
  }

  /** How the bytes parsed divide up: type and length, address, port. */
  lemma DecodeDivides(b: seq<byte>, head: nat)
    requires Decode(b).Done? && head == if b[0] == ATYP_DOMAIN then 2 else 1
    ensures var n := AddressLength(b).value;
            head + n + 2 <= |b| &&
            b == (b[..head] + b[head..head + n] + b[head + n..head + n + 2]) + b[head + n + 2..] &&
            Decode(b) == Done(Address(HostOf(b[0], b[head..head + n]), PortValue(b[head + n..head + n + 2])),
                              b[head + n + 2..])
  {
    var n, rest := AddressLength(b).value, AddressLength(b).rest;
    assert rest == b[head..];
    assert rest[..n] == b[head..head + n] && rest[n..n + 2] == b[head + n..head + n + 2];
    assert rest[n + 2..] == b[head + n + 2..];
  }

  lemma HostInverse(atyp: byte, addr: seq<byte>, port: nat)
    requires atyp == ATYP_DOMAIN || (atyp == ATYP_IPV4 && |addr| == 4) || (atyp == ATYP_IPV6 && |addr| == 16)
    requires atyp == ATYP_DOMAIN ==> |addr| < 256
    requires atyp == ATYP_IPV6 ==> !IsMapped(addr)
    ensures Encode(Address(HostOf(atyp, addr), port)) ==
            (if atyp == ATYP_DOMAIN then [atyp, |addr|] else [atyp]) + addr + Port(port)
  {
    if atyp == ATYP_IPV4 {
      assert (V4_PREFIX + addr)[..12] == V4_PREFIX && (V4_PREFIX + addr)[12..] == addr;
    }
  }

  /** What is parsed was written so, but for that form. */
  lemma EncodeDecode(b: seq<byte>)
    requires Decode(b).Done? && !IsLongForm(b)
    ensures b == Encode(Decode(b).value) + Decode(b).rest && IsAddress(Decode(b).value)
  {
    var n, head := AddressLength(b).value, if b[0] == ATYP_DOMAIN then 2 else 1;
    DecodeDivides(b, head);
    var addr, port := b[head..head + n], b[head + n..head + n + 2];
    PortInverse(port);
    HostInverse(b[0], addr, PortValue(port));
    assert b[..head] == if b[0] == ATYP_DOMAIN then [b[0], |addr|] else [b[0]];
  }

  /** Only an unknown type is refused. */
  lemma DecodeRefusedIff(b: seq<byte>)
    ensures Decode(b) == Bad <==> b != [] && b[0] != 1 && b[0] != 3 && b[0] != 4
  {
  }

  /** A cut address keeps the parser waiting. */
  lemma CutAddressWaits(a: Address, k: nat)
    requires IsAddress(a) && (a.host.Name? ==> |a.host.name| <= 255) && k < |Encode(a)|
    ensures Decode(Encode(a)[..k]) == Need
  {
    var b := Encode(a);
    DecodeStable(b[..k], b[k..]);
    DecodeEncode(a, []);
    assert b[..k] + b[k..] == b == b + [];
  }
}
