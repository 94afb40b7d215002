// The handshake messages of RFC 1928 (sections 3, 4 and 6) and RFC 1929 (section 2).

module SocksCodec {
  import opened Words
  import opened SocksAddress

  const VERSION: byte := 5
  const AUTH_VERSION: byte := 1
  const METHOD_NONE: byte := 0
  const METHOD_PASSWORD: byte := 2
  const CMD_CONNECT: byte := 1
  const CMD_CONNECT_UDP: byte := 4
  const REP_SUCCESS: byte := 0
  const REP_HOST_UNREACHABLE: byte := 4
  const REP_UNSUPPORTED: byte := 7

  /** A version byte followed by one value: a method choice or an authentication status. */
  function Pair(version: byte, value: byte): seq<byte> {
    [version, value]
  }

  function ParsePair(version: byte, b: seq<byte>): Parse<byte> {
    if |b| < 2 then Need else if b[0] != version then Bad else Done(b[1], b[2..])
  }

  function Negotiation(methods: seq<byte>): seq<byte>
    requires |methods| < 256
  {
    [VERSION, |methods|] + methods
  }

  function ParseNegotiation(b: seq<byte>): Parse<seq<byte>> {
    if |b| < 2 then Need
    else if b[0] != VERSION || b[1] == 0 then Bad
    else if |b| < 2 + b[1] as int then Need
    else Done(b[2..2 + b[1] as int], b[2 + b[1] as int..])
  }

  datatype Credentials = Credentials(user: seq<byte>, password: seq<byte>)

  function UserPass(c: Credentials): seq<byte>
    requires |c.user| < 256 && |c.password| < 256
  {
    [AUTH_VERSION, |c.user|] + c.user + [|c.password|] + c.password
  }

  function ParseUserPass(b: seq<byte>): Parse<Credentials> {
    if |b| < 2 then Need
    else if b[0] != AUTH_VERSION || b[1] == 0 then Bad
    else
      var u: int := b[1];
      if |b| < 2 + u + 1 then Need
      else
        var p: int := b[2 + u];
        if p == 0 then Bad
        else if |b| < 3 + u + p then Need
        else Done(Credentials(b[2..2 + u], b[3 + u..3 + u + p]), b[3 + u + p..])
  }

  /** A request or a reply: version, code, reserved byte, address. */
  datatype Message = Message(code: byte, address: Address)

  function Framed(m: Message): seq<byte> {
    [VERSION, m.code, 0] + Encode(m.address)
  }

  /** Unlike a datagram header, a message with an empty name is refused. */
  function ParseMessage(b: seq<byte>): Parse<Message> {
    if |b| < 4 then Need
    else if b[0] != VERSION then Bad
    else
      match Decode(b[3..])
      case Need => if |b| >= 5 && b[3] == ATYP_DOMAIN && b[4] == 0 then Bad else Need
      case Bad => Bad
      case Done(a, rest) => if a.host == Name([]) then Bad else Done(Message(b[1], a), rest)
  }

  predicate IsSound(a: Address) {
    a.port < 0x1_0000 && match a.host case Ip(b) => |b| == 16 case Name(n) => 0 < |n| <= 255
  }

  lemma PairRoundTrip(version: byte, value: byte, x: seq<byte>)
    ensures ParsePair(version, Pair(version, value) + x) == Done(value, x)
  {
  }

  lemma NegotiationRoundTrip(methods: seq<byte>, x: seq<byte>)
    requires 0 < |methods| < 256
    ensures ParseNegotiation(Negotiation(methods) + x) == Done(methods, x)
  {
  }

  lemma UserPassRoundTrip(c: Credentials, x: seq<byte>)
    requires 0 < |c.user| < 256 && 0 < |c.password| < 256
    ensures ParseUserPass(UserPass(c) + x) == Done(c, x)
  {
    var b, u, p := UserPass(c) + x, |c.user|, |c.password|;
    assert b == ([AUTH_VERSION, u] + c.user) + ([p] + c.password + x);
    assert b[2..2 + u] == c.user;
    assert b[3 + u..3 + u + p] == c.password;
    assert b[3 + u + p..] == x;
  }

  /** A message survives exactly when its name has 1 to 255 bytes. */
  lemma MessageRoundTripIff(m: Message, x: seq<byte>)
    requires IsAddress(m.address)
    ensures ParseMessage(Framed(m) + x) == Done(m, x) <==> IsSound(m.address)
  {
    assert (Framed(m) + x)[3..] == Encode(m.address) + x;
    DecodeEncodeIff(m.address, x);
  }

  lemma EmptyNameRefused(m: Message, x: seq<byte>)
    requires IsAddress(m.address) && m.address.host == Name([])
    ensures ParseMessage(Framed(m) + x) == Bad
  {
  }

  // Later bytes never change a parse that has finished.

  lemma PairStable(version: byte, b: seq<byte>, x: seq<byte>)
    ensures Settled(ParsePair(version, b), ParsePair(version, b + x), x)
  {
  }

  ghost predicate Settled<T>(p: Parse<T>, q: Parse<T>, x: seq<byte>) {
    (p.Bad? ==> q.Bad?) && (p.Done? ==> q == Done(p.value, p.rest + x))
  }

  lemma NegotiationStable(b: seq<byte>, x: seq<byte>)
    ensures Settled(ParseNegotiation(b), ParseNegotiation(b + x), x)
  {
    if ParseNegotiation(b).Done? {
      var n := 2 + b[1] as int;
      assert (b + x)[2..n] == b[2..n] && (b + x)[n..] == b[n..] + x;
    }
  }

  lemma UserPassStable(b: seq<byte>, x: seq<byte>)
    ensures Settled(ParseUserPass(b), ParseUserPass(b + x), x)
  {
    if ParseUserPass(b).Done? {
      var u: int := b[1];
      var p: int := b[2 + u];
      assert (b + x)[2..2 + u] == b[2..2 + u] && (b + x)[3 + u..3 + u + p] == b[3 + u..3 + u + p];
      assert (b + x)[3 + u + p..] == b[3 + u + p..] + x;
    }
  }

  lemma MessageStable(b: seq<byte>, x: seq<byte>)
    ensures Settled(ParseMessage(b), ParseMessage(b + x), x)
  {
    if |b| >= 4 {
      assert (b + x)[3..] == b[3..] + x;
      DecodeStable(b[3..], x);
    }
  }

  // What is parsed was written so, and what is refused could not have been.

  lemma PairInverse(version: byte, b: seq<byte>)
    ensures ParsePair(version, b).Done? ==>
              b == Pair(version, ParsePair(version, b).value) + ParsePair(version, b).rest
    ensures ParsePair(version, b).Bad? <==> |b| >= 2 && b[0] != version
  {
  }

  lemma NegotiationInverse(b: seq<byte>)
    ensures var parsed := ParseNegotiation(b);
            parsed.Done? ==> 0 < |parsed.value| < 256 && b == Negotiation(parsed.value) + parsed.rest
    ensures ParseNegotiation(b).Bad? <==> |b| >= 2 && (b[0] != 5 || b[1] == 0)
  {
    if ParseNegotiation(b).Done? {
      var n := 2 + b[1] as int;
      assert b == [b[0], b[1]] + b[2..n] + b[n..];
    }
  }

  lemma UserPassInverse(b: seq<byte>)
    ensures var parsed := ParseUserPass(b);
            parsed.Done? ==>
              0 < |parsed.value.user| < 256 && 0 < |parsed.value.password| < 256 &&
              b == UserPass(parsed.value) + parsed.rest
    ensures ParseUserPass(b).Bad? <==>
            |b| >= 2 && (b[0] != 1 || b[1] == 0 || (|b| >= 3 + b[1] as int && b[2 + b[1] as int] == 0))
  {
    if ParseUserPass(b).Done? {
      var u: int := b[1];
      var p: int := b[2 + u];
      assert b == [b[0], b[1]] + b[2..2 + u] + [b[2 + u]] + b[3 + u..3 + u + p] + b[3 + u + p..];
    }
  }

  /** The reserved byte is not looked at. */
  lemma MessageInverse(b: seq<byte>)
    requires ParseMessage(b).Done? && !IsLongForm(b[3..])
    ensures IsSound(ParseMessage(b).value.address)
    ensures b[2 := 0] == Framed(ParseMessage(b).value) + ParseMessage(b).rest
  {
    var a, rest := Decode(b[3..]).value, Decode(b[3..]).rest;
    NamesAsLongAsSaid(b[3..]);
    EncodeDecode(b[3..]);
    assert b[2 := 0] == [b[0], b[1], 0] + b[3..];
    assert [b[0], b[1], 0] + (Encode(a) + rest) == ([b[0], b[1], 0] + Encode(a)) + rest;
  }

  lemma MessageRefusedIff(b: seq<byte>)
    ensures ParseMessage(b).Bad? <==>
            |b| >= 4 && (b[0] != 5 || (b[3] != 1 && b[3] != 3 && b[3] != 4) || (|b| >= 5 && b[3] == 3 && b[4] == 0))
  {
    if |b| >= 4 {
      DecodeRefusedIff(b[3..]);
      if Decode(b[3..]).Done? {
        NamesAsLongAsSaid(b[3..]);
      }
    }
  }

  lemma NamesAsLongAsSaid(b: seq<byte>)
    requires Decode(b).Done?
    ensures Decode(b).value.host.Name? <==> b[0] == ATYP_DOMAIN
    ensures b[0] == ATYP_DOMAIN ==> |b| >= 2 && |Decode(b).value.host.name| == b[1] as int
  {
  }

  /** The handshake of RFC 1928 and RFC 1929, byte by byte. */
  lemma WireForm(c: Credentials, m: Message)
    requires |c.user| < 256 && |c.password| < 256
    ensures Negotiation([METHOD_PASSWORD]) == [5, 1, 2]
    ensures Pair(VERSION, METHOD_PASSWORD) == [5, 2] && Pair(VERSION, METHOD_NONE) == [5, 0]
    ensures Pair(AUTH_VERSION, 0) == [1, 0]
    ensures UserPass(c) == [1] + [|c.user|] + c.user + [|c.password|] + c.password
    ensures Framed(m) == [5] + [m.code] + [0] + Encode(m.address)
    ensures CMD_CONNECT == 1 && CMD_CONNECT_UDP == 4
    ensures REP_SUCCESS == 0 && REP_HOST_UNREACHABLE == 4 && REP_UNSUPPORTED == 7
  {
  }
}
