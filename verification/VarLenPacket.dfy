// stream/var_length_packet.go: packets behind a base-128 length, one reused buffer.

module VarLenPacket {
  import opened Words
  import opened ByteStream

  const MAX_VARINT_LEN: nat := 10

  /** binary.PutUvarint's bytes: seven bits at a time, the top bit saying that more follow. */
  function Uvarint(x: nat): seq<byte>
  {
    if x < 0x80 then [x] else [x % 0x80 + 0x80] + Uvarint(x / 0x80)
  }

  datatype Header = Length(x: nat, used: nat) | Eof | Overflow(used: nat)

  /** binary.ReadUvarint from its i-th byte on; the tenth byte may only carry one bit. */
  function DecodeUvarint(b: seq<byte>, i: nat): (h: Header)
    ensures h.Length? ==> 0 < h.used <= |b|
    ensures h.Overflow? ==> h.used <= |b|
    decreases MAX_VARINT_LEN - i
  {
    if i >= MAX_VARINT_LEN then Overflow(0)
    else if b == [] then Eof
    else if b[0] < 0x80 then
      if i == MAX_VARINT_LEN - 1 && b[0] > 1 then Overflow(1) else Length(b[0], 1)
    else
      match DecodeUvarint(b[1..], i + 1)
      case Length(x, used) => Length((b[0] - 0x80) + 0x80 * x, used + 1)
      case Eof => Eof
      case Overflow(used) => Overflow(used + 1)
  }

  /** What the bytes from the i-th on can still carry of a 64-bit number. */
  function Capacity(i: nat): nat
    requires i < MAX_VARINT_LEN
    decreases MAX_VARINT_LEN - i
  {
    if i == MAX_VARINT_LEN - 1 then 2 else 0x80 * Capacity(i + 1)
  }

  lemma CapacityIs64Bits()
    ensures Capacity(0) == TWO_64
  {
  }

  lemma {:induction false} UvarintRoundTrip(x: nat, i: nat, rest: seq<byte>)
    requires i < MAX_VARINT_LEN && x < Capacity(i)
    ensures DecodeUvarint(Uvarint(x) + rest, i) == Length(x, |Uvarint(x)|)
    ensures |Uvarint(x)| <= MAX_VARINT_LEN - i
    decreases MAX_VARINT_LEN - i
  {
    if x >= 0x80 {
      assert (Uvarint(x) + rest)[1..] == Uvarint(x / 0x80) + rest;
      UvarintRoundTrip(x / 0x80, i + 1, rest);
    }
  }

  lemma HeaderRoundTrip(x: nat, rest: seq<byte>)
    requires x < TWO_64
    ensures DecodeUvarint(Uvarint(x) + rest, 0) == Length(x, |Uvarint(x)|) && |Uvarint(x)| <= MAX_VARINT_LEN
  {
    CapacityIs64Bits();
    UvarintRoundTrip(x, 0, rest);
  }

  /** No header is the beginning of another. */
  lemma HeadersPrefixFree(x: nat, y: nat)
    requires x < TWO_64 && y < TWO_64 && Uvarint(x) <= Uvarint(y)
    ensures x == y
  {
    var h, k := Uvarint(x), Uvarint(y);
    assert h + k[|h|..] == k == k + [];
    HeaderRoundTrip(x, k[|h|..]);
    HeaderRoundTrip(y, []);
  }

  // ---- The form of a header ----

  /** Every byte but the last says that more follow. */
  ghost predicate Continues(b: seq<byte>)
  {
    forall i :: 0 <= i < |b| ==> b[i] >= 0x80
  }

  /** A header: continued bytes, then one that ends it. */
  ghost predicate IsHeader(h: seq<byte>)
  {
    h != [] && Continues(h[..|h| - 1]) && h[|h| - 1] < 0x80
  }

  /** What a header's seven-bit groups, least significant first, amount to. */
  ghost function GroupsValue(h: seq<byte>): nat
  {
    if h == [] then 0 else h[0] % 0x80 + 0x80 * GroupsValue(h[1..])
  }

  lemma {:induction false} UvarintIsHeader(x: nat)
    ensures IsHeader(Uvarint(x)) && GroupsValue(Uvarint(x)) == x
  {
    var h := Uvarint(x);
    if x >= 0x80 {
      var rest := Uvarint(x / 0x80);
      UvarintIsHeader(x / 0x80);
      assert h[1..] == rest && h[|h| - 1] == rest[|rest| - 1];
      assert forall i :: 0 < i < |h| - 1 ==> h[i] == rest[i - 1];
    } else {
      assert h[1..] == [];
    }
  }

  /** Read from the i-th byte on, the number is that of a header in front whose tenth byte carries one bit at most. */
  lemma {:induction false} LengthIff(b: seq<byte>, i: nat, x: nat, n: nat)
    requires i < MAX_VARINT_LEN
    ensures DecodeUvarint(b, i) == Length(x, n) <==>
            0 < n <= |b| && i + n <= MAX_VARINT_LEN && IsHeader(b[..n]) && GroupsValue(b[..n]) == x &&
            (i + n == MAX_VARINT_LEN ==> b[n - 1] <= 1)
    decreases MAX_VARINT_LEN - i
  {
    if b != [] && b[0] >= 0x80 && i + 1 < MAX_VARINT_LEN && n > 1 {
      LengthIff(b[1..], i + 1, x / 0x80, n - 1);
      if n <= |b| {
        HeaderCons(b[0], b[1..][..n - 1]);
        assert b[..n] == [b[0]] + b[1..][..n - 1];
      }
    } else if b != [] && b[0] < 0x80 {
      assert b[..1] == [b[0]] && b[..1][1..] == [];
      if 1 < n <= |b| && IsHeader(b[..n]) {
        assert b[..n][..n - 1][0] == b[0];
      }
    }
  }

  lemma ContinuesCons(c: byte, b: seq<byte>)
    ensures Continues([c] + b) <==> c >= 0x80 && Continues(b)
  {
    var g := [c] + b;
    assert g[0] == c && g[1..] == b;
    assert forall i :: 0 < i < |g| ==> g[i] == b[i - 1];
  }

  lemma HeaderCons(c: byte, h: seq<byte>)
    requires c >= 0x80
    ensures h != [] ==> (IsHeader([c] + h) <==> IsHeader(h))
    ensures GroupsValue([c] + h) == c - 0x80 + 0x80 * GroupsValue(h)
  {
    var g := [c] + h;
    assert g[1..] == h;
    if h != [] {
      assert g[..|g| - 1] == [c] + h[..|h| - 1];
      ContinuesCons(c, h[..|h| - 1]);
    }
  }

  /** The stream ends inside a header exactly if it is continued bytes only, fewer than ten. */
  lemma {:induction false} EofIff(b: seq<byte>, i: nat)
    requires i < MAX_VARINT_LEN
    ensures DecodeUvarint(b, i) == Eof <==> Continues(b) && i + |b| < MAX_VARINT_LEN
    decreases MAX_VARINT_LEN - i
  {
    if b != [] && b[0] >= 0x80 {
      if i + 1 < MAX_VARINT_LEN {
        EofIff(b[1..], i + 1);
      }
      assert b == [b[0]] + b[1..];
      ContinuesCons(b[0], b[1..]);
    }
  }

  /** The header overflows exactly if nine bytes are continued and the tenth is more than one bit; ten are used up. */
  lemma {:induction false} OverflowIff(b: seq<byte>, i: nat)
    requires i < MAX_VARINT_LEN
    ensures var left := MAX_VARINT_LEN - i;
            DecodeUvarint(b, i).Overflow? <==> left <= |b| && Continues(b[..left - 1]) && b[left - 1] > 1
    ensures DecodeUvarint(b, i).Overflow? ==> DecodeUvarint(b, i).used == MAX_VARINT_LEN - i
    decreases MAX_VARINT_LEN - i
  {
    var left := MAX_VARINT_LEN - i;
    if b != [] && b[0] >= 0x80 && i + 1 < MAX_VARINT_LEN {
      OverflowIff(b[1..], i + 1);
      if left <= |b| {
        assert b[..left - 1] == [b[0]] + b[1..][..left - 2];
        ContinuesCons(b[0], b[1..][..left - 2]);
      }
    } else if b != [] && left <= |b| && i + 1 < MAX_VARINT_LEN {
      assert b[..left - 1][0] == b[0];
    }
  }

  // ---- Packets as byte strings ----

  function Frame(p: seq<byte>): seq<byte> {
    Uvarint(|p|) + p
  }

  function Frames(ps: seq<seq<byte>>): seq<byte> {
    if ps == [] then [] else Frame(ps[0]) + Frames(ps[1..])
  }

  datatype ReadResult = Packet(p: seq<byte>) | InvalidHeader | ShortBuffer | Truncated(got: seq<byte>)

  /** VarLenPacketStream.Read on the stream b into a buffer of `room` bytes; the pair's second part is left unread. */
  function ReadPacket(b: seq<byte>, maxSize: nat, room: nat): (ReadResult, seq<byte>) {
    match DecodeUvarint(b, 0)
    case Eof => (InvalidHeader, [])
    case Overflow(used) => (InvalidHeader, b[used..])
    case Length(x, used) =>
      var rest := b[used..];
      if x > maxSize || room < x then (ShortBuffer, rest)
      else if |rest| < x then (Truncated(rest), [])
      else (Packet(rest[..x]), rest[x..])
  }

  /** A frame comes back as its packet exactly when it fits the reader's limit and buffer. */
  lemma ReadFrameIff(p: seq<byte>, rest: seq<byte>, maxSize: nat, room: nat)
    requires |p| < TWO_64
    ensures ReadPacket(Frame(p) + rest, maxSize, room) == (Packet(p), rest) <==> |p| <= maxSize && |p| <= room
    ensures ReadPacket(Frame(p) + rest, maxSize, room).0 == ShortBuffer <==> |p| > maxSize || |p| > room
  {
    var h := |Uvarint(|p|)|;
    HeaderRoundTrip(|p|, p + rest);
    assert Frame(p) + rest == Uvarint(|p|) + (p + rest);
    assert (Frame(p) + rest)[h..] == p + rest;
    assert (p + rest)[..|p|] == p && (p + rest)[|p|..] == rest;
  }

  /** A packet is returned only for a header with its length and the payload right behind it; the ended stream is no
      packet, nor is one that ends too early. */
  lemma PacketReadIff(b: seq<byte>, maxSize: nat, room: nat, p: seq<byte>, rest: seq<byte>)
    ensures ReadPacket(b, maxSize, room) == (Packet(p), rest) <==>
            |p| <= maxSize && |p| <= room &&
            exists n :: 0 < n <= |b| && DecodeUvarint(b, 0) == Length(|p|, n) && b[n..] == p + rest
  {
    var h := DecodeUvarint(b, 0);
    if h.Length? {
      var rest' := b[h.used..];
      if h.x <= |rest'| {
        assert rest' == rest'[..h.x] + rest'[h.x..];
      }
      if h.x == |p| && rest' == p + rest {
        assert rest'[..h.x] == p && rest'[h.x..] == rest;
      }
    }
  }

  /** A frame cut short: an invalid header while the header is incomplete, then what has come of the payload. */
  lemma CutFrameRead(p: seq<byte>, k: nat, maxSize: nat, room: nat)
    requires |p| < TWO_64 && |p| <= maxSize && |p| <= room && k < |Frame(p)|
    ensures var h := |Uvarint(|p|)|;
            ReadPacket(Frame(p)[..k], maxSize, room) ==
            if k < h then (InvalidHeader, []) else (Truncated(p[..k - h]), [])
  {
    var u := Uvarint(|p|);
    UvarintIsHeader(|p|);
    HeaderRoundTrip(|p|, []);
    var b := Frame(p)[..k];
    if k < |u| {
      assert forall i :: 0 <= i < k ==> b[i] == u[..|u| - 1][i];
      EofIff(b, 0);
    } else {
      HeaderRoundTrip(|p|, p[..k - |u|]);
      assert b == u + p[..k - |u|];
      assert b[|u|..] == p[..k - |u|];
    }
  }

  /** Without a valid header nothing is read as a packet, the ended stream included. */
  lemma BadHeaderIff(b: seq<byte>, maxSize: nat, room: nat)
    ensures ReadPacket(b, maxSize, room).0 == InvalidHeader <==> forall x, n :: DecodeUvarint(b, 0) != Length(x, n)
    ensures ReadPacket([], maxSize, room) == (InvalidHeader, [])
  {
    var h := DecodeUvarint(b, 0);
    if h.Length? {
      assert h == Length(h.x, h.used);
    }
  }

  function ReadPackets(b: seq<byte>, maxSize: nat, rooms: seq<nat>): (seq<ReadResult>, seq<byte>)
    decreases |rooms|
  {
    if rooms == [] then ([], b)
    else
      var (r, rest) := ReadPacket(b, maxSize, rooms[0]);
      var (rs, end) := ReadPackets(rest, maxSize, rooms[1..]);
      ([r] + rs, end)
  }

  function Packets(ps: seq<seq<byte>>): (rs: seq<ReadResult>)
    ensures |rs| == |ps| && forall i :: 0 <= i < |ps| ==> rs[i] == Packet(ps[i])
  {
    if ps == [] then [] else [Packet(ps[0])] + Packets(ps[1..])
  }

  /** Written packets are read back in order, and the stream is consumed to the last byte of the last one. */
  lemma {:induction false} PacketsRoundTrip(ps: seq<seq<byte>>, rest: seq<byte>, maxSize: nat, rooms: seq<nat>)
    requires |rooms| == |ps| && maxSize < TWO_64
    requires forall i :: 0 <= i < |ps| ==> |ps[i]| <= maxSize && |ps[i]| <= rooms[i]
    ensures ReadPackets(Frames(ps) + rest, maxSize, rooms) == (Packets(ps), rest)
    decreases |ps|
  {
    if ps == [] {
      assert Frames(ps) + rest == rest;
    } else {
      assert Frames(ps) + rest == Frame(ps[0]) + (Frames(ps[1..]) + rest);
      ReadFrameIff(ps[0], Frames(ps[1..]) + rest, maxSize, rooms[0]);
      PacketsRoundTrip(ps[1..], rest, maxSize, rooms[1..]);
    }
  }

  // ---- The stream object ----

  datatype WriteResult = Wrote(n: nat) | TooLong | Panic

  class VarLenPacketStream {
    const conn: Conn
    const readBuf: array<byte>
    const buf: array<byte>
    const maxSize: nat

    ghost predicate Valid()
    {
      readBuf.Length == 1 && buf.Length == maxSize && readBuf != buf && maxSize < TWO_64
    }

    constructor (conn: Conn, maxPacketSize: nat)
      requires maxPacketSize < TWO_64
      ensures Valid() && this.conn == conn && maxSize == maxPacketSize && fresh(readBuf) && fresh(buf)
    {
      this.conn := conn;
      readBuf := new byte[1](_ => 0);
      buf := new byte[maxPacketSize](_ => 0);
      maxSize := maxPacketSize;
    }

    /** binary.PutUvarint into the reused buffer; None when an index runs past its end. */
    method PutUvarint(x: nat) returns (n: Option<nat>)
      requires Valid()
      modifies buf
      ensures n == if |Uvarint(x)| <= buf.Length then Some(|Uvarint(x)|) else None
      ensures n.Some? ==> buf[..n.value] == Uvarint(x)
    {
      var i, y := 0, x;
      while y >= 0x80
        invariant i <= buf.Length && buf[..i] + Uvarint(y) == Uvarint(x)
        decreases y
      {
        if i >= buf.Length {
          return None;
        }
        ghost var done := buf[..i];
        buf[i] := y % 0x80 + 0x80;
        assert buf[..i + 1] == done + [y % 0x80 + 0x80];
        i, y := i + 1, y / 0x80;
      }
      if i >= buf.Length {
        return None;
      }
      ghost var done := buf[..i];
      buf[i] := y;
      assert buf[..i + 1] == done + [y];
      return Some(i + 1);
    }

    /** The reused buffer suffices exactly while header and payload together stay within maxSize. */
    method Write(p: seq<byte>) returns (r: WriteResult)
      requires Valid()
      modifies buf, conn`outgoing
      ensures r == TooLong <==> |p| > maxSize
      ensures r.Wrote? <==> |Frame(p)| <= maxSize
      ensures r.Wrote? ==> r.n == |Frame(p)| && conn.outgoing == old(conn.outgoing) + Frame(p)
      ensures !r.Wrote? ==> conn.outgoing == old(conn.outgoing)
    {
      var l := |p|;
      if l > maxSize {
        return TooLong;
      }
      var headerOff := PutUvarint(l);
      if headerOff == None {
        return Panic;
      }
      var off := headerOff.value;
      // copy stops at the end of the buffer
      forall i | off <= i < buf.Length && i - off < l {
        buf[i] := p[i - off];
      }
      if l + off > buf.Length {
        return Panic;
      }
      assert buf[..off] == Uvarint(l);
      assert buf[..l + off] == Frame(p);
      conn.Write(buf[..l + off]);
      return Wrote(l + off);
    }

    method ReadByte() returns (b: Option<byte>)
      requires Valid()
      modifies readBuf, conn`incoming
      ensures b == if old(conn.incoming) == [] then None else Some(old(conn.incoming)[0])
      ensures conn.incoming == if old(conn.incoming) == [] then [] else old(conn.incoming)[1..]
    {
      var n := ReadFull(conn, readBuf, 1);
      b := if n == 1 then Some(readBuf[0]) else None;
    }

    /** binary.ReadUvarint over ReadByte; x collects the digit groups read so far. */
    method ReadUvarint() returns (h: Header)
      requires Valid()
      modifies readBuf, conn`incoming
      ensures h == DecodeUvarint(old(conn.incoming), 0)
      ensures conn.incoming == if h.Eof? then [] else old(conn.incoming)[h.used..]
    {
      ghost var stream := conn.incoming;
      var x: nat, i: nat := 0, 0;
      while i < MAX_VARINT_LEN
        invariant i <= MAX_VARINT_LEN && i <= |stream|
        invariant conn.incoming == stream[i..]
        invariant Decoded(stream, x, i) == DecodeUvarint(stream, 0)
      {
        var b := ReadByte();
        Round(stream, x, i);
        if b == None {
          return Eof;
        }
        var low: int := b.value;
        if low < 0x80 {
          if i == MAX_VARINT_LEN - 1 && low > 1 {
            return Overflow(i + 1);
          }
          return Length(x + Scaled(low, i), i + 1);
        }
        x := x + Scaled(low - 0x80, i);
        i := i + 1;
      }
      return Overflow(i);
    }

    method Read(p: array<byte>) returns (r: ReadResult)
      requires Valid() && p != readBuf
      modifies readBuf, p, conn`incoming
      ensures (r, conn.incoming) == ReadPacket(old(conn.incoming), maxSize, p.Length)
      ensures r.Packet? ==> |r.p| <= p.Length && p[..|r.p|] == r.p && p[|r.p|..] == old(p[|r.p|..])
    {
      var h := ReadUvarint();
      if !h.Length? {
        return InvalidHeader;
      }
      if h.x > maxSize {
        return ShortBuffer;
      }
      if p.Length < h.x {
        return ShortBuffer;
      }
      ghost var rest := conn.incoming;
      var n := ReadFull(conn, p, h.x);
      assert rest[..n] == p[..n] && rest[n..] == conn.incoming;
      if n < h.x {
        assert n == |rest| && rest[..n] == rest;
        return Truncated(p[..n]);
      }
      return Packet(p[..n]);
    }
  }

  /** A digit group moved up by i groups of seven bits. */
  function Scaled(b: nat, i: nat): nat {
    if i == 0 then b else 0x80 * Scaled(b, i - 1)
  }

  lemma {:induction false} ScaledAdds(a: nat, b: nat, i: nat)
    ensures Scaled(a + 0x80 * b, i) == Scaled(a, i) + Scaled(b, i + 1)
  {
    if i > 0 {
      ScaledAdds(a, b, i - 1);
    }
  }

  /** A header decoded after i bytes that contributed x. */
  ghost function Shifted(h: Header, x: nat, i: nat): Header {
    match h
    case Length(y, used) => Length(x + Scaled(y, i), used + i)
    case Eof => Eof
    case Overflow(used) => Overflow(used + i)
  }

  /** What the header in `stream` decodes to once its first i bytes have contributed x. */
  ghost function Decoded(stream: seq<byte>, x: nat, i: nat): Header
    requires i <= |stream| && i <= MAX_VARINT_LEN
  {
    Shifted(DecodeUvarint(stream[i..], i), x, i)
  }

  /** One byte: the stream's end, the last byte of the header, or seven more bits of x. */
  lemma Round(stream: seq<byte>, x: nat, i: nat)
    requires i <= |stream| && i < MAX_VARINT_LEN
    ensures i == |stream| ==> Decoded(stream, x, i) == Eof
    ensures i < |stream| && stream[i] < 0x80 ==>
              Decoded(stream, x, i) == if i == MAX_VARINT_LEN - 1 && stream[i] > 1 then Overflow(i + 1)
                                       else Length(x + Scaled(stream[i], i), i + 1)
    ensures i < |stream| && stream[i] >= 0x80 ==>
              Decoded(stream, x, i) == Decoded(stream, x + Scaled(stream[i] - 0x80, i), i + 1)
  {
    var b := stream[i..];
    if b != [] && b[0] >= 0x80 {
      assert b[1..] == stream[i + 1..];
      var tail := DecodeUvarint(b[1..], i + 1);
      if tail.Length? {
        ScaledAdds(b[0] - 0x80, tail.x, i);
      }
    }
  }
}
