// socks5ReadFrom and socks5WriteTo (socks5/util.go) under packetConn (socks5/client.go):
// datagrams that carry their own address.

module AddressedDatagram {
  import opened Words
  import opened SocksAddress
  import opened PacketFraming

  /** Received, a parse error or end of stream, or a slice out of range. */
  datatype Received = From(n: nat, address: Address) | Failed | Crashed

  class PacketConn {
    const rw: PacketReadWriter

    constructor (rw: PacketReadWriter)
      ensures this.rw == rw
    {
      this.rw := rw;
    }

    method WriteTo(p: seq<byte>, to: Address) returns (ok: bool)
      modifies rw.rw`outgoing
      ensures ok <==> |Encode(to) + p| <= MAX_PACKET
      ensures rw.rw.outgoing == if ok then old(rw.rw.outgoing) + Frame(Encode(to) + p) else old(rw.rw.outgoing)
    {
      ok := rw.Write(Encode(to) + p);
    }

    /** Reads a frame into p, all of a buffer without spare capacity, parses the address off its front and moves the
        payload down over it. */
    method ReadFrom(p: array<byte>) returns (r: Received)
      modifies p, rw.rw`incoming
      ensures rw.rw.incoming == ReadPacket(old(rw.rw.incoming), p.Length).1
      ensures var stale := old(p[..]);
              match ReadPacket(old(rw.rw.incoming), p.Length).0
              case Ended => r == Failed
              case Truncated(_) => r == Failed
              case Panic => r == Crashed
              case Packet(frame) =>
                |frame| <= |stale| &&
                var (outcome, payload) := Unpack(frame, stale[|frame|..]);
                r == outcome && (r.From? ==> r.n <= p.Length && p[..r.n] == payload)
    {
      ghost var stale := p[..];
      var frame := rw.Read(p);
      if frame.Ended? || frame.Truncated? {
        return Failed;
      }
      if frame.Panic? {
        return Crashed;
      }
      var n := |frame.p|;
      assert p[n..] == stale[n..];
      assert p[..] == frame.p + stale[n..];
      // The whole buffer is parsed, not only the n bytes of this frame.
      var parsed := Decode(p[..]);
      if !parsed.Done? {
        return Failed;
      }
      DecodeLength(p[..]);
      var header := p.Length - |parsed.rest|;
      if header > n {
        return Crashed;
      }
      ShiftDown(p, header, n);
      assert frame.p[header..] == p[..n - header];
      return From(n - header, parsed.value);
    }
  }

  lemma DecodeLength(b: seq<byte>)
    ensures Decode(b).Done? ==> |Decode(b).rest| <= |b|
  {
  }

  /** The outcome for a frame that landed in front of stale bytes, and the payload. */
  function Unpack(frame: seq<byte>, stale: seq<byte>): (Received, seq<byte>)
  {
    var b := frame + stale;
    var parsed := Decode(b);
    DecodeLength(b);
    if !parsed.Done? then (Failed, [])
    else
      var header := |b| - |parsed.rest|;
      if header > |frame| then (Crashed, []) else (From(|frame| - header, parsed.value), frame[header..])
  }

  /** Go's copy(p, p[from..to]): source and target overlap inside the one buffer. */
  method ShiftDown(p: array<byte>, from: nat, to: nat)
    requires from <= to <= p.Length
    modifies p
    ensures p[..to - from] == old(p[from..to])
    ensures p[to - from..] == old(p[to - from..])
  {
    var i := 0;
    while i < to - from
      invariant i <= to - from
      invariant forall k :: 0 <= k < i ==> p[k] == old(p[from + k])
      invariant forall k :: i <= k < p.Length ==> p[k] == old(p[k])
    {
      p[i] := p[from + i];
      i := i + 1;
    }
  }

  /** A sent datagram comes back as the same address and payload, whatever stale bytes follow it in the buffer,
      exactly when its name has at most 255 bytes. */
  lemma DatagramRoundTripIff(to: Address, payload: seq<byte>, stale: seq<byte>)
    requires IsAddress(to)
    ensures Unpack(Encode(to) + payload, stale) == (From(|payload|, to), payload) <==>
            (to.host.Name? ==> |to.host.name| <= 255)
  {
    var frame := Encode(to) + payload;
    assert frame + stale == Encode(to) + (payload + stale);
    DecodeEncodeIff(to, payload + stale);
    if to.host.Name? ==> |to.host.name| <= 255 {
      assert frame[|Encode(to)|..] == payload;
    } else {
      LongNameChanges(to, payload + stale);
    }
  }

  lemma LongNameChanges(to: Address, x: seq<byte>)
    requires to.host.Name? && |to.host.name| > 255
    ensures Decode(Encode(to) + x).Done? ==> Decode(Encode(to) + x).value != to
  {
  }

  /** A frame that holds its whole address header is received, one that starts as no address is refused, and one that
      ends inside its header is either refused too or, where stale bytes complete it, sliced out of range. */
  lemma UnpackedIff(frame: seq<byte>, stale: seq<byte>)
    ensures var parsed, outcome := Decode(frame), Unpack(frame, stale).0;
            (outcome.From? <==> parsed.Done?) &&
            (parsed.Bad? ==> outcome == Failed) &&
            (parsed.Need? ==> outcome == if Decode(frame + stale).Done? then Crashed else Failed)
    ensures Decode(frame).Done? ==>
              Unpack(frame, stale) == (From(|Decode(frame).rest|, Decode(frame).value), Decode(frame).rest)
  {
    DecodeStable(frame, stale);
    DecodeLocal(frame, stale);
    DecodeSuffix(frame);
  }

  lemma DecodeSuffix(b: seq<byte>)
    ensures Decode(b).Done? ==> |Decode(b).rest| <= |b| && b[|b| - |Decode(b).rest|..] == Decode(b).rest
  {
    if Decode(b).Done? {
      DecodeDivides(b, if b[0] == ATYP_DOMAIN then 2 else 1);
    }
  }

  /** A parse that ends inside the frame did not need the bytes behind it. */
  lemma DecodeLocal(frame: seq<byte>, stale: seq<byte>)
    ensures var parsed := Decode(frame + stale);
            parsed.Done? && |parsed.rest| >= |stale| ==> Decode(frame).Done?
  {
    var b := frame + stale;
    if Decode(b).Done? && |Decode(b).rest| >= |stale| {
      assert frame != [] && frame[0] == b[0];
      if b[0] == ATYP_DOMAIN {
        assert frame[1] == b[1];
      }
    }
  }

  /** Such a frame: the first five bytes of an address, in front of what an earlier one left. */
  lemma StaleHeaderCrashes()
    ensures Unpack([1, 10, 0, 0, 1], [0, 80]).0 == Crashed
  {
    assert [1, 10, 0, 0, 1] + [0, 80] == [1, 10, 0, 0, 1, 0, 80];
    assert AddressLength([1, 10, 0, 0, 1, 0, 80]) == Done(4, [10, 0, 0, 1, 0, 80]);
  }

  /** Off the wire: the frame is the one sent, and the next one is left for the next call. */
  lemma SentDatagramIsRead(to: Address, payload: seq<byte>, rest: seq<byte>, stale: seq<byte>)
    requires IsAddress(to) && (to.host.Name? ==> |to.host.name| <= 255)
    requires |Encode(to) + payload| <= MAX_PACKET && |Encode(to) + payload| <= |stale|
    ensures var frame := Encode(to) + payload;
            ReadPacket(Frame(frame) + rest, |stale|) == (Packet(frame), rest) &&
            Unpack(frame, stale[|frame|..]) == (From(|payload|, to), payload)
  {
    var frame := Encode(to) + payload;
    FrameRoundTripIff(frame, rest, |stale|);
    DatagramRoundTripIff(to, payload, stale[|frame|..]);
  }
}
