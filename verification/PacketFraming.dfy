// socks5/util.go: datagrams behind a 16-bit length on a byte stream, and the two copy loops of a UDP tunnel.

module PacketFraming {
  import opened Words
  import opened ByteStream

  const MAX_PACKET: nat := 0xFFFF
  const COPY_BUFFER: nat := 32768

  type Datagram = seq<byte>

  function Frame(p: Datagram): seq<byte>
    requires |p| <= MAX_PACKET
  {
    [|p| / 256, |p| % 256] + p
  }

  ghost predicate Framable(ds: seq<Datagram>)
  {
    forall d :: d in ds ==> |d| <= MAX_PACKET
  }

  function Frames(ds: seq<Datagram>): seq<byte>
    requires Framable(ds)
  {
    if ds == [] then [] else Frame(ds[0]) + Frames(ds[1..])
  }

  /** packetReadWriter.Read with a buffer of capacity `room`; a longer frame slices past the buffer's end. A stream that
      ends inside a payload yields the bytes it had, together with an error. */
  datatype ReadResult = Packet(p: Datagram) | Ended | Truncated(got: Datagram) | Panic

  function ReadPacket(b: seq<byte>, room: nat): (r: (ReadResult, seq<byte>))
    ensures r.0.Packet? ==> |r.1| < |b|
  {
    if |b| < 2 then (Ended, [])
    else
      var hi: int := b[0];
      var l := hi * 256 + b[1];
      if l > room then (Panic, b[2..])
      else if |b| < 2 + l then (Truncated(b[2..]), [])
      else (Packet(b[2..2 + l]), b[2 + l..])
  }

  lemma FrameRoundTripIff(p: Datagram, rest: seq<byte>, room: nat)
    requires |p| <= MAX_PACKET
    ensures ReadPacket(Frame(p) + rest, room) == (Packet(p), rest) <==> |p| <= room
    ensures ReadPacket(Frame(p) + rest, room).0 == Panic <==> |p| > room
  {
  }

  /** On the wire: the length in two bytes, the high one first, then the payload. */
  lemma FrameLayout(p: Datagram)
    requires |p| <= MAX_PACKET
    ensures |Frame(p)| == |p| + 2 && Frame(p)[2..] == p
    ensures Frame(p)[0] as int * 256 + Frame(p)[1] as int == |p|
  {
  }

  /** A frame cut short: nothing while the length is incomplete, then what has come of the payload. */
  lemma CutPacketRead(p: Datagram, k: nat, room: nat)
    requires |p| <= MAX_PACKET && |p| <= room && k < |Frame(p)|
    ensures ReadPacket(Frame(p)[..k], room) == if k < 2 then (Ended, []) else (Truncated(p[..k - 2]), [])
  {
    if k >= 2 {
      assert Frame(p)[..k][2..] == p[..k - 2];
      assert Frame(p)[..k][0] == Frame(p)[0] && Frame(p)[..k][1] == Frame(p)[1];
    }
  }

  class PacketReadWriter {
    const rw: Conn

    constructor (rw: Conn)
      ensures this.rw == rw
    {
      this.rw := rw;
    }

    method Write(p: seq<byte>) returns (ok: bool)
      modifies rw`outgoing
      ensures ok <==> |p| <= 65535
      ensures rw.outgoing == if |p| <= MAX_PACKET then old(rw.outgoing) + Frame(p) else old(rw.outgoing)
    {
      var length := |p|;
      if length > MAX_PACKET {
        return false;
      }
      rw.Write([length / 256, length % 256]);
      rw.Write(p);
      return true;
    }

    /** p is the whole of the buffer's capacity: the source reslices up to it and never looks at the length. */
    method Read(p: array<byte>) returns (r: ReadResult)
      modifies p, rw`incoming
      ensures (r, rw.incoming) == ReadPacket(old(rw.incoming), p.Length)
      ensures r.Packet? ==> |r.p| <= p.Length && p[..|r.p|] == r.p && p[|r.p|..] == old(p[|r.p|..])
      ensures r.Truncated? ==> |r.got| < p.Length && p[..|r.got|] == r.got
    {
      var header := new byte[2](_ => 0);
      ghost var b := rw.incoming;
      var n := ReadFull(rw, header, 2);
      if n < 2 {
        return Ended;
      }
      assert header[..2][0] == b[0] && header[..2][1] == b[1];
      assert rw.incoming == b[2..];
      var hi: int := header[0];
      var l := hi * 256 + header[1];
      if l > p.Length {
        return Panic;
      }
      n := ReadFull(rw, p, l);
      assert b[2..][..n] == p[..n] && b[2..][n..] == rw.incoming;
      if n < l {
        assert n == |b[2..]| && b[2..][..n] == b[2..];
        return Truncated(p[..n]);
      }
      assert b[2..][..l] == b[2..2 + l] && b[2..][l..] == b[2 + l..];
      return Packet(p[..l]);
    }
  }

  // ---- forward: io.Copy through a 32 KiB buffer ----

  /** A datagram socket: a read hands over one datagram, cut to the buffer; a write sends one. */
  class UdpConn {
    var inbox: seq<Datagram>
    var outbox: seq<Datagram>

    constructor (inbox: seq<Datagram>)
      ensures this.inbox == inbox && outbox == []
    {
      this.inbox, outbox := inbox, [];
    }

    method Read(room: nat) returns (d: Option<Datagram>)
      modifies this`inbox
      ensures old(inbox) == [] ==> d == None && inbox == []
      ensures old(inbox) != [] ==> d == Some(old(inbox)[0][..Least(room, |old(inbox)[0]|)]) && inbox == old(inbox)[1..]
    {
      if inbox == [] {
        return None;
      }
      d := Some(inbox[0][..Least(room, |inbox[0]|)]);
      inbox := inbox[1..];
    }

    method Write(d: Datagram)
      modifies this`outbox
      ensures outbox == old(outbox) + [d]
    {
      outbox := outbox + [d];
    }
  }

  /** io.Copy writes only what is non-empty. */
  function Copied(ds: seq<Datagram>): (r: seq<Datagram>)
    ensures Framable(r)
  {
    if ds == [] then []
    else
      var d := ds[0][..Least(COPY_BUFFER, |ds[0]|)];
      if d == [] then Copied(ds[1..]) else [d] + Copied(ds[1..])
  }

  lemma FramesAppend(ds: seq<Datagram>, d: Datagram)
    requires Framable(ds) && |d| <= MAX_PACKET
    ensures Framable(ds + [d]) && Frames(ds + [d]) == Frames(ds) + Frame(d)
  {
    if ds != [] {
      FramesAppend(ds[1..], d);
      assert (ds + [d])[1..] == ds[1..] + [d];
    }
  }

  /** Each datagram on its own: dropped if empty, cut to its first 32768 bytes if longer. */
  lemma {:induction false} CopiedEach(ds: seq<Datagram>, d: Datagram)
    ensures Copied(ds + [d]) == Copied(ds) + if d == [] then [] else if |d| <= 32768 then [d] else [d[..32768]]
  {
    if ds == [] {
      assert ds + [d] == [d] && [d][1..] == [];
      assert d[..|d|] == d;
    } else {
      CopiedEach(ds[1..], d);
      assert (ds + [d])[1..] == ds[1..] + [d];
    }
  }

  lemma CopiedStep(ds: seq<Datagram>, sent: seq<byte>)
    requires ds != []
    ensures var d := ds[0][..Least(COPY_BUFFER, |ds[0]|)];
            sent + Frames(Copied(ds)) == (if d == [] then sent else sent + Frame(d)) + Frames(Copied(ds[1..]))
  {
    var d, rest := ds[0][..Least(COPY_BUFFER, |ds[0]|)], Copied(ds[1..]);
    if d != [] {
      FramesCons(d, rest);
      assert sent + (Frame(d) + Frames(rest)) == (sent + Frame(d)) + Frames(rest);
    }
  }

  lemma FramesCons(d: Datagram, rest: seq<Datagram>)
    requires |d| <= MAX_PACKET && Framable(rest)
    ensures Framable([d] + rest) && Frames([d] + rest) == Frame(d) + Frames(rest)
  {
    assert ([d] + rest)[1..] == rest;
  }

  /** Datagram socket to stream: server to client. */
  method ForwardToStream(src: UdpConn, dst: PacketReadWriter)
    modifies src`inbox, dst.rw`outgoing
    ensures src.inbox == []
    ensures dst.rw.outgoing == old(dst.rw.outgoing) + Frames(Copied(old(src.inbox)))
  {
    while true
      invariant dst.rw.outgoing + Frames(Copied(src.inbox)) == old(dst.rw.outgoing) + Frames(Copied(old(src.inbox)))
      decreases |src.inbox|
    {
      if src.inbox == [] {
        break;
      }
      ghost var queue, sent := src.inbox, dst.rw.outgoing;
      var d := src.Read(COPY_BUFFER);
      if d.value != [] {
        var ok := dst.Write(d.value);
      }
      CopiedStep(queue, sent);
    }
  }

  /** What the stream-to-socket loop makes of a byte stream: the datagrams sent, and whether it panicked. io.Copy writes
      what a read brought before it looks at the read's error. */
  function Delivered(b: seq<byte>): (seq<Datagram>, bool)
    decreases |b|
  {
    var (r, rest) := ReadPacket(b, COPY_BUFFER);
    match r
    case Ended => ([], false)
    case Truncated(got) => (if got == [] then [] else [got], false)
    case Panic => ([], true)
    case Packet(p) =>
      var (ds, panic) := Delivered(rest);
      (if p == [] then ds else [p] + ds, panic)
  }

  /** One round: what is sent on at once, and what is left to the rounds after it. */
  lemma DeliveredStep(b: seq<byte>, sent: seq<Datagram>)
    ensures var ((r, rest), all) := (ReadPacket(b, COPY_BUFFER), Delivered(b));
            match r
            case Ended => sent + all.0 == sent && !all.1
            case Panic => sent + all.0 == sent && all.1
            case Truncated(got) => sent + all.0 == (if got == [] then sent else sent + [got]) && !all.1
            case Packet(p) =>
              all.1 == Delivered(rest).1 &&
              sent + all.0 == (if p == [] then sent else sent + [p]) + Delivered(rest).0
  {
    var later := Delivered(ReadPacket(b, COPY_BUFFER).1).0;
    if ReadPacket(b, COPY_BUFFER).0.Packet? {
      var p := ReadPacket(b, COPY_BUFFER).0.p;
      assert sent + ([p] + later) == (sent + [p]) + later;
    }
  }

  /** Stream to datagram socket: client to server. */
  method ForwardToUdp(src: PacketReadWriter, dst: UdpConn) returns (panic: bool)
    modifies src.rw`incoming, dst`outbox
    ensures var (sent, panics) := Delivered(old(src.rw.incoming));
            dst.outbox == old(dst.outbox) + sent && panic == panics
  {
    var buf := new byte[COPY_BUFFER](_ => 0);
    while true
      invariant fresh(buf) && buf.Length == COPY_BUFFER
      invariant dst.outbox + Delivered(src.rw.incoming).0 == old(dst.outbox) + Delivered(old(src.rw.incoming)).0
      invariant Delivered(src.rw.incoming).1 == Delivered(old(src.rw.incoming)).1
      decreases |src.rw.incoming|
    {
      ghost var b := src.rw.incoming;
      var r := src.Read(buf);
      DeliveredStep(b, dst.outbox);
      if r.Panic? {
        return true;
      }
      if r.Ended? {
        return false;
      }
      if r.Truncated? {
        if r.got != [] {
          dst.Write(r.got);
        }
        return false;
      }
      if r.p != [] {
        dst.Write(r.p);
      }
    }
  }

  // ---- Boundaries survive the tunnel ----

  ghost predicate Tunnelled(d: Datagram) {
    0 < |d| <= COPY_BUFFER
  }

  lemma {:induction false} CopiedIff(ds: seq<Datagram>)
    ensures Copied(ds) == ds <==> forall d :: d in ds ==> Tunnelled(d)
    ensures |Copied(ds)| <= |ds|
  {
    if ds != [] {
      CopiedIff(ds[1..]);
      assert ds == [ds[0]] + ds[1..];
      if Copied(ds) == ds {
        assert Copied(ds)[0] == ds[0] && Copied(ds)[1..] == ds[1..];
      }
      if Tunnelled(ds[0]) {
        assert ds[0][..|ds[0]|] == ds[0];
      }
    }
  }

  /** Client to server: the frames of any datagrams arrive with their boundaries, up to the first oversized one. */
  lemma {:induction false} DeliveredFrames(ds: seq<Datagram>)
    requires Framable(ds)
    ensures (forall d :: d in ds ==> |d| <= COPY_BUFFER) ==> Delivered(Frames(ds)) == (Copied(ds), false)
    ensures (exists d :: d in ds && |d| > COPY_BUFFER) ==> Delivered(Frames(ds)).1
  {
    if ds != [] {
      var rest := ds[1..];
      DeliveredFirst(ds);
      DeliveredFrames(rest);
      assert forall d :: d in ds <==> d == ds[0] || d in rest;
      if |ds[0]| <= COPY_BUFFER && forall d :: d in rest ==> |d| <= COPY_BUFFER {
        assert Delivered(Frames(rest)).0 == Copied(rest);
      }
    }
  }

  lemma DeliveredFirst(ds: seq<Datagram>)
    requires Framable(ds) && ds != []
    ensures |ds[0]| > COPY_BUFFER ==> Delivered(Frames(ds)) == ([], true)
    ensures |ds[0]| <= COPY_BUFFER ==>
              Delivered(Frames(ds)).1 == Delivered(Frames(ds[1..])).1 &&
              Delivered(Frames(ds)).0 == (if ds[0] == [] then [] else [ds[0]]) + Delivered(Frames(ds[1..])).0 &&
              Copied(ds) == (if ds[0] == [] then [] else [ds[0]]) + Copied(ds[1..])
  {
    FrameRoundTripIff(ds[0], Frames(ds[1..]), COPY_BUFFER);
    if |ds[0]| <= COPY_BUFFER {
      assert ds[0][..|ds[0]|] == ds[0];
    }
  }

  /** The upward tunnel is exact precisely for non-empty datagrams that fit the copy buffer. */
  lemma UpTunnelIff(ds: seq<Datagram>)
    requires Framable(ds)
    ensures Delivered(Frames(ds)) == (ds, false) <==> forall d :: d in ds ==> Tunnelled(d)
  {
    DeliveredFrames(ds);
    CopiedIff(ds);
  }

  /** The byte string of the frames, cut at k, ends inside a payload of which it holds something. */
  ghost predicate CutInPayload(ds: seq<Datagram>, k: nat)
    requires Framable(ds)
  {
    ds != [] &&
    if k < |Frame(ds[0])| then k > 2 else CutInPayload(ds[1..], k - |Frame(ds[0])|)
  }

  /** A frame cut short. */
  lemma CutFrame(d: Datagram, k: nat)
    requires |d| <= COPY_BUFFER && k < |Frame(d)|
    ensures Delivered(Frame(d)[..k]) == (if k > 2 then [d[..k - 2]] else [], false)
  {
    CutPacketRead(d, k, COPY_BUFFER);
  }

  /** The datagrams delivered of a stream that breaks off at k are some of those sent, in order and whole. */
  ghost predicate OnlyWhole(ds: seq<Datagram>, k: nat)
    requires Framable(ds) && k <= |Frames(ds)|
  {
    Delivered(Frames(ds)[..k]).0 <= Copied(ds)
  }

  /** That is so exactly unless the stream breaks off inside a payload: what had come of it is then sent on as a
      datagram of its own. */
  lemma {:induction false} CutStreamIff(ds: seq<Datagram>, k: nat)
    requires Framable(ds) && (forall d :: d in ds ==> |d| <= COPY_BUFFER) && k <= |Frames(ds)|
    ensures OnlyWhole(ds, k) <==> !CutInPayload(ds, k)
    decreases |ds|
  {
    if ds != [] {
      var rest, n := ds[1..], |Frame(ds[0])|;
      if k < n {
        FirstCut(ds, k);
      } else {
        CutStreamIff(rest, k - n);
        LaterCut(ds, k);
      }
    }
  }

  lemma FirstCut(ds: seq<Datagram>, k: nat)
    requires Framable(ds) && ds != [] && |ds[0]| <= COPY_BUFFER && k < |Frame(ds[0])| && k <= |Frames(ds)|
    ensures OnlyWhole(ds, k) <==> k <= 2
  {
    var d := ds[0];
    CutFrame(d, k);
    assert Frames(ds)[..k] == Frame(d)[..k];
    assert d != [] ==> Copied(ds)[0] == d by { assert d[..|d|] == d; }
  }

  lemma LaterCut(ds: seq<Datagram>, k: nat)
    requires Framable(ds) && ds != [] && |ds[0]| <= COPY_BUFFER && |Frame(ds[0])| <= k <= |Frames(ds)|
    ensures OnlyWhole(ds, k) <==> OnlyWhole(ds[1..], k - |Frame(ds[0])|)
  {
    var d, rest, n := ds[0], ds[1..], |Frame(ds[0])|;
    var head, b := if d == [] then [] else [d], Frames(rest)[..k - n];
    assert Frames(ds)[..k] == Frame(d) + b;
    WholeFrame(d, b);
    CopiedHead(ds);
    SamePrefix(head, Delivered(b).0, Copied(rest));
  }

  lemma CopiedHead(ds: seq<Datagram>)
    requires ds != [] && |ds[0]| <= COPY_BUFFER
    ensures Copied(ds) == (if ds[0] == [] then [] else [ds[0]]) + Copied(ds[1..])
  {
    assert ds[0][..|ds[0]|] == ds[0];
  }

  lemma WholeFrame(d: Datagram, rest: seq<byte>)
    requires |d| <= COPY_BUFFER
    ensures Delivered(Frame(d) + rest) ==
            ((if d == [] then [] else [d]) + Delivered(rest).0, Delivered(rest).1)
  {
    FrameRoundTripIff(d, rest, COPY_BUFFER);
    assert [] + Delivered(rest).0 == Delivered(rest).0;
  }

  lemma SamePrefix(a: seq<Datagram>, b: seq<Datagram>, c: seq<Datagram>)
    ensures a + b <= a + c <==> b <= c
  {
    assert (a + b)[|a|..] == b && (a + c)[|a|..] == c;
    if a + b <= a + c {
      assert forall i :: 0 <= i < |b| ==> b[i] == (a + b)[|a| + i] == (a + c)[|a| + i] == c[i];
    }
  }

  /** The three bytes too few cost the datagram its end, not the delivery. */
  lemma CutDatagramIsSent()
    ensures Delivered([0, 5, 1, 2]) == ([[1, 2]], false)
    ensures Frame([1, 2, 3, 4, 5])[..4] == [0, 5, 1, 2]
  {
    assert [0, 5, 1, 2][2..] == [1, 2];
  }

  /** The whole packets a client reading with a `room`-byte buffer gets off the stream. */
  function ReadAll(b: seq<byte>, room: nat): seq<Datagram>
    decreases |b|
  {
    var (r, rest) := ReadPacket(b, room);
    if r.Packet? then [r.p] + ReadAll(rest, room) else []
  }

  lemma {:induction false} ReadAllFrames(ds: seq<Datagram>, room: nat)
    requires Framable(ds) && forall d :: d in ds ==> |d| <= room
    ensures ReadAll(Frames(ds), room) == ds
  {
    if ds != [] {
      FrameRoundTripIff(ds[0], Frames(ds[1..]), room);
      ReadAllFrames(ds[1..], room);
      assert ds == [ds[0]] + ds[1..];
    }
  }

  /** The downward tunnel loses nothing precisely for non-empty datagrams that fit the copy buffer. */
  lemma DownTunnelIff(ds: seq<Datagram>, room: nat)
    requires room >= COPY_BUFFER
    ensures ReadAll(Frames(Copied(ds)), room) == ds <==> forall d :: d in ds ==> Tunnelled(d)
  {
    CopiedFits(ds);
    ReadAllFrames(Copied(ds), room);
    CopiedIff(ds);
  }

  lemma {:induction false} CopiedFits(ds: seq<Datagram>)
    ensures forall d :: d in Copied(ds) ==> |d| <= COPY_BUFFER
  {
    if ds != [] {
      CopiedFits(ds[1..]);
    }
  }
}
