// A reliable byte stream whose reads return chunks of any size, and io.ReadFull over it.

module ByteStream {
  import opened Words

  class Conn {
    var incoming: seq<byte>
    var outgoing: seq<byte>

    constructor (incoming: seq<byte>)
      ensures this.incoming == incoming && outgoing == []
    {
      this.incoming, outgoing := incoming, [];
    }

    /** At least one byte while any is left; how many is up to the network. */
    method Read(max: nat) returns (chunk: seq<byte>)
      requires max > 0
      modifies this`incoming
      ensures old(incoming) == chunk + incoming && |chunk| <= max
      ensures chunk == [] <==> old(incoming) == []
    {
      if incoming == [] {
        return [];
      }
      var n :| 1 <= n <= max && n <= |incoming|;
      chunk := incoming[..n];
      incoming := incoming[n..];
    }

    method Write(b: seq<byte>)
      modifies this`outgoing
      ensures outgoing == old(outgoing) + b
    {
      outgoing := outgoing + b;
    }
  }

  function Least(a: nat, b: nat): nat {
    if a <= b then a else b
  }

  /** io.ReadFull into p[..n]: the outcome does not depend on the chunking. */
  method ReadFull(conn: Conn, p: array<byte>, n: nat) returns (got: nat)
    requires n <= p.Length
    modifies conn`incoming, p
    ensures got == Least(n, old(|conn.incoming|))
    ensures old(conn.incoming) == p[..got] + conn.incoming
    ensures p[got..] == old(p[got..])
  {
    got := 0;
    while got < n
      invariant got <= n && got <= old(|conn.incoming|)
      invariant conn.incoming == old(conn.incoming)[got..]
      invariant p[..got] == old(conn.incoming)[..got]
      invariant forall i :: got <= i < p.Length ==> p[i] == old(p[i])
    {
      var chunk := conn.Read(n - got);
      if chunk == [] {
        break;
      }
      forall i | 0 <= i < |chunk| {
        p[got + i] := chunk[i];
      }
      got := got + |chunk|;
    }
  }
}
