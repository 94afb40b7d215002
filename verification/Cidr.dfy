// CIDR blocks as 32-bit ranges (gateway/proxy_router.go, getCidrIntRange).

module Cidr {
  import opened Words

  /** A net.IPNet: the address bytes and the pair that IPMask.Size reports. */
  datatype IpNet = IpNet(ip: seq<byte>, ones: nat, allBits: nat)

  datatype Range = Range(lo: nat, hi: nat)

  const V4_PREFIX: seq<byte> := [0, 0, 0, 0, 0, 0, 0, 0, 0, 0, 255, 255]

  /** An IPv4 address in the sixteen-byte form of net.IP. */
  predicate IsMapped(ip: seq<byte>)
  {
    |ip| == 16 && ip[..12] == V4_PREFIX
  }

  /** net.IP.To4: four bytes, or nothing for an address that has no IPv4 form. */
  function To4(ip: seq<byte>): seq<byte>
  {
    if |ip| == 4 then ip else if IsMapped(ip) then ip[12..] else []
  }

  /** 0xffffffff << n on 32 bits: Go gives 0 once n reaches the width. */
  function ShiftedOnes(n: nat): nat
  {
    if n >= 32 then 0 else ((TWO_32 - 1) * Pow2(n)) % TWO_32
  }

  function GetCidrIntRange(net: IpNet): Range
  {
    var ipMin := BigEndianValue(To4(net.ip)) % TWO_32;
    var m := ShiftedOnes(if net.ones <= net.allBits then net.allBits - net.ones else 0);
    Range(ipMin, (ipMin + (TWO_32 - 1 - m)) % TWO_32)
  }

  // ---- Prefixes and the addresses they contain, on the bytes of the prefix itself ----

  ghost function HostBits(net: IpNet): nat
    requires net.ones <= net.allBits
  {
    net.allBits - net.ones
  }

  /** What net.ParseCIDR yields, for either family: the host bits are clear (section 3.1 of RFC 4632). */
  ghost predicate IsPrefix(net: IpNet)
  {
    (|net.ip| == 4 || |net.ip| == 16) && net.allBits == 8 * |net.ip| && net.ones <= net.allBits &&
    BigEndianValue(net.ip) % Pow2(HostBits(net)) == 0
  }

  /** The first address of ::ffff:0:0/96, in which IPv6 keeps the IPv4 addresses (section 2.5.5.2 of RFC 4291). */
  const MAPPED: nat := 0xFFFF * TWO_32

  /** The IPv4 address x as an address of the prefix's family. */
  ghost function InFamily(net: IpNet, x: nat): nat
  {
    if |net.ip| == 4 then x else MAPPED + x
  }

  /** The prefix contains the IPv4 address: the two agree on every bit but the host bits. */
  ghost predicate Contains(net: IpNet, x: nat)
  {
    net.ones <= net.allBits &&
    BigEndianValue(net.ip) / Pow2(HostBits(net)) == InFamily(net, x) / Pow2(HostBits(net))
  }

  /** A prefix of IPv4 addresses only: four bytes, or sixteen inside the IPv4-mapped block. */
  ghost predicate IsV4Block(net: IpNet)
  {
    IsPrefix(net) && (|net.ip| == 4 || BigEndianValue(net.ip) / TWO_32 == 0xFFFF)
  }

  /** The lowest 32 bits of the prefix. */
  ghost function V4Base(net: IpNet): nat
  {
    BigEndianValue(net.ip) % TWO_32
  }

  ghost predicate InRange(net: IpNet, address: nat)
  {
    GetCidrIntRange(net).lo <= address <= GetCidrIntRange(net).hi
  }

  predicate Meets(a: Range, b: Range)
  {
    a.lo <= b.hi && b.lo <= a.hi
  }

  predicate Within(a: Range, b: Range)
  {
    b.lo <= a.lo && a.hi <= b.hi
  }

  lemma {:induction false} AndOnes(x: nat, n: nat)
    requires x < Pow2(n)
    ensures And(x, Pow2(n) - 1) == x
  {
    if n > 0 {
      AndOnes(x / 2, n - 1);
    }
  }

  /** Masking with a run of high ones clears exactly the low k bits. */
  lemma {:induction false} AndHighMask(x: nat, k: nat, n: nat)
    requires k <= n && x < Pow2(n)
    ensures Pow2(k) <= Pow2(n) && And(x, Pow2(n) - Pow2(k)) == x - x % Pow2(k)
    decreases k
  {
    if k == 0 {
      AndOnes(x, n);
    } else {
      AndHighMask(x / 2, k - 1, n - 1);
      ModHalf(x, Pow2(k - 1));
      assert (Pow2(n) - Pow2(k)) / 2 == Pow2(n - 1) - Pow2(k - 1);
    }
  }

  lemma ModHalf(x: nat, p: nat)
    requires p > 0
    ensures x % (2 * p) == 2 * ((x / 2) % p) + x % 2
  {
    var q, r := (x / 2) / p, (x / 2) % p;
    assert x == 2 * (q * p + r) + x % 2;
    assert x == q * (2 * p) + (2 * r + x % 2) by { assert 2 * (q * p) == q * (2 * p); }
    DivModUnique(x, 2 * p, q, 2 * r + x % 2);
  }

  lemma TopBits(p: nat, w: nat)
    requires 0 < p <= w
    ensures ((w - 1) * p) % w == w - p
  {
    MulRight(w - 1, 1, p);
    MulRight(p - 1, 1, w);
    DivModUnique((w - 1) * p, w, p - 1, w - p);
  }

  lemma ShiftedOnesIs(n: nat)
    requires n <= 32
    ensures Pow2(n) <= TWO_32 && ShiftedOnes(n) == TWO_32 - Pow2(n)
  {
    Pow2Is(n);
    Pow2Monotone(n, 32);
    TopBits(Pow2(n), TWO_32);
  }

  lemma V4BaseAligned(net: IpNet)
    requires IsV4Block(net)
    ensures HostBits(net) <= 32
    ensures V4Base(net) % Pow2(HostBits(net)) == 0 && V4Base(net) + Pow2(HostBits(net)) <= TWO_32
    ensures BigEndianValue(net.ip) == InFamily(net, V4Base(net))
  {
    var k := HostBits(net);
    V4BaseValue(net);
    if |net.ip| == 16 {
      MappedHostBits(V4Base(net), k);
    }
    BlockFits(V4Base(net), k);
  }

  lemma V4BaseValue(net: IpNet)
    requires IsV4Block(net)
    ensures BigEndianValue(net.ip) == InFamily(net, V4Base(net))
  {
    BigEndianBound(net.ip);
    assert Pow256(4) == TWO_32;
  }

  lemma BlockFits(base: nat, k: nat)
    requires k <= 32 && base < TWO_32 && base % Pow2(k) == 0
    ensures base + Pow2(k) <= TWO_32
  {
    WidePowers();
    Pow2Adds(32 - k, k);
    MultipleFits(base, Pow2(32 - k), Pow2(k));
  }

  /** For an IPv4 block the 32-bit sum does not wrap, at /0 and /32 too. */
  lemma V4RangeDoesNotWrap(net: IpNet)
    requires IsV4Block(net)
    ensures var r, p := GetCidrIntRange(net), Pow2(net.allBits - net.ones);
            r.lo == V4Base(net) && r.hi == r.lo + p - 1 < TWO_32 && r.lo % p == 0
  {
    var k := HostBits(net);
    V4BaseAligned(net);
    ShiftedOnesIs(k);
    RangeTop(V4Base(net), Pow2(k));
    To4Value(net.ip);
    V4RangeIs(net, k);
  }

  lemma V4RangeIs(net: IpNet, k: nat)
    requires net.ones + k == net.allBits && BigEndianValue(To4(net.ip)) == V4Base(net)
    ensures var base := V4Base(net) % TWO_32;
            GetCidrIntRange(net) == Range(base, (base + (TWO_32 - 1 - ShiftedOnes(k))) % TWO_32)
  {
  }

  lemma RangeTop(base: nat, p: nat)
    requires 0 < p && base + p <= TWO_32
    ensures base % TWO_32 == base && (base + (TWO_32 - 1 - (TWO_32 - p))) % TWO_32 == base + p - 1
  {
  }

  lemma NextMultiple(i: int, h: int, p: nat)
    requires i * p < h * p
    ensures i * p + p <= h * p
  {
    if h <= i {
      MulMonotone(h, i, p);
    }
    MulMonotone(i + 1, h, p);
    MulRight(i, 1, p);
  }

  lemma MultipleFits(x: nat, h: nat, p: nat)
    requires p > 0 && x % p == 0 && x < h * p
    ensures x + p <= h * p
  {
    NextMultiple(x / p, h, p);
  }

  /** An address is in the prefix exactly when its number lies in the computed range. */
  lemma ContainsIffInRange(net: IpNet, address: nat)
    requires IsV4Block(net) && address < TWO_32
    ensures Contains(net, address) <==> InRange(net, address)
  {
    var k, base := HostBits(net), V4Base(net);
    V4RangeDoesNotWrap(net);
    V4BaseAligned(net);
    InBlock(address, base, Pow2(k));
    if |net.ip| == 16 {
      WidePowers();
      Pow2Adds(32 - k, k);
      SameShift(0xFFFF, Pow2(32 - k), Pow2(k), base);
      SameShift(0xFFFF, Pow2(32 - k), Pow2(k), address);
    }
  }

  /** A multiple of the divisor in front adds to the quotient only. */
  lemma SameShift(c: nat, h: nat, p: nat, x: nat)
    requires p > 0 && h * p == TWO_32
    ensures (c * TWO_32 + x) / p == c * h + x / p
  {
    assert c * TWO_32 == (c * h) * p;
    MulRight(c * h, x / p, p);
    DivModUnique(c * TWO_32 + x, p, c * h + x / p, x % p);
  }

  lemma InBlock(x: nat, lo: nat, p: nat)
    requires p > 0 && lo % p == 0
    ensures lo / p == x / p <==> lo <= x <= lo + p - 1
  {
    if lo <= x <= lo + p - 1 {
      DivModUnique(x, p, lo / p, x - lo);
    }
  }

  // ---- The mask ----

  /** A mask of `width` bits whose last `host` bits are clear. */
  ghost function HighMask(width: nat, host: nat): nat
    requires host <= width
  {
    Pow2Monotone(host, width);
    Pow2(width) - Pow2(host)
  }

  /** Agreeing on all but the host bits is being equal under the mask, bit by bit. */
  lemma ContainsIsMasked(net: IpNet, address: nat)
    requires IsPrefix(net) && address < TWO_32
    ensures var mask := HighMask(net.allBits, HostBits(net));
            Contains(net, address) <==> And(BigEndianValue(net.ip), mask) == And(InFamily(net, address), mask)
  {
    var v, x, k := BigEndianValue(net.ip), InFamily(net, address), HostBits(net);
    InFamilyBound(net, address);
    AndHighMask(v, k, net.allBits);
    AndHighMask(x, k, net.allBits);
    SameQuotient(v, x, Pow2(k));
  }

  lemma InFamilyBound(net: IpNet, x: nat)
    requires IsPrefix(net) && x < TWO_32
    ensures BigEndianValue(net.ip) < Pow2(net.allBits) && InFamily(net, x) < Pow2(net.allBits)
  {
    BigEndianBound(net.ip);
    Pow256Is(|net.ip|);
    WidePowers();
    if |net.ip| == 16 {
      Pow2Adds(16, 32);
      Pow2Is(0);
      Pow2Monotone(48, 128);
    }
  }

  lemma SameQuotient(v: nat, x: nat, p: nat)
    requires p > 0
    ensures v / p == x / p <==> v - v % p == x - x % p
  {
    if v - v % p == x - x % p {
      DivModUnique(v, p, x / p, v % p);
    }
  }

  /** Blocks form a laminar family: two of them are disjoint or nested. */
  lemma BlocksNestOrMiss(a: IpNet, b: IpNet)
    requires IsV4Block(a) && IsV4Block(b)
    ensures var r, s := GetCidrIntRange(a), GetCidrIntRange(b);
            Meets(r, s) ==> Within(r, s) || Within(s, r)
  {
    if a.allBits - a.ones > b.allBits - b.ones {
      NestOrMissOrdered(b, a);
    } else {
      NestOrMissOrdered(a, b);
    }
  }

  lemma NestOrMissOrdered(a: IpNet, b: IpNet)
    requires IsV4Block(a) && IsV4Block(b) && a.allBits - a.ones <= b.allBits - b.ones
    ensures var r, s := GetCidrIntRange(a), GetCidrIntRange(b);
            Meets(r, s) ==> Within(r, s)
  {
    V4RangeDoesNotWrap(a);
    V4RangeDoesNotWrap(b);
    var r, s := GetCidrIntRange(a), GetCidrIntRange(b);
    var p, e := Pow2(a.allBits - a.ones), Pow2((b.allBits - b.ones) - (a.allBits - a.ones));
    Pow2Adds((b.allBits - b.ones) - (a.allBits - a.ones), a.allBits - a.ones);
    assert Pow2(b.allBits - b.ones) == e * p;
    if Meets(r, s) {
      NestedMultiples(r.lo, s.lo, e, p);
    }
  }

  lemma NestedMultiples(x: nat, y: nat, e: nat, p: nat)
    requires p > 0 && e > 0 && e * p > 0
    requires x % p == 0 && y % (e * p) == 0
    requires y < x + p && x < y + e * p
    ensures y <= x && x + p <= y + e * p
  {
    var i, j := x / p, y / (e * p);
    assert y == (j * e) * p;
    MulRight(j * e, e, p);
    CoarserBlock(i, j * e, e, p);
  }

  /** A fine block overlapping a coarse one, both counted in fine blocks, lies inside it. */
  lemma CoarserBlock(i: int, j: int, e: nat, p: nat)
    requires j * p < i * p + p && i * p < (j + e) * p
    ensures j * p <= i * p && i * p + p <= (j + e) * p
  {
    NextMultiple(i, j + e, p);
    MulRight(i, 1, p);
    if i < j {
      MulMonotone(i + 1, j, p);
    }
    MulMonotone(j, i, p);
  }

  // ---- Both families ----

  lemma {:induction false} BigEndianConcat(a: seq<byte>, b: seq<byte>)
    ensures BigEndianValue(a + b) == BigEndianValue(a) * Pow256(|b|) + BigEndianValue(b)
  {
    if b == [] {
      assert a + b == a;
    } else {
      var c := b[..|b| - 1];
      BigEndianConcat(a, c);
      assert (a + b)[..|a + b| - 1] == a + c;
      assert 256 * (BigEndianValue(a) * Pow256(|c|)) == BigEndianValue(a) * (256 * Pow256(|c|));
    }
  }

  lemma {:induction false} Pow256Is(n: nat)
    ensures Pow256(n) == Pow2(8 * n)
  {
    if n > 0 {
      Pow256Is(n - 1);
      Pow2Is(0);
      Pow2Adds(8, 8 * (n - 1));
    }
  }

  lemma LeadingZeros()
    ensures BigEndianValue(V4_PREFIX) == 0xFFFF
  {
    var zeros: seq<byte> := [0, 0, 0, 0, 0, 0, 0, 0, 0, 0];
    var ones: seq<byte> := [255, 255];
    ZerosAreZero(zeros);
    BigEndianConcat(zeros, ones);
    assert V4_PREFIX == zeros + ones;
    assert BigEndianValue(ones[..1]) == 255;
  }

  lemma {:induction false} ZerosAreZero(b: seq<byte>)
    requires forall i :: 0 <= i < |b| ==> b[i] == 0
    ensures BigEndianValue(b) == 0
  {
    if b != [] {
      ZerosAreZero(b[..|b| - 1]);
    }
  }

  lemma MultipleOfLess(x: nat, e: nat, p: nat)
    requires e > 0 && p > 0 && e * p > 0 && x % (e * p) == 0
    ensures x % p == 0
  {
    var q := x / (e * p);
    assert x == (q * e) * p;
    DivModUnique(x, p, q * e, 0);
  }

  /** Dropping a multiple of p keeps the remainder 0. */
  lemma RestOfMultiple(x: nat, y: nat, h: nat, p: nat)
    requires p > 0 && x % p == 0 && x == h * p + y
    ensures y % p == 0
  {
    var q: int, m: int := x / p, h;
    MulRight(q, -m, p);
    DivModUnique(y, p, q - m, 0);
  }

  /** Bit 32 of a mapped address is set, so no mask that clears it leaves the address alone. */
  lemma MappedBit32(b: nat, e: nat, p: nat)
    requires b < TWO_32 && e > 0 && p == 2 * TWO_32 && e * p > 0
    ensures (0xFFFF * TWO_32 + b) % (e * p) != 0
  {
    var v := 0xFFFF * TWO_32 + b;
    DivModUnique(v, p, 0x7FFF, TWO_32 + b);
    if v % (e * p) == 0 {
      MultipleOfLess(v, e, p);
    }
  }

  lemma MappedLowBits(b: nat, h: nat, p: nat)
    requires p > 0 && h * p == TWO_32 && (0xFFFF * TWO_32 + b) % p == 0
    ensures b % p == 0
  {
    assert (0xFFFF * h) * p == 0xFFFF * TWO_32;
    RestOfMultiple(0xFFFF * TWO_32 + b, b, 0xFFFF * h, p);
  }

  /** The sixteen-byte form of an IPv4 address cannot be masked beyond its last 32 bits. */
  lemma MappedHostBits(b: nat, k: nat)
    requires b < TWO_32 && (0xFFFF * TWO_32 + b) % Pow2(k) == 0
    ensures k <= 32 && b % Pow2(k) == 0
  {
    if k >= 33 {
      Pow2Adds(k - 33, 33);
      WidePowers();
      MappedBit32(b, Pow2(k - 33), Pow2(33));
    } else {
      Pow2Adds(32 - k, k);
      WidePowers();
      MappedLowBits(b, Pow2(32 - k), Pow2(k));
    }
  }

  lemma WidePowers()
    ensures Pow2(32) == TWO_32 && Pow2(33) == 2 * TWO_32
  {
    Pow2Is(0);
  }

  /** To4 goes by the first twelve bytes, which say whether the address is IPv4-mapped, and keeps the last four. */
  lemma To4Value(ip: seq<byte>)
    requires |ip| == 4 || |ip| == 16
    ensures To4(ip) != [] <==> |ip| == 4 || BigEndianValue(ip) / TWO_32 == 0xFFFF
    ensures To4(ip) != [] ==> BigEndianValue(To4(ip)) == BigEndianValue(ip) % TWO_32
  {
    assert Pow256(4) == TWO_32;
    if |ip| == 4 {
      BigEndianBound(ip);
    } else {
      var head, tail := ip[..12], ip[12..];
      assert ip == head + tail;
      BigEndianConcat(head, tail);
      BigEndianBound(tail);
      DivModUnique(BigEndianValue(ip), TWO_32, BigEndianValue(head), BigEndianValue(tail));
      LeadingZeros();
      if BigEndianValue(head) == 0xFFFF {
        BigEndianInjective(head, V4_PREFIX);
      }
    }
  }

  /** A prefix outside the IPv4-mapped block is read as a block based at 0, with 32 host bits or more as all of IPv4. */
  lemma NonV4StartsAtZero(net: IpNet)
    requires |net.ip| == 16 && BigEndianValue(net.ip) / TWO_32 != 0xFFFF && net.ones <= net.allBits
    ensures var host := net.allBits - net.ones;
            GetCidrIntRange(net) == Range(0, if host >= 32 then TWO_32 - 1 else Pow2(host) - 1)
  {
    var host := net.allBits - net.ones;
    To4Value(net.ip);
    if host < 32 {
      ShiftedOnesIs(host);
    }
  }

  /** The prefix agrees with ::ffff:0:0/96 on the bits that both of them fix. */
  ghost predicate ReachesV4(net: IpNet)
    requires net.ones <= net.allBits
  {
    |net.ip| == 4 ||
    var w := if HostBits(net) <= 32 then 32 else HostBits(net);
    BigEndianValue(net.ip) / Pow2(w) == MAPPED / Pow2(w)
  }

  /** With at most 32 host bits a prefix that contains an IPv4 address lies in the IPv4-mapped block. */
  lemma NarrowReach(net: IpNet, x: nat)
    requires IsPrefix(net) && |net.ip| == 16 && HostBits(net) <= 32 && x < TWO_32 && Contains(net, x)
    ensures BigEndianValue(net.ip) / TWO_32 == 0xFFFF
  {
    var v, k := BigEndianValue(net.ip), HostBits(net);
    WidePowers();
    Pow2Adds(32 - k, k);
    DivDiv(v, Pow2(k), Pow2(32 - k));
    DivDiv(MAPPED + x, Pow2(k), Pow2(32 - k));
  }

  /** With more, either all IPv4 addresses are in it or none. */
  lemma WideReach(net: IpNet, x: nat)
    requires IsPrefix(net) && |net.ip| == 16 && HostBits(net) > 32 && x < TWO_32
    ensures BigEndianValue(net.ip) / TWO_32 != 0xFFFF
    ensures Contains(net, x) <==> ReachesV4(net)
  {
    var v, k := BigEndianValue(net.ip), HostBits(net);
    if v / TWO_32 == 0xFFFF {
      MappedHostBits(v % TWO_32, k);
    }
    WidePowers();
    Pow2Adds(k - 32, 32);
    DivDiv(MAPPED + x, TWO_32, Pow2(k - 32));
    DivDiv(MAPPED, TWO_32, Pow2(k - 32));
  }

  /** The range holds exactly the IPv4 addresses of the prefix if and only if it contains any. */
  lemma RangeFaithfulIff(net: IpNet)
    requires IsPrefix(net)
    ensures (forall x: nat :: x < TWO_32 ==> (InRange(net, x) <==> Contains(net, x))) <==> ReachesV4(net)
  {
    WidePowers();
    if IsV4Block(net) {
      V4BaseAligned(net);
      forall x: nat | x < TWO_32
        ensures InRange(net, x) <==> Contains(net, x)
      {
        ContainsIffInRange(net, x);
      }
    } else {
      NonV4StartsAtZero(net);
      if HostBits(net) <= 32 {
        assert InRange(net, 0);
        if Contains(net, 0) {
          NarrowReach(net, 0);
        }
      } else {
        forall x: nat | x < TWO_32
          ensures InRange(net, x) && (Contains(net, x) <==> ReachesV4(net))
        {
          WideReach(net, x);
        }
        assert InRange(net, 0);
      }
    }
  }

  /** The condition says just that: some IPv4 address is in the prefix. */
  lemma ReachesV4Means(net: IpNet)
    requires IsPrefix(net)
    ensures ReachesV4(net) <==> exists x: nat :: x < TWO_32 && Contains(net, x)
  {
    WidePowers();
    if IsV4Block(net) {
      V4BaseAligned(net);
      assert Contains(net, V4Base(net));
    } else if HostBits(net) > 32 {
      forall x: nat | x < TWO_32
        ensures Contains(net, x) <==> ReachesV4(net)
      {
        WideReach(net, x);
      }
      assert Contains(net, 0) <==> ReachesV4(net);
    } else {
      forall x: nat | x < TWO_32
        ensures !Contains(net, x)
      {
        if Contains(net, x) {
          NarrowReach(net, x);
        }
      }
    }
  }
}
