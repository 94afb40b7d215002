// Machine words and byte strings shared by every component.

module Words {
  datatype Option<+T> = None | Some(value: T)

  type byte = x: int | 0 <= x < 256

  const TWO_32: nat := 0x1_0000_0000
  const TWO_64: nat := 0x1_0000_0000_0000_0000

  /** uint64. */
  type word = x: nat | x < TWO_64

  function Pow2(n: nat): (p: nat)
    ensures p > 0
  {
    if n == 0 then 1 else 2 * Pow2(n - 1)
  }

  lemma Pow2Is(n: nat)
    ensures Pow2(8) == 256 && Pow2(16) == 0x1_0000 && Pow2(32) == TWO_32
  {
    assert Pow2(8) == 256 by { assert Pow2(4) == 16; }
    Pow2Adds(8, 8);
    Pow2Adds(16, 16);
  }

  lemma {:induction false} Pow2Adds(m: nat, n: nat)
    ensures Pow2(m + n) == Pow2(m) * Pow2(n)
  {
    if m > 0 {
      Pow2Adds(m - 1, n);
    }
  }

  lemma {:induction false} Pow2Monotone(m: nat, n: nat)
    requires m <= n
    ensures Pow2(m) <= Pow2(n)
  {
    if m < n {
      Pow2Monotone(m, n - 1);
    }
  }

  lemma MulMonotone(a: int, b: int, d: nat)
    requires a <= b
    ensures a * d <= b * d
  {
  }

  lemma MulRight(a: int, b: int, d: int)
    ensures (a + b) * d == a * d + b * d
  {
  }

  /** Quotient and remainder are determined by their defining equation. */
  lemma DivModUnique(x: nat, d: nat, q: int, r: nat)
    requires r < d && x == q * d + r
    ensures x % d == r && x / d == q
  {
    var k := x / d;
    if k + 1 <= q {
      MulMonotone(k + 1, q, d);
      MulRight(k, 1, d);
    } else if q + 1 <= k {
      MulMonotone(q + 1, k, d);
      MulRight(q, 1, d);
    }
  }

  /** Dividing in two steps. */
  lemma DivDiv(x: nat, a: nat, b: nat)
    requires a > 0 && b > 0 && b * a > 0
    ensures x / (b * a) == (x / a) / b
  {
    var q, r := (x / a) / b, (x / a) % b;
    assert x == (q * b + r) * a + x % a;
    MulRight(q * b, r, a);
    assert (q * b) * a == q * (b * a);
    MulMonotone(r, b - 1, a);
    MulRight(b - 1, 1, a);
    DivModUnique(x, b * a, q, r * a + x % a);
  }

  /** The bitwise conjunction of two words. */
  function And(x: nat, y: nat): nat
  {
    if x == 0 || y == 0 then 0 else 2 * And(x / 2, y / 2) + (x % 2) * (y % 2)
  }

  /** Little-endian bytes of x, as binary.LittleEndian.PutUint64 lays them out for n == 8. */
  function LittleEndian(x: nat, n: nat): (b: seq<byte>)
    ensures |b| == n
  {
    if n == 0 then [] else [x % 256] + LittleEndian(x / 256, n - 1)
  }

  /** Byte i holds the bits from 8 * i on. */
  lemma {:induction false} LittleEndianAt(x: nat, n: nat, i: nat)
    requires i < n
    ensures LittleEndian(x, n)[i] == (x / Pow256(i)) % 256
  {
    if i > 0 {
      LittleEndianAt(x / 256, n - 1, i - 1);
      DivDiv(x, 256, Pow256(i - 1));
    }
  }

  function LittleEndianValue(b: seq<byte>): nat
  {
    if b == [] then 0 else b[0] + 256 * LittleEndianValue(b[1..])
  }

  function Pow256(n: nat): (p: nat)
    ensures p > 0
  {
    if n == 0 then 1 else 256 * Pow256(n - 1)
  }

  lemma {:induction false} LittleEndianRoundTrip(x: nat, n: nat)
    requires x < Pow256(n)
    ensures LittleEndianValue(LittleEndian(x, n)) == x
  {
    if n > 0 {
      LittleEndianRoundTrip(x / 256, n - 1);
    }
  }

  lemma {:induction false} LittleEndianValueInjective(a: seq<byte>, b: seq<byte>)
    requires |a| == |b|
    requires LittleEndianValue(a) == LittleEndianValue(b)
    ensures a == b
  {
    if a != [] {
      assert a[0] == LittleEndianValue(a) % 256 == b[0];
      LittleEndianValueInjective(a[1..], b[1..]);
      assert a == [a[0]] + a[1..] && b == [b[0]] + b[1..];
    }
  }

  /** The number whose base-256 digits, most significant first, are b. */
  function BigEndianValue(b: seq<byte>): nat
  {
    if b == [] then 0 else 256 * BigEndianValue(b[..|b| - 1]) + b[|b| - 1]
  }

  lemma {:induction false} BigEndianInjective(a: seq<byte>, b: seq<byte>)
    requires |a| == |b| && BigEndianValue(a) == BigEndianValue(b)
    ensures a == b
  {
    if a != [] {
      var n := |a| - 1;
      assert a[n] == BigEndianValue(a) % 256 == b[n];
      BigEndianInjective(a[..n], b[..n]);
      assert a == a[..n] + [a[n]] && b == b[..n] + [b[n]];
    }
  }

  lemma {:induction false} BigEndianBound(b: seq<byte>)
    ensures BigEndianValue(b) < Pow256(|b|)
  {
    if b != [] {
      BigEndianBound(b[..|b| - 1]);
    }
  }
}
