// totp/totp.go: codes bound to a time step (compare sections 4.2 and 5.2 of RFC 6238).

module Totp {
  import opened Words

  /** The keyed digest, key and message to 32 bytes: left open. */
  type Mac = (seq<byte>, seq<byte>) -> seq<byte>

  /** Go's integer division: towards zero. */
  function Quotient(a: int, d: int): int
    requires d > 0
  {
    if a >= 0 then a / d else -(-a / d)
  }

  const INT_LIMIT: int := 0x8000_0000_0000_0000

  /** uint64(x) for a 64-bit signed x. */
  function Unsigned(x: int): (u: nat)
    requires Fits(x)
    ensures u < TWO_64
  {
    if x >= 0 then x else x + TWO_64
  }

  predicate Fits(x: int) {
    -INT_LIMIT <= x < INT_LIMIT
  }

  /** A digest of the right size, whatever it computes. */
  ghost predicate IsMac(mac: Mac) {
    forall k, m :: |mac(k, m)| == 32
  }

  ghost predicate TellsApart(mac: Mac, key: seq<byte>, m: seq<byte>, n: seq<byte>) {
    |m| == 8 && |n| == 8 && m != n && |mac(key, m)| == 32 && |mac(key, n)| == 32 ==>
      mac(key, m)[..8] != mac(key, n)[..8]
  }

  /** Different messages under one key differ in the first eight digest bytes. */
  ghost predicate Injective(mac: Mac, key: seq<byte>) {
    forall m, n :: TellsApart(mac, key, m, n)
  }

  function CodeOfStep(mac: Mac, token: nat, step: int): nat
    requires Fits(step) && |mac(LittleEndian(token, 8), LittleEndian(Unsigned(step), 8))| == 32
  {
    LittleEndianValue(mac(LittleEndian(token, 8), LittleEndian(Unsigned(step), 8))[..8])
  }

  /** TOTP.Gen. */
  function Gen(mac: Mac, step: int, token: nat, ts: int): nat
    requires IsMac(mac) && step > 0 && Fits(ts)
  {
    QuotientFits(ts, step);
    CodeOfStep(mac, token, Quotient(ts, step))
  }

  lemma QuotientFits(a: int, d: int)
    requires d > 0 && Fits(a)
    ensures Fits(Quotient(a, d))
  {
  }

  /** TOTP.Verify. */
  predicate Verify(mac: Mac, step: int, code: nat, token: nat, ts: int)
    requires IsMac(mac) && step > 0 && Fits(ts - step) && Fits(ts + step)
  {
    code != 0 &&
    (code == token ||
     code == Gen(mac, step, token, ts) ||
     code == Gen(mac, step, token, ts - step) ||
     code == Gen(mac, step, token, ts + step))
  }

  lemma DivisionShift(t: nat, d: nat)
    requires d > 0
    ensures (t + d) / d == t / d + 1
  {
    MulRight(t / d, 1, d);
    DivModUnique(t + d, d, t / d + 1, t % d);
  }

  lemma DivisionMonotone(s: nat, t: nat, d: nat)
    requires d > 0 && s <= t
    ensures 0 <= s / d <= t / d
  {
    if t / d + 1 <= s / d {
      MulMonotone(t / d + 1, s / d, d);
      MulRight(t / d, 1, d);
    }
  }

  lemma QuotientMonotone(s: int, t: int, d: int)
    requires d > 0 && s <= t
    ensures Quotient(s, d) <= Quotient(t, d)
  {
    if s >= 0 {
      DivisionMonotone(s, t, d);
    } else if t < 0 {
      DivisionMonotone(-t, -s, d);
    } else {
      DivisionMonotone(0, -s, d);
      DivisionMonotone(0, t, d);
    }
  }

  /** Truncation repeats the quotient 0 on both sides of zero; elsewhere one divisor more is one quotient more. */
  lemma QuotientStep(t: int, d: int)
    requires d > 0
    ensures Quotient(t + d, d) == if -d < t < 0 then Quotient(t, d) else Quotient(t, d) + 1
  {
    if t >= 0 {
      DivisionShift(t, d);
    } else if t <= -d {
      DivisionShift(-t - d, d);
    } else {
      DivModUnique(t + d, d, 0, t + d);
      DivModUnique(-t, d, 0, -t);
    }
  }

  /** Within one step of t the quotient is one of the three that Verify tries, across zero too. */
  lemma WindowCovers(t: int, t0: int, d: int)
    requires d > 0 && t - d <= t0 <= t + d
    ensures var q := Quotient(t0, d);
            q == Quotient(t - d, d) || q == Quotient(t, d) || q == Quotient(t + d, d)
  {
    QuotientMonotone(t - d, t0, d);
    QuotientMonotone(t0, t + d, d);
    QuotientStep(t, d);
    QuotientStep(t - d, d);
  }

  /** Any non-zero code verifies for a whole step either way, negative and mixed times included. */
  lemma CodeLastsOneStep(mac: Mac, step: int, token: nat, t0: int, t: int)
    requires IsMac(mac) && step > 0 && Fits(t0) && Fits(t - step) && Fits(t + step)
    requires t - step <= t0 <= t + step && Gen(mac, step, token, t0) != 0
    ensures Verify(mac, step, Gen(mac, step, token, t0), token, t)
  {
    WindowCovers(t, t0, step);
  }

  lemma DifferentSteps(mac: Mac, token: nat, a: int, b: int)
    requires IsMac(mac) && Injective(mac, LittleEndian(token, 8)) && Fits(a) && Fits(b)
    ensures CodeOfStep(mac, token, a) == CodeOfStep(mac, token, b) <==> a == b
  {
    var key := LittleEndian(token, 8);
    var m, n := LittleEndian(Unsigned(a), 8), LittleEndian(Unsigned(b), 8);
    if CodeOfStep(mac, token, a) == CodeOfStep(mac, token, b) {
      assert TellsApart(mac, key, m, n);
      LittleEndianValueInjective(mac(key, m)[..8], mac(key, n)[..8]);
      assert m == n;
      assert Pow256(8) == TWO_64 by { assert Pow256(4) == TWO_32; }
      LittleEndianRoundTrip(Unsigned(a), 8);
      LittleEndianRoundTrip(Unsigned(b), 8);
    }
  }

  lemma SameCodeIff(mac: Mac, step: int, token: nat, s: int, t: int)
    requires IsMac(mac) && Injective(mac, LittleEndian(token, 8)) && step > 0 && Fits(s) && Fits(t)
    ensures Gen(mac, step, token, s) == Gen(mac, step, token, t) <==> Quotient(s, step) == Quotient(t, step)
  {
    QuotientFits(s, step);
    QuotientFits(t, step);
    DifferentSteps(mac, token, Quotient(s, step), Quotient(t, step));
  }

  /** The step q0 is at most one away from that of t; within one divisor of zero, where truncation repeats the quotient
      0, not on zero's far side. */
  predicate InWindow(q0: int, t: int, d: int)
    requires d > 0
  {
    var q := Quotient(t, d);
    q0 == q || (q0 == q - 1 && !(0 < t < d)) || (q0 == q + 1 && !(-d < t < 0))
  }

  lemma StepsInWindow(q0: int, t: int, d: int)
    requires d > 0
    ensures q0 == Quotient(t - d, d) || q0 == Quotient(t, d) || q0 == Quotient(t + d, d) <==> InWindow(q0, t, d)
  {
    QuotientStep(t, d);
    QuotientStep(t - d, d);
  }

  lemma WindowSinceZero(t0: nat, t: nat, d: nat)
    requires d > 0
    ensures InWindow(Quotient(t0, d), t, d) <==> -1 <= Quotient(t0, d) - Quotient(t, d) <= 1
  {
    DivisionMonotone(0, t0, d);
    DivisionMonotone(0, t, d);
    if t < d {
      DivModUnique(t, d, 0, t);
    }
  }

  /** With a digest that tells steps apart, a code verifies exactly inside the window. */
  lemma WindowIff(mac: Mac, step: int, token: nat, t0: int, t: int)
    requires IsMac(mac) && Injective(mac, LittleEndian(token, 8)) && step > 0
    requires Fits(t0) && Fits(t - step) && Fits(t + step)
    requires Gen(mac, step, token, t0) != 0 && Gen(mac, step, token, t0) != token
    ensures Verify(mac, step, Gen(mac, step, token, t0), token, t) <==> InWindow(Quotient(t0, step), t, step)
  {
    SameCodeIff(mac, step, token, t0, t);
    SameCodeIff(mac, step, token, t0, t - step);
    SameCodeIff(mac, step, token, t0, t + step);
    VerifiedIff(mac, step, Gen(mac, step, token, t0), token, t);
    StepsInWindow(Quotient(t0, step), t, step);
  }

  /** For times from zero on that is step distance at most one. */
  lemma WindowSinceZeroIff(mac: Mac, step: int, token: nat, t0: nat, t: nat)
    requires IsMac(mac) && Injective(mac, LittleEndian(token, 8)) && step > 0
    requires Fits(t0) && Fits(t + step)
    requires Gen(mac, step, token, t0) != 0 && Gen(mac, step, token, t0) != token
    ensures Fits(t - step)
    ensures Verify(mac, step, Gen(mac, step, token, t0), token, t) <==>
            -1 <= Quotient(t0, step) - Quotient(t, step) <= 1
  {
    WindowIff(mac, step, token, t0, t);
    WindowSinceZero(t0, t, step);
  }

  /** Just after zero a code of the step before it is refused, one step away as it is. */
  lemma OneSidedNearZero(d: int)
    requires d > 1
    ensures Quotient(1, d) == 0 && Quotient(-d, d) == -1 && !InWindow(-1, 1, d)
  {
    DivModUnique(1, d, 0, 1);
    DivModUnique(d, d, 1, 0);
  }

  lemma VerifiedIff(mac: Mac, step: int, code: nat, token: nat, ts: int)
    requires IsMac(mac) && step > 0 && Fits(ts - step) && Fits(ts + step) && code != 0 && code != token
    ensures Fits(ts)
    ensures Verify(mac, step, code, token, ts) <==>
            code == Gen(mac, step, token, ts) || code == Gen(mac, step, token, ts - step) ||
            code == Gen(mac, step, token, ts + step)
  {
  }

  /** A token is its own code for ever; 0 is a code of none, not even of the token 0. */
  lemma TokenIsItsCode(mac: Mac, step: int, token: nat, ts: int)
    requires IsMac(mac) && step > 0 && Fits(ts - step) && Fits(ts + step)
    ensures Verify(mac, step, token, token, ts) <==> token != 0
    ensures !Verify(mac, step, 0, token, ts)
  {
  }

  /** Different keys give digests that differ in their first eight bytes, whatever the messages. */
  ghost predicate KeysApart(mac: Mac) {
    forall k, l, m, n :: DigestsDiffer(mac, k, l, m, n)
  }

  ghost predicate DigestsDiffer(mac: Mac, k: seq<byte>, l: seq<byte>, m: seq<byte>, n: seq<byte>) {
    |k| == 8 && |l| == 8 && k != l && |mac(k, m)| == 32 && |mac(l, n)| == 32 ==> mac(k, m)[..8] != mac(l, n)[..8]
  }

  /** With such a digest no code of one token is accepted for another at any time. */
  lemma OthersCodesRefused(mac: Mac, step: int, token: word, other: word, t0: int, t: int)
    requires IsMac(mac) && KeysApart(mac) && step > 0 && token != other
    requires Fits(t0) && Fits(t - step) && Fits(t + step)
    requires Gen(mac, step, other, t0) != token
    ensures !Verify(mac, step, Gen(mac, step, other, t0), token, t)
  {
    OthersCode(mac, step, token, other, t0, t);
    OthersCode(mac, step, token, other, t0, t - step);
    OthersCode(mac, step, token, other, t0, t + step);
  }

  lemma OthersCode(mac: Mac, step: int, token: word, other: word, t0: int, t: int)
    requires IsMac(mac) && KeysApart(mac) && step > 0 && token != other && Fits(t0) && Fits(t)
    ensures Gen(mac, step, other, t0) != Gen(mac, step, token, t)
  {
    QuotientFits(t0, step);
    QuotientFits(t, step);
    var k, l := LittleEndian(other, 8), LittleEndian(token, 8);
    var m, n := LittleEndian(Unsigned(Quotient(t0, step)), 8), LittleEndian(Unsigned(Quotient(t, step)), 8);
    assert Pow256(8) == TWO_64 by { assert Pow256(4) == TWO_32; }
    LittleEndianRoundTrip(other, 8);
    LittleEndianRoundTrip(token, 8);
    assert DigestsDiffer(mac, k, l, m, n);
    if Gen(mac, step, other, t0) == Gen(mac, step, token, t) {
      LittleEndianValueInjective(mac(k, m)[..8], mac(l, n)[..8]);
    }
  }
}
