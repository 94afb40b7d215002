// Decimal notation, as fmt's %d and strconv.Itoa print it.

module Decimal {
  predicate IsDigit(c: char) {
    '0' <= c <= '9'
  }

  function Digit(n: nat): (c: char)
    requires n < 10
    ensures IsDigit(c) && DigitValue(c) == n
  {
    '0' + n as char
  }

  function DigitValue(c: char): (n: nat)
    requires IsDigit(c)
    ensures n < 10
  {
    (c - '0') as int
  }

  lemma DigitsInOrder(n: nat)
    requires n < 10
    ensures Digit(n) == "0123456789"[n]
  {
  }

  ghost predicate AllDigits(s: string) {
    forall i :: 0 <= i < |s| ==> IsDigit(s[i])
  }

  function Natural(n: nat): (s: string)
    ensures s != [] && AllDigits(s)
  {
    if n < 10 then [Digit(n)] else Natural(n / 10) + [Digit(n % 10)]
  }

  function Integer(n: int): string {
    if n < 0 then "-" + Natural(-n) else Natural(n)
  }

  function Value(s: string): nat
    requires AllDigits(s)
  {
    if s == [] then 0 else 10 * Value(s[..|s| - 1]) + DigitValue(s[|s| - 1])
  }

  lemma {:induction false} ValueOfNatural(n: nat)
    ensures Value(Natural(n)) == n
  {
    if n >= 10 {
      ValueOfNatural(n / 10);
      assert Natural(n)[..|Natural(n)| - 1] == Natural(n / 10);
    }
  }

  /** Different numbers are printed differently, and none contains a colon. */
  lemma IntegerInjective(m: int, n: int)
    requires Integer(m) == Integer(n)
    ensures m == n
  {
    ValueOfNatural(if m < 0 then -m else m);
    ValueOfNatural(if n < 0 then -n else n);
    assert forall k: int :: k < 0 <==> Integer(k)[0] == '-';
    if m < 0 && n < 0 {
      assert Integer(m)[1..] == Natural(-m) && Integer(n)[1..] == Natural(-n);
    }
  }

  lemma IntegerHasNo(n: int, c: char)
    requires c != '-' && !IsDigit(c)
    ensures c !in Integer(n)
  {
  }
}
