// common/version.go: ordering of dotted version strings.

module Version {
  import opened Decimal

  datatype Order = Less | Equal | Greater

  /** strings.Split on a dot; never empty. */
  function Split(s: string): (parts: seq<string>)
    ensures parts != []
  {
    if s == "" then [""]
    else
      var rest := Split(s[1..]);
      if s[0] == '.' then [""] + rest else [[s[0]] + rest[0]] + rest[1..]
  }

  const MAX_INT: int := 0x7FFF_FFFF_FFFF_FFFF
  const UINT_LIMIT: int := 0x1_0000_0000_0000_0000

  datatype Parsed = Number(n: nat) | Syntax | Range

  /** strconv's digit loop: it stops at the first bad character or at 64-bit overflow, whichever comes first. */
  function ParseDigits(s: string, n: nat): Parsed
  {
    if s == "" then Number(n)
    else if !IsDigit(s[0]) then Syntax
    else if 10 * n + DigitValue(s[0]) >= UINT_LIMIT then Range
    else ParseDigits(s[1..], 10 * n + DigitValue(s[0]))
  }

  /** The number strconv.Atoi returns, errors ignored: 0 on bad syntax, the nearest bound when out of range. */
  function Atoi(s: string): int
  {
    var negative := s != "" && s[0] == '-';
    var digits := if s != "" && (s[0] == '-' || s[0] == '+') then s[1..] else s;
    if digits == "" then 0
    else
      match ParseDigits(digits, 0)
      case Syntax => 0
      case Range => if negative then -MAX_INT - 1 else MAX_INT
      case Number(n) =>
        var m: int := n;
        if negative then (if m > MAX_INT + 1 then -MAX_INT - 1 else -m) else if m > MAX_INT then MAX_INT else m
  }

  function Numbers(parts: seq<string>): (ns: seq<int>)
    ensures |ns| == |parts| && forall i :: 0 <= i < |ns| ==> ns[i] == Atoi(parts[i])
  {
    seq(|parts|, i requires 0 <= i < |parts| => Atoi(parts[i]))
  }

  /** Lexicographic order, a proper prefix being smaller. */
  function Lexicographic(a: seq<int>, b: seq<int>): Order
  {
    if a == [] then (if b == [] then Equal else Less)
    else if b == [] then Greater
    else if a[0] != b[0] then (if a[0] < b[0] then Less else Greater)
    else Lexicographic(a[1..], b[1..])
  }

  /** They first differ at i, where a has the smaller number, or has ended. */
  ghost predicate SmallerAt(a: seq<int>, b: seq<int>, i: nat)
  {
    i <= |a| && i < |b| && a[..i] == b[..i] && (i < |a| ==> a[i] < b[i])
  }

  lemma {:induction false} LexicographicIff(a: seq<int>, b: seq<int>)
    ensures Lexicographic(a, b) == Less <==> exists i :: SmallerAt(a, b, i)
    decreases |a|
  {
    forall i: nat | i > 0 && SmallerAt(a, b, i)
      ensures a != [] && b != [] && a[0] == b[0]
    {
      assert a[..i][0] == b[..i][0];
    }
    if a != [] && b != [] && a[0] == b[0] {
      LexicographicIff(a[1..], b[1..]);
      if i: nat :| SmallerAt(a[1..], b[1..], i) {
        assert a[..i + 1] == [a[0]] + a[1..][..i] && b[..i + 1] == [b[0]] + b[1..][..i];
        assert SmallerAt(a, b, i + 1);
      }
      if i: nat :| SmallerAt(a, b, i) {
        assert i > 0;
        assert a[1..][..i - 1] == a[..i][1..] && b[1..][..i - 1] == b[..i][1..];
        assert SmallerAt(a[1..], b[1..], i - 1);
      }
    } else {
      assert b != [] && (a == [] || a[0] < b[0]) ==> SmallerAt(a, b, 0);
    }
  }

  /** The parts hold no dot, and with dots between them they are the text. */
  lemma {:induction false} SplitRebuilds(s: string)
    ensures Dotted(Split(s)) == s && forall part :: part in Split(s) ==> '.' !in part
  {
    if s != "" {
      var rest := Split(s[1..]);
      SplitRebuilds(s[1..]);
      assert s == [s[0]] + s[1..];
      if s[0] == '.' {
        assert ([""] + rest)[1..] == rest;
      } else {
        assert rest == [rest[0]] + rest[1..];
        assert ([[s[0]] + rest[0]] + rest[1..])[1..] == rest[1..];
      }
    }
  }

  function Dotted(parts: seq<string>): string
    requires parts != []
  {
    if |parts| == 1 then parts[0] else parts[0] + ("." + Dotted(parts[1..]))
  }

  ghost function Meaning(v: string): seq<int>
  {
    Numbers(Split(v))
  }

  /** On all strings: equal texts are EQUAL, otherwise the component numbers decide, and a tie is LESS. */
  ghost function Specified(v1: string, v2: string): Order
  {
    if v1 == v2 then Equal
    else if Lexicographic(Meaning(v1), Meaning(v2)) == Equal then Less
    else Lexicographic(Meaning(v1), Meaning(v2))
  }

  lemma EqualComponent(a: seq<int>, b: seq<int>, i: nat)
    requires i < |a| && i < |b| && a[i] == b[i]
    ensures Lexicographic(a[i..], b[i..]) == Lexicographic(a[i + 1..], b[i + 1..])
  {
    assert a[i..][1..] == a[i + 1..] && b[i..][1..] == b[i + 1..];
  }

  /** The comparison by components: the loop of CompareVersion on the parts from i on. */
  lemma DecidedAt(a: seq<int>, b: seq<int>, i: nat)
    requires i <= |a| && i <= |b|
    ensures i < |a| && i == |b| ==> Lexicographic(a[i..], b[i..]) == Greater
    ensures i < |a| && i < |b| && a[i] > b[i] ==> Lexicographic(a[i..], b[i..]) == Greater
    ensures i < |a| && i < |b| && a[i] < b[i] ==> Lexicographic(a[i..], b[i..]) == Less
    ensures i == |a| ==> Lexicographic(a[i..], b[i..]) == if |b| == i then Equal else Less
  {
  }

  method CompareVersion(v1: string, v2: string) returns (r: Order)
    ensures r == Specified(v1, v2)
  {
    if v1 == v2 {
      return Equal;
    }
    var v1Arr := Split(v1);
    var v2Arr := Split(v2);
    ghost var a, b := Numbers(v1Arr), Numbers(v2Arr);
    var i := 0;
    while i < |v1Arr|
      invariant 0 <= i <= |v1Arr| && i <= |v2Arr|
      invariant Lexicographic(a, b) == Lexicographic(a[i..], b[i..])
    {
      DecidedAt(a, b, i);
      if |v2Arr| <= i {
        return Greater;
      }
      var subv1 := Atoi(v1Arr[i]);
      var subv2 := Atoi(v2Arr[i]);
      if subv1 > subv2 {
        return Greater;
      }
      if subv1 < subv2 {
        return Less;
      }
      EqualComponent(a, b, i);
      i := i + 1;
    }
    DecidedAt(a, b, i);
    return Less;
  }

  // ---- The order on numbers ----

  function Flipped(o: Order): Order {
    match o case Less => Greater case Equal => Equal case Greater => Less
  }

  lemma {:induction false} LexicographicFlips(a: seq<int>, b: seq<int>)
    ensures Lexicographic(b, a) == Flipped(Lexicographic(a, b))
    ensures Lexicographic(a, b) == Equal <==> a == b
    decreases |a|
  {
    if a != [] && b != [] {
      LexicographicFlips(a[1..], b[1..]);
      assert a == [a[0]] + a[1..] && b == [b[0]] + b[1..];
    }
  }

  lemma {:induction false} LexicographicChains(a: seq<int>, b: seq<int>, c: seq<int>)
    requires Lexicographic(a, b) == Less && Lexicographic(b, c) == Less
    ensures Lexicographic(a, c) == Less
    decreases |a|
  {
    if a != [] && b != [] && c != [] && a[0] == b[0] == c[0] {
      LexicographicChains(a[1..], b[1..], c[1..]);
    }
  }

  /** Swapping the arguments flips the answer exactly unless two different texts mean the same numbers. */
  lemma AntisymmetricIff(v1: string, v2: string)
    ensures Specified(v2, v1) == Flipped(Specified(v1, v2)) <==> (v1 == v2 || Meaning(v1) != Meaning(v2))
  {
    LexicographicFlips(Meaning(v1), Meaning(v2));
  }

  // ---- Canonical versions ----

  function Join(ns: seq<nat>): string
    requires ns != []
  {
    if |ns| == 1 then Natural(ns[0]) else Natural(ns[0]) + "." + Join(ns[1..])
  }

  /** Components below 2^63, printed without leading zeros. */
  ghost predicate IsVersion(ns: seq<nat>)
  {
    ns != [] && forall i :: 0 <= i < |ns| ==> ns[i] <= MAX_INT
  }

  lemma {:induction false} SplitDigits(s: string, rest: string)
    requires AllDigits(s)
    ensures Split(s) == [s]
    ensures Split(s + "." + rest) == [s] + Split(rest)
  {
    var t := s + "." + rest;
    if s == "" {
      assert t[1..] == rest;
    } else {
      SplitDigits(s[1..], rest);
      assert t[1..] == s[1..] + "." + rest;
      assert s == [s[0]] + s[1..];
    }
  }

  /** A leading zero is enough: each of the two is LESS than the other. */
  lemma LeadingZeroTies()
    ensures Specified("1.0", "1.00") == Less && Specified("1.00", "1.0") == Less
  {
  }

  lemma {:induction false} ParseDigitsAppend(s: string, t: string, n: nat, m: nat)
    requires ParseDigits(s, n) == Number(m)
    ensures ParseDigits(s + t, n) == ParseDigits(t, m)
  {
    if s == "" {
      assert s + t == t;
    } else {
      ParseDigitsAppend(s[1..], t, 10 * n + DigitValue(s[0]), m);
      assert (s + t)[1..] == s[1..] + t;
    }
  }

  lemma {:induction false} ParseNatural(n: nat)
    requires n < UINT_LIMIT
    ensures ParseDigits(Natural(n), 0) == Number(n)
  {
    if n >= 10 {
      ParseNatural(n / 10);
      ParseDigitsAppend(Natural(n / 10), [Digit(n % 10)], 0, n / 10);
    }
    assert ParseDigits([Digit(n % 10)], n / 10) == Number(10 * (n / 10) + n % 10);
  }

  lemma AtoiNatural(n: nat)
    requires n <= MAX_INT
    ensures Atoi(Natural(n)) == n
  {
    ParseNatural(n);
    assert IsDigit(Natural(n)[0]);
  }

  lemma {:induction false} ParseDigitsIs(s: string, n: nat)
    requires AllDigits(s) && n < UINT_LIMIT
    ensures ParseDigits(s, n) ==
            if n * Pow10(|s|) + Leading(s) < UINT_LIMIT then Number(n * Pow10(|s|) + Leading(s)) else Range
  {
    if s != "" {
      var d, m := DigitValue(s[0]), 10 * n + DigitValue(s[0]);
      assert m * Pow10(|s| - 1) == n * Pow10(|s|) + d * Pow10(|s| - 1) by {
        assert 10 * n * Pow10(|s| - 1) == n * (10 * Pow10(|s| - 1));
      }
      if m < UINT_LIMIT {
        ParseDigitsIs(s[1..], m);
      } else {
        AtLeast(m, Pow10(|s| - 1));
      }
    }
  }

  lemma AtLeast(m: nat, p: nat)
    requires p > 0
    ensures m <= m * p
  {
  }

  function Pow10(n: nat): (p: nat)
    ensures p > 0
  {
    if n == 0 then 1 else 10 * Pow10(n - 1)
  }

  /** The number that the digits denote. */
  function Leading(s: string): nat
    requires AllDigits(s)
  {
    if s == "" then 0 else DigitValue(s[0]) * Pow10(|s| - 1) + Leading(s[1..])
  }

  /** Digits with or without a sign mean their number, clamped to 64 bits. */
  lemma AtoiIs(digits: string)
    requires digits != "" && AllDigits(digits)
    ensures var n: int := Leading(digits);
            Atoi(digits) == Atoi("+" + digits) == (if n <= MAX_INT then n else MAX_INT) &&
            Atoi("-" + digits) == if n <= MAX_INT + 1 then -n else -MAX_INT - 1
  {
    ParseDigitsIs(digits, 0);
    assert ("+" + digits)[1..] == digits && ("-" + digits)[1..] == digits;
    assert IsDigit(digits[0]);
  }

  /** Anything else means 0, unless what stands before the first wrong character is already out of range. */
  lemma AtoiOfOther(digits: string, c: char, rest: string)
    requires AllDigits(digits) && !IsDigit(c) && Leading(digits) < UINT_LIMIT
    requires digits == "" ==> c != '+' && c != '-'
    ensures Atoi(digits + [c] + rest) == Atoi("-" + (digits + [c] + rest)) == Atoi("+" + (digits + [c] + rest)) == 0
    ensures Atoi("") == Atoi("+") == Atoi("-") == 0
  {
    var s := digits + [c] + rest;
    ParseDigitsIs(digits, 0);
    assert s == digits + ([c] + rest);
    ParseDigitsAppend(digits, [c] + rest, 0, Leading(digits));
    assert ("-" + s)[1..] == s && ("+" + s)[1..] == s;
    assert s[0] == if digits == "" then c else digits[0];
  }

  lemma NumbersCons(part: string, rest: seq<string>)
    ensures Numbers([part] + rest) == [Atoi(part)] + Numbers(rest)
  {
  }

  lemma {:induction false} MeaningOfJoin(ns: seq<nat>)
    requires IsVersion(ns)
    ensures Meaning(Join(ns)) == ns
  {
    var first := Natural(ns[0]);
    AtoiNatural(ns[0]);
    if |ns| == 1 {
      SplitDigits(first, "");
    } else {
      var rest := ns[1..];
      MeaningOfJoin(rest);
      SplitDigits(first, Join(rest));
      assert Split(Join(ns)) == [first] + Split(Join(rest));
      NumbersCons(first, Split(Join(rest)));
    }
  }

  /** On canonical versions the comparison is the lexicographic order of the components. */
  lemma CanonicalOrder(a: seq<nat>, b: seq<nat>)
    requires IsVersion(a) && IsVersion(b)
    ensures Specified(Join(a), Join(b)) == Lexicographic(a, b)
    ensures Specified(Join(a), Join(b)) == Equal <==> Join(a) == Join(b)
    ensures Specified(Join(b), Join(a)) == Flipped(Specified(Join(a), Join(b)))
  {
    MeaningOfJoin(a);
    MeaningOfJoin(b);
    LexicographicFlips(a, b);
    LexicographicFlips(Meaning(Join(a)), Meaning(Join(b)));
  }

  /** Each installed version is LESS than the next, as the upgrade guard demands. */
  ghost predicate UpgradeChain(vs: seq<seq<nat>>)
  {
    (forall i :: 0 <= i < |vs| ==> IsVersion(vs[i])) &&
    forall i :: 0 <= i < |vs| - 1 ==> Specified(Join(vs[i]), Join(vs[i + 1])) == Less
  }

  lemma {:induction false} ChainIncreases(vs: seq<seq<nat>>, i: nat, j: nat)
    requires i < j < |vs| && forall k :: 0 <= k < |vs| - 1 ==> Lexicographic(vs[k], vs[k + 1]) == Less
    ensures Lexicographic(vs[i], vs[j]) == Less
    decreases j
  {
    assert Lexicographic(vs[j - 1], vs[j - 1 + 1]) == Less;
    if i < j - 1 {
      ChainIncreases(vs, i, j - 1);
      LexicographicChains(vs[i], vs[j - 1], vs[j]);
    }
  }

  /** No chain of guarded upgrades comes back to a version. */
  lemma UpgradesNeverRevisit(vs: seq<seq<nat>>, i: nat, j: nat)
    requires UpgradeChain(vs) && i < j < |vs|
    ensures Specified(Join(vs[i]), Join(vs[j])) == Less && Join(vs[i]) != Join(vs[j])
  {
    forall k | 0 <= k < |vs| - 1
      ensures Lexicographic(vs[k], vs[k + 1]) == Less
    {
      CanonicalOrder(vs[k], vs[k + 1]);
    }
    ChainIncreases(vs, i, j);
    CanonicalOrder(vs[i], vs[j]);
  }
}
