/** Decimal numerals as OpenZeppelin's Strings.toString prints them. */
module Numerals {
  import opened Bytes

  const ZERO: byte := 48

  predicate IsDigit(c: byte) { 48 <= c <= 57 }

  predicate Digits(s: bytes) { forall i :: 0 <= i < |s| ==> IsDigit(s[i]) }

  function Dec(n: nat): (s: bytes)
    ensures s != [] && Digits(s)
  {
    if n < 10 then [48 + n] else Dec(n / 10) + [48 + n % 10]
  }

  /** Strings.toStringSigned. */
  function DecSigned(i: int): (s: bytes)
    ensures s != []
  {
    if i < 0 then [45] + Dec(-i) else Dec(i)
  }

  /** The number a digit string stands for. */
  function Value(s: bytes): nat
    requires Digits(s)
  {
    if s == [] then 0 else 10 * Value(s[..|s|-1]) + (s[|s|-1] - 48)
  }

  function Pow10(k: nat): (p: nat)
    ensures p > 0
  {
    if k == 0 then 1 else 10 * Pow10(k - 1)
  }

  /** The last k digits of n. */
  function Fixed(n: nat, k: nat): (s: bytes)
    ensures |s| == k && Digits(s)
  {
    if k == 0 then [] else Fixed(n / 10, k - 1) + [48 + n % 10]
  }

  /** Printing then reading is the identity, so two numbers never print alike. */
  lemma {:induction false} DecValue(n: nat)
    ensures Value(Dec(n)) == n
  {
    if n >= 10 {
      DecValue(n / 10);
      assert Dec(n)[..|Dec(n)|-1] == Dec(n / 10);
    } else {
      assert Dec(n)[..0] == [];
    }
  }

  lemma DecInjective(m: nat, n: nat)
    requires Dec(m) == Dec(n)
    ensures m == n
  {
    DecValue(m);
    DecValue(n);
  }

  lemma DecSignedInjective(i: int, j: int)
    requires DecSigned(i) == DecSigned(j)
    ensures i == j
  {
    assert forall k: int {:trigger DecSigned(k)} :: DecSigned(k)[0] == 45 <==> k < 0 by {
      forall k: int ensures DecSigned(k)[0] == 45 <==> k < 0 { assert k >= 0 ==> IsDigit(Dec(k)[0]); }
    }
    if i < 0 && j < 0 {
      assert Dec(-i) == DecSigned(i)[1..] && Dec(-j) == DecSigned(j)[1..];
      DecInjective(-i, -j);
    } else if i >= 0 && j >= 0 {
      DecInjective(i, j);
    }
  }

  /** No leading zero, except for zero itself. */
  lemma {:induction false} DecLeading(n: nat)
    requires n > 0
    ensures Dec(n)[0] != ZERO
  {
    if n >= 10 { DecLeading(n / 10); }
  }

  lemma {:induction false} DecShort(n: nat, k: nat)
    requires n < Pow10(k) && k > 0
    ensures |Dec(n)| <= k
  {
    if n >= 10 { DecShort(n / 10, k - 1); }
  }

  lemma Pow10At78()
    ensures TWO_256 < Pow10(78)
  {
    assert Pow10(13) == 10000000000000;
    Pow10Add(13, 13);
    Pow10Add(26, 26);
    Pow10Add(52, 26);
  }

  lemma {:induction false} Pow10Add(a: nat, b: nat)
    ensures Pow10(a + b) == Pow10(a) * Pow10(b)
    decreases a
  {
    if a > 0 {
      Pow10Add(a - 1, b);
      assert 10 * (Pow10(a - 1) * Pow10(b)) == (10 * Pow10(a - 1)) * Pow10(b);
    }
  }

  /** A 256-bit number has at most 78 digits. */
  lemma WordDigits(w: word)
    ensures |Dec(w)| <= 78
  {
    Pow10At78();
    DecShort(w, 78);
  }

  // ----- cutting a numeral at d digits from the right -----

  lemma DivDiv(n: nat, p: nat)
    requires p > 0
    ensures (n / 10) / p == n / (10 * p)
    ensures n % (10 * p) == 10 * ((n / 10) % p) + n % 10
  {
    var q, r := (n / 10) / p, (n / 10) % p;
    assert n / 10 == p * q + r;
    var m := 10 * r + n % 10;
    assert n == (10 * p) * q + m by {
      assert n == 10 * (n / 10) + n % 10;
      assert 10 * (p * q + r) == (10 * p) * q + 10 * r;
    }
    assert 0 <= m < 10 * p;
    DivModUnique(n, 10 * p, q, m);
  }

  lemma MulMonotone(d: nat, x: nat, y: nat)
    requires x <= y
    ensures d * x <= d * y
  {
  }

  lemma QuotientUnique(d: nat, q: nat, m: nat, q': nat, m': nat)
    requires m < d && m' < d && d * q + m == d * q' + m'
    ensures q == q' && m == m'
  {
    if q < q' {
      MulMonotone(d, q + 1, q');
    } else if q' < q {
      MulMonotone(d, q' + 1, q);
    }
  }

  lemma DivModUnique(n: nat, d: nat, q: nat, m: nat)
    requires m < d && n == d * q + m
    ensures n / d == q && n % d == m
  {
    QuotientUnique(d, q, m, n / d, n % d);
  }

  /** What is left of n after dropping its last d digits. */
  function Quotient(n: nat, d: nat): nat {
    QuotientNat(n, Pow10(d));
    n / Pow10(d)
  }

  lemma QuotientRemainder(n: nat, d: nat)
    ensures n == Quotient(n, d) * Pow10(d) + n % Pow10(d)
  {
    var q, p := Quotient(n, d), Pow10(d);
    assert n == p * q + n % p;
    assert p * q == q * p;
  }

  lemma QuotientNat(n: nat, p: nat)
    requires p > 0
    ensures n / p >= 0
  {
    var q: int, m: int := n / p, n % p;
    assert n == p * q + m;
    if q < 0 { NegativeProduct(p, q); }
  }

  lemma NegativeProduct(p: int, q: int)
    requires p >= 0 && q < 0
    ensures p * q <= -p
  {
    MulMonotone(p, 1, -q);
    assert p * q == -(p * -q);
  }

  /** A numeral longer than d digits is the numeral of n / 10^d followed by the last d digits. */
  lemma {:induction false} DecCut(n: nat, d: nat)
    requires |Dec(n)| > d
    ensures Dec(n) == Dec(Quotient(n, d)) + Fixed(n, d)
    decreases d
  {
    if d > 0 {
      DecCut(n / 10, d - 1);
      DivDiv(n, Pow10(d - 1));
    }
  }

  /** A shorter one is padded with zeros, and n / 10^d is zero. */
  lemma {:induction false} DecPad(n: nat, d: nat)
    requires |Dec(n)| <= d
    ensures Fixed(n, d) == Repeat(ZERO, d - |Dec(n)|) + Dec(n)
    ensures n < Pow10(d)
    decreases d
  {
    if n < 10 {
      FixedZero(d - 1);
      assert n / 10 == 0;
      assert Pow10(d) == 10 * Pow10(d - 1);
    } else {
      DecPad(n / 10, d - 1);
      assert Repeat(ZERO, d - |Dec(n)|) + Dec(n) == (Repeat(ZERO, d - 1 - |Dec(n / 10)|) + Dec(n / 10)) + [48 + n % 10];
    }
  }

  lemma {:induction false} FixedZero(k: nat)
    ensures Fixed(0, k) == Repeat(ZERO, k)
  {
    if k > 0 {
      FixedZero(k - 1);
      assert Repeat(ZERO, k) == Repeat(ZERO, k - 1) + [ZERO];
    }
  }

  /** The last d digits read as the remainder. */
  lemma {:induction false} FixedValue(n: nat, d: nat)
    ensures Value(Fixed(n, d)) == n % Pow10(d)
    decreases d
  {
    if d > 0 {
      FixedValue(n / 10, d - 1);
      DivDiv(n, Pow10(d - 1));
      assert Fixed(n, d)[..d-1] == Fixed(n / 10, d - 1);
    }
  }
}
