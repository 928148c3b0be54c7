/** The circuit that reads a 64-digit hex string as a field element, and the account-code check built on it. */
module Hex2Field {
  import opened Bytes
  import opened HexNumber
  import opened Numerals
  import opened Packing
  import opened Scanner

  // ----- the constraints -----

  /** The product of a bit and a number. */
  function Select(bit: int, x: int): int { if bit == 1 then x else 0 }

  lemma SelectIsProduct(bit: int, x: int)
    requires 0 <= bit <= 1
    ensures Select(bit, x) == bit * x
  {
    if bit == 0 { assert 0 * x == 0; } else { assert 1 * x == x; }
  }

  function IsDigitBit(c: byte): int { Select(Bit(c >= 48), Bit(c <= 57)) }
  function IsAlphabetBit(c: byte): int { Select(Bit(c >= 97), Bit(c <= 102)) }

  /** Hex2Int1's constraint. */
  predicate CharConstraint(c: byte) { IsDigitBit(c) + IsAlphabetBit(c) == 1 }

  /** Hex2Int1's output. */
  function CharOut(c: byte): int { Select(IsDigitBit(c), c - 48) + Select(IsAlphabetBit(c), c - 87) }

  /** Hex2Ints, output i. */
  function IntsOut(s: bytes, i: nat): int
    requires 2 * i + 1 < |s|
  {
    16 * CharOut(s[2*i]) + CharOut(s[2*i+1])
  }

  /** The accumulator sums[i], an element of the field of prime order q. */
  function Sums(s: bytes, i: nat, q: nat): (r: nat)
    requires 2 * i <= |s| && q > 0
    ensures r < q
  {
    if i == 0 then 0 else (256 * Sums(s, i - 1, q) + IntsOut(s, i - 1)) % q
  }

  predicate CharMet(s: bytes, i: nat)
    requires i < |s|
  {
    CharConstraint(s[i])
  }

  predicate Satisfiable(s: bytes) { forall i: nat :: i < |s| ==> CharMet(s, i) }

  function FieldOut(s: bytes, q: nat): (r: nat)
    requires |s| == 64 && q > 0
    ensures r < q
  {
    Sums(s, |s| / 2, q)
  }

  // ----- what they compute -----

  lemma CharExact(c: byte)
    ensures CharConstraint(c) <==> IsHex(c)
    ensures IsHex(c) ==> CharOut(c) == DigitValue(c)
  {
  }

  /** The constraints can be met exactly by the characters 0 to 9 and a to f. */
  lemma SatisfiableIff(s: bytes)
    ensures Satisfiable(s) <==> AllHex(s)
  {
    forall i: nat | i < |s| ensures CharMet(s, i) <==> IsHex(s[i]) { CharExact(s[i]); }
  }

  lemma Regroup(a: nat, b: nat, q: nat, k: nat, r: nat)
    requires a == q * k + r
    ensures 256 * a + b == (256 * r + b) + (256 * k) * q
  {
    assert 256 * (q * k) == (256 * k) * q;
  }

  /** Working with a remainder changes the next sum by a multiple of the order. */
  lemma Multiple(a: nat, b: nat, q: nat, r: nat) returns (k: nat)
    requires q > 0 && r == a % q
    ensures 256 * a + b == (256 * r + b) + k * q
  {
    k := 256 * (a / q);
    Regroup(a, b, q, a / q, r);
  }

  lemma {:induction false} AddMultiple(x: nat, k: nat, q: nat)
    requires q > 0
    ensures (x + k * q) % q == x % q
    decreases k
  {
    if k > 0 {
      AddMultiple(x, k - 1, q);
      var y := x + (k - 1) * q;
      assert x + k * q == y + q;
      AddOnce(y, q);
    }
  }

  lemma AddOnce(y: nat, q: nat)
    requires q > 0
    ensures (y + q) % q == y % q
  {
    var k := y / q;
    assert y + q == q * (k + 1) + y % q;
    Remainder(q * (k + 1) + y % q, q, k + 1, y % q);
  }

  lemma Remainder(n: nat, q: nat, k: nat, r: nat)
    requires r < q && n == q * k + r
    ensures n % q == r
  {
    DivModUnique(n, q, k, r);
  }

  lemma PairValue(s: bytes, i: nat)
    requires AllHex(s) && 2 * i + 2 <= |s|
    ensures 0 <= IntsOut(s, i)
    ensures HexValue(s[..2*i+2]) == 256 * HexValue(s[..2*i]) + IntsOut(s, i)
  {
    CharExact(s[2*i]);
    CharExact(s[2*i+1]);
    var v := s[..2*i+2];
    assert v[..2*i+1] == s[..2*i+1] && s[..2*i+1][..2*i] == s[..2*i];
  }

  lemma SumsStep(s: bytes, i: nat, q: nat)
    requires AllHex(s) && 2 * i + 2 <= |s| && q > 1 && Sums(s, i, q) == HexValue(s[..2*i]) % q
    ensures Sums(s, i + 1, q) == HexValue(s[..2*i+2]) % q
  {
    PairValue(s, i);
    var k := Multiple(HexValue(s[..2*i]), IntsOut(s, i), q, Sums(s, i, q));
    AddMultiple(256 * Sums(s, i, q) + IntsOut(s, i), k, q);
  }

  lemma {:induction false} SumsExact(s: bytes, i: nat, q: nat)
    requires AllHex(s) && 2 * i <= |s| && q > 1
    ensures Sums(s, i, q) == HexValue(s[..2*i]) % q
    decreases i
  {
    if i == 0 {
      Remainder(0, q, 0, 0);
    } else {
      SumsExact(s, i - 1, q);
      SumsStep(s, i - 1, q);
    }
  }

  /** The output is the big-endian value of the digits modulo the field's order. */
  lemma FieldExact(s: bytes, q: nat)
    requires |s| == 64 && Satisfiable(s) && q > 1
    ensures AllHex(s) && FieldOut(s, q) == HexValue(s) % q
  {
    SatisfiableIff(s);
    SumsExact(s, |s| / 2, q);
    assert s[..64] == s;
  }

  /** Reading the 64-digit text of a number gives it back exactly when it is below the field's order. */
  lemma ReadsBackIff(n: word, q: nat)
    requires q > 1
    ensures Satisfiable(HexText(n, 64)) && FieldOut(HexText(n, 64), q) == n % q
    ensures FieldOut(HexText(n, 64), q) == n <==> n < q
  {
    Pow16At64();
    HexTextValue(n, 64);
    SatisfiableIff(HexText(n, 64));
    FieldExact(HexText(n, 64), q);
    if n < q { Remainder(n, q, 0, n); }
  }

  lemma BelowOrder(s: bytes, q: nat)
    requires |s| == 64 && AllHex(s) && HexValue(s) < q
    ensures FieldOut(s, q) == HexValue(s)
  {
    if q > 1 {
      SatisfiableIff(s);
      FieldExact(s, q);
    }
    Remainder(HexValue(s), q, 0, HexValue(s));
  }

  /** Two readable strings below the order have one value exactly when they are one string. */
  lemma FieldInjective(s: bytes, t: bytes, q: nat)
    requires |s| == 64 == |t| && AllHex(s) && AllHex(t) && HexValue(s) < q && HexValue(t) < q
    ensures FieldOut(s, q) == FieldOut(t, q) <==> s == t
  {
    BelowOrder(s, q);
    BelowOrder(t, q);
    HexValueText(s);
    HexValueText(t);
  }

  /** Above the order the digits are not determined: the prime itself reads as zero. */
  lemma PrimeReadsAsZero()
    ensures SCALAR_FIELD < TWO_256 && HexText(SCALAR_FIELD, 64) != HexText(0, 64)
    ensures FieldOut(HexText(SCALAR_FIELD, 64), SCALAR_FIELD) == 0 == FieldOut(HexText(0, 64), SCALAR_FIELD)
  {
    ReadsBackIff(SCALAR_FIELD, SCALAR_FIELD);
    ReadsBackIff(0, SCALAR_FIELD);
    Pow16At64();
    HexTextValue(SCALAR_FIELD, 64);
    HexTextValue(0, 64);
  }

  // ----- the account-code check -----

  function CodeChar(isCodeExist: nat, c: byte): byte { Select(isCodeExist, c - 48) + 48 }

  /** invitation_code_hex: the shifted code, or sixty-four zeros when there is none. */
  function CodeHex(isCodeExist: nat, shifted: bytes): (r: bytes)
    requires isCodeExist <= 1 && |shifted| == 64
    ensures |r| == 64
  {
    seq(64, i requires 0 <= i < 64 => CodeChar(isCodeExist, shifted[i]))
  }

  /** The difference of two elements of the field of order q. */
  function FieldSub(a: nat, b: nat, q: nat): (d: nat)
    requires a < q && b < q
    ensures d < q && (d == 0 <==> a == b)
  {
    if a >= b then a - b else a + q - b
  }

  /**
   * The constraints on the code: those of Hex2Field, and a product that must be zero in the field. One factor is a bit
   * and the other an element of the field, so the product needs no reduction.
   */
  predicate CodeConstraints(isCodeExist: nat, shifted: bytes, accountCode: nat, q: nat)
    requires isCodeExist <= 1 && |shifted| == 64 && accountCode < q
  {
    var code := CodeHex(isCodeExist, shifted);
    Satisfiable(code) && Select(isCodeExist, FieldSub(FieldOut(code, q), accountCode, q)) == 0
  }

  /** Without a code the check always passes. */
  lemma NoCodePasses(shifted: bytes, accountCode: nat, q: nat)
    requires |shifted| == 64 && accountCode < q
    ensures CodeConstraints(0, shifted, accountCode, q)
  {
    assert AllHex(CodeHex(0, shifted));
    SatisfiableIff(CodeHex(0, shifted));
  }

  /** With a code, the check passes exactly when the code is readable and its value in the field is the account code. */
  lemma CodeReads(shifted: bytes, accountCode: nat, q: nat)
    requires |shifted| == 64 && accountCode < q && q > 1
    ensures CodeConstraints(1, shifted, accountCode, q) <==> AllHex(shifted) && HexValue(shifted) % q == accountCode
  {
    assert CodeHex(1, shifted) == shifted;
    SatisfiableIff(shifted);
    if Satisfiable(shifted) { FieldExact(shifted, q); }
  }

  /** The 64-digit lower-case text of the account code passes. */
  lemma PrintedCodePasses(accountCode: word, q: nat)
    requires accountCode < q && q > 1
    ensures CodeConstraints(1, HexText(accountCode, 64), accountCode, q)
  {
    CodeReads(HexText(accountCode, 64), accountCode, q);
    ReadsBackIff(accountCode, q);
    SatisfiableIff(HexText(accountCode, 64));
    FieldExact(HexText(accountCode, 64), q);
  }
}
