/** What a printed number, amount or address reads as, and that no other text reads so. */
module Readings {
  import opened Bytes
  import opened Numerals
  import opened Hex
  import opened Abi
  import Decimal

  // ----- numerals -----

  /** Decimal digits without leading zeros. */
  predicate Numeral(s: bytes) { s != [] && Digits(s) && (|s| > 1 ==> s[0] != 48) }

  predicate ReadsUint(text: bytes, n: nat) { Numeral(text) && Value(text) == n }

  /** The 256-bit pattern n as a signed number: below 2^255 itself, from there on the negative of its complement. */
  predicate ReadsInt(text: bytes, n: word) {
    if n < 0x80000000_00000000_00000000_00000000_00000000_00000000_00000000_00000000 then ReadsUint(text, n)
    else text != [] && text[0] == 45 && ReadsUint(text[1..], TWO_256 - n)
  }

  /** An amount of 18 places without superfluous zeros; zero is written with a zero byte after its first digit. */
  predicate ReadsAmount(text: bytes, n: nat) {
    if n == 0 then text == [48, 0] + Repeat(48, 16)
    else
      && Decimal.Readable(text, 18) && Decimal.Read(text, 18) == n && Numeral(Decimal.Whole(text))
      && (Decimal.DotAt(text) < |text| ==> Decimal.Fraction(text) != [] && text[|text|-1] != 48)
  }

  lemma DecReads(n: nat)
    ensures ReadsUint(Dec(n), n)
  {
    DecValue(n);
    if n > 0 { DecLeading(n); }
  }

  lemma DecSignedReads(n: word)
    ensures ReadsInt(DecSigned(if n < TWO_256 / 2 then n else n - TWO_256), n)
  {
    if n < TWO_256 / 2 {
      DecReads(n);
    } else {
      DecReads(TWO_256 - n);
      assert DecSigned(n - TWO_256)[1..] == Dec(TWO_256 - n);
    }
  }

  lemma AmountReads(n: word)
    ensures Decimal.Printed(n, 18).Ok? && ReadsAmount(Decimal.Printed(n, 18).value, n)
  {
    if n > 0 {
      var t := Decimal.AmountText(n, 18);
      Decimal.ReadText(n, 18);
      Decimal.TextParts(n, 18);
      DecReads(Quotient(n, 18));
      Decimal.StripEnds(Fixed(n, 18));
      if Decimal.Strip(Fixed(n, 18)) == [] { assert t == Decimal.Whole(t); }
    }
  }

  // ----- a number has one numeral, and an amount one text -----

  lemma {:induction false} NumeralIsDec(s: bytes)
    requires Numeral(s)
    ensures s == Dec(Value(s))
    decreases |s|
  {
    var v := s[..|s|-1];
    assert s == v + [s[|s|-1]];
    if |s| > 1 {
      NumeralIsDec(v);
      assert v[0] == s[0] && Value(v) > 0;
    }
  }

  lemma {:induction false} ValueBound(s: bytes)
    requires Digits(s)
    ensures Value(s) < Pow10(|s|)
    decreases |s|
  {
    if s != [] { ValueBound(s[..|s|-1]); }
  }

  lemma {:induction false} SameValue(s: bytes, r: bytes)
    requires Digits(s) && Digits(r) && |s| == |r| && Value(s) == Value(r)
    ensures s == r
    decreases |s|
  {
    if s != [] {
      SameValue(s[..|s|-1], r[..|r|-1]);
      assert s == s[..|s|-1] + [s[|s|-1]] && r == r[..|r|-1] + [r[|r|-1]];
    }
  }

  lemma UintUnique(x: bytes, n: nat)
    requires ReadsUint(x, n)
    ensures x == Dec(n)
  {
    NumeralIsDec(x);
  }

  lemma IntUnique(x: bytes, y: bytes, n: word)
    requires ReadsInt(x, n) && ReadsInt(y, n)
    ensures x == y
  {
    if n < TWO_256 / 2 {
      UintUnique(x, n);
      UintUnique(y, n);
    } else {
      UintUnique(x[1..], TWO_256 - n);
      UintUnique(y[1..], TWO_256 - n);
      assert x == [x[0]] + x[1..] && y == [y[0]] + y[1..];
    }
  }

  lemma PartsDivide(n: nat, p: nat, q: nat, m: nat)
    requires m < p && n == q * p + m
    ensures n / p == q && n % p == m
  {
    assert q * p == p * q;
    DivModUnique(n, p, q, m);
  }

  /** Whole part and padded fraction are quotient and remainder. */
  lemma PartsUnique(whole: bytes, padded: bytes, n: nat, d: nat)
    requires Numeral(whole) && Digits(padded) && |padded| == d && n == Value(whole) * Pow10(d) + Value(padded)
    ensures whole == Dec(Quotient(n, d)) && padded == Fixed(n, d)
  {
    ValueBound(padded);
    PartsDivide(n, Pow10(d), Value(whole), Value(padded));
    NumeralIsDec(whole);
    FixedValue(n, d);
    SameValue(padded, Fixed(n, d));
  }

  lemma FractionIsStripped(f: bytes, n: nat)
    requires f == [] || f[|f|-1] != 48
    ensures Decimal.Strip(f + Repeat(48, n)) == f
  {
    Decimal.StripIs(f + Repeat(48, n), |f|);
  }

  lemma CutAt(x: bytes, i: nat)
    requires i < |x|
    ensures x == x[..i] + ([x[i]] + x[i+1..])
  {
  }

  lemma TextOfParts(x: bytes)
    ensures Decimal.DotAt(x) == |x| ==> x == Decimal.Whole(x) && Decimal.Fraction(x) == []
    ensures Decimal.DotAt(x) < |x| ==> x == Decimal.Whole(x) + ([46] + Decimal.Fraction(x))
  {
    var i := Decimal.DotAt(x);
    if i < |x| { CutAt(x, i); } else { assert x[..i] == x; }
  }

  /** Whole part, and a dot with the fraction if there is one. */
  lemma AmountOf(x: bytes, n: nat, whole: bytes, f: bytes)
    requires whole == Dec(Quotient(n, 18)) && f == Decimal.Strip(Fixed(n, 18))
    requires if f == [] then x == whole else x == whole + ([46] + f)
    ensures x == Decimal.AmountText(n, 18)
  {
    assert whole + [] == whole;
  }

  lemma FractionUnique(whole: bytes, f: bytes, padded: bytes, n: nat, d: nat)
    requires Numeral(whole) && (f == [] || f[|f|-1] != 48) && |f| <= d && padded == f + Repeat(48, d - |f|)
    requires Digits(padded) && n == Value(whole) * Pow10(d) + Value(padded)
    ensures whole == Dec(Quotient(n, d)) && f == Decimal.Strip(Fixed(n, d))
  {
    PartsUnique(whole, padded, n, d);
    FractionIsStripped(f, d - |f|);
  }

  lemma AmountUnique(x: bytes, n: nat)
    requires n > 0 && ReadsAmount(x, n)
    ensures x == Decimal.AmountText(n, 18)
  {
    var f := Decimal.Fraction(x);
    TextOfParts(x);
    FractionUnique(Decimal.Whole(x), f, f + Repeat(48, 18 - |f|), n, 18);
    AmountOf(x, n, Decimal.Whole(x), f);
  }

  // ----- addresses -----

  /** The bytes are the digit pairs of the number they stand for. */
  lemma {:induction false} ShrBigEndian(b: bytes, m: nat)
    requires m <= |b|
    ensures Shr(BigEndian(b), 2 * m) == BigEndian(b[..|b|-m])
    decreases m
  {
    if m == 0 {
      assert b[..|b|] == b;
    } else {
      ShrBigEndian(b, m - 1);
      var v := b[..|b|-m+1];
      assert v[..|v|-1] == b[..|b|-m];
      ShrTwice(BigEndian(b), 2 * m - 2);
    }
  }

  lemma ShrTwice(n: nat, k: nat)
    ensures Shr(n, k + 2) == Shr(n, k) / 256
  {
    assert Shr(n, k + 2) == Shr(n, k + 1) / 16 == Shr(n, k) / 16 / 16;
  }

  lemma NibblePair(n: nat, k: nat)
    ensures Pair(Nibble(n, k + 1), Nibble(n, k)) == Shr(n, k) % 256
  {
    assert Shr(n, k + 1) == Shr(n, k) / 16;
  }

  lemma LastByte(v: bytes)
    requires v != []
    ensures BigEndian(v) % 256 == v[|v|-1]
  {
  }

  /** Byte m from the right. */
  lemma ByteFromRight(b: bytes, m: nat)
    requires m < |b|
    ensures Pair(Nibble(BigEndian(b), 2 * m + 1), Nibble(BigEndian(b), 2 * m)) == b[|b|-1-m]
  {
    NibblePair(BigEndian(b), 2 * m);
    ShrBigEndian(b, m);
    LastByte(b[..|b|-m]);
  }

  lemma AddressByte(b: bytes, j: nat)
    requires |b| == 32 && BigEndian(b) < TWO_160 && j < 20
    ensures AddressBytes(BigEndian(b))[j] == b[12+j]
  {
    ByteFromRight(b, 19 - j);
  }

  lemma {:induction false} ZeroIffZeros(b: bytes)
    ensures BigEndian(b) == 0 <==> b == Repeat(0, |b|)
    decreases |b|
  {
    if b != [] {
      var v := b[..|b|-1];
      ZeroIffZeros(v);
      assert b == v + [b[|b|-1]];
      if BigEndian(b) == 0 { assert b == Repeat(0, |b|); }
      if b == Repeat(0, |b|) { assert v == Repeat(0, |v|) && b[|b|-1] == 0; }
    }
  }

  /** An address word has twelve zero bytes in front. */
  lemma AddressWordIff(b: bytes)
    requires |b| == 32
    ensures BigEndian(b) < TWO_160 <==> b[..12] == Repeat(0, 12)
  {
    ShrBigEndian(b, 20);
    Shr40(BigEndian(b));
    ZeroIffZeros(b[..12]);
  }

  /** The digits of an address text in lower case, without 0x. */
  function LowerDigitsOf(text: bytes): bytes
    requires |text| == 42
  {
    seq<byte>(40, k requires 0 <= k < 40 => ToLower(text[k+2]))
  }

  /** The letter case at one digit: 0 follows the hash of the lower-case digits, 1 is lower and 2 is upper. */
  predicate CaseAt(text: bytes, stringCase: nat, keccak: bytes -> word, k: nat)
    requires |text| == 42 && k < 40
  {
    && (IsUpperLetter(text[k+2]) ==>
          stringCase == 2 || (stringCase == 0 && Nibble(keccak(LowerDigitsOf(text)), 63 - k) >= 8))
    && (IsLowerLetter(text[k+2]) ==>
          stringCase == 1 || (stringCase == 0 && Nibble(keccak(LowerDigitsOf(text)), 63 - k) < 8))
  }

  /** The text decodes to the address bytes, in the letter case asked for. */
  predicate ReadsAddress(text: bytes, b: bytes, stringCase: nat, keccak: bytes -> word) {
    |text| == 42 && Decode(text) == Ok(b) && forall k: nat :: k < 40 ==> CaseAt(text, stringCase, keccak, k)
  }

  lemma HexCharOf(c: byte)
    requires IsHexChar(c)
    ensures var v := HexChar2Int(c).value;
      c == (if IsUpperLetter(c) then Digit(v, true) else Digit(v, false)) && ToLower(c) == Digit(v, false)
    ensures IsUpperLetter(c) || IsLowerLetter(c) <==> HexChar2Int(c).value >= 10
  {
  }

  lemma PairInjective(a: nibble, b: nibble, c: nibble, d: nibble)
    requires Pair(a, b) == Pair(c, d)
    ensures a == c && b == d
  {
  }

  /** Texts that decode alike have the same digit values. */
  lemma SameValues(x: bytes, y: bytes, k: nat)
    requires |x| == 42 == |y| && Decode(x).Ok? && Decode(x) == Decode(y) && k < 40
    ensures IsHexChar(x[k+2]) && IsHexChar(y[k+2]) && HexChar2Int(x[k+2]) == HexChar2Int(y[k+2])
  {
    var j := k / 2;
    assert Decode(x).value[j] == ByteAt(x, j) && Decode(y).value[j] == ByteAt(y, j);
    PairInjective(HexChar2Int(x[2*j+2]).value, HexChar2Int(x[2*j+3]).value,
                  HexChar2Int(y[2*j+2]).value, HexChar2Int(y[2*j+3]).value);
  }

  lemma SameLower(x: bytes, y: bytes)
    requires |x| == 42 == |y| && Decode(x).Ok? && Decode(x) == Decode(y)
    ensures LowerDigitsOf(x) == LowerDigitsOf(y)
  {
    forall k | 0 <= k < 40 ensures LowerDigitsOf(x)[k] == LowerDigitsOf(y)[k] {
      SameValues(x, y, k);
      HexCharOf(x[k+2]);
      HexCharOf(y[k+2]);
    }
  }

  lemma SameDigit(x: bytes, y: bytes, stringCase: nat, keccak: bytes -> word, k: nat)
    requires |x| == 42 == |y| && Decode(x).Ok? && Decode(x) == Decode(y) && k < 40
    requires CaseAt(x, stringCase, keccak, k) && CaseAt(y, stringCase, keccak, k)
    ensures x[k+2] == y[k+2]
  {
    SameLower(x, y);
    SameValues(x, y, k);
    HexCharOf(x[k+2]);
    HexCharOf(y[k+2]);
  }

  lemma AddressUnique(x: bytes, y: bytes, b: bytes, stringCase: nat, keccak: bytes -> word)
    requires ReadsAddress(x, b, stringCase, keccak) && ReadsAddress(y, b, stringCase, keccak)
    ensures x == y
  {
    forall i | 0 <= i < 42 ensures x[i] == y[i] {
      if i >= 2 { SameDigit(x, y, stringCase, keccak, i - 2); } else { assert x[i] == PREFIX[i] == y[i]; }
    }
  }

  lemma AddressDecodes(b: bytes, stringCase: nat, keccak: bytes -> word)
    requires |b| == 32 && BigEndian(b) < TWO_160 && stringCase < 3
    ensures Decode(Rendered(BigEndian(b), stringCase, keccak).value) == Ok(b[12..32])
  {
    RenderedDecodes(BigEndian(b), stringCase, keccak);
    forall j | 0 <= j < 20 ensures AddressBytes(BigEndian(b))[j] == b[12..32][j] { AddressByte(b, j); }
    assert AddressBytes(BigEndian(b)) == b[12..32];
  }

  lemma LowerAt(a: address, stringCase: nat, keccak: bytes -> word, k: nat)
    requires stringCase < 3 && k < 40
    ensures |Rendered(a, stringCase, keccak).value| == 42
    ensures LowerDigitsOf(Rendered(a, stringCase, keccak).value)[k] == LowerAddress(a)[2..][k]
  {
    var s, n := Rendered(a, stringCase, keccak).value, Nibble(a, 39 - k);
    LowerDigit(n);
    assert s[k+2] == Digit(n, true) || s[k+2] == Digit(n, false);
  }

  lemma LowerOfRendered(a: address, stringCase: nat, keccak: bytes -> word)
    requires stringCase < 3
    ensures |Rendered(a, stringCase, keccak).value| == 42
    ensures LowerDigitsOf(Rendered(a, stringCase, keccak).value) == LowerAddress(a)[2..]
  {
    var s := LowerDigitsOf(Rendered(a, stringCase, keccak).value);
    forall k | 0 <= k < 40 ensures s[k] == LowerAddress(a)[2..][k] { LowerAt(a, stringCase, keccak, k); }
  }

  lemma LowerDigit(n: nibble)
    ensures ToLower(Digit(n, true)) == ToLower(Digit(n, false)) == Digit(n, false)
  {
  }

  lemma RenderedReads(b: bytes, stringCase: nat, keccak: bytes -> word)
    requires |b| == 32 && BigEndian(b) < TWO_160 && stringCase < 3
    ensures ReadsAddress(Rendered(BigEndian(b), stringCase, keccak).value, b[12..32], stringCase, keccak)
  {
    var a: address := BigEndian(b);
    AddressDecodes(b, stringCase, keccak);
    LowerOfRendered(a, stringCase, keccak);
    forall k: nat | k < 40 ensures CaseAt(Rendered(a, stringCase, keccak).value, stringCase, keccak, k) {
      LetterCases(a, keccak, k);
    }
  }
}
