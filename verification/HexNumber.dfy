/** Numbers in lowercase hexadecimal. */
module HexNumber {
  import opened Bytes
  import opened Hex

  predicate AllHex(s: bytes) { forall i :: 0 <= i < |s| ==> IsHex(s[i]) }

  function DigitValue(c: byte): nibble
    requires IsHex(c)
  {
    if c <= 57 then c - 48 else c - 87
  }

  /** The big-endian number that the digits stand for. */
  function HexValue(s: bytes): nat
    requires AllHex(s)
  {
    if s == [] then 0 else 16 * HexValue(s[..|s|-1]) + DigitValue(s[|s|-1])
  }

  function Pow16(k: nat): nat { if k == 0 then 1 else 16 * Pow16(k - 1) }

  /** The last k hex digits of n. */
  function HexText(n: nat, k: nat): (s: bytes)
    ensures |s| == k && AllHex(s)
  {
    if k == 0 then [] else HexText(n / 16, k - 1) + [Digit(n % 16, false)]
  }

  lemma {:induction false} HexTextValue(n: nat, k: nat)
    requires n < Pow16(k)
    ensures HexValue(HexText(n, k)) == n
    decreases k
  {
    if k > 0 {
      HexTextValue(n / 16, k - 1);
      assert HexText(n, k)[..k-1] == HexText(n / 16, k - 1);
    }
  }

  lemma {:induction false} HexValueText(s: bytes)
    requires AllHex(s)
    ensures HexValue(s) < Pow16(|s|) && HexText(HexValue(s), |s|) == s
    decreases |s|
  {
    if s != [] {
      var v, c := s[..|s|-1], s[|s|-1];
      HexValueText(v);
      HexStep(HexValue(v), DigitValue(c));
      assert s == v + [c];
    }
  }

  lemma HexStep(v: nat, d: nibble)
    ensures (16 * v + d) / 16 == v && (16 * v + d) % 16 == d
  {
  }

  lemma Pow16At8()
    ensures Pow16(8) == 0x1_00000000
  {
    assert Pow16(4) == 0x1_0000;
    Pow16Add(4, 4);
  }

  lemma Pow16At64()
    ensures Pow16(64) == TWO_256
  {
    Pow16At8();
    Pow16Add(8, 8);
    Pow16Add(16, 16);
    Pow16Add(32, 32);
  }

  lemma {:induction false} Pow16Add(a: nat, b: nat)
    ensures Pow16(a + b) == Pow16(a) * Pow16(b)
    decreases a
  {
    if a > 0 {
      Pow16Add(a - 1, b);
      assert 16 * (Pow16(a - 1) * Pow16(b)) == (16 * Pow16(a - 1)) * Pow16(b);
    }
  }

  lemma {:induction false} Pow16Monotone(a: nat, b: nat)
    requires a <= b
    ensures Pow16(a) <= Pow16(b)
    decreases b - a
  {
    if a < b { Pow16Monotone(a, b - 1); }
  }

  // ----- Strings.toHexString(uint256) -----

  /** Bytes needed for n, at least one. */
  function ByteLength(n: nat): (k: nat)
    ensures k >= 1
  {
    if n < 256 then 1 else 1 + ByteLength(n / 256)
  }

  function ToHexString(n: nat): bytes { PREFIX + HexText(n, 2 * ByteLength(n)) }

  lemma {:induction false} ByteLengthFits(n: nat)
    ensures n < Pow16(2 * ByteLength(n))
    decreases n
  {
    if n >= 256 {
      ByteLengthFits(n / 256);
      var p := Pow16(2 * ByteLength(n / 256));
      assert Pow16(2 * ByteLength(n)) == 16 * (16 * p);
      assert n < 256 * (n / 256 + 1) <= 256 * p;
    }
  }

  lemma {:induction false} ByteLengthNeeded(n: nat)
    ensures ByteLength(n) == 1 || Pow16(2 * ByteLength(n) - 2) <= n
    decreases n
  {
    if n >= 256 {
      ByteLengthNeeded(n / 256);
      var k := ByteLength(n / 256);
      if k > 1 { assert Pow16(2 * k) == 16 * (16 * Pow16(2 * k - 2)); } else { assert Pow16(2) == 16 * Pow16(1); }
    }
  }

  /** The digits of a number, without superfluous zero bytes: one byte, or as few as hold it. */
  ghost predicate MinimalDigits(s: bytes, n: nat) {
    && AllHex(s) && |s| >= 2 && |s| % 2 == 0 && HexValue(s) == n && n < Pow16(|s|)
    && (|s| > 2 ==> Pow16(|s| - 2) <= n)
  }

  lemma TextIsMinimal(n: nat, k: nat)
    requires k >= 1 && n < Pow16(2 * k) && (k == 1 || Pow16(2 * k - 2) <= n)
    ensures MinimalDigits(HexText(n, 2 * k), n)
  {
    HexTextValue(n, 2 * k);
  }

  /** The hex string is 0x and the minimal digits. */
  lemma ToHexStringMinimal(n: nat)
    ensures ToHexString(n)[..2] == Ascii("0x") && MinimalDigits(ToHexString(n)[2..], n)
  {
    ByteLengthFits(n);
    ByteLengthNeeded(n);
    TextIsMinimal(n, ByteLength(n));
    assert ToHexString(n)[2..] == HexText(n, 2 * ByteLength(n));
    assert PREFIX == Ascii("0x");
  }

  lemma {:induction false} LeadingZeros(s: bytes)
    requires AllHex(s) && |s| >= 2 && s[0] == 48 && s[1] == 48
    ensures HexValue(s) < Pow16(|s| - 2)
    decreases |s|
  {
    if |s| > 2 {
      LeadingZeros(s[..|s|-1]);
    } else {
      assert s[..1][..0] == [] && HexValue(s[..1]) == 0;
    }
  }

  /** Longer digits do not begin with a zero byte, and one byte takes two digits. */
  lemma MinimalLeads(s: bytes, n: nat)
    requires MinimalDigits(s, n)
    ensures n < 256 ==> |s| == 2
    ensures n >= 256 ==> |s| > 2 && !(s[0] == 48 && s[1] == 48)
  {
    assert Pow16(2) == 16 * Pow16(1) == 256;
    if |s| > 2 {
      Pow16Monotone(2, |s| - 2);
      if s[0] == 48 && s[1] == 48 { LeadingZeros(s); }
    }
  }

  /** A number of 32 significant bytes takes 64 digits. */
  lemma MinimalWord(s: bytes, n: word)
    requires MinimalDigits(s, n) && n >= TWO_256 / 256
    ensures |s| == 64
  {
    Pow16At64();
    assert Pow16(64) == 16 * (16 * Pow16(62));
    if |s| > 64 { Pow16Monotone(64, |s| - 2); }
    if |s| < 64 { Pow16Monotone(|s|, 62); }
  }

  lemma ToHexStringInjective(m: nat, n: nat)
    requires ToHexString(m) == ToHexString(n)
    ensures m == n
  {
    ByteLengthFits(m);
    ByteLengthFits(n);
    HexTextValue(m, 2 * ByteLength(m));
    HexTextValue(n, 2 * ByteLength(n));
    assert ToHexString(m)[2..] == HexText(m, 2 * ByteLength(m));
    assert ToHexString(n)[2..] == HexText(n, 2 * ByteLength(n));
  }
}
