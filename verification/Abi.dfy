/** abi.decode of a single value from memory, as the Solidity ABI defines it. */
module Abi {
  import opened Bytes
  import opened Hex

  /** The big-endian value of a byte string. */
  function BigEndian(b: bytes): nat {
    if b == [] then 0 else 256 * BigEndian(b[..|b|-1]) + b[|b|-1]
  }

  function Pow256(k: nat): nat {
    if k == 0 then 1 else 256 * Pow256(k - 1)
  }

  lemma {:induction false} BigEndianBound(b: bytes)
    ensures BigEndian(b) < Pow256(|b|)
    decreases |b|
  {
    if b != [] { BigEndianBound(b[..|b|-1]); }
  }

  lemma {:induction false} Pow256Add(a: nat, b: nat)
    ensures Pow256(a + b) == Pow256(a) * Pow256(b)
    decreases a
  {
    if a > 0 {
      Pow256Add(a - 1, b);
      assert 256 * (Pow256(a - 1) * Pow256(b)) == (256 * Pow256(a - 1)) * Pow256(b);
    }
  }

  lemma WordSize()
    ensures Pow256(32) == TWO_256
  {
    assert Pow256(8) == 0x1_0000000000000000;
    Pow256Add(8, 8);
    Pow256Add(16, 16);
  }

  function WordAt(b: bytes, at: nat): word
    requires at + 32 <= |b|
  {
    BigEndianBound(b[at..at+32]);
    WordSize();
    BigEndian(b[at..at+32])
  }

  function DecodeUint(b: bytes): Outcome<word> {
    if |b| < 32 then Revert else Ok(WordAt(b, 0))
  }

  /** Two's complement. */
  function DecodeInt(b: bytes): Outcome<int> {
    if |b| < 32 then Revert
    else if WordAt(b, 0) < TWO_256 / 2 then Ok(WordAt(b, 0)) else Ok(WordAt(b, 0) - TWO_256)
  }

  const TWO_160: nat := 0x1_0000000000_0000000000_0000000000_0000000000
  const TWO_64: nat := 0x1_0000000000000000

  function DecodeAddress(b: bytes): Outcome<address> {
    if |b| < 32 || WordAt(b, 0) >= TWO_160 then Revert else Ok(WordAt(b, 0))
  }

  /** An offset word, then at that offset a length word and the bytes; every bound is checked. */
  function DecodeString(b: bytes): Outcome<bytes> {
    if |b| < 32 then Revert
    else
      var offset := WordAt(b, 0);
      if offset >= TWO_64 || offset + 32 > |b| then Revert
      else
        var length := WordAt(b, offset);
        if length >= TWO_64 || offset + 32 + length > |b| then Revert
        else Ok(b[offset+32..offset+32+length])
  }

  // ----- encodings -----

  function ToBigEndian(n: nat, k: nat): (b: bytes)
    ensures |b| == k
  {
    if k == 0 then [] else ToBigEndian(n / 256, k - 1) + [n % 256]
  }

  lemma {:induction false} ToBigEndianValue(n: nat, k: nat)
    requires n < Pow256(k)
    ensures BigEndian(ToBigEndian(n, k)) == n
    decreases k
  {
    if k > 0 {
      ToBigEndianValue(n / 256, k - 1);
      assert ToBigEndian(n, k)[..k-1] == ToBigEndian(n / 256, k - 1);
    }
  }

  lemma {:induction false} ToBigEndianOf(b: bytes)
    ensures ToBigEndian(BigEndian(b), |b|) == b
    decreases |b|
  {
    if b != [] {
      ToBigEndianOf(b[..|b|-1]);
      assert b == b[..|b|-1] + [b[|b|-1]];
    }
  }

  /** Words, one after the other, as fixed-size arrays are encoded. */
  function EncodeWords(a: seq<word>): (b: bytes)
    ensures |b| == 32 * |a|
  {
    if a == [] then [] else EncodeWords(a[..|a|-1]) + ToBigEndian(a[|a|-1], 32)
  }

  function EncodeString(s: bytes): bytes {
    ToBigEndian(32, 32) + ToBigEndian(|s|, 32) + s
  }

  lemma EncodedWord(n: nat, u: bytes, v: bytes)
    requires n < TWO_256
    ensures WordAt(u + ToBigEndian(n, 32) + v, |u|) == n
  {
    WordSize();
    ToBigEndianValue(n, 32);
    var b := u + ToBigEndian(n, 32) + v;
    assert b[|u|..|u|+32] == ToBigEndian(n, 32);
  }

  /** Every string below 2^64 bytes can be passed. */
  lemma StringRoundTrip(s: bytes)
    requires |s| < TWO_64
    ensures DecodeString(EncodeString(s)) == Ok(s)
  {
    var b := EncodeString(s);
    EncodedWord(32, [], ToBigEndian(|s|, 32) + s);
    assert b == [] + ToBigEndian(32, 32) + (ToBigEndian(|s|, 32) + s);
    EncodedWord(|s|, ToBigEndian(32, 32), s);
    assert b[64..64+|s|] == s;
  }

  /** The zero word decodes to zero under every one-word type. */
  lemma ZeroWord()
    ensures var z := ToBigEndian(0, 32);
      DecodeUint(z) == Ok(0) && DecodeInt(z) == Ok(0) && DecodeAddress(z) == Ok(0)
  {
    var z := ToBigEndian(0, 32);
    EncodedWord(0, [], []);
    assert [] + z + [] == z;
  }
}
