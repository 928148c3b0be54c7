/** Hexadecimal text: addresses in three letter cases, byte strings, and their decoder. */
module Hex {
  import opened Bytes

  const LOWER_HEX_DIGITS: bytes := [48, 49, 50, 51, 52, 53, 54, 55, 56, 57, 97, 98, 99, 100, 101, 102]
  const UPPER_HEX_DIGITS: bytes := [48, 49, 50, 51, 52, 53, 54, 55, 56, 57, 65, 66, 67, 68, 69, 70]
  const PREFIX: bytes := [48, 120]  // 0x

  type nibble = n: nat | n < 16
  type address = a: nat | a < 0x1_0000000000_0000000000_0000000000_0000000000

  /** n without its last k nibbles. */
  function Shr(n: nat, k: nat): nat {
    if k == 0 then n else Shr(n, k - 1) / 16
  }

  /** The nibble of n at position k from the right. */
  function Nibble(n: nat, k: nat): nibble { Shr(n, k) % 16 }

  function Digit(n: nibble, upper: bool): byte {
    if n < 10 then 48 + n else if upper then 55 + n else 87 + n
  }

  lemma DigitTables(n: nibble)
    ensures LOWER_HEX_DIGITS[n] == Digit(n, false) && UPPER_HEX_DIGITS[n] == Digit(n, true)
  {
  }

  // ----- decoding -----

  function HexChar2Int(c: byte): Outcome<nibble> {
    if 48 <= c <= 57 then Ok(c - 48)
    else if 65 <= c <= 70 then Ok(c - 55)
    else if 97 <= c <= 102 then Ok(c - 87)
    else Revert
  }

  predicate IsHexChar(c: byte) { HexChar2Int(c).Ok? }

  lemma DigitDecodes(n: nibble, upper: bool)
    ensures HexChar2Int(Digit(n, upper)) == Ok(n)
  {
  }

  /** StringUtils.hexToBytes accepts 0x followed by a nonzero even number of hex characters, in either case. */
  predicate IsHexString(s: bytes) {
    && PREFIX <= s && |s| > 2 && |s| % 2 == 0
    && forall i :: 2 <= i < |s| ==> IsHexChar(s[i])
  }

  function Pair(hi: nibble, lo: nibble): byte { 16 * hi + lo }

  /** The byte that characters 2j and 2j+1 after the prefix stand for. */
  function ByteAt(s: bytes, j: nat): byte
    requires 2 * j + 3 < |s| && IsHexChar(s[2*j+2]) && IsHexChar(s[2*j+3])
  {
    Pair(HexChar2Int(s[2*j+2]).value, HexChar2Int(s[2*j+3]).value)
  }

  /** What decoding gives, or a revert. */
  function Decode(s: bytes): Outcome<bytes> {
    if IsHexString(s) then Ok(seq((|s| - 2) / 2, j requires 0 <= j < (|s| - 2) / 2 => ByteAt(s, j))) else Revert
  }

  /** The first n digit pairs can be read, and stand for the bytes done. */
  ghost predicate ReadPairs(s: bytes, n: nat, done: bytes) {
    && 2 * n + 2 <= |s| && |done| == n
    && (forall k :: 2 <= k < 2 * n + 2 ==> IsHexChar(s[k]))
    && forall j :: 0 <= j < n ==> done[j] == ByteAt(s, j)
  }

  lemma ReadPair(s: bytes, n: nat, done: bytes)
    requires ReadPairs(s, n, done) && 2 * n + 3 < |s| && IsHexChar(s[2*n+2]) && IsHexChar(s[2*n+3])
    ensures ReadPairs(s, n + 1, done + [ByteAt(s, n)])
  {
  }

  lemma AllRead(s: bytes, n: nat, done: bytes)
    requires PREFIX <= s && |s| > 2 && |s| == 2 * n + 2 && ReadPairs(s, n, done)
    ensures Decode(s) == Ok(done)
  {
    assert done == Decode(s).value;
  }

  /** StringUtils.hexToBytes. */
  method HexToBytes(hexStr: bytes) returns (r: Outcome<bytes>)
    ensures r == Decode(hexStr)
  {
    if !(PREFIX <= hexStr) { return Revert; }
    var hexBytes := hexStr[2..];
    if !(|hexBytes| != 0 && |hexBytes| % 2 == 0) { return Revert; }
    var result := new byte[|hexBytes| / 2](_ => 0);
    var i := 0;
    while i < |hexBytes| / 2
      invariant i <= |hexBytes| / 2 && ReadPairs(hexStr, i, result[..i])
    {
      assert hexBytes[2*i] == hexStr[2*i+2] && hexBytes[2*i+1] == hexStr[2*i+3];
      var hi := HexChar2Int(hexBytes[2 * i]);
      if hi.Revert? { return Revert; }
      var lo := HexChar2Int(hexBytes[2 * i + 1]);
      if lo.Revert? { return Revert; }
      ReadPair(hexStr, i, result[..i]);
      result[i] := Pair(hi.value, lo.value);
      i := i + 1;
    }
    assert result[..i] == result[..];
    AllRead(hexStr, i, result[..]);
    r := Ok(result[..]);
  }

  // ----- byte strings -----

  function High(b: byte): nibble { b / 16 }
  function Low(b: byte): nibble { b % 16 }

  /** Two lower-case digits per byte. */
  ghost predicate IsHexOf(data: bytes, s: bytes) {
    |s| == 2 * |data| && forall i :: 0 <= i < |s| ==>
      s[i] == Digit(if i % 2 == 0 then High(data[i/2]) else Low(data[i/2]), false)
  }

  /** CommandUtils.bytesToHexString. */
  method BytesToHexString(data: bytes) returns (hexString: bytes)
    ensures IsHexOf(data, hexString)
  {
    var buffer := new byte[2 * |data|](_ => 0);
    var i := 0;
    while i < |data|
      invariant i <= |data|
      invariant forall j :: 0 <= j < 2 * i ==>
        buffer[j] == Digit(if j % 2 == 0 then High(data[j/2]) else Low(data[j/2]), false)
    {
      var value := data[i];
      DigitTables(value / 16);
      DigitTables(value % 16);
      buffer[2 * i] := LOWER_HEX_DIGITS[value / 16];
      buffer[2 * i + 1] := LOWER_HEX_DIGITS[value % 16];
      i := i + 1;
    }
    hexString := buffer[..];
  }

  lemma HexOfDecodes(data: bytes, hexString: bytes, i: nat)
    requires IsHexOf(data, hexString) && i < |hexString|
    ensures HexChar2Int(hexString[i]) == Ok(if i % 2 == 0 then High(data[i/2]) else Low(data[i/2]))
  {
    DigitDecodes(if i % 2 == 0 then High(data[i/2]) else Low(data[i/2]), false);
  }

  /** Printing bytes and decoding them after 0x is the identity, for nonempty bytes; the empty string is rejected. */
  lemma BytesRoundTrip(data: bytes, hexString: bytes)
    requires IsHexOf(data, hexString)
    ensures Decode(PREFIX + hexString) == if data == [] then Revert else Ok(data)
  {
    var s := PREFIX + hexString;
    if data != [] {
      forall i | 2 <= i < |s| ensures IsHexChar(s[i]) { HexOfDecodes(data, hexString, i - 2); }
      assert IsHexString(s);
      forall j | 0 <= j < |data| ensures ByteAt(s, j) == data[j] {
        HexOfDecodes(data, hexString, 2 * j);
        HexOfDecodes(data, hexString, 2 * j + 1);
        assert s[2*j+2] == hexString[2*j] && s[2*j+3] == hexString[2*j+1];
      }
      assert Decode(s).value == data;
    }
  }

  lemma DigitPrints(c: byte)
    requires IsHexChar(c)
    ensures Digit(HexChar2Int(c).value, false) == ToLower(c)
  {
  }

  /** Both digits of the byte that characters x and y decode to. */
  lemma PairPrints(x: byte, y: byte)
    requires IsHexChar(x) && IsHexChar(y)
    ensures var b := Pair(HexChar2Int(x).value, HexChar2Int(y).value);
      Digit(High(b), false) == ToLower(x) && Digit(Low(b), false) == ToLower(y)
  {
    PairParts(HexChar2Int(x).value, HexChar2Int(y).value);
    DigitPrints(x);
    DigitPrints(y);
  }

  lemma PairPrinted(s: bytes, b: bytes, j: nat)
    requires Decode(s) == Ok(b) && j < |b|
    ensures 2 * j + 3 < |s|
    ensures Digit(High(b[j]), false) == ToLower(s[2*j+2]) && Digit(Low(b[j]), false) == ToLower(s[2*j+3])
  {
    assert b[j] == ByteAt(s, j);
    PairPrints(s[2*j+2], s[2*j+3]);
  }

  /** Decoding and printing again gives the digits back in lower case. */
  lemma DecodePrints(s: bytes, b: bytes, hexString: bytes)
    requires Decode(s) == Ok(b) && IsHexOf(b, hexString)
    ensures |s| == |hexString| + 2 && forall i :: 0 <= i < |hexString| ==> hexString[i] == ToLower(s[i+2])
  {
    forall i | 0 <= i < |hexString| ensures hexString[i] == ToLower(s[i+2]) {
      PairPrinted(s, b, i / 2);
      assert hexString[i] == Digit(if i % 2 == 0 then High(b[i/2]) else Low(b[i/2]), false);
    }
  }

  lemma PairParts(hi: nibble, lo: nibble)
    ensures High(Pair(hi, lo)) == hi && Low(Pair(hi, lo)) == lo
  {
  }

  function ToLower(c: byte): byte { if 65 <= c <= 70 then c + 32 else c }

  // ----- letter cases -----

  function ToUpper(c: byte): byte { if 0x61 <= c <= 0x66 then c - 32 else c }

  /** CommandUtils.lowerToUpperCase, which works on the string's own bytes. */
  method LowerToUpperCase(hexStr: bytes) returns (r: bytes)
    ensures |r| == |hexStr| && forall i :: 0 <= i < |r| ==> r[i] == ToUpper(hexStr[i])
  {
    var bytesStr := new byte[|hexStr|](i requires 0 <= i < |hexStr| => hexStr[i]);
    var i := 0;
    while i < bytesStr.Length
      invariant i <= bytesStr.Length
      invariant forall j :: 0 <= j < bytesStr.Length ==> bytesStr[j] == if j < i then ToUpper(hexStr[j]) else hexStr[j]
    {
      if bytesStr[i] >= 0x61 && bytesStr[i] <= 0x66 {
        bytesStr[i] := bytesStr[i] - 32;
      }
      i := i + 1;
    }
    r := bytesStr[..];
  }

  // ----- addresses -----

  /** The hex digits of an address, most significant first, each in the given letter case. */
  function AddressText(addr: address, upper: nat -> bool): (s: bytes)
    ensures |s| == 42 && PREFIX <= s
    ensures forall i :: 2 <= i < 42 ==> s[i] == Digit(Nibble(addr, 41 - i), upper(i - 2))
  {
    PREFIX + seq<byte>(40, k requires 0 <= k < 40 => Digit(Nibble(addr, 39 - k), upper(k)))
  }

  /** Strings.toHexString of an address. */
  function LowerAddress(addr: address): bytes { AddressText(addr, _ => false) }

  function UpperAddress(addr: address): bytes { AddressText(addr, _ => true) }

  /** EIP-55: digit k is in upper case exactly when nibble k of the hash of the lower-case digits is 8 or more. */
  function ChecksumCase(addr: address, keccak: bytes -> word, k: nat): bool {
    k < 64 && Nibble(keccak(LowerAddress(addr)[2..]), 63 - k) >= 8
  }

  function Checksummed(addr: address, keccak: bytes -> word): bytes {
    AddressText(addr, (k: nat) => ChecksumCase(addr, keccak, k))
  }

  /** The rendering of an address in each letter case; other case numbers revert. */
  function Rendered(addr: address, stringCase: nat, keccak: bytes -> word): Outcome<bytes> {
    if stringCase == 0 then Ok(Checksummed(addr, keccak))
    else if stringCase == 1 then Ok(LowerAddress(addr))
    else if stringCase == 2 then Ok(UpperAddress(addr))
    else Revert
  }

  lemma {:induction false} ShrAdd(n: nat, a: nat, b: nat)
    ensures Shr(Shr(n, a), b) == Shr(n, a + b)
    decreases b
  {
    if b > 0 { ShrAdd(n, a, b - 1); }
  }

  lemma ShrFour(n: nat)
    ensures Shr(n, 4) == n / 0x10000
  {
    assert Shr(n, 1) == n / 16;
    assert Shr(n, 2) == n / 256;
    assert Shr(n, 3) == n / 4096;
  }

  /** A right shift by 96 bits drops 24 nibbles. */
  lemma Shr24(n: nat)
    ensures Shr(n, 24) == n / 0x1_000000000000_000000000000
  {
    ShrFour(n);
    ShrAdd(n, 4, 4);
    ShrFour(Shr(n, 4));
    ShrAdd(n, 8, 4);
    ShrFour(Shr(n, 8));
    ShrAdd(n, 12, 4);
    ShrFour(Shr(n, 12));
    ShrAdd(n, 16, 4);
    ShrFour(Shr(n, 16));
    ShrAdd(n, 20, 4);
    ShrFour(Shr(n, 20));
  }

  /** The lower-case digits without 0x. */
  method LowerDigits(lowerCaseAddrWithOx: bytes) returns (lowerCaseAddr: bytes)
    requires |lowerCaseAddrWithOx| == 42
    ensures lowerCaseAddr == lowerCaseAddrWithOx[2..]
  {
    var digits := new byte[40](_ => 0);
    var i := 2;
    while i < 42
      invariant 2 <= i <= 42
      invariant forall k :: 0 <= k < i - 2 ==> digits[k] == lowerCaseAddrWithOx[k+2]
    {
      digits[i - 2] := lowerCaseAddrWithOx[i];
      i := i + 1;
    }
    lowerCaseAddr := digits[..];
  }

  lemma ChecksummedAt(addr: address, keccak: bytes -> word, r: bytes)
    requires |r| == 42 && r[0] == 48 && r[1] == 120
    requires forall k :: 2 <= k < 42 ==> r[k] == Digit(Nibble(addr, 41 - k), ChecksumCase(addr, keccak, k - 2))
    ensures r == Checksummed(addr, keccak)
  {
    var c := Checksummed(addr, keccak);
    assert c[..2] == PREFIX && c[0] == c[..2][0] && c[1] == c[..2][1];
  }

  /** CommandUtils.addressToChecksumHexString: two accumulators shifted right together. */
  method AddressToChecksumHexString(addr: address, keccak: bytes -> word) returns (r: bytes)
    ensures r == Checksummed(addr, keccak)
  {
    var lowerCaseAddr := LowerDigits(LowerAddress(addr));
    ghost var hash := keccak(LowerAddress(addr)[2..]);
    var lowerCaseHash: nat := keccak(lowerCaseAddr);
    var result := new byte[42](_ => 0);
    result[0] := 48;
    result[1] := 120;
    Shr24(hash);
    lowerCaseHash := lowerCaseHash / 0x1_000000000000_000000000000;
    var intAddr: nat := addr;
    var i := 41;
    while i > 1
      invariant 1 <= i <= 41 && result[0] == 48 && result[1] == 120
      invariant intAddr == Shr(addr, 41 - i) && lowerCaseHash == Shr(hash, 65 - i)
      invariant forall k :: i < k < 42 ==> result[k] == Digit(Nibble(addr, 41 - k), ChecksumCase(addr, keccak, k - 2))
    {
      var hashChar, addrChar := lowerCaseHash % 16, intAddr % 16;
      DigitTables(addrChar);
      if hashChar >= 8 {
        result[i] := UPPER_HEX_DIGITS[addrChar];
      } else {
        result[i] := LOWER_HEX_DIGITS[addrChar];
      }
      intAddr := intAddr / 16;
      lowerCaseHash := lowerCaseHash / 16;
      i := i - 1;
    }
    r := result[..];
    ChecksummedAt(addr, keccak, r);
  }

  lemma UpperIsMapped(addr: address, s: bytes)
    requires |s| == 42 && forall i :: 0 <= i < 42 ==> s[i] == ToUpper(LowerAddress(addr)[i])
    ensures s == UpperAddress(addr)
  {
    var l, u := LowerAddress(addr), UpperAddress(addr);
    assert l[..2] == PREFIX == u[..2];
    assert l[0] == PREFIX[0] && l[1] == PREFIX[1] && u[0] == PREFIX[0] && u[1] == PREFIX[1];
    forall i | 2 <= i < 42 ensures s[i] == u[i] {
      assert l[i] == Digit(Nibble(addr, 41 - i), false) && u[i] == Digit(Nibble(addr, 41 - i), true);
    }
  }

  /** CommandUtils.addressToHexString. */
  method AddressToHexString(addr: address, stringCase: nat, keccak: bytes -> word) returns (r: Outcome<bytes>)
    ensures r == Rendered(addr, stringCase, keccak)
  {
    if stringCase == 0 {
      var s := AddressToChecksumHexString(addr, keccak);
      r := Ok(s);
    } else if stringCase == 1 {
      r := Ok(LowerAddress(addr));
    } else if stringCase == 2 {
      var s := LowerToUpperCase(LowerAddress(addr));
      UpperIsMapped(addr, s);
      r := Ok(s);
    } else {
      r := Revert;
    }
  }

  /** The 20 bytes of an address. */
  function AddressBytes(addr: address): (b: bytes)
    ensures |b| == 20
  {
    seq(20, j requires 0 <= j < 20 => Pair(Nibble(addr, 39 - 2 * j), Nibble(addr, 38 - 2 * j)))
  }

  lemma RenderedDigit(addr: address, stringCase: nat, keccak: bytes -> word, i: nat)
    requires stringCase < 3 && 2 <= i < 42
    ensures var s := Rendered(addr, stringCase, keccak).value;
      |s| == 42 && PREFIX <= s && HexChar2Int(s[i]) == Ok(Nibble(addr, 41 - i))
  {
    var s := Rendered(addr, stringCase, keccak).value;
    var n := Nibble(addr, 41 - i);
    assert s[i] == Digit(n, true) || s[i] == Digit(n, false);
    DigitDecodes(n, true);
    DigitDecodes(n, false);
  }

  predicate IsUpperLetter(c: byte) { 65 <= c <= 70 }
  predicate IsLowerLetter(c: byte) { 97 <= c <= 102 }

  /**
   * The letters of the three renderings: mixed by EIP-55, all lower, all upper. Position k is a letter when nibble k of
   * the address is 10 or more.
   */
  lemma LetterCases(addr: address, keccak: bytes -> word, k: nat)
    requires k < 40
    ensures var mixed, lower := Rendered(addr, 0, keccak).value, Rendered(addr, 1, keccak).value;
      var upper := Rendered(addr, 2, keccak).value;
      var letter, high := Nibble(addr, 39 - k) >= 10, Nibble(keccak(lower[2..]), 63 - k) >= 8;
      && (IsUpperLetter(mixed[k+2]) <==> letter && high)
      && (IsLowerLetter(mixed[k+2]) <==> letter && !high)
      && (IsLowerLetter(lower[k+2]) <==> letter) && !IsUpperLetter(lower[k+2])
      && (IsUpperLetter(upper[k+2]) <==> letter) && !IsLowerLetter(upper[k+2])
  {
    var mixed, lower, upper := Checksummed(addr, keccak), LowerAddress(addr), UpperAddress(addr);
    assert mixed[k+2] == Digit(Nibble(addr, 39 - k), ChecksumCase(addr, keccak, k));
    assert lower[k+2] == Digit(Nibble(addr, 39 - k), false);
    assert upper[k+2] == Digit(Nibble(addr, 39 - k), true);
  }

  /** All three renderings decode to the same 20 bytes. */
  lemma RenderedDecodes(addr: address, stringCase: nat, keccak: bytes -> word)
    requires stringCase < 3
    ensures Decode(Rendered(addr, stringCase, keccak).value) == Ok(AddressBytes(addr))
  {
    var s := Rendered(addr, stringCase, keccak).value;
    RenderedDigit(addr, stringCase, keccak, 2);
    forall i | 2 <= i < 42 ensures HexChar2Int(s[i]) == Ok(Nibble(addr, 41 - i)) {
      RenderedDigit(addr, stringCase, keccak, i);
    }
    assert IsHexString(s);
    DigitsToBytes(addr, s);
  }

  lemma DigitsToBytes(addr: address, s: bytes)
    requires |s| == 42 && IsHexString(s)
    requires forall i :: 2 <= i < 42 ==> HexChar2Int(s[i]) == Ok(Nibble(addr, 41 - i))
    ensures Decode(s) == Ok(AddressBytes(addr))
  {
    forall j | 0 <= j < 20 ensures ByteAt(s, j) == AddressBytes(addr)[j] {
    }
    assert Decode(s).value == AddressBytes(addr);
  }

  /** A number is determined by as many nibbles as it has. */
  lemma {:induction false} NibblesDetermine(m: nat, n: nat, k: nat)
    requires Shr(m, k) == Shr(n, k) && forall j :: 0 <= j < k ==> Nibble(m, j) == Nibble(n, j)
    ensures m == n
    decreases k
  {
    if k > 0 {
      assert Nibble(m, k - 1) == Nibble(n, k - 1);
      NibblesDetermine(m, n, k - 1);
    }
  }

  lemma Shr40(n: nat)
    ensures Shr(n, 40) == n / 0x1_0000000000_0000000000_0000000000_0000000000
  {
    Shr24(n);
    ShrAdd(n, 24, 4);
    ShrFour(Shr(n, 24));
    ShrAdd(n, 28, 4);
    ShrFour(Shr(n, 28));
    ShrAdd(n, 32, 4);
    ShrFour(Shr(n, 32));
    ShrAdd(n, 36, 4);
    ShrFour(Shr(n, 36));
  }

  lemma AddressFits(addr: address)
    ensures Shr(addr, 40) == 0
  {
    Shr40(addr);
  }

  /** Whatever the letter cases, equal renderings come from equal addresses. */
  lemma RenderedInjective(a: address, caseA: nat, b: address, caseB: nat, keccak: bytes -> word)
    requires caseA < 3 && caseB < 3 && Rendered(a, caseA, keccak) == Rendered(b, caseB, keccak)
    ensures a == b
  {
    forall j | 0 <= j < 40 ensures Nibble(a, j) == Nibble(b, j) {
      RenderedDigit(a, caseA, keccak, 41 - j);
      RenderedDigit(b, caseB, keccak, 41 - j);
    }
    AddressFits(a);
    AddressFits(b);
    NibblesDetermine(a, b, 40);
  }
}
