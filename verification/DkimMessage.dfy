/** ECDSAOwnedDKIMRegistry: the message that the registry's signer signs. */
module DkimMessage {
  import opened Bytes
  import opened Words
  import opened HexNumber

  const SET_PREFIX: bytes := Ascii("SET:")
  const REVOKE_PREFIX: bytes := Ascii("REVOKE:")
  const DOMAIN: bytes := Ascii("domain=")
  const KEY_HASH: bytes := Ascii(";public_key_hash=")
  const EQUALS: byte := 61
  const SEMICOLON: byte := 59

  function ComputeSignedMsg(prefix: bytes, domainName: bytes, publicKeyHash: word): bytes {
    prefix + DOMAIN + domainName + KEY_HASH + ToHexString(publicKeyHash) + [SEMICOLON]
  }

  /**
   * The message, byte for byte: its digits are the minimal ones of the key hash, so an ordinary hash, of 32 significant
   * bytes, takes exactly 64 of them.
   */
  lemma MessageText(prefix: bytes, domainName: bytes, h: word) returns (digits: bytes)
    ensures ComputeSignedMsg(prefix, domainName, h) ==
      prefix + Ascii("domain=") + domainName + Ascii(";public_key_hash=0x") + digits + Ascii(";")
    ensures MinimalDigits(digits, h) && (h >= TWO_256 / 256 ==> |digits| == 64)
    ensures h < 256 ==> |digits| == 2
    ensures h >= 256 ==> !(digits[0] == 48 && digits[1] == 48)
  {
    var s := ToHexString(h);
    digits := s[2..];
    ToHexStringMinimal(h);
    MinimalLeads(digits, h);
    if h >= TWO_256 / 256 { MinimalWord(digits, h); }
    assert s == Ascii("0x") + digits;
    assert KEY_HASH + Ascii("0x") == Ascii(";public_key_hash=0x");
    assert Ascii(";") == [SEMICOLON];
    Regrouped(prefix + DOMAIN + domainName, KEY_HASH, Ascii("0x"), digits, [SEMICOLON]);
  }

  lemma Regrouped(u: bytes, v: bytes, w: bytes, x: bytes, y: bytes)
    ensures u + v + (w + x) + y == u + (v + w) + x + y
  {
  }

  /** What follows the last delimiter, and what precedes it. */
  lemma LastPart(u: bytes, x: bytes, w: bytes, y: bytes, d: byte)
    requires Free(x, d) && Free(y, d) && u + [d] + x == w + [d] + y
    ensures u == w && x == y
  {
    SplitAppend(u, x, d);
    SplitAppend(w, y, d);
    var s := Split(u + [d] + x, d);
    assert x == s[|s|-1] == y;
    assert u == (u + [d] + x)[..|u|] && w == (w + [d] + y)[..|w|];
  }

  lemma HashAvoidsEquals(h: word)
    ensures Free(ToHexString(h) + [SEMICOLON], EQUALS)
  {
    var s := ToHexString(h);
    forall i | 0 <= i < |s| ensures s[i] != EQUALS {
      if i >= 2 { assert IsHex(HexText(h, 2 * ByteLength(h))[i-2]); }
    }
  }

  lemma MessageShape(prefix: bytes, domainName: bytes, h: word)
    ensures KEY_HASH == KEY_HASH[..16] + [EQUALS]
    ensures ComputeSignedMsg(prefix, domainName, h) ==
      (prefix + DOMAIN + domainName + KEY_HASH[..16]) + [EQUALS] + (ToHexString(h) + [SEMICOLON])
  {
    assert KEY_HASH == KEY_HASH[..16] + [EQUALS];
  }

  /** Read from the right: the message fixes the hash, and the text before it, whatever the domain contains. */
  lemma MessageIff(p: bytes, d: bytes, h: word, q: bytes, e: bytes, g: word)
    ensures ComputeSignedMsg(p, d, h) == ComputeSignedMsg(q, e, g) <==> h == g && p + DOMAIN + d == q + DOMAIN + e
  {
    if ComputeSignedMsg(p, d, h) == ComputeSignedMsg(q, e, g) {
      SameHash(p, d, h, q, e, g);
    }
  }

  lemma SameHash(p: bytes, d: bytes, h: word, q: bytes, e: bytes, g: word)
    requires ComputeSignedMsg(p, d, h) == ComputeSignedMsg(q, e, g)
    ensures h == g && p + DOMAIN + d == q + DOMAIN + e
  {
    var k := KEY_HASH[..16];
    var u, w := p + DOMAIN + d, q + DOMAIN + e;
    MessageShape(p, d, h);
    MessageShape(q, e, g);
    HashAvoidsEquals(h);
    HashAvoidsEquals(g);
    LastPart(u + k, ToHexString(h) + [SEMICOLON], w + k, ToHexString(g) + [SEMICOLON], EQUALS);
    DropLast(ToHexString(h), ToHexString(g), [SEMICOLON]);
    ToHexStringInjective(h, g);
    DropLast(u, w, k);
  }

  lemma DropLast(u: bytes, w: bytes, k: bytes)
    requires u + k == w + k
    ensures u == w
  {
    assert u == (u + k)[..|u|] && w == (w + k)[..|w|];
  }

  predicate IsOperation(prefix: bytes) { prefix == SET_PREFIX || prefix == REVOKE_PREFIX }

  /** A signed message stands for one operation, one domain and one key hash. */
  lemma MessageInjective(p: bytes, d: bytes, h: word, q: bytes, e: bytes, g: word)
    requires IsOperation(p) && IsOperation(q) && ComputeSignedMsg(p, d, h) == ComputeSignedMsg(q, e, g)
    ensures p == q && d == e && h == g
  {
    SameHash(p, d, h, q, e, g);
    assert (p + DOMAIN + d)[0] == p[0] && (q + DOMAIN + e)[0] == q[0];
    assert SET_PREFIX[0] == 83 && REVOKE_PREFIX[0] == 82;
    assert d == (p + DOMAIN + d)[|p|+|DOMAIN|..] && e == (q + DOMAIN + e)[|q|+|DOMAIN|..];
  }

  /** With prefixes of the caller's choice, two different triples can share a message. */
  lemma OtherPrefixesAmbiguous(h: word)
    ensures ComputeSignedMsg([], DOMAIN, h) == ComputeSignedMsg(DOMAIN, [], h) && [] != DOMAIN
  {
    MessageIff([], DOMAIN, h, DOMAIN, [], h);
    assert [] + DOMAIN + DOMAIN == DOMAIN + DOMAIN + [];
  }
}
