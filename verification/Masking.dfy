/** The masking arithmetic of the email-auth circuit, and the command that survives it. */
module Masking {
  import opened Bytes
  import opened Scanner
  import opened InvitationCode
  import opened HexNumber
  import opened Packing
  import opened Verifier
  import opened Utf8

  /** is_code_exist. */
  ghost function CodeBit(command: bytes): nat { Bit(Out(WITH_PREFIX, Input(command))) }

  /** removed_code[i]. */
  ghost function RemovedCode(command: bytes, i: nat): int
    requires i < |command|
  {
    CodeBit(command) * Reveal(WITH_PREFIX, Input(command), i)
  }

  /** masked_command_bytes[i], for whatever an email-address regex outputs and reveals. */
  ghost function MaskedByte(command: bytes, emailOut: nat, email: bytes, i: nat): int
    requires |email| == |command| && i < |command|
  {
    command[i] - RemovedCode(command, i) - emailOut * email[i]
  }

  /** masked_command_bytes. */
  ghost function MaskedValues(command: bytes, emailOut: nat, email: bytes): (values: seq<int>)
    requires |email| == |command|
    ensures |values| == |command|
  {
    seq(|command|, i requires 0 <= i < |command| => MaskedByte(command, emailOut, email, i))
  }

  /** The address reveal copies command bytes. */
  predicate Copies(command: bytes, email: bytes) {
    |email| == |command| && forall i :: 0 <= i < |command| ==> email[i] == 0 || email[i] == command[i]
  }

  /** Byte i belongs to a revealed address. */
  predicate AddressAt(emailOut: nat, email: bytes, i: nat) {
    i < |email| && emailOut == 1 && email[i] != 0
  }

  predicate NoAddress(emailOut: nat, email: bytes) {
    forall i :: 0 <= i < |email| ==> !AddressAt(emailOut, email, i)
  }

  lemma InCodeOut(command: bytes, i: nat)
    requires InCode(command, i)
    ensures CodeBit(command) == 1
  {
    var p: nat, t: nat :| p <= i < t && LiveMatch(command, p, t);
    OutExact(WITH_PREFIX, command);
  }

  lemma RemovedCodeIs(command: bytes, i: nat)
    requires i < |command|
    ensures RemovedCode(command, i) == if InCode(command, i) then command[i] else 0
  {
    RevealWhole(command, i);
    if InCode(command, i) { InCodeOut(command, i); }
  }

  lemma AddressTerm(emailOut: nat, e: byte)
    requires emailOut <= 1
    ensures emailOut * e == if emailOut == 1 then e else 0
  {
    if emailOut == 0 { assert 0 * e == 0; } else { assert 1 * e == e; }
  }

  lemma MaskedByteIs(command: bytes, emailOut: nat, email: bytes, i: nat)
    requires |email| == |command| && emailOut <= 1 && i < |command|
    ensures MaskedByte(command, emailOut, email, i) ==
      (if InCode(command, i) then 0 else command[i] as int) - (if emailOut == 1 then email[i] else 0)
  {
    RemovedCodeIs(command, i);
    AddressTerm(emailOut, email[i]);
  }

  /** What a masked byte becomes: c kept, zeroed by one mask, or taken away by both. */
  function MaskedValue(c: byte, code: bool, address: bool): int {
    if code && address then -(c as int) else if code || address then 0 else c
  }

  /**
   * A masked value is the command's byte outside codes and addresses, and zero in one of them; it is no byte exactly
   * where both are subtracted.
   */
  lemma MaskExact(command: bytes, emailOut: nat, email: bytes, i: nat)
    requires Copies(command, email) && emailOut <= 1 && i < |command|
    ensures var code, address := InCode(command, i), AddressAt(emailOut, email, i);
      var v := MaskedByte(command, emailOut, email, i);
      v == MaskedValue(command[i], code, address) && (0 <= v < 256 <==> !(code && address))
  {
    MaskedByteIs(command, emailOut, email, i);
  }

  ghost function Masked(command: bytes): (r: bytes)
    ensures |r| == |command|
  {
    seq<byte>(|command|, i requires 0 <= i < |command| => if InCode(command, i) then 0 else command[i])
  }

  /** With no address revealed, only the codes are masked. */
  lemma MaskedIs(command: bytes, emailOut: nat, email: bytes, i: nat)
    requires Copies(command, email) && emailOut <= 1 && i < |command| && !AddressAt(emailOut, email, i)
    ensures MaskedByte(command, emailOut, email, i) == Masked(command)[i]
  {
    MaskExact(command, emailOut, email, i);
  }

  // ----- the suffix that the relayer appends -----

  const CODE_WORD: bytes := [SPACE, 67, 111, 100, 101, SPACE]

  predicate HexCode(h: bytes) { h != [] && AllHex(h) }

  /** `format!("{} Code {}", command, code)`, then zeros to the circuit's length. */
  function WithCode(c: bytes, h: bytes, size: nat): (w: bytes)
    requires |c| + |CODE_WORD| + |h| <= size
    ensures |w| == size
  {
    c + CODE_WORD + h + Repeat(0, size - |c| - |CODE_WORD| - |h|)
  }

  lemma SuffixAt(c: bytes, h: bytes, size: nat)
    requires |c| + 6 + |h| <= size
    ensures var w := WithCode(c, h, size);
      && w[..|c|] == c && w[|c|..|c|+5] == CODE_WORD[..5] && w[|c|+5] == SPACE && w[|c|..|c|+6] == CODE_WORD
      && (forall i :: 0 <= i < |h| ==> w[|c|+6+i] == h[i])
      && (forall i :: |c| + 6 + |h| <= i < size ==> w[i] == 0)
  {
  }

  /** The appended suffix is a match. */
  lemma SuffixMatches(c: bytes, h: bytes, size: nat)
    requires HexCode(h) && |c| + 6 + |h| <= size
    ensures CodeMatch(WithCode(c, h, size)[|c|..|c|+6+|h|])
  {
    SuffixAt(c, h, size);
    var w := WithCode(c, h, size);
    var s := w[|c|..|c|+6+|h|];
    assert s[..5] == w[|c|..|c|+5];
    forall i | 6 <= i < |s| ensures IsHex(s[i]) { assert s[i] == h[i-6]; }
  }

  /** Past its first byte the suffix has one space, then only hex digits and zeros; its second byte is no hex digit. */
  lemma SuffixBytes(c: bytes, h: bytes, size: nat, k: nat)
    requires HexCode(h) && |c| + 6 + |h| <= size && |c| < k < size
    ensures var w := WithCode(c, h, size);
      && !IsHex(w[|c|+1]) && (w[k] == SPACE ==> k == |c| + 5)
      && (k > |c| + 5 ==> IsHex(w[k]) || w[k] == 0)
  {
    SuffixAt(c, h, size);
    var w := WithCode(c, h, size);
    assert w[|c|+1] == CODE_WORD[1];
    if k < |c| + 6 { assert w[k] == CODE_WORD[k-|c|]; }
    if |c| + 6 <= k < |c| + 6 + |h| { assert w[k] == h[k-|c|-6]; }
  }

  /** A match that starts inside the command ends inside it: the next byte after a second space would be C. */
  lemma MatchStaysBefore(c: bytes, h: bytes, size: nat, p: nat, t: nat)
    requires HexCode(h) && |c| + 6 + |h| <= size && p < |c| && p < t <= size && CodeMatch(WithCode(c, h, size)[p..t])
    ensures t <= |c|
  {
    var w := WithCode(c, h, size);
    SuffixAt(c, h, size);
    SuffixBytes(c, h, size, |c| + 1);
    MatchBytes(w, p, t);
    assert w[|c|] == w[|c|..|c|+5][0];
  }

  lemma {:induction false} AbsorbedPrefix(w: bytes, n: nat, p: nat)
    requires p <= n <= |w|
    ensures Absorbed(w, p) <==> Absorbed(w[..n], p)
    decreases p
  {
    if p >= 5 {
      assert w[..n][p-5..p] == w[p-5..p];
      AbsorbedPrefix(w, n, p - 5);
    }
  }

  lemma CodeInPrefix(w: bytes, n: nat, p: nat, t: nat)
    requires t <= n <= |w|
    ensures LiveMatch(w, p, t) <==> LiveMatch(w[..n], p, t)
  {
    if p < t {
      assert w[..n][p..t] == w[p..t];
      AbsorbedPrefix(w, n, p);
    }
  }

  lemma MatchBefore(c: bytes, h: bytes, size: nat, p: nat, t: nat)
    requires HexCode(h) && |c| + 6 + |h| <= size && p < |c|
    ensures LiveMatch(WithCode(c, h, size), p, t) <==> LiveMatch(c, p, t)
  {
    var w := WithCode(c, h, size);
    SuffixAt(c, h, size);
    AbsorbedPrefix(w, |c|, p);
    if p < t <= |w| && CodeMatch(w[p..t]) { MatchStaysBefore(c, h, size, p, t); }
    if p < t <= |c| { assert w[p..t] == c[p..t]; }
  }

  /** Exactly for such a command the suffix is masked and nothing before it: no code, and the space is not absorbed. */
  ghost predicate CleanEnd(c: bytes) { !HasLiveMatch(c) && !Absorbed(c, |c|) }

  lemma CodeBefore(c: bytes, h: bytes, size: nat, i: nat)
    requires HexCode(h) && |c| + 6 + |h| <= size && i < |c| && !HasLiveMatch(c)
    ensures !InCode(WithCode(c, h, size), i)
  {
    forall p: nat, t: nat | p <= i < t ensures !LiveMatch(WithCode(c, h, size), p, t) {
      MatchBefore(c, h, size, p, t);
    }
  }

  lemma CodeAtEnd(c: bytes, h: bytes, size: nat)
    requires |c| + 6 + |h| <= size
    ensures !Absorbed(c, |c|) <==> !Absorbed(WithCode(c, h, size), |c|)
  {
    SuffixAt(c, h, size);
    AbsorbedPrefix(WithCode(c, h, size), |c|, |c|);
  }

  lemma CleanSuffix(c: bytes, h: bytes, size: nat, i: nat)
    requires HexCode(h) && |c| + 6 + |h| <= size && CleanEnd(c) && i < size
    ensures Masked(WithCode(c, h, size))[i] == if i < |c| then c[i] else 0
  {
    var w := WithCode(c, h, size);
    SuffixAt(c, h, size);
    if i < |c| {
      CodeBefore(c, h, size, i);
      assert w[i] == w[..|c|][i];
    } else if i < |c| + 6 + |h| {
      SuffixMatches(c, h, size);
      CodeAtEnd(c, h, size);
      assert LiveMatch(w, |c|, |c| + 6 + |h|);
    }
  }

  /** A command with a code of its own loses bytes. */
  lemma OwnCodeMasked(c: bytes, h: bytes, size: nat) returns (p: nat)
    requires HexCode(h) && |c| + 6 + |h| <= size && HasLiveMatch(c)
    ensures p < |c| && InCode(WithCode(c, h, size), p) && Masked(WithCode(c, h, size))[p] != c[p]
  {
    var t: nat;
    p, t :| LiveMatch(c, p, t);
    MatchBefore(c, h, size, p, t);
    assert c[p..t][..5][0] == c[p];
    assert InCode(WithCode(c, h, size), p);
  }

  lemma NoMatchAtEnd(c: bytes, h: bytes, size: nat)
    requires HexCode(h) && |c| + 6 + |h| <= size && Absorbed(c, |c|) && !HasLiveMatch(c)
    ensures !InCode(WithCode(c, h, size), |c|)
  {
    var w := WithCode(c, h, size);
    CodeAtEnd(c, h, size);
    if InCode(w, |c|) {
      var p: nat, t: nat :| p <= |c| < t && LiveMatch(w, p, t);
      MatchBefore(c, h, size, p, t);
    }
  }

  /** After an unfinished ` code` the suffix stays. */
  lemma AbsorbedSuffixStays(c: bytes, h: bytes, size: nat)
    requires HexCode(h) && |c| + 6 + |h| <= size && !HasLiveMatch(c) && Absorbed(c, |c|)
    ensures Masked(WithCode(c, h, size))[|c|] == SPACE
  {
    NoMatchAtEnd(c, h, size);
    SuffixAt(c, h, size);
    assert WithCode(c, h, size)[|c|] == WithCode(c, h, size)[|c|..|c|+5][0];
  }

  /** Masking `c Code h` leaves c and zeros exactly when c has no live match and does not absorb the suffix's space. */
  lemma MaskSuffixIff(c: bytes, h: bytes, size: nat)
    requires HexCode(h) && |c| + 6 + |h| <= size
    ensures Masked(WithCode(c, h, size)) == Padded(c, size) <==> CleanEnd(c)
  {
    var m := Masked(WithCode(c, h, size));
    if CleanEnd(c) {
      forall i | 0 <= i < size ensures m[i] == Padded(c, size)[i] { CleanSuffix(c, h, size, i); }
    } else if HasLiveMatch(c) {
      var p := OwnCodeMasked(c, h, size);
      assert Padded(c, size)[p] == c[p];
    } else {
      AbsorbedSuffixStays(c, h, size);
      assert Padded(c, size)[|c|] == 0;
    }
  }

  // ----- with the address mask -----

  /** An address reveal copies command bytes, and an address has no space. */
  predicate AddressReveal(command: bytes, email: bytes) {
    Copies(command, email) && forall i :: 0 <= i < |command| && command[i] == SPACE ==> email[i] == 0
  }

  /** The masked values are c and zeros. */
  predicate Leaves(values: seq<int>, c: bytes) {
    |c| <= |values| && forall i :: 0 <= i < |values| ==> values[i] == Padded(c, |values|)[i]
  }

  lemma MatchNonzero(command: bytes, p: nat, t: nat, i: nat)
    requires p <= i < t && LiveMatch(command, p, t)
    ensures command[i] != 0
  {
    MatchBytes(command, p, t);
    assert i < p + 5 ==> i == p || i == p + 1 || i == p + 2 || i == p + 3 || i == p + 4;
  }

  lemma CodeNonzero(command: bytes, i: nat)
    requires i < |command| && InCode(command, i)
    ensures command[i] != 0
  {
    var p: nat, t: nat :| p <= i < t && LiveMatch(command, p, t);
    MatchNonzero(command, p, t, i);
  }

  /** A byte that comes through was touched by neither mask. */
  lemma Untouched(command: bytes, emailOut: nat, email: bytes, i: nat)
    requires Copies(command, email) && emailOut <= 1 && i < |command|
    requires MaskedByte(command, emailOut, email, i) == command[i]
    ensures !InCode(command, i) && !AddressAt(emailOut, email, i)
  {
    MaskExact(command, emailOut, email, i);
    if InCode(command, i) { CodeNonzero(command, i); }
  }

  /** A zeroed byte outside addresses lies in a code. */
  lemma ZeroedByCode(command: bytes, emailOut: nat, email: bytes, i: nat)
    requires Copies(command, email) && emailOut <= 1 && i < |command| && command[i] != 0
    requires MaskedByte(command, emailOut, email, i) == 0
    ensures !AddressAt(emailOut, email, i) <==> InCode(command, i)
  {
    MaskExact(command, emailOut, email, i);
  }

  /** If the suffix's first byte is masked as code and nothing before it is, the command is clean. */
  lemma CleanByCodes(c: bytes, h: bytes, size: nat)
    requires HexCode(h) && |c| + 6 + |h| <= size
    requires InCode(WithCode(c, h, size), |c|) && forall i: nat :: i < |c| ==> !InCode(WithCode(c, h, size), i)
    ensures CleanEnd(c)
  {
    var w := WithCode(c, h, size);
    var p: nat, t: nat :| p <= |c| < t && LiveMatch(w, p, t);
    assert p < |c| ==> InCode(w, p);
    CodeAtEnd(c, h, size);
    if HasLiveMatch(c) { var k := OwnCodeMasked(c, h, size); }
  }

  lemma LeavesIsClean(c: bytes, h: bytes, size: nat, emailOut: nat, email: bytes)
    requires HexCode(h) && |c| + 6 + |h| <= size && emailOut <= 1 && AddressReveal(WithCode(c, h, size), email)
    requires Leaves(MaskedValues(WithCode(c, h, size), emailOut, email), c)
    ensures CleanEnd(c) && forall i: nat :: i < |c| ==> !AddressAt(emailOut, email, i)
  {
    var w := WithCode(c, h, size);
    SuffixAt(c, h, size);
    forall i: nat | i < |c| ensures !InCode(w, i) && !AddressAt(emailOut, email, i) {
      assert w[i] == w[..|c|][i] && MaskedValues(w, emailOut, email)[i] == Padded(c, size)[i];
      Untouched(w, emailOut, email, i);
    }
    assert w[|c|] == w[|c|..|c|+5][0];
    assert MaskedValues(w, emailOut, email)[|c|] == Padded(c, size)[|c|];
    ZeroedByCode(w, emailOut, email, |c|);
    CleanByCodes(c, h, size);
  }

  lemma SuffixNoAddress(c: bytes, h: bytes, size: nat, emailOut: nat, email: bytes, i: nat)
    requires HexCode(h) && |c| + 6 + |h| <= size && emailOut <= 1 && Copies(WithCode(c, h, size), email)
    requires CleanEnd(c) && |c| <= i < size && MaskedByte(WithCode(c, h, size), emailOut, email, i) == 0
    ensures !AddressAt(emailOut, email, i)
  {
    CleanSuffix(c, h, size, i);
    MaskExact(WithCode(c, h, size), emailOut, email, i);
  }

  /** Both masks together leave c and zeros exactly when c is clean and no address is revealed. */
  lemma LeavesIff(c: bytes, h: bytes, size: nat, emailOut: nat, email: bytes)
    requires HexCode(h) && |c| + 6 + |h| <= size && emailOut <= 1 && AddressReveal(WithCode(c, h, size), email)
    ensures Leaves(MaskedValues(WithCode(c, h, size), emailOut, email), c) <==>
      CleanEnd(c) && NoAddress(emailOut, email)
  {
    var values := MaskedValues(WithCode(c, h, size), emailOut, email);
    if Leaves(values, c) {
      LeavesIsClean(c, h, size, emailOut, email);
      forall i: nat | |c| <= i < size ensures !AddressAt(emailOut, email, i) {
        assert values[i] == Padded(c, size)[i];
        SuffixNoAddress(c, h, size, emailOut, email, i);
      }
    } else if CleanEnd(c) && NoAddress(emailOut, email) {
      forall i | 0 <= i < size ensures values[i] == Padded(c, size)[i] {
        MaskedIs(WithCode(c, h, size), emailOut, email, i);
        CleanSuffix(c, h, size, i);
      }
    }
  }

  // ----- a command without a code -----

  lemma CodeBeforeZeros(c: bytes, size: nat, p: nat, t: nat)
    requires |c| <= size && LiveMatch(Padded(c, size), p, t)
    ensures LiveMatch(c, p, t)
  {
    var w := Padded(c, size);
    if t > |c| { MatchNonzero(w, p, t, t - 1); }
    assert w[..|c|] == c;
    CodeInPrefix(w, |c|, p, t);
  }

  lemma CodeStaysSeen(c: bytes, size: nat, p: nat, t: nat)
    requires |c| <= size && LiveMatch(c, p, t)
    ensures LiveMatch(Padded(c, size), p, t)
  {
    assert Padded(c, size)[..|c|] == c;
    CodeInPrefix(Padded(c, size), |c|, p, t);
  }

  /** Zeros after a command add no code and take none away. */
  lemma PaddedCodes(c: bytes, size: nat)
    requires |c| <= size
    ensures HasLiveMatch(Padded(c, size)) <==> HasLiveMatch(c)
  {
    if HasLiveMatch(Padded(c, size)) {
      var p: nat, t: nat :| LiveMatch(Padded(c, size), p, t);
      CodeBeforeZeros(c, size, p, t);
    }
    if HasLiveMatch(c) {
      var p: nat, t: nat :| LiveMatch(c, p, t);
      CodeStaysSeen(c, size, p, t);
    }
  }

  lemma PlainLeft(c: bytes, size: nat, emailOut: nat, email: bytes, i: nat)
    requires |c| <= size && emailOut <= 1 && Copies(Padded(c, size), email) && i < size
    requires Leaves(MaskedValues(Padded(c, size), emailOut, email), c)
    ensures !InCode(Padded(c, size), i) && !AddressAt(emailOut, email, i)
  {
    assert MaskedValues(Padded(c, size), emailOut, email)[i] == Padded(c, size)[i];
    Untouched(Padded(c, size), emailOut, email, i);
  }

  lemma PlainIsClean(c: bytes, size: nat, emailOut: nat, email: bytes)
    requires |c| <= size && emailOut <= 1 && Copies(Padded(c, size), email)
    requires Leaves(MaskedValues(Padded(c, size), emailOut, email), c)
    ensures !HasLiveMatch(c) && NoAddress(emailOut, email)
  {
    forall i: nat | i < size ensures !InCode(Padded(c, size), i) && !AddressAt(emailOut, email, i) {
      PlainLeft(c, size, emailOut, email, i);
    }
    PaddedCodes(c, size);
    if HasLiveMatch(Padded(c, size)) {
      var p: nat, t: nat :| LiveMatch(Padded(c, size), p, t);
      assert InCode(Padded(c, size), p);
    }
  }

  /** Both masks leave a command that was mailed without a code exactly when it has no seen code and no address. */
  lemma PlainLeavesIff(c: bytes, size: nat, emailOut: nat, email: bytes)
    requires |c| <= size && emailOut <= 1 && Copies(Padded(c, size), email)
    ensures Leaves(MaskedValues(Padded(c, size), emailOut, email), c) <==>
      !HasLiveMatch(c) && NoAddress(emailOut, email)
  {
    var values := MaskedValues(Padded(c, size), emailOut, email);
    if Leaves(values, c) {
      PlainIsClean(c, size, emailOut, email);
    } else if !HasLiveMatch(c) && NoAddress(emailOut, email) {
      PaddedCodes(c, size);
      forall i | 0 <= i < size ensures values[i] == Padded(c, size)[i] {
        MaskedIs(Padded(c, size), emailOut, email, i);
      }
    }
  }

  // ----- through the field elements and back -----

  predicate AllBytes(values: seq<int>) { forall i :: 0 <= i < |values| ==> 0 <= values[i] < 256 }

  function AsBytes(values: seq<int>): (r: bytes)
    requires AllBytes(values)
    ensures |r| == |values| && forall i :: 0 <= i < |r| ==> r[i] == values[i]
  {
    seq<byte>(|values|, i requires 0 <= i < |values| => values[i])
  }

  /**
   * What the pipeline is for: the masked values are bytes, the slots that they pack into are the contract's own for c,
   * and the relayer reads c from them.
   */
  predicate Delivered(c: bytes, values: seq<int>) {
    && AllBytes(values)
    && Pack(AsBytes(values), COMMAND_BYTES) == Pack(c, COMMAND_BYTES)
    && GetMaskedCommand(Pack(AsBytes(values), COMMAND_BYTES), 0) == Some(c)
  }

  /** The first twenty slots, read back. */
  lemma ReadsBack(c: bytes)
    ensures GetMaskedCommand(Pack(c, COMMAND_BYTES), 0) == Some(c) <==>
      |c| <= COMMAND_BYTES && 0 !in c && Text(c, {})
  {
    var slots := Pack(c, COMMAND_BYTES);
    assert CommandSlots(slots, 0) == slots;
    DecodeIff(c, COMMAND_BYTES);
  }

  lemma SamePadded(a: bytes, b: bytes, size: nat)
    requires Padded(a, size) == Padded(b, size)
    ensures Pack(a, size) == Pack(b, size)
  {
    forall i | 0 <= i < FieldCount(size) ensures Chunk(a, size, i) == Chunk(b, size, i) {
    }
  }

  /** A command is delivered exactly when the masks leave it, it has no zero byte, and it is UTF-8. */
  lemma DeliveredIff(c: bytes, values: seq<int>)
    requires |values| == COMMAND_BYTES
    ensures Delivered(c, values) <==> Leaves(values, c) && 0 !in c && Text(c, {})
  {
    ReadsBack(c);
    if AllBytes(values) {
      var m := AsBytes(values);
      assert Padded(m, COMMAND_BYTES) == m;
      if Pack(m, COMMAND_BYTES) == Pack(c, COMMAND_BYTES) { SamePackSamePadded(m, c, COMMAND_BYTES); }
      if Leaves(values, c) {
        assert m == Padded(c, COMMAND_BYTES);
        SamePadded(m, c, COMMAND_BYTES);
      }
    } else if Leaves(values, c) {
      assert forall i :: 0 <= i < |values| ==> values[i] == Padded(c, COMMAND_BYTES)[i];
    }
  }

  /**
   * From the selected command on: a command with an appended code is delivered exactly when it has no seen code of its
   * own, does not end in an unfinished ` code`, no address is revealed, and it is zero-free UTF-8.
   */
  lemma Pipeline(c: bytes, h: bytes, emailOut: nat, email: bytes)
    requires HexCode(h) && |c| + 6 + |h| <= COMMAND_BYTES
    requires emailOut <= 1 && AddressReveal(WithCode(c, h, COMMAND_BYTES), email)
    ensures Delivered(c, MaskedValues(WithCode(c, h, COMMAND_BYTES), emailOut, email)) <==>
      CleanEnd(c) && NoAddress(emailOut, email) && 0 !in c && Text(c, {})
  {
    LeavesIff(c, h, COMMAND_BYTES, emailOut, email);
    DeliveredIff(c, MaskedValues(WithCode(c, h, COMMAND_BYTES), emailOut, email));
  }
}
