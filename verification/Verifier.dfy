/** The 34 public signals of a proof: laid out by the contract, read back by the relayer. */
module Verifier {
  import opened Bytes
  import opened Abi
  import opened Packing
  import opened Utf8

  const DOMAIN_FIELDS: nat := 9
  const DOMAIN_BYTES: nat := 255
  const COMMAND_FIELDS: nat := 20
  const COMMAND_BYTES: nat := 605
  const BASE_FIELD: nat := 21888242871839275222246405745257275088696311157297823662689037894645226208583

  datatype EmailProof = EmailProof(
    domainName: bytes, publicKeyHash: word, timestamp: word, maskedCommand: bytes, emailNullifier: word,
    accountSalt: word, isCodeExist: bool, proof: bytes)

  // ----- the contract's side -----

  function Signals(p: EmailProof): (r: seq<nat>)
    ensures |r| == DOMAIN_FIELDS + COMMAND_FIELDS + 5
  {
    Pack(p.domainName, DOMAIN_BYTES) + [p.publicKeyHash, p.emailNullifier, p.timestamp]
    + Pack(p.maskedCommand, COMMAND_BYTES) + [p.accountSalt, if p.isCodeExist then 1 else 0]
  }

  /** The eight words of a Groth16 proof. */
  function Points(proof: bytes): (r: seq<word>)
    requires |proof| >= 256
    ensures |r| == 8
  {
    seq(8, i requires 0 <= i < 8 => WordAt(proof, 32 * i))
  }

  predicate WellFormed(proof: bytes) {
    |proof| >= 256 && forall i :: 0 <= i < 8 ==> Points(proof)[i] < BASE_FIELD
  }

  /** One of the two copy loops, from slot `at` on. */
  method CopyFields(stringFields: array<nat>, pubSignals: array<nat>, at: nat)
    requires stringFields != pubSignals && at + stringFields.Length <= pubSignals.Length
    modifies pubSignals
    ensures pubSignals[..at] == old(pubSignals[..at])
    ensures pubSignals[at..at+stringFields.Length] == old(stringFields[..])
    ensures pubSignals[at+stringFields.Length..] == old(pubSignals[at+stringFields.Length..])
  {
    var i := 0;
    while i < stringFields.Length
      invariant i <= stringFields.Length
      invariant pubSignals[..at] == old(pubSignals[..at]) && pubSignals[at..at+i] == stringFields[..i]
      invariant pubSignals[at+stringFields.Length..] == old(pubSignals[at+stringFields.Length..])
    {
      pubSignals[at + i] := stringFields[i];
      i := i + 1;
    }
    assert stringFields[..i] == stringFields[..];
  }

  lemma SignalsAre(p: EmailProof, s: seq<nat>)
    requires |s| == 34 && s[..9] == Pack(p.domainName, DOMAIN_BYTES)
    requires s[9] == p.publicKeyHash && s[10] == p.emailNullifier && s[11] == p.timestamp
    requires s[12..32] == Pack(p.maskedCommand, COMMAND_BYTES)
    requires s[32] == p.accountSalt && s[33] == if p.isCodeExist then 1 else 0
    ensures s == Signals(p)
  {
    assert s == s[..9] + [s[9], s[10], s[11]] + s[12..32] + [s[32], s[33]];
  }

  /** The signals, slot by slot. */
  method LayOutSignals(proof: EmailProof) returns (pubSignals: array<nat>)
    ensures fresh(pubSignals) && pubSignals[..] == Signals(proof)
  {
    pubSignals := new nat[DOMAIN_FIELDS + COMMAND_FIELDS + 5](_ => 0);
    var stringFields := PackBytes2Fields(proof.domainName, DOMAIN_BYTES);
    CopyFields(stringFields, pubSignals, 0);
    pubSignals[DOMAIN_FIELDS] := proof.publicKeyHash;
    pubSignals[DOMAIN_FIELDS + 1] := proof.emailNullifier;
    pubSignals[DOMAIN_FIELDS + 2] := proof.timestamp;
    assert pubSignals[..9] == Pack(proof.domainName, DOMAIN_BYTES);
    ghost var head := pubSignals[..12];
    stringFields := PackBytes2Fields(proof.maskedCommand, COMMAND_BYTES);
    CopyFields(stringFields, pubSignals, DOMAIN_FIELDS + 3);
    assert pubSignals[..12] == head && pubSignals[..9] == head[..9];
    pubSignals[DOMAIN_FIELDS + 3 + COMMAND_FIELDS] := proof.accountSalt;
    pubSignals[DOMAIN_FIELDS + 3 + COMMAND_FIELDS + 1] := if proof.isCodeExist then 1 else 0;
    assert pubSignals[..12] == head;
    SignalsAre(proof, pubSignals[..]);
  }

  /** What the verifier answers. */
  function Verdict(proof: EmailProof, groth16: (seq<word>, seq<nat>) -> bool): Outcome<bool> {
    if WellFormed(proof.proof) then Ok(groth16(Points(proof.proof), Signals(proof))) else Revert
  }

  /** Verifier.verifyEmailProof, over an arbitrary Groth16 verifier. */
  method VerifyEmailProof(proof: EmailProof, groth16: (seq<word>, seq<nat>) -> bool) returns (r: Outcome<bool>)
    ensures r == Verdict(proof, groth16)
    ensures |proof.proof| < 256 ==> r == Revert
  {
    if |proof.proof| < 256 { return Revert; }
    var points := Points(proof.proof);
    if !(points[0] < BASE_FIELD && points[1] < BASE_FIELD) { return Revert; }
    if !(points[2] < BASE_FIELD && points[3] < BASE_FIELD && points[4] < BASE_FIELD && points[5] < BASE_FIELD) {
      return Revert;
    }
    if !(points[6] < BASE_FIELD && points[7] < BASE_FIELD) { return Revert; }
    var pubSignals := LayOutSignals(proof);
    r := Ok(groth16(points, pubSignals[..]));
  }

  lemma {:induction false} EncodedPoint(a: seq<word>, rest: bytes, i: nat)
    requires i < |a|
    ensures 32 * i + 32 <= |EncodeWords(a) + rest| && WordAt(EncodeWords(a) + rest, 32 * i) == a[i]
    decreases |a|
  {
    var n := |a| - 1;
    var front, last := EncodeWords(a[..n]), ToBigEndian(a[n], 32);
    if i == n {
      EncodedWord(a[n], front, rest);
    } else {
      EncodedPoint(a[..n], last + rest, i);
      assert front + last + rest == front + (last + rest);
    }
  }

  lemma EncodedPoints(a: seq<word>, rest: bytes)
    requires |a| == 8
    ensures |EncodeWords(a) + rest| >= 256 && Points(EncodeWords(a) + rest) == a
  {
    forall i | 0 <= i < 8 ensures Points(EncodeWords(a) + rest)[i] == a[i] { EncodedPoint(a, rest, i); }
  }

  /**
   * The Groth16 verifier is asked about the words of pA, pB and pC in the order in which they were encoded, with the
   * signals; a word outside the base field reverts, and so does a shorter encoding.
   */
  lemma VerdictOfEncoding(p: EmailProof, a0: word, a1: word, b00: word, b01: word, b10: word, b11: word, c0: word,
                          c1: word, rest: bytes, groth16: (seq<word>, seq<nat>) -> bool)
    requires p.proof == EncodeWords([a0, a1, b00, b01, b10, b11, c0, c1]) + rest
    ensures var q := 0x30644e72e131a029b85045b68181585d97816a916871ca8d3c208c16d87cfd47;
      Verdict(p, groth16) ==
      if a0 < q && a1 < q && b00 < q && b01 < q && b10 < q && b11 < q && c0 < q && c1 < q
      then Ok(groth16([a0, a1, b00, b01, b10, b11, c0, c1], Signals(p))) else Revert
  {
    var a := [a0, a1, b00, b01, b10, b11, c0, c1];
    EncodedPoints(a, rest);
    assert a[0] == a0 && a[1] == a1 && a[2] == b00 && a[3] == b01;
    assert a[4] == b10 && a[5] == b11 && a[6] == c0 && a[7] == c1;
  }

  /** Every proof of 256 bytes or more begins with such an encoding, so the verdict is determined for all inputs. */
  lemma ProofIsEncoding(proof: bytes)
    requires |proof| >= 256
    ensures EncodeWords(Points(proof)) == proof[..256]
  {
    PrefixEncoded(proof, 8);
    assert Points(proof)[..8] == Points(proof);
  }

  lemma {:induction false} PrefixEncoded(proof: bytes, k: nat)
    requires |proof| >= 256 && k <= 8
    ensures EncodeWords(Points(proof)[..k]) == proof[..32*k]
    decreases k
  {
    if k > 0 {
      PrefixEncoded(proof, k - 1);
      assert Points(proof)[..k][..k-1] == Points(proof)[..k-1];
      ToBigEndianOf(proof[32*k-32..32*k]);
      assert proof[..32*k] == proof[..32*k-32] + proof[32*k-32..32*k];
    }
  }

  /** All public members agree, strings up to what packing forgets. */
  predicate SamePublic(p: EmailProof, q: EmailProof) {
    && Canon(p.domainName, 255) == Canon(q.domainName, 255)
    && p.publicKeyHash == q.publicKeyHash && p.timestamp == q.timestamp
    && Canon(p.maskedCommand, 605) == Canon(q.maskedCommand, 605)
    && p.emailNullifier == q.emailNullifier && p.accountSalt == q.accountSalt && p.isCodeExist == q.isCodeExist
  }

  lemma SignalSlots(p: EmailProof)
    ensures Signals(p)[..9] == Pack(p.domainName, DOMAIN_BYTES)
    ensures Signals(p)[9] == p.publicKeyHash && Signals(p)[10] == p.emailNullifier && Signals(p)[11] == p.timestamp
    ensures Signals(p)[12..32] == Pack(p.maskedCommand, COMMAND_BYTES)
    ensures Signals(p)[32] == p.accountSalt && Signals(p)[33] == if p.isCodeExist then 1 else 0
  {
  }

  /** The signals determine the seven public members, and nothing else enters them. */
  lemma SignalsIff(p: EmailProof, q: EmailProof)
    ensures Signals(p) == Signals(q) <==> SamePublic(p, q)
  {
    SignalSlots(p);
    SignalSlots(q);
    PackIff(p.domainName, q.domainName, DOMAIN_BYTES);
    PackIff(p.maskedCommand, q.maskedCommand, COMMAND_BYTES);
  }

  // ----- the relayer's side -----

  function TakeWhileNonzero(fields: seq<nat>): seq<nat> {
    if fields == [] || fields[0] == 0 then [] else [fields[0]] + TakeWhileNonzero(fields[1..])
  }

  /** flat_map(u256_to_bytes32_little). */
  function Flatten(fields: seq<nat>): bytes {
    if fields == [] then [] else ToLittleEndian(fields[0], 32) + Flatten(fields[1..])
  }

  /** Without its zero bytes. */
  function DropZeros(b: bytes): (r: bytes)
    ensures 0 !in r && |r| <= |b|
  {
    if b == [] then [] else (if b[0] != 0 then [b[0]] else []) + DropZeros(b[1..])
  }

  function DecodedBytes(fields: seq<nat>): bytes { DropZeros(Flatten(TakeWhileNonzero(fields))) }

  /** At most 20 signals from the start index on. */
  function CommandSlots(signals: seq<nat>, start: nat): seq<nat> {
    var rest := if start <= |signals| then signals[start..] else [];
    rest[..Least(COMMAND_FIELDS, |rest|)]
  }

  /** get_masked_command; None is the error for bytes that are not UTF-8. */
  function GetMaskedCommand(signals: seq<nat>, start: nat): Option<bytes> {
    var command := DecodedBytes(CommandSlots(signals, start));
    if Text(command, {}) then Some(command) else None
  }

  lemma {:induction false} DropZerosAppend(a: bytes, b: bytes)
    ensures DropZeros(a + b) == DropZeros(a) + DropZeros(b)
    decreases |a|
  {
    if a == [] {
      assert a + b == b;
    } else {
      assert (a + b)[0] == a[0] && (a + b)[1..] == a[1..] + b;
      DropZerosAppend(a[1..], b);
      assert DropZeros(a) == (if a[0] != 0 then [a[0]] else []) + DropZeros(a[1..]);
    }
  }

  lemma {:induction false} DropZerosNone(b: bytes)
    requires 0 !in b
    ensures DropZeros(b) == b
    decreases |b|
  {
    if b != [] {
      DropZerosNone(b[1..]);
      assert b == [b[0]] + b[1..];
    }
  }

  lemma {:induction false} DropZerosAll(n: nat)
    ensures DropZeros(Repeat(0, n)) == []
    decreases n
  {
    if n > 0 {
      assert Repeat(0, n)[1..] == Repeat(0, n - 1);
      DropZerosAll(n - 1);
    }
  }

  /** One packed field gives its nonzero bytes back. */
  lemma DropField(chunk: bytes)
    requires |chunk| <= 32
    ensures DropZeros(ToLittleEndian(LittleEndian(chunk), 32)) == DropZeros(chunk)
  {
    UnpackChunk(chunk, 32);
    DropZerosAppend(chunk, Repeat(0, 32 - |chunk|));
    DropZerosAll(32 - |chunk|);
  }

  lemma DecodedCons(fields: seq<nat>)
    requires fields != []
    ensures DecodedBytes(fields) ==
      if fields[0] == 0 then [] else DropZeros(ToLittleEndian(fields[0], 32)) + DecodedBytes(fields[1..])
  {
    if fields[0] != 0 {
      var taken := TakeWhileNonzero(fields[1..]);
      assert ([fields[0]] + taken)[1..] == taken;
      DropZerosAppend(ToLittleEndian(fields[0], 32), Flatten(taken));
    }
  }

  /** Whatever was packed, what is decoded has no zero byte and fits the padded size. */
  lemma {:induction false} DecodedFits(w: bytes, size: nat, i: nat)
    requires i <= FieldCount(size)
    ensures 0 !in DecodedBytes(Pack(w, size)[i..])
    ensures |DecodedBytes(Pack(w, size)[i..])| <= if 31 * i <= size then size - 31 * i else 0
    decreases FieldCount(size) - i
  {
    if i < FieldCount(size) {
      var rest := Pack(w, size)[i..];
      assert rest[1..] == Pack(w, size)[i+1..];
      DecodedCons(rest);
      DropField(Chunk(w, size, i));
      DecodedFits(w, size, i + 1);
    }
  }

  /** Chunk i of a string that reaches it is a part of the string and zeros. */
  lemma ChunkPart(c: bytes, size: nat, i: nat)
    requires |c| <= size && i < FieldCount(size) && 31 * i < |c|
    ensures var part := c[31*i..Least(31*i+31, |c|)];
      part != [] && |part| <= |Chunk(c, size, i)| && Chunk(c, size, i) == part + Repeat(0, |Chunk(c, size, i)| - |part|)
  {
    var part, chunk := c[31*i..Least(31*i+31, |c|)], Chunk(c, size, i);
    forall k | 0 <= k < |chunk| ensures chunk[k] == (part + Repeat(0, |chunk| - |part|))[k] {
      assert chunk[k] == Padded(c, size)[31*i+k];
    }
  }

  lemma ChunkPast(c: bytes, size: nat, i: nat)
    requires i < FieldCount(size) && 31 * i >= |c|
    ensures LittleEndian(Chunk(c, size, i)) == 0
  {
    var chunk := Chunk(c, size, i);
    forall k | 0 <= k < |chunk| ensures chunk[k] == 0 { assert chunk[k] == Padded(c, size)[31*i+k]; }
    LittleEndianZero(chunk);
  }

  lemma DropPadding(part: bytes, n: nat)
    requires 0 !in part
    ensures DropZeros(part + Repeat(0, n)) == part
  {
    DropZerosAppend(part, Repeat(0, n));
    DropZerosNone(part);
    DropZerosAll(n);
  }

  lemma NonzeroChunk(chunk: bytes)
    requires chunk != [] && chunk[0] != 0
    ensures LittleEndian(chunk) != 0
  {
    LittleEndianZero(chunk);
  }

  lemma ChunkOf(c: bytes, size: nat, i: nat)
    requires 0 !in c && |c| <= size && i < FieldCount(size) && 31 * i < |c|
    ensures LittleEndian(Chunk(c, size, i)) != 0
    ensures DropZeros(Chunk(c, size, i)) == c[31*i..Least(31*i+31, |c|)]
  {
    var part := c[31*i..Least(31*i+31, |c|)];
    ChunkPart(c, size, i);
    DropPadding(part, |Chunk(c, size, i)| - |part|);
    assert part[0] == c[31*i];
    NonzeroChunk(Chunk(c, size, i));
  }

  /** What is left of c from field i on. */
  function From(c: bytes, i: nat): bytes { if 31 * i < |c| then c[31*i..] else [] }

  lemma FromStep(c: bytes, i: nat)
    requires 31 * i < |c|
    ensures From(c, i) == c[31*i..Least(31*i+31, |c|)] + From(c, i + 1)
  {
    var m := Least(31 * i + 31, |c|);
    assert c[31*i..] == c[31*i..m] + c[m..];
  }

  lemma DecodedStep(c: bytes, size: nat, i: nat)
    requires 0 !in c && |c| <= size && i < FieldCount(size)
    ensures DecodedBytes(Pack(c, size)[i..]) ==
      if 31 * i < |c| then c[31*i..Least(31*i+31, |c|)] + DecodedBytes(Pack(c, size)[i+1..]) else []
  {
    var rest := Pack(c, size)[i..];
    assert rest[1..] == Pack(c, size)[i+1..];
    DecodedCons(rest);
    if 31 * i < |c| {
      DropField(Chunk(c, size, i));
      ChunkOf(c, size, i);
    } else {
      ChunkPast(c, size, i);
    }
  }

  lemma {:induction false} DecodedFrom(c: bytes, size: nat, i: nat)
    requires 0 !in c && |c| <= size && i <= FieldCount(size)
    ensures DecodedBytes(Pack(c, size)[i..]) == From(c, i)
    decreases FieldCount(size) - i
  {
    if i < FieldCount(size) {
      DecodedStep(c, size, i);
      DecodedFrom(c, size, i + 1);
      if 31 * i < |c| { FromStep(c, i); }
    }
  }

  /** Unpacking gives back what was packed exactly when it fits and has no zero byte. */
  lemma DecodeIff(c: bytes, size: nat)
    ensures DecodedBytes(Pack(c, size)) == c <==> 0 !in c && |c| <= size
  {
    assert Pack(c, size)[0..] == Pack(c, size);
    DecodedFits(c, size, 0);
    if 0 !in c && |c| <= size {
      DecodedFrom(c, size, 0);
      assert From(c, 0) == c;
    }
  }

  lemma CommandSlotsOf(p: EmailProof)
    ensures CommandSlots(Signals(p), DOMAIN_FIELDS + 3) == Pack(p.maskedCommand, COMMAND_BYTES)
  {
    SignalSlots(p);
    assert Signals(p)[12..][..20] == Signals(p)[12..32];
  }

  /** The relayer reads the command of a proof back exactly when it fits, has no zero byte and is UTF-8. */
  lemma MaskedCommandIff(p: EmailProof)
    ensures GetMaskedCommand(Signals(p), DOMAIN_FIELDS + 3) == Some(p.maskedCommand) <==>
      0 !in p.maskedCommand && |p.maskedCommand| <= 605 && Text(p.maskedCommand, {})
  {
    CommandSlotsOf(p);
    DecodeIff(p.maskedCommand, COMMAND_BYTES);
  }

  /** generate_email_proof's reading of the signals; the domain comes from the email itself. */
  function DecodedProof(signals: seq<word>, domainName: bytes, proof: bytes): Option<EmailProof>
    requires |signals| == 34
  {
    match GetMaskedCommand(signals, DOMAIN_FIELDS + 3)
    case None => None
    case Some(command) =>
      Some(EmailProof(
        domainName, signals[DOMAIN_FIELDS], signals[DOMAIN_FIELDS + 2], command, signals[DOMAIN_FIELDS + 1],
        signals[COMMAND_FIELDS + DOMAIN_FIELDS + 3], signals[COMMAND_FIELDS + DOMAIN_FIELDS + 4] == 1, proof))
  }

  predicate ZerosAtEnd(w: bytes) { 0 !in Trim(w) }

  lemma RepackIff(w: bytes, size: nat)
    requires |w| == size
    ensures Pack(DecodedBytes(Pack(w, size)), size) == Pack(w, size) <==> ZerosAtEnd(w)
  {
    assert Pack(w, size)[0..] == Pack(w, size);
    DecodedFits(w, size, 0);
    var d := DecodedBytes(Pack(w, size));
    PackIff(d, w, size);
    TrimZeroFree(d);
    if ZerosAtEnd(w) {
      PaddedCanon(Trim(w), size);
      TrimZeroFree(Trim(w));
      PackIff(Trim(w), w, size);
      DecodeIff(Trim(w), size);
    }
  }

  lemma TrimZeroFree(d: bytes)
    requires 0 !in d
    ensures Trim(d) == d
  {
  }

  lemma SplitSignals(signals: seq<nat>)
    requires |signals| == 34
    ensures signals ==
      signals[..9] + [signals[9], signals[10], signals[11]] + signals[12..32] + [signals[32], signals[33]]
  {
  }

  /**
   * Encoding what the relayer decoded gives the circuit's signals back exactly when the domain is the one in the first
   * nine slots, the code flag is a bit, and the packed command bytes w have zeros only at the end.
   */
  lemma ReencodeIff(signals: seq<word>, w: bytes, domainName: bytes, proof: bytes)
    requires |signals| == 34 && |w| == COMMAND_BYTES && signals[12..32] == Pack(w, COMMAND_BYTES)
    requires DecodedProof(signals, domainName, proof).Some?
    ensures Signals(DecodedProof(signals, domainName, proof).value) == signals <==>
      Pack(domainName, DOMAIN_BYTES) == signals[..9] && signals[33] <= 1 && ZerosAtEnd(w)
  {
    var p := DecodedProof(signals, domainName, proof).value;
    assert signals[12..][..20] == signals[12..32];
    assert p.maskedCommand == DecodedBytes(Pack(w, COMMAND_BYTES));
    RepackIff(w, COMMAND_BYTES);
    SignalSlots(p);
    SplitSignals(signals);
    SplitSignals(Signals(p));
  }
}
