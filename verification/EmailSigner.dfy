/** EmailSigner: a stateless signature check, and why one email signs at most one hash. */
module EmailSigner {
  import opened Bytes
  import opened Numerals
  import opened Hex
  import opened Abi
  import opened Command
  import opened EmailAuth

  const MAGIC_VALUE: nat := 0x1626ba7e
  const LEGACY_MAGIC_VALUE: nat := 0x20c13b0b

  const SIGN_HASH: bytes := Ascii("signHash")
  const SIGN_HASH_TEMPLATE: Template := [SIGN_HASH, UINT_MATCHER]

  datatype Signer = Signer(initialized: bool, accountSalt: word, dkim: address, verifier: address, templateId: word)

  /** Everything that verifyEmail requires. */
  ghost predicate Verifies(s: Signer, msg: EmailAuthMsg, world: World) {
    var p := msg.proof;
    && s.templateId == msg.templateId
    && s.dkim != 0 && world.keyValid(s.dkim, p.domainName, p.publicKeyHash) == Ok(true)
    && s.accountSalt == p.accountSalt
    && s.verifier != 0 && world.commandBytes(s.verifier).Ok?
    && CommandAccepted(msg, SIGN_HASH_TEMPLATE, world.commandBytes(s.verifier).value, world.keccak)
    && world.proofValid(s.verifier, p) == Ok(true)
  }

  // ----- the command that signs -----

  lemma SignHashWords(params: seq<bytes>, c: nat, keccak: bytes -> word)
    ensures WordFor(params, SIGN_HASH_TEMPLATE, 0, c, keccak) == Ok(SIGN_HASH)
    ensures WordFor(params, SIGN_HASH_TEMPLATE, 1, c, keccak) ==
      if params == [] || DecodeUint(params[0]).Revert? then Revert else Ok(Dec(DecodeUint(params[0]).value))
  {
    assert !IsMatcher(SIGN_HASH) by { assert SIGN_HASH[0] == 115; }
    assert MatcherOf(UINT_MATCHER) == Some(UintM) by { assert UINT_MATCHER[1] == 117 && STRING_MATCHER[1] == 115; }
    assert SIGN_HASH_TEMPLATE[..1] == [SIGN_HASH] && SIGN_HASH_TEMPLATE[..0] == [];
    assert MatcherCount([SIGN_HASH]) == 0 by { assert [SIGN_HASH][..0] == []; }
  }

  /** "signHash ", then the first parameter in decimal. */
  lemma SignHashCommand(params: seq<bytes>, c: nat, keccak: bytes -> word)
    ensures Expected(params, SIGN_HASH_TEMPLATE, c, keccak) ==
      if params == [] || DecodeUint(params[0]).Revert? then Revert
      else Ok(SIGN_HASH + [SPACE] + Dec(DecodeUint(params[0]).value))
  {
    SignHashWords(params, c, keccak);
    assert WordsOf(params, SIGN_HASH_TEMPLATE, 0, c, keccak) == Ok([]) && [] + [SIGN_HASH] == [SIGN_HASH];
    assert WordsOf(params, SIGN_HASH_TEMPLATE, 1, c, keccak) == Ok([SIGN_HASH]);
    if params != [] && DecodeUint(params[0]).Ok? {
      var d := Dec(DecodeUint(params[0]).value);
      assert WordsOf(params, SIGN_HASH_TEMPLATE, 2, c, keccak) == Ok([SIGN_HASH] + [d]);
      JoinSnoc([SIGN_HASH], d);
    }
  }

  lemma RendersHash(params: seq<bytes>, command: bytes, keccak: bytes -> word)
    ensures RendersTo(params, SIGN_HASH_TEMPLATE, command, keccak) <==>
      params != [] && DecodeUint(params[0]).Ok? && command == SIGN_HASH + [SPACE] + Dec(DecodeUint(params[0]).value)
  {
    forall c: nat { SignHashCommand(params, c, keccak); }
    SignHashCommand(params, 0, keccak);
  }

  /** The letters s and i stand next to each other only at the very start of a signing command. */
  lemma StartsOnce(u: word, k: nat)
    requires k + 1 < |SIGN_HASH + [SPACE] + Dec(u)|
    ensures var a := SIGN_HASH + [SPACE] + Dec(u); a[k] == 115 && a[k+1] == 105 ==> k == 0
  {
    var a := SIGN_HASH + [SPACE] + Dec(u);
    if k >= 9 {
      assert a[k] == Dec(u)[k-9];
    } else if k < 8 {
      assert a[k] == SIGN_HASH[k];
      assert k < 7 ==> a[k+1] == SIGN_HASH[k+1];
    }
  }

  /** No proper suffix of a signing command is a signing command. */
  lemma NoShorterCommand(u: word, v: word, d: nat)
    requires d <= |SIGN_HASH + [SPACE] + Dec(u)| && (SIGN_HASH + [SPACE] + Dec(u))[d..] == SIGN_HASH + [SPACE] + Dec(v)
    ensures d == 0
  {
    var a, b := SIGN_HASH + [SPACE] + Dec(u), SIGN_HASH + [SPACE] + Dec(v);
    assert a[d] == a[d..][0] == SIGN_HASH[0] && a[d+1] == a[d..][1] == SIGN_HASH[1];
    StartsOnce(u, d);
  }

  /** One command text fixes the number, even if different prefixes are skipped. */
  lemma SuffixesAgree(command: bytes, i: nat, j: nat, u: word, v: word)
    requires i <= j <= |command|
    requires command[i..] == SIGN_HASH + [SPACE] + Dec(u) && command[j..] == SIGN_HASH + [SPACE] + Dec(v)
    ensures i == j && u == v
  {
    assert command[i..][j-i..] == command[j..];
    NoShorterCommand(u, v, j - i);
    assert Dec(u) == command[i..][9..] && Dec(v) == command[j..][9..];
    DecInjective(u, v);
  }

  /** The hash that a message signs. */
  function SignedHash(msg: EmailAuthMsg): Outcome<word> {
    if msg.commandParams == [] then Revert else DecodeUint(msg.commandParams[0])
  }

  lemma VerifiesSignsHash(s: Signer, msg: EmailAuthMsg, world: World)
    requires Verifies(s, msg, world)
    ensures SignedHash(msg).Ok?
    ensures msg.skippedCommandPrefix <= |msg.proof.maskedCommand|
    ensures msg.proof.maskedCommand[msg.skippedCommandPrefix..] == SIGN_HASH + [SPACE] + Dec(SignedHash(msg).value)
  {
    RendersHash(msg.commandParams, msg.proof.maskedCommand[msg.skippedCommandPrefix..], world.keccak);
  }

  /**
   * Two messages that verify with the same masked command sign the same hash: whatever their parameters, letter cases
   * and skipped prefixes, and whatever the contracts and the world they are verified in.
   */
  lemma OneHashPerCommand(s: Signer, m: EmailAuthMsg, world: World, r: Signer, n: EmailAuthMsg, other: World)
    requires Verifies(s, m, world) && Verifies(r, n, other) && m.proof.maskedCommand == n.proof.maskedCommand
    ensures SignedHash(m) == SignedHash(n)
  {
    VerifiesSignsHash(s, m, world);
    VerifiesSignsHash(r, n, other);
    var i, j := m.skippedCommandPrefix, n.skippedCommandPrefix;
    if i <= j {
      SuffixesAgree(m.proof.maskedCommand, i, j, SignedHash(m).value, SignedHash(n).value);
    } else {
      SuffixesAgree(m.proof.maskedCommand, j, i, SignedHash(n).value, SignedHash(m).value);
    }
  }

  /** What isValidSignature answers, for a decoder of signatures. */
  ghost function Answer(s: Signer, hash: word, signature: bytes, world: World,
                        decode: bytes -> Outcome<EmailAuthMsg>): Outcome<nat>
  {
    match decode(signature)
    case Revert => Revert
    case Ok(msg) =>
      if !Verifies(s, msg, world) then Revert
      else Ok(if SignedHash(msg) == Ok(hash) then MAGIC_VALUE else 0)
  }

  /** Signatures with the same masked command are valid for at most one hash. */
  lemma AtMostOneHash(s: Signer, h: word, a: bytes, world: World, r: Signer, g: word, b: bytes, other: World,
                      decode: bytes -> Outcome<EmailAuthMsg>)
    requires decode(a).Ok? && decode(b).Ok?
    requires decode(a).value.proof.maskedCommand == decode(b).value.proof.maskedCommand
    requires Answer(s, h, a, world, decode) == Ok(MAGIC_VALUE) && Answer(r, g, b, other, decode) == Ok(MAGIC_VALUE)
    ensures h == g
  {
    OneHashPerCommand(s, decode(a).value, world, r, decode(b).value, other);
  }

  /** A proof for a rendered signing command makes exactly its own hash valid. */
  lemma ValidExactly(s: Signer, h: word, signature: bytes, world: World, decode: bytes -> Outcome<EmailAuthMsg>)
    requires decode(signature).Ok? && Verifies(s, decode(signature).value, world)
    ensures var p := decode(signature).value.proof;
      Answer(s, h, signature, world, decode) == Ok(MAGIC_VALUE) <==>
      p.maskedCommand[decode(signature).value.skippedCommandPrefix..] == SIGN_HASH + [SPACE] + Dec(h)
  {
    var msg := decode(signature).value;
    VerifiesSignsHash(s, msg, world);
    var command := msg.proof.maskedCommand[msg.skippedCommandPrefix..];
    if command == SIGN_HASH + [SPACE] + Dec(h) {
      assert command[0..] == command;
      SuffixesAgree(command, 0, 0, SignedHash(msg).value, h);
    }
  }

  /**
   * A message of the account's own for this hash: template and salt are the signer's, registry and verifier vouch for
   * key and proof, the first parameter encodes the hash, and the command past the skipped prefix spells it.
   */
  predicate Signs(salt: word, registry: address, verifier: address, id: word, hash: word, msg: EmailAuthMsg,
                  world: World)
  {
    var p, skipped, limit := msg.proof, msg.skippedCommandPrefix, world.commandBytes(verifier);
    && msg.templateId == id && p.accountSalt == salt
    && world.keyValid(registry, p.domainName, p.publicKeyHash) == Ok(true)
    && world.proofValid(verifier, p) == Ok(true)
    && limit.Ok? && |p.maskedCommand| <= limit.value && skipped < limit.value
    && skipped <= |p.maskedCommand| && p.maskedCommand[skipped..] == Ascii("signHash ") + Dec(hash)
    && msg.commandParams != [] && |msg.commandParams[0]| >= 32 && BigEndian(msg.commandParams[0][..32]) == hash
  }

  lemma SignHashText(h: word)
    ensures SIGN_HASH + [SPACE] + Dec(h) == Ascii("signHash ") + Dec(h)
  {
    assert SIGN_HASH + [SPACE] == Ascii("signHash ");
  }

  lemma FirstParam(msg: EmailAuthMsg, h: word)
    ensures SignedHash(msg) == Ok(h) <==>
      msg.commandParams != [] && |msg.commandParams[0]| >= 32 && BigEndian(msg.commandParams[0][..32]) == h
  {
    if msg.commandParams != [] && |msg.commandParams[0]| >= 32 {
      assert msg.commandParams[0][0..32] == msg.commandParams[0][..32];
    }
  }

  lemma SignsIff(s: Signer, hash: word, msg: EmailAuthMsg, world: World)
    requires s.dkim != 0 && s.verifier != 0
    ensures Signs(s.accountSalt, s.dkim, s.verifier, s.templateId, hash, msg, world) <==>
      Verifies(s, msg, world) && SignedHash(msg) == Ok(hash)
  {
    FirstParam(msg, hash);
    SignHashText(hash);
    if msg.skippedCommandPrefix <= |msg.proof.maskedCommand| {
      RendersHash(msg.commandParams, msg.proof.maskedCommand[msg.skippedCommandPrefix..], world.keccak);
    }
  }

  predicate SignsFor(salt: word, registry: address, verifier: address, id: word, hash: word, signature: bytes,
                     world: World, decode: bytes -> Outcome<EmailAuthMsg>)
  {
    var msg := decode(signature);
    msg.Ok? && Signs(salt, registry, verifier, id, hash, msg.value, world)
  }

  /**
   * What an initialized signer answers: the magic value exactly for a signature that decodes to a message of its own
   * account for the hash, 0 exactly for one that is for another hash, and a revert in every other case.
   */
  lemma AnswerExactly(salt: word, registry: address, verifier: address, id: word, hash: word, signature: bytes,
                      world: World, decode: bytes -> Outcome<EmailAuthMsg>)
    requires registry != 0 && verifier != 0
    ensures var answer := Answer(Signer(true, salt, registry, verifier, id), hash, signature, world, decode);
      && (answer == Ok(0x1626ba7e) <==> SignsFor(salt, registry, verifier, id, hash, signature, world, decode))
      && (answer == Ok(0) <==> exists g: word ::
            g != hash && SignsFor(salt, registry, verifier, id, g, signature, world, decode))
      && (answer.Ok? ==> answer.value in {0x1626ba7e, 0})
  {
    if decode(signature).Ok? {
      var s, msg := Signer(true, salt, registry, verifier, id), decode(signature).value;
      forall g: word
        ensures SignsFor(salt, registry, verifier, id, g, signature, world, decode) <==>
          Verifies(s, msg, world) && SignedHash(msg) == Ok(g)
      {
        SignsIff(s, g, msg, world);
      }
      if Verifies(s, msg, world) { VerifiesSignsHash(s, msg, world); }
    }
  }

  lemma AnswerIgnoresFlag(s: Signer, hash: word, signature: bytes, world: World,
                          decode: bytes -> Outcome<EmailAuthMsg>)
    ensures Answer(s.(initialized := true), hash, signature, world, decode) == Answer(s, hash, signature, world, decode)
  {
  }

  class EmailSigner {
    var initialized: bool
    var accountSalt: word
    var dkimRegistryAddr: address
    var verifierAddr: address
    var templateId: word

    ghost function Storage(): Signer
      reads this
    {
      Signer(initialized, accountSalt, dkimRegistryAddr, verifierAddr, templateId)
    }

    /** The storage of a fresh clone. */
    constructor ()
      ensures Storage() == Signer(false, 0, 0, 0, 0)
    {
      initialized, accountSalt, dkimRegistryAddr, verifierAddr, templateId := false, 0, 0, 0, 0;
    }

    method Initialize(salt: word, dkimRegistry: address, verifier: address, template: word) returns (ok: bool)
      modifies this
      ensures ok <==> !old(initialized) && salt != 0 && template != 0 && dkimRegistry != 0 && verifier != 0
      ensures Storage() == if ok then Signer(true, salt, dkimRegistry, verifier, template) else old(Storage())
    {
      if initialized { return false; }
      if salt == 0 { return false; }
      if template == 0 { return false; }
      if dkimRegistry == 0 { return false; }
      if verifier == 0 { return false; }
      initialized := true;
      accountSalt := salt;
      templateId := template;
      dkimRegistryAddr := dkimRegistry;
      verifierAddr := verifier;
      ok := true;
    }

    /** False stands for a revert. */
    method VerifyEmail(emailAuthMsg: EmailAuthMsg, world: World) returns (ok: bool)
      ensures ok <==> Verifies(Storage(), emailAuthMsg, world)
    {
      if templateId != emailAuthMsg.templateId { return false; }
      var signHashTemplate := SIGN_HASH_TEMPLATE;
      if dkimRegistryAddr == 0 { return false; }
      var keyValid := world.keyValid(dkimRegistryAddr, emailAuthMsg.proof.domainName, emailAuthMsg.proof.publicKeyHash);
      if keyValid != Ok(true) { return false; }
      if accountSalt != emailAuthMsg.proof.accountSalt { return false; }
      if verifierAddr == 0 { return false; }
      var commandBytes := world.commandBytes(verifierAddr);
      if commandBytes.Revert? { return false; }
      if |emailAuthMsg.proof.maskedCommand| > commandBytes.value { return false; }
      if emailAuthMsg.skippedCommandPrefix >= commandBytes.value { return false; }
      var trimmedMaskedCommand := RemovePrefix(emailAuthMsg.proof.maskedCommand, emailAuthMsg.skippedCommandPrefix);
      if trimmedMaskedCommand.Revert? { return false; }
      var valid := CheckCommand(emailAuthMsg.commandParams, signHashTemplate, trimmedMaskedCommand.value, world.keccak);
      if !valid { return false; }
      var proofValid := world.proofValid(verifierAddr, emailAuthMsg.proof);
      ok := proofValid == Ok(true);
    }

    method IsValidSignature(hash: word, signature: bytes, world: World, decode: bytes -> Outcome<EmailAuthMsg>)
      returns (r: Outcome<nat>)
      ensures r == Answer(Storage(), hash, signature, world, decode)
      ensures dkimRegistryAddr != 0 && verifierAddr != 0 ==>
        (r == Ok(0x1626ba7e) <==>
         SignsFor(accountSalt, dkimRegistryAddr, verifierAddr, templateId, hash, signature, world, decode))
    {
      if dkimRegistryAddr != 0 && verifierAddr != 0 {
        AnswerExactly(accountSalt, dkimRegistryAddr, verifierAddr, templateId, hash, signature, world, decode);
        AnswerIgnoresFlag(Storage(), hash, signature, world, decode);
      }
      var emailAuthMsg := decode(signature);
      if emailAuthMsg.Revert? { return Revert; }
      var ok := VerifyEmail(emailAuthMsg.value, world);
      if !ok { return Revert; }
      VerifiesSignsHash(Storage(), emailAuthMsg.value, world);
      var signedHash := DecodeUint(emailAuthMsg.value.commandParams[0]);
      if signedHash.Revert? { return Revert; }
      r := Ok(if signedHash.value == hash then MAGIC_VALUE else 0);
    }

    /** The overload over data. */
    method IsValidSignatureOfData(data: bytes, signature: bytes, world: World, decode: bytes -> Outcome<EmailAuthMsg>)
      returns (r: Outcome<nat>)
      ensures r == match Answer(Storage(), world.keccak(data), signature, world, decode)
                   case Revert => Revert
                   case Ok(v) => Ok(if v == MAGIC_VALUE then LEGACY_MAGIC_VALUE else 0)
      ensures dkimRegistryAddr != 0 && verifierAddr != 0 ==>
        (r == Ok(0x20c13b0b) <==>
         SignsFor(accountSalt, dkimRegistryAddr, verifierAddr, templateId, world.keccak(data), signature, world,
                  decode))
    {
      var v := IsValidSignature(world.keccak(data), signature, world, decode);
      if v.Revert? { return Revert; }
      r := Ok(if v.value == MAGIC_VALUE then LEGACY_MAGIC_VALUE else 0);
    }
  }
}
