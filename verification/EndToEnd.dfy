/** One command through the relayer, the circuit, the public signals and the contract. */
module EndToEnd {
  import opened Bytes
  import opened Words
  import opened Command
  import opened Binding
  import opened RelayerTemplate
  import opened Packing
  import opened Verifier
  import opened Masking
  import opened MailBody
  import opened EmailAuth
  import opened Scanner
  import opened CommandRegex

  /** The relayer's text for the contract's renderings. */
  ghost function RelayerText(params: seq<bytes>, t: Template, c: nat, keccak: bytes -> word): bytes
    requires Expected(params, t, c, keccak).Ok?
  {
    Substitutions(Join(t, SPACE), Renderings(params, t, |t|, c, keccak))
  }

  /** The masked values that the circuit packs for a body that carries a text with or without a code. */
  ghost function CircuitValues(m: Mail, text: bytes, code: Option<bytes>, w: Witness): seq<int>
    requires |w.email| == COMMAND_BYTES
  {
    MaskedValues(CommandAll(m.Body(Mailed(text, code)), m.Start()), w.emailOut, w.email)
  }

  /** The circuit's constraints on the command and on the code of such a body. */
  ghost predicate CircuitAccepts(m: Mail, text: bytes, code: Option<bytes>, w: Witness, q: nat)
    requires w.InField(q)
  {
    var body := m.Body(Mailed(text, code));
    && CommandConstraints(body, m.Start())
    && CodeChecked(body, CodeBit(CommandAll(body, m.Start())), w.codeIdx, w.accountCode, q)
  }

  /** The relayer's mail: a nonempty text that fits, in a body that carries it, with the code's index, if it has one. */
  ghost predicate Sent(m: Mail, text: bytes, code: Option<bytes>, w: Witness) {
    && ReadableCode(code) && Mailed(text, code) != [] && |Mailed(text, code)| <= COMMAND_BYTES
    && m.Carries(Mailed(text, code)) && (code.Some? ==> w.codeIdx == CodeIndex(m, text))
    && AddressReveal(CommandAll(m.Body(Mailed(text, code)), m.Start()), w.email)
  }

  /** The proof's own command slots, the relayer's reading of them, and the contract's check, for one message. */
  ghost predicate Arrives(msg: EmailAuthMsg, t: Template, values: seq<int>, keccak: bytes -> word) {
    && AllBytes(values) && Pack(AsBytes(values), COMMAND_BYTES) == Signals(msg.proof)[12..32]
    && GetMaskedCommand(Signals(msg.proof), 12) == Some(msg.proof.maskedCommand)
    && CommandAccepted(msg, t, COMMAND_BYTES, keccak)
  }

  lemma RelayerTextIs(params: seq<bytes>, t: Template, c: nat, keccak: bytes -> word)
    requires PlainTemplate(t) && StringsLast(t) && Expected(params, t, c, keccak).Ok?
    ensures RelayerText(params, t, c, keccak) == Expected(params, t, c, keccak).value
  {
    EarlyFree(params, t, c, keccak);
    Agreement(params, t, c, keccak);
  }

  lemma SkipsNothing(msg: EmailAuthMsg, t: Template, c: nat, keccak: bytes -> word)
    requires c < 3 && msg.skippedCommandPrefix == 0 && |msg.proof.maskedCommand| <= COMMAND_BYTES
    requires Expected(msg.commandParams, t, c, keccak) == Ok(msg.proof.maskedCommand)
    ensures CommandAccepted(msg, t, COMMAND_BYTES, keccak)
  {
    assert msg.proof.maskedCommand[0..] == msg.proof.maskedCommand;
    assert RendersTo(msg.commandParams, t, msg.proof.maskedCommand, keccak);
  }

  lemma ArrivesIff(msg: EmailAuthMsg, t: Template, values: seq<int>, keccak: bytes -> word)
    requires CommandAccepted(msg, t, COMMAND_BYTES, keccak)
    ensures Arrives(msg, t, values, keccak) <==> Delivered(msg.proof.maskedCommand, values)
  {
    CommandSlotsOf(msg.proof);
    SignalSlots(msg.proof);
    ReadsBack(msg.proof.maskedCommand);
    MaskedCommandIff(msg.proof);
  }

  /**
   * The relayer fills the template, appends the account code if there is one, and mails the text; the circuit finds
   * text and code in the body, checks the code, masks it and packs the rest. The circuit accepts, and the proof for
   * the contract's own rendering has exactly its slots, is read back by the relayer and passes the contract's check,
   * precisely when the text is shown text without a seen code, no address is revealed, the mail's bytes are below the
   * sentinel, the text begins among the first 605 bytes, and an appended code is seen and spells the account code.
   */
  lemma CommandGoesThrough(m: Mail, params: seq<bytes>, t: Template, c: nat, keccak: bytes -> word,
                           code: Option<bytes>, w: Witness, q: nat, msg: EmailAuthMsg)
    requires c < 3 && PlainTemplate(t) && StringsLast(t) && Expected(params, t, c, keccak).Ok?
    requires w.InField(q) && Sent(m, RelayerText(params, t, c, keccak), code, w)
    requires msg.commandParams == params && msg.skippedCommandPrefix == 0
    requires msg.proof.maskedCommand == Expected(params, t, c, keccak).value
    ensures var text := RelayerText(params, t, c, keccak);
      CircuitAccepts(m, text, code, w, q) && Arrives(msg, t, CircuitValues(m, text, code, w), keccak) <==>
      && Shown(text) && NoAddress(w.emailOut, w.email)
      && CodeFits(text, code, w, q, m.Body(Mailed(text, code)))
      && Message(m.Body(Mailed(text, code))) && m.Start() < 605
  {
    var text := RelayerText(params, t, c, keccak);
    RelayerTextIs(params, t, c, keccak);
    SkipsNothing(msg, t, c, keccak);
    ArrivesIff(msg, t, CircuitValues(m, text, code, w), keccak);
    MailDelivers(m, text, code, w, q);
  }

  /** Two accepted emails with one masked command, template and prefix carry the same parameters. */
  lemma AcceptedBinding(s: State, m: EmailAuthMsg, world: World, r: State, n: EmailAuthMsg, other: World)
    requires Accepted(s, m, world) && Accepted(r, n, other) && world.keccak == other.keccak
    requires TemplateAt(s.commandTemplates, m.templateId) == TemplateAt(r.commandTemplates, n.templateId)
    requires m.proof.maskedCommand == n.proof.maskedCommand && m.skippedCommandPrefix == n.skippedCommandPrefix
    requires var t := TemplateAt(s.commandTemplates, m.templateId);
      StringCount(t) <= 1 || (SpaceFree(m.commandParams, t) && SpaceFree(n.commandParams, t))
    ensures SameParams(m.commandParams, n.commandParams, TemplateAt(s.commandTemplates, m.templateId))
  {
    var t, k := TemplateAt(s.commandTemplates, m.templateId), world.keccak;
    var command := m.proof.maskedCommand[m.skippedCommandPrefix..];
    var c: nat :| c < 3 && Expected(m.commandParams, t, c, k) == Ok(command);
    var d: nat :| d < 3 && Expected(n.commandParams, t, d, k) == Ok(command);
    if StringCount(t) <= 1 {
      BindingOneString(m.commandParams, n.commandParams, t, c, d, k);
    } else {
      BindingSpaceFree(m.commandParams, n.commandParams, t, c, d, k);
    }
  }

  lemma WordInside(ws: seq<bytes>, i: nat, j: nat)
    requires i < |ws| && j < |ws[i]|
    ensures ws[i][j] in Join(ws, SPACE)
  {
    JoinAround(ws[..i], ws[i], ws[i+1..]);
    assert ws == ws[..i] + [ws[i]] + ws[i+1..];
    assert Join(ws, SPACE)[|Before(ws[..i], SPACE)|+j] == ws[i][j];
  }

  lemma ZeroDecimalsWord(keccak: bytes -> word, c: nat)
    ensures var w := RenderedParam(Decimals(0), c, keccak); w.Ok? && |w.value| > 1 && w.value[1] == 0
  {
  }

  /** A zero amount of decimals is rendered with a zero byte, so the relayer cannot read such a command back. */
  lemma ZeroDecimalsUnreadable(params: seq<bytes>, t: Template, i: nat, c: nat, keccak: bytes -> word, p: EmailProof)
    requires Expected(params, t, c, keccak).Ok? && p.maskedCommand == Expected(params, t, c, keccak).value
    requires i < |t| && MatcherOf(t[i]) == Some(DecimalsM)
    requires MatcherCount(t[..i]) < |params| && Decoded(DecimalsM, params[MatcherCount(t[..i])]) == Ok(Decimals(0))
    ensures 0 in p.maskedCommand && GetMaskedCommand(Signals(p), 12) != Some(p.maskedCommand)
  {
    var ws := WordsOf(params, t, |t|, c, keccak).value;
    WordsOfAt(params, t, |t|, c, keccak, i);
    ZeroDecimalsWord(keccak, c);
    WordInside(ws, i, 1);
    MaskedCommandIff(p);
  }
}
