/**
 * EmailAuth told by its history alone: the emitted events, the first initialization, the stored templates and the
 * checked timestamps decide which call goes through next and what it emits.
 */
module AuthHistory {
  import opened Bytes
  import opened Hex
  import opened Command
  import opened Verifier
  import opened EmailAuth

  // ----- the first initialization -----

  /** The first call that names a nonzero owner initializes the contract; no later one does. */
  function FirstInitialize(txs: seq<Transaction>): (r: Option<Call>)
    ensures r.Some? ==> r.value.Initialize?
  {
    if txs == [] then None
    else
      var before, call := FirstInitialize(txs[..|txs|-1]), txs[|txs|-1].call;
      if before.Some? then before
      else if call.Initialize? && call.initialOwner != 0 then Some(call) else None
  }

  function ControllerOf(txs: seq<Transaction>): address {
    match FirstInitialize(txs) case Some(call) => call.controller case None => 0
  }

  function SaltOf(txs: seq<Transaction>): word {
    match FirstInitialize(txs) case Some(call) => call.accountSalt case None => 0
  }

  /** Account and controller are those of the first initialization, whatever is called later. */
  lemma {:induction false} InitializedOnce(txs: seq<Transaction>)
    ensures var s := Run(DEPLOYED, txs);
      && (s.initialized <==> FirstInitialize(txs).Some?)
      && s.controller == ControllerOf(txs) && s.accountSalt == SaltOf(txs)
    decreases |txs|
  {
    if txs != [] { InitializedOnce(txs[..|txs|-1]); }
  }

  // ----- what an email needs -----

  /** The last nonzero timestamp of a call that emitted while the log said that timestamps are checked. */
  ghost function LastChecked(txs: seq<Transaction>): word {
    if txs == [] then 0
    else
      var before, last := txs[..|txs|-1], txs[|txs|-1];
      var es := Run(DEPLOYED, before).events;
      if last.call.AuthEmail? && |Run(DEPLOYED, txs).events| > |es| && LoggedCheck(es)
         && last.call.msg.proof.timestamp != 0
      then last.call.msg.proof.timestamp else LastChecked(before)
  }

  /** What a call emits at a storage. */
  ghost function StepEvents(s: State, tx: Transaction): seq<Event> {
    if Allowed(s, tx.sender, tx.call) then Emitted(s, tx.call) else []
  }

  lemma StepAppends(s: State, tx: Transaction)
    ensures Step(s, tx.sender, tx.call).events == s.events + StepEvents(s, tx)
  {
    if !Allowed(s, tx.sender, tx.call) { assert s.events + [] == s.events; }
  }

  lemma {:induction false} LastCheckedIs(txs: seq<Transaction>)
    ensures Run(DEPLOYED, txs).lastTimestamp == LastChecked(txs)
    decreases |txs|
  {
    if txs != [] {
      var before, last := txs[..|txs|-1], txs[|txs|-1];
      LastCheckedIs(before);
      LogTellsStorage(before);
      StepAppends(Run(DEPLOYED, before), last);
      LastTimestampStep(Run(DEPLOYED, before), last);
    }
  }

  /** A rendering of the template that was last stored under the message's id. */
  ghost predicate SpellsStored(txs: seq<Transaction>, msg: EmailAuthMsg, command: bytes, keccak: bytes -> word) {
    exists t, k: nat, c: nat ::
      StoredLast(txs, k, msg.templateId, t) && c < 3 && Expected(msg.commandParams, t, c, keccak) == Ok(command)
  }

  /** The command fits the verifier's bounds, and behind the skipped prefix it is such a rendering. */
  ghost predicate SpellsCommand(txs: seq<Transaction>, msg: EmailAuthMsg, world: World) {
    var limit := world.commandBytes(LoggedVerifier(Run(DEPLOYED, txs).events));
    && limit.Ok? && |msg.proof.maskedCommand| <= limit.value && msg.skippedCommandPrefix < limit.value
    && msg.skippedCommandPrefix <= |msg.proof.maskedCommand|
    && SpellsStored(txs, msg, msg.proof.maskedCommand[msg.skippedCommandPrefix..], world.keccak)
  }

  /**
   * After a history of transactions, an email of the contract's account: sent by the controller with a fresh nullifier
   * and a later timestamp, its key vouched for by the registry and its proof by the verifier that the log last
   * announced.
   */
  ghost predicate Genuine(txs: seq<Transaction>, sender: address, msg: EmailAuthMsg, world: World) {
    var es, p := Run(DEPLOYED, txs).events, msg.proof;
    && sender == ControllerOf(txs) && p.accountSalt == SaltOf(txs) && !LoggedNullifier(es, p.emailNullifier)
    && LoggedRegistry(es) != 0 && world.keyValid(LoggedRegistry(es), p.domainName, p.publicKeyHash) == Ok(true)
    && LoggedVerifier(es) != 0 && world.proofValid(LoggedVerifier(es), p) == Ok(true)
    && (LoggedCheck(es) && p.timestamp != 0 ==> p.timestamp > LastChecked(txs))
    && SpellsCommand(txs, msg, world)
  }

  lemma SpellsIff(txs: seq<Transaction>, msg: EmailAuthMsg, command: bytes, keccak: bytes -> word)
    ensures SpellsStored(txs, msg, command, keccak) <==>
      var t := TemplateAt(Run(DEPLOYED, txs).commandTemplates, msg.templateId);
      t != [] && RendersTo(msg.commandParams, t, command, keccak)
  {
    var held := TemplateAt(Run(DEPLOYED, txs).commandTemplates, msg.templateId);
    if SpellsStored(txs, msg, command, keccak) {
      var t, k: nat, c: nat :|
        StoredLast(txs, k, msg.templateId, t) && c < 3 && Expected(msg.commandParams, t, c, keccak) == Ok(command);
      StoredIsHeld(txs, msg.templateId, k, t);
    }
    if held != [] && RendersTo(msg.commandParams, held, command, keccak) {
      var k := HeldWasStored(txs, msg.templateId);
      var c: nat :| c < 3 && Expected(msg.commandParams, held, c, keccak) == Ok(command);
      assert StoredLast(txs, k, msg.templateId, held);
    }
  }

  /** The storage, read off the history. */
  lemma HistoryTells(txs: seq<Transaction>)
    ensures var s, es := Run(DEPLOYED, txs), Run(DEPLOYED, txs).events;
      && s.owner == LoggedOwner(es) && s.dkim == LoggedRegistry(es) && s.verifier == LoggedVerifier(es)
      && s.timestampCheckEnabled == LoggedCheck(es) && s.lastTimestamp == LastChecked(txs)
      && s.controller == ControllerOf(txs) && s.accountSalt == SaltOf(txs)
      && (s.initialized <==> FirstInitialize(txs).Some?)
  {
    LogTellsStorage(txs);
    InitializedOnce(txs);
    LastCheckedIs(txs);
  }

  lemma NullifierTold(txs: seq<Transaction>, n: word)
    ensures n in Run(DEPLOYED, txs).usedNullifiers <==> LoggedNullifier(Run(DEPLOYED, txs).events, n)
  {
    LogTellsStorage(txs);
  }

  /** The part of the requirements about the command, at a storage. */
  ghost predicate CommandPasses(s: State, msg: EmailAuthMsg, world: World) {
    var t := TemplateAt(s.commandTemplates, msg.templateId);
    && t != [] && world.commandBytes(s.verifier).Ok?
    && CommandAccepted(msg, t, world.commandBytes(s.verifier).value, world.keccak)
  }

  /** The other requirements, at a storage. */
  predicate OthersPass(s: State, sender: address, msg: EmailAuthMsg, world: World) {
    var p := msg.proof;
    && sender == s.controller && p.accountSalt == s.accountSalt && p.emailNullifier !in s.usedNullifiers
    && s.dkim != 0 && world.keyValid(s.dkim, p.domainName, p.publicKeyHash) == Ok(true)
    && s.verifier != 0 && world.proofValid(s.verifier, p) == Ok(true)
    && (s.timestampCheckEnabled && p.timestamp != 0 ==> p.timestamp > s.lastTimestamp)
  }

  lemma AllowedParts(s: State, sender: address, msg: EmailAuthMsg, world: World)
    ensures Allowed(s, sender, Call.AuthEmail(msg, world)) <==>
      OthersPass(s, sender, msg, world) && CommandPasses(s, msg, world)
  {
  }

  lemma GenuineParts(txs: seq<Transaction>, sender: address, msg: EmailAuthMsg, world: World)
    ensures Genuine(txs, sender, msg, world) <==>
      OthersPass(Run(DEPLOYED, txs), sender, msg, world) && SpellsCommand(txs, msg, world)
  {
    HistoryTells(txs);
    NullifierTold(txs, msg.proof.emailNullifier);
  }

  lemma SpellsCommandIff(txs: seq<Transaction>, msg: EmailAuthMsg, world: World)
    ensures SpellsCommand(txs, msg, world) <==> CommandPasses(Run(DEPLOYED, txs), msg, world)
  {
    HistoryTells(txs);
    if msg.skippedCommandPrefix <= |msg.proof.maskedCommand| {
      SpellsIff(txs, msg, msg.proof.maskedCommand[msg.skippedCommandPrefix..], world.keccak);
    }
  }

  lemma GenuineIff(txs: seq<Transaction>, sender: address, msg: EmailAuthMsg, world: World)
    ensures Genuine(txs, sender, msg, world) <==> Allowed(Run(DEPLOYED, txs), sender, Call.AuthEmail(msg, world))
  {
    GenuineParts(txs, sender, msg, world);
    SpellsCommandIff(txs, msg, world);
    AllowedParts(Run(DEPLOYED, txs), sender, msg, world);
  }

  // ----- what each call emits -----

  /** What the next transaction emits, decided by the history. */
  ghost function NextEvents(txs: seq<Transaction>, tx: Transaction): seq<Event> {
    var es := Run(DEPLOYED, txs).events;
    var owner, byOwner, byController := LoggedOwner(es), tx.sender == LoggedOwner(es), tx.sender == ControllerOf(txs);
    match tx.call
    case Initialize(a, _, _) =>
      if FirstInitialize(txs) == None && a != 0 then [OwnershipTransferred(owner, a), Initialized] else []
    case TransferOwnership(a) => if byOwner && a != 0 then [OwnershipTransferred(owner, a)] else []
    case RenounceOwnership => if byOwner then [OwnershipTransferred(owner, 0)] else []
    case InitDKIMRegistry(a) =>
      if byController && a != 0 && LoggedRegistry(es) == 0 then [DKIMRegistryUpdated(a)] else []
    case InitVerifier(a) => if byController && a != 0 && LoggedVerifier(es) == 0 then [VerifierUpdated(a)] else []
    case UpdateDKIMRegistry(a) => if byOwner && a != 0 then [DKIMRegistryUpdated(a)] else []
    case UpdateVerifier(a) => if byOwner && a != 0 then [VerifierUpdated(a)] else []
    case InsertCommandTemplate(id, t) =>
      if byController && t != [] && !LoggedTemplate(es, id) then [CommandTemplateInserted(id)] else []
    case UpdateCommandTemplate(id, t) =>
      if byController && t != [] && LoggedTemplate(es, id) then [CommandTemplateUpdated(id)] else []
    case DeleteCommandTemplate(id) =>
      if byController && LoggedTemplate(es, id) then [CommandTemplateDeleted(id)] else []
    case SetTimestampCheckEnabled(enabled) => if byController then [TimestampCheckEnabled(enabled)] else []
    case AuthEmail(msg, world) =>
      if Genuine(txs, tx.sender, msg, world)
      then [EmailAuthed(msg.proof.emailNullifier, msg.proof.accountSalt, msg.proof.isCodeExist, msg.templateId)]
      else []
  }

  lemma TemplateHeldIff(txs: seq<Transaction>, id: word)
    ensures TemplateAt(Run(DEPLOYED, txs).commandTemplates, id) != [] <==>
      LoggedTemplate(Run(DEPLOYED, txs).events, id)
  {
    LogTellsStorage(txs);
    TemplatesNonempty(txs);
  }

  lemma TemplateCallEvents(txs: seq<Transaction>, tx: Transaction, id: word)
    requires About(tx.call, id)
    ensures StepEvents(Run(DEPLOYED, txs), tx) == NextEvents(txs, tx)
  {
    HistoryTells(txs);
    TemplateHeldIff(txs, id);
  }

  lemma OtherCallEvents(txs: seq<Transaction>, tx: Transaction)
    requires !tx.call.AuthEmail? && forall id: word :: !About(tx.call, id)
    ensures StepEvents(Run(DEPLOYED, txs), tx) == NextEvents(txs, tx)
  {
    HistoryTells(txs);
    match tx.call {
      case InsertCommandTemplate(id, _) => assert About(tx.call, id);
      case UpdateCommandTemplate(id, _) => assert About(tx.call, id);
      case DeleteCommandTemplate(id) => assert About(tx.call, id);
      case _ =>
    }
  }

  /**
   * After any history, the next call goes through and emits exactly as the history decides: an observer of events,
   * first initialization, stored templates and checked timestamps predicts every answer of the contract.
   */
  lemma HistoryDecides(txs: seq<Transaction>, tx: Transaction)
    ensures Run(DEPLOYED, txs + [tx]).events == Run(DEPLOYED, txs).events + NextEvents(txs, tx)
  {
    assert (txs + [tx])[..|txs|] == txs;
    StepAppends(Run(DEPLOYED, txs), tx);
    match tx.call {
      case AuthEmail(msg, world) => GenuineIff(txs, tx.sender, msg, world);
      case InsertCommandTemplate(id, _) => TemplateCallEvents(txs, tx, id);
      case UpdateCommandTemplate(id, _) => TemplateCallEvents(txs, tx, id);
      case DeleteCommandTemplate(id) => TemplateCallEvents(txs, tx, id);
      case _ => OtherCallEvents(txs, tx);
    }
  }

  // ----- every acceptance in the log -----

  /** Transaction k emitted event i for a genuine email. */
  ghost predicate AcceptedBy(txs: seq<Transaction>, k: nat, e: Event, es: seq<Event>) {
    && k < |txs| && txs[k].call.AuthEmail? && Run(DEPLOYED, txs[..k]).events == es
    && Genuine(txs[..k], txs[k].sender, txs[k].call.msg, txs[k].call.world)
    && e == EmailAuthed(txs[k].call.msg.proof.emailNullifier, txs[k].call.msg.proof.accountSalt,
                        txs[k].call.msg.proof.isCodeExist, txs[k].call.msg.templateId)
  }

  lemma AcceptedByGrows(txs: seq<Transaction>, tx: Transaction, k: nat, e: Event, es: seq<Event>)
    requires AcceptedBy(txs, k, e, es)
    ensures AcceptedBy(txs + [tx], k, e, es)
  {
    assert (txs + [tx])[..k] == txs[..k];
  }

  lemma OnlyEmailsAuthenticate(txs: seq<Transaction>, tx: Transaction, j: nat)
    requires j < |NextEvents(txs, tx)| && NextEvents(txs, tx)[j].EmailAuthed?
    ensures j == 0 && tx.call.AuthEmail? && Genuine(txs, tx.sender, tx.call.msg, tx.call.world)
    ensures var p := tx.call.msg.proof;
      NextEvents(txs, tx)[j] == EmailAuthed(p.emailNullifier, p.accountSalt, p.isCodeExist, tx.call.msg.templateId)
  {
  }

  lemma Appended(es: seq<Event>, more: seq<Event>, i: nat)
    requires |es| <= i < |es + more|
    ensures (es + more)[i] == more[i-|es|] && (i == |es| ==> (es + more)[..i] == es)
  {
  }

  /** Log before and after the last transaction. */
  lemma LastStep(txs: seq<Transaction>, before: seq<Transaction>, last: Transaction)
    requires txs == before + [last]
    ensures Run(DEPLOYED, txs).events == Run(DEPLOYED, before).events + NextEvents(before, last)
  {
    HistoryDecides(before, last);
  }

  lemma NewEvent(es: seq<Event>, before: seq<Transaction>, last: Transaction, all: seq<Event>, i: nat)
    requires all == es + NextEvents(before, last) && |es| <= i < |all| && all[i].EmailAuthed?
    ensures es == all[..i]
    ensures last.call.AuthEmail? && Genuine(before, last.sender, last.call.msg, last.call.world)
    ensures var p := last.call.msg.proof;
      all[i] == EmailAuthed(p.emailNullifier, p.accountSalt, p.isCodeExist, last.call.msg.templateId)
  {
    Appended(es, NextEvents(before, last), i);
    OnlyEmailsAuthenticate(before, last, i - |es|);
  }

  lemma LastAccepts(txs: seq<Transaction>, k: nat, e: Event)
    requires |txs| == k + 1 && txs[k].call.AuthEmail?
    requires Genuine(txs[..k], txs[k].sender, txs[k].call.msg, txs[k].call.world)
    requires var p := txs[k].call.msg.proof;
      e == EmailAuthed(p.emailNullifier, p.accountSalt, p.isCodeExist, txs[k].call.msg.templateId)
    ensures AcceptedBy(txs, k, e, Run(DEPLOYED, txs[..k]).events)
  {
  }

  lemma OldEvent(es: seq<Event>, more: seq<Event>, all: seq<Event>, i: nat)
    requires all == es + more && i < |es|
    ensures all[i] == es[i] && all[..i] == es[..i]
  {
  }

  /** The transaction that emitted an acceptance. */
  lemma {:induction false} AcceptedAt(txs: seq<Transaction>, all: seq<Event>, i: nat) returns (k: nat)
    requires all == Run(DEPLOYED, txs).events && i < |all| && all[i].EmailAuthed?
    ensures AcceptedBy(txs, k, all[i], all[..i])
    decreases |txs|
  {
    var before, last := txs[..|txs|-1], txs[|txs|-1];
    var es := Run(DEPLOYED, before).events;
    assert txs == before + [last];
    LastStep(txs, before, last);
    if i < |es| {
      OldEvent(es, NextEvents(before, last), all, i);
      k := AcceptedAt(before, es, i);
      AcceptedByGrows(before, last, k, es[i], es[..i]);
    } else {
      k := |before|;
      NewEvent(es, before, last, all, i);
      LastAccepts(txs, k, all[i]);
    }
  }

  /**
   * Every acceptance in the log of any run comes from a call by the controller, for a genuine email with this
   * nullifier, salt, code flag and template: key and proof were vouched for by the registry and the verifier last
   * announced before it, and its command is a rendering of the template then stored under its id.
   */
  lemma AcceptedAreGenuine(txs: seq<Transaction>, i: nat)
    requires i < |Run(DEPLOYED, txs).events| && Run(DEPLOYED, txs).events[i].EmailAuthed?
    ensures var es := Run(DEPLOYED, txs).events; exists k: nat :: AcceptedBy(txs, k, es[i], es[..i])
  {
    var k := AcceptedAt(txs, Run(DEPLOYED, txs).events, i);
  }
}
