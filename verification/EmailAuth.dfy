/** EmailAuth: the contract's storage, its calls, and what holds over every run of them. */
module EmailAuth {
  import opened Bytes
  import opened Hex
  import opened Command
  import opened Verifier

  datatype EmailAuthMsg = EmailAuthMsg(
    templateId: word, commandParams: seq<bytes>, skippedCommandPrefix: word, proof: EmailProof)

  /** What the contracts at other addresses answer during one call, and the hash they share. */
  datatype World = World(
    keyValid: (address, bytes, word) -> Outcome<bool>,
    commandBytes: address -> Outcome<nat>,
    proofValid: (address, EmailProof) -> Outcome<bool>,
    keccak: bytes -> word)

  // ----- the command check shared by EmailAuth and EmailSigner -----

  ghost predicate RendersTo(params: seq<bytes>, t: Template, command: bytes, keccak: bytes -> word) {
    exists c: nat :: c < 3 && Expected(params, t, c, keccak) == Ok(command)
  }

  lemma {:induction false} WordsOkInAnyCase(params: seq<bytes>, t: Template, n: nat, c: nat, d: nat,
                                            keccak: bytes -> word)
    requires n <= |t| && c < 3 && d < 3 && WordsOf(params, t, n, c, keccak).Ok?
    ensures WordsOf(params, t, n, d, keccak).Ok?
    decreases n
  {
    if n > 0 { WordsOkInAnyCase(params, t, n - 1, c, d, keccak); }
  }

  /** Whether a command can be rendered at all does not depend on the letter case. */
  lemma OkInAnyCase(params: seq<bytes>, t: Template, c: nat, d: nat, keccak: bytes -> word)
    requires c < 3 && d < 3
    ensures Expected(params, t, c, keccak).Ok? <==> Expected(params, t, d, keccak).Ok?
  {
    if |t| <= 255 {
      if WordsOf(params, t, |t|, c, keccak).Ok? { WordsOkInAnyCase(params, t, |t|, c, d, keccak); }
      if WordsOf(params, t, |t|, d, keccak).Ok? { WordsOkInAnyCase(params, t, |t|, d, c, keccak); }
    }
  }

  /** The loop over the three letter cases; false stands for a revert. */
  method CheckCommand(params: seq<bytes>, template: Template, trimmedMaskedCommand: bytes, keccak: bytes -> word)
    returns (valid: bool)
    ensures valid <==> RendersTo(params, template, trimmedMaskedCommand, keccak)
  {
    var stringCase := 0;
    while stringCase < 3
      invariant stringCase <= 3
      invariant forall c: nat :: c < stringCase ==> Expected(params, template, c, keccak) != Ok(trimmedMaskedCommand)
    {
      var expectedCommand := ComputeExpectedCommand(params, template, stringCase, keccak);
      if expectedCommand.Revert? {
        forall c: nat | c < 3 ensures Expected(params, template, c, keccak).Revert? {
          OkInAnyCase(params, template, c, stringCase, keccak);
        }
        return false;
      }
      if expectedCommand.value == trimmedMaskedCommand { return true; }
      if stringCase == 2 { return false; }
      stringCase := stringCase + 1;
    }
    valid := false;
  }

  /** The length checks, the skipped prefix and the command check. */
  ghost predicate CommandAccepted(msg: EmailAuthMsg, t: Template, commandBytes: nat, keccak: bytes -> word) {
    && |msg.proof.maskedCommand| <= commandBytes
    && msg.skippedCommandPrefix < commandBytes
    && msg.skippedCommandPrefix <= |msg.proof.maskedCommand|
    && RendersTo(msg.commandParams, t, msg.proof.maskedCommand[msg.skippedCommandPrefix..], keccak)
  }

  // ----- storage -----

  /** What the contract emits; the first two come from the inherited initializer and ownership code. */
  datatype Event =
    | Initialized
    | OwnershipTransferred(previousOwner: address, newOwner: address)
    | DKIMRegistryUpdated(dkimRegistry: address)
    | VerifierUpdated(verifier: address)
    | CommandTemplateInserted(templateId: word)
    | CommandTemplateUpdated(templateId: word)
    | CommandTemplateDeleted(templateId: word)
    | EmailAuthed(emailNullifier: word, accountSalt: word, isCodeExist: bool, templateId: word)
    | TimestampCheckEnabled(enabled: bool)

  datatype State = State(
    initialized: bool, owner: address, accountSalt: word, dkim: address, verifier: address, controller: address,
    commandTemplates: map<word, Template>, lastTimestamp: word, usedNullifiers: set<word>, timestampCheckEnabled: bool,
    events: seq<Event>)

  /** Storage before initialize: all zero. */
  const DEPLOYED: State := State(false, 0, 0, 0, 0, 0, map[], 0, {}, false, [])

  function TemplateAt(templates: map<word, Template>, id: word): Template {
    if id in templates then templates[id] else []
  }

  datatype Call =
    | Initialize(initialOwner: address, accountSalt: word, controller: address)
    | TransferOwnership(newOwner: address)
    | RenounceOwnership
    | InitDKIMRegistry(addr: address)
    | InitVerifier(addr: address)
    | UpdateDKIMRegistry(addr: address)
    | UpdateVerifier(addr: address)
    | InsertCommandTemplate(id: word, template: Template)
    | UpdateCommandTemplate(id: word, template: Template)
    | DeleteCommandTemplate(id: word)
    | SetTimestampCheckEnabled(enabled: bool)
    | AuthEmail(msg: EmailAuthMsg, world: World)

  /** Everything that authEmail requires of its message. */
  ghost predicate Accepted(s: State, msg: EmailAuthMsg, world: World) {
    var p, t := msg.proof, TemplateAt(s.commandTemplates, msg.templateId);
    && t != []
    && s.dkim != 0 && world.keyValid(s.dkim, p.domainName, p.publicKeyHash) == Ok(true)
    && p.emailNullifier !in s.usedNullifiers
    && s.accountSalt == p.accountSalt
    && (s.timestampCheckEnabled && p.timestamp != 0 ==> p.timestamp > s.lastTimestamp)
    && s.verifier != 0 && world.commandBytes(s.verifier).Ok?
    && CommandAccepted(msg, t, world.commandBytes(s.verifier).value, world.keccak)
    && world.proofValid(s.verifier, p) == Ok(true)
  }

  /** When a call goes through. */
  ghost predicate Allowed(s: State, sender: address, call: Call) {
    match call
    case Initialize(owner, _, _) => !s.initialized && owner != 0
    case TransferOwnership(owner) => sender == s.owner && owner != 0
    case RenounceOwnership => sender == s.owner
    case InitDKIMRegistry(a) => sender == s.controller && a != 0 && s.dkim == 0
    case InitVerifier(a) => sender == s.controller && a != 0 && s.verifier == 0
    case UpdateDKIMRegistry(a) => sender == s.owner && a != 0
    case UpdateVerifier(a) => sender == s.owner && a != 0
    case InsertCommandTemplate(id, t) => sender == s.controller && t != [] && TemplateAt(s.commandTemplates, id) == []
    case UpdateCommandTemplate(id, t) => sender == s.controller && t != [] && TemplateAt(s.commandTemplates, id) != []
    case DeleteCommandTemplate(id) => sender == s.controller && TemplateAt(s.commandTemplates, id) != []
    case SetTimestampCheckEnabled(_) => sender == s.controller
    case AuthEmail(msg, world) => sender == s.controller && Accepted(s, msg, world)
  }

  /** What a call that goes through emits. */
  function Emitted(s: State, call: Call): seq<Event> {
    match call
    case Initialize(owner, _, _) => [OwnershipTransferred(s.owner, owner), Initialized]
    case TransferOwnership(owner) => [OwnershipTransferred(s.owner, owner)]
    case RenounceOwnership => [OwnershipTransferred(s.owner, 0)]
    case InitDKIMRegistry(a) => [DKIMRegistryUpdated(a)]
    case InitVerifier(a) => [VerifierUpdated(a)]
    case UpdateDKIMRegistry(a) => [DKIMRegistryUpdated(a)]
    case UpdateVerifier(a) => [VerifierUpdated(a)]
    case InsertCommandTemplate(id, _) => [CommandTemplateInserted(id)]
    case UpdateCommandTemplate(id, _) => [CommandTemplateUpdated(id)]
    case DeleteCommandTemplate(id) => [CommandTemplateDeleted(id)]
    case SetTimestampCheckEnabled(enabled) => [TimestampCheckEnabled(enabled)]
    case AuthEmail(msg, _) =>
      [EmailAuthed(msg.proof.emailNullifier, msg.proof.accountSalt, msg.proof.isCodeExist, msg.templateId)]
  }

  /** What a call that goes through writes. */
  ghost function Written(s: State, call: Call): State {
    var r := s.(events := s.events + Emitted(s, call));
    match call
    case Initialize(owner, salt, controller) =>
      r.(initialized := true, owner := owner, accountSalt := salt, timestampCheckEnabled := true,
         controller := controller)
    case TransferOwnership(owner) => r.(owner := owner)
    case RenounceOwnership => r.(owner := 0)
    case InitDKIMRegistry(a) => r.(dkim := a)
    case InitVerifier(a) => r.(verifier := a)
    case UpdateDKIMRegistry(a) => r.(dkim := a)
    case UpdateVerifier(a) => r.(verifier := a)
    case InsertCommandTemplate(id, t) => r.(commandTemplates := s.commandTemplates[id := t])
    case UpdateCommandTemplate(id, t) => r.(commandTemplates := s.commandTemplates[id := t])
    case DeleteCommandTemplate(id) => r.(commandTemplates := s.commandTemplates - {id})
    case SetTimestampCheckEnabled(enabled) => r.(timestampCheckEnabled := enabled)
    case AuthEmail(msg, _) =>
      r.(usedNullifiers := s.usedNullifiers + {msg.proof.emailNullifier},
         lastTimestamp :=
           if s.timestampCheckEnabled && msg.proof.timestamp != 0 then msg.proof.timestamp else s.lastTimestamp)
  }

  /** One transaction: a call that is not allowed leaves everything as it was. */
  ghost function Step(s: State, sender: address, call: Call): State {
    if Allowed(s, sender, call) then Written(s, call) else s
  }

  // ----- the contract -----

  class EmailAuth {
    var initialized: bool
    var owner: address
    var accountSalt: word
    var dkim: address
    var verifier: address
    var controller: address
    var commandTemplates: map<word, Template>
    var lastTimestamp: word
    var usedNullifiers: set<word>
    var timestampCheckEnabled: bool
    var events: seq<Event>

    ghost function Storage(): State
      reads this
    {
      State(initialized, owner, accountSalt, dkim, verifier, controller, commandTemplates, lastTimestamp,
            usedNullifiers, timestampCheckEnabled, events)
    }

    constructor ()
      ensures Storage() == DEPLOYED
    {
      initialized, owner, accountSalt, dkim, verifier, controller := false, 0, 0, 0, 0, 0;
      commandTemplates, lastTimestamp, usedNullifiers, timestampCheckEnabled, events := map[], 0, {}, false, [];
    }

    method Initialize(msgSender: address, initialOwner: address, salt: word, controllerAddr: address)
      returns (ok: bool)
      modifies this
      ensures ok == Allowed(old(Storage()), msgSender, Call.Initialize(initialOwner, salt, controllerAddr))
      ensures Storage() == Step(old(Storage()), msgSender, Call.Initialize(initialOwner, salt, controllerAddr))
    {
      if initialized { return false; }
      if initialOwner == 0 { return false; }
      events := events + [OwnershipTransferred(owner, initialOwner), Initialized];
      initialized := true;
      owner := initialOwner;
      accountSalt := salt;
      timestampCheckEnabled := true;
      controller := controllerAddr;
      ok := true;
    }

    /** Inherited. */
    method TransferOwnership(msgSender: address, newOwner: address) returns (ok: bool)
      modifies this
      ensures ok == Allowed(old(Storage()), msgSender, Call.TransferOwnership(newOwner))
      ensures Storage() == Step(old(Storage()), msgSender, Call.TransferOwnership(newOwner))
    {
      if msgSender != owner { return false; }
      if newOwner == 0 { return false; }
      events := events + [OwnershipTransferred(owner, newOwner)];
      owner := newOwner;
      ok := true;
    }

    /** Inherited. */
    method RenounceOwnership(msgSender: address) returns (ok: bool)
      modifies this
      ensures ok == Allowed(old(Storage()), msgSender, Call.RenounceOwnership)
      ensures Storage() == Step(old(Storage()), msgSender, Call.RenounceOwnership)
    {
      if msgSender != owner { return false; }
      events := events + [OwnershipTransferred(owner, 0)];
      owner := 0;
      ok := true;
    }

    method InitDKIMRegistry(msgSender: address, dkimRegistryAddr: address) returns (ok: bool)
      modifies this
      ensures ok == Allowed(old(Storage()), msgSender, Call.InitDKIMRegistry(dkimRegistryAddr))
      ensures Storage() == Step(old(Storage()), msgSender, Call.InitDKIMRegistry(dkimRegistryAddr))
    {
      if msgSender != controller { return false; }
      if dkimRegistryAddr == 0 { return false; }
      if dkim != 0 { return false; }
      dkim := dkimRegistryAddr;
      events := events + [DKIMRegistryUpdated(dkimRegistryAddr)];
      ok := true;
    }

    method InitVerifier(msgSender: address, verifierAddr: address) returns (ok: bool)
      modifies this
      ensures ok == Allowed(old(Storage()), msgSender, Call.InitVerifier(verifierAddr))
      ensures Storage() == Step(old(Storage()), msgSender, Call.InitVerifier(verifierAddr))
    {
      if msgSender != controller { return false; }
      if verifierAddr == 0 { return false; }
      if verifier != 0 { return false; }
      verifier := verifierAddr;
      events := events + [VerifierUpdated(verifierAddr)];
      ok := true;
    }

    method UpdateDKIMRegistry(msgSender: address, dkimRegistryAddr: address) returns (ok: bool)
      modifies this
      ensures ok == Allowed(old(Storage()), msgSender, Call.UpdateDKIMRegistry(dkimRegistryAddr))
      ensures Storage() == Step(old(Storage()), msgSender, Call.UpdateDKIMRegistry(dkimRegistryAddr))
    {
      if msgSender != owner { return false; }
      if dkimRegistryAddr == 0 { return false; }
      dkim := dkimRegistryAddr;
      events := events + [DKIMRegistryUpdated(dkimRegistryAddr)];
      ok := true;
    }

    method UpdateVerifier(msgSender: address, verifierAddr: address) returns (ok: bool)
      modifies this
      ensures ok == Allowed(old(Storage()), msgSender, Call.UpdateVerifier(verifierAddr))
      ensures Storage() == Step(old(Storage()), msgSender, Call.UpdateVerifier(verifierAddr))
    {
      if msgSender != owner { return false; }
      if verifierAddr == 0 { return false; }
      verifier := verifierAddr;
      events := events + [VerifierUpdated(verifierAddr)];
      ok := true;
    }

    method InsertCommandTemplate(msgSender: address, templateId: word, commandTemplate: Template) returns (ok: bool)
      modifies this
      ensures ok == Allowed(old(Storage()), msgSender, Call.InsertCommandTemplate(templateId, commandTemplate))
      ensures Storage() == Step(old(Storage()), msgSender, Call.InsertCommandTemplate(templateId, commandTemplate))
    {
      if msgSender != controller { return false; }
      if |commandTemplate| == 0 { return false; }
      if |TemplateAt(commandTemplates, templateId)| != 0 { return false; }
      commandTemplates := commandTemplates[templateId := commandTemplate];
      events := events + [CommandTemplateInserted(templateId)];
      ok := true;
    }

    method UpdateCommandTemplate(msgSender: address, templateId: word, commandTemplate: Template) returns (ok: bool)
      modifies this
      ensures ok == Allowed(old(Storage()), msgSender, Call.UpdateCommandTemplate(templateId, commandTemplate))
      ensures Storage() == Step(old(Storage()), msgSender, Call.UpdateCommandTemplate(templateId, commandTemplate))
    {
      if msgSender != controller { return false; }
      if |commandTemplate| == 0 { return false; }
      if |TemplateAt(commandTemplates, templateId)| == 0 { return false; }
      commandTemplates := commandTemplates[templateId := commandTemplate];
      events := events + [CommandTemplateUpdated(templateId)];
      ok := true;
    }

    method DeleteCommandTemplate(msgSender: address, templateId: word) returns (ok: bool)
      modifies this
      ensures ok == Allowed(old(Storage()), msgSender, Call.DeleteCommandTemplate(templateId))
      ensures Storage() == Step(old(Storage()), msgSender, Call.DeleteCommandTemplate(templateId))
    {
      if msgSender != controller { return false; }
      if |TemplateAt(commandTemplates, templateId)| == 0 { return false; }
      commandTemplates := commandTemplates - {templateId};
      events := events + [CommandTemplateDeleted(templateId)];
      ok := true;
    }

    method SetTimestampCheckEnabled(msgSender: address, enabled: bool) returns (ok: bool)
      modifies this
      ensures ok == Allowed(old(Storage()), msgSender, Call.SetTimestampCheckEnabled(enabled))
      ensures Storage() == Step(old(Storage()), msgSender, Call.SetTimestampCheckEnabled(enabled))
    {
      if msgSender != controller { return false; }
      timestampCheckEnabled := enabled;
      events := events + [TimestampCheckEnabled(enabled)];
      ok := true;
    }

    /** The requirements of authEmail, in its order; false stands for a revert. */
    method CheckRequirements(emailAuthMsg: EmailAuthMsg, world: World) returns (ok: bool)
      ensures ok <==> Accepted(Storage(), emailAuthMsg, world)
    {
      var template := TemplateAt(commandTemplates, emailAuthMsg.templateId);
      if !(|template| > 0) { return false; }
      if dkim == 0 { return false; }
      var keyValid := world.keyValid(dkim, emailAuthMsg.proof.domainName, emailAuthMsg.proof.publicKeyHash);
      if keyValid != Ok(true) { return false; }
      if emailAuthMsg.proof.emailNullifier in usedNullifiers { return false; }
      if accountSalt != emailAuthMsg.proof.accountSalt { return false; }
      if !(!timestampCheckEnabled || emailAuthMsg.proof.timestamp == 0
           || emailAuthMsg.proof.timestamp > lastTimestamp) {
        return false;
      }
      if verifier == 0 { return false; }
      var commandBytes := world.commandBytes(verifier);
      if commandBytes.Revert? { return false; }
      if !(|emailAuthMsg.proof.maskedCommand| <= commandBytes.value) { return false; }
      if !(emailAuthMsg.skippedCommandPrefix < commandBytes.value) { return false; }
      var trimmedMaskedCommand := RemovePrefix(emailAuthMsg.proof.maskedCommand, emailAuthMsg.skippedCommandPrefix);
      if trimmedMaskedCommand.Revert? { return false; }
      var valid := CheckCommand(emailAuthMsg.commandParams, template, trimmedMaskedCommand.value, world.keccak);
      if !valid { return false; }
      var proofValid := world.proofValid(verifier, emailAuthMsg.proof);
      ok := proofValid == Ok(true);
    }

    method AuthEmail(msgSender: address, emailAuthMsg: EmailAuthMsg, world: World) returns (ok: bool)
      modifies this
      ensures ok == Allowed(old(Storage()), msgSender, Call.AuthEmail(emailAuthMsg, world))
      ensures Storage() == Step(old(Storage()), msgSender, Call.AuthEmail(emailAuthMsg, world))
    {
      if msgSender != controller { return false; }
      ok := CheckRequirements(emailAuthMsg, world);
      if !ok { return false; }
      usedNullifiers := usedNullifiers + {emailAuthMsg.proof.emailNullifier};
      if timestampCheckEnabled && emailAuthMsg.proof.timestamp != 0 {
        lastTimestamp := emailAuthMsg.proof.timestamp;
      }
      events := events + [EmailAuthed(emailAuthMsg.proof.emailNullifier, emailAuthMsg.proof.accountSalt,
                                      emailAuthMsg.proof.isCodeExist, emailAuthMsg.templateId)];
    }
  }

  // ----- runs -----

  datatype Transaction = Transaction(sender: address, call: Call)

  ghost function Run(s: State, txs: seq<Transaction>): State {
    if txs == [] then s else
      var last := txs[|txs|-1];
      Step(Run(s, txs[..|txs|-1]), last.sender, last.call)
  }

  /** An accepted email, and whether its timestamp was checked. */
  datatype Acceptance = Acceptance(nullifier: word, timestamp: word, checked: bool)

  ghost predicate AuthenticatesAt(s: State, tx: Transaction) {
    tx.call.AuthEmail? && Allowed(s, tx.sender, tx.call)
  }

  /** The emails accepted by a run, in order. */
  ghost function Acceptances(s: State, txs: seq<Transaction>): seq<Acceptance> {
    if txs == [] then []
    else
      var before, last := txs[..|txs|-1], txs[|txs|-1];
      var r := Run(s, before);
      Acceptances(s, before) +
      if AuthenticatesAt(r, last) then
        [Acceptance(last.call.msg.proof.emailNullifier, last.call.msg.proof.timestamp, r.timestampCheckEnabled)]
      else []
  }

  predicate Nullifies(log: seq<Acceptance>, n: word) { exists i :: 0 <= i < |log| && log[i].nullifier == n }

  predicate Distinct(log: seq<Acceptance>) {
    forall i, j :: 0 <= i < j < |log| ==> log[i].nullifier != log[j].nullifier
  }

  /** The nonzero timestamps accepted while the check was on, in order. */
  function CheckedTimestamps(log: seq<Acceptance>): seq<word> {
    if log == [] then []
    else
      var a := log[|log|-1];
      CheckedTimestamps(log[..|log|-1]) + if a.checked && a.timestamp != 0 then [a.timestamp] else []
  }

  predicate Increasing(ts: seq<word>) { forall i, j :: 0 <= i < j < |ts| ==> ts[i] < ts[j] }

  /** The used nullifiers are exactly the accepted ones, and no nullifier is accepted twice. */
  lemma {:induction false} NullifiersExact(txs: seq<Transaction>)
    ensures forall n: word :: n in Run(DEPLOYED, txs).usedNullifiers <==> Nullifies(Acceptances(DEPLOYED, txs), n)
    ensures Distinct(Acceptances(DEPLOYED, txs))
    decreases |txs|
  {
    if txs != [] {
      var before, last := txs[..|txs|-1], txs[|txs|-1];
      NullifiersExact(before);
      NullifierStep(Run(DEPLOYED, before), last, Acceptances(DEPLOYED, before));
    }
  }

  ghost function Logged(s: State, tx: Transaction, log: seq<Acceptance>): seq<Acceptance> {
    log + if AuthenticatesAt(s, tx) then
      [Acceptance(tx.call.msg.proof.emailNullifier, tx.call.msg.proof.timestamp, s.timestampCheckEnabled)] else []
  }

  ghost predicate NullifiersMatch(s: State, log: seq<Acceptance>) {
    forall n: word :: n in s.usedNullifiers <==> Nullifies(log, n)
  }

  lemma NullifierStep(s: State, tx: Transaction, log: seq<Acceptance>)
    requires NullifiersMatch(s, log) && Distinct(log)
    ensures NullifiersMatch(Step(s, tx.sender, tx.call), Logged(s, tx, log)) && Distinct(Logged(s, tx, log))
  {
    var after, grown := Step(s, tx.sender, tx.call), Logged(s, tx, log);
    if AuthenticatesAt(s, tx) {
      var m := tx.call.msg.proof.emailNullifier;
      forall n: word ensures Nullifies(grown, n) <==> n == m || Nullifies(log, n) {
        if n == m { assert grown[|log|].nullifier == n; }
        if Nullifies(log, n) {
          var i :| 0 <= i < |log| && log[i].nullifier == n;
          assert grown[i].nullifier == n;
        }
      }
    } else {
      assert grown == log;
      assert after.usedNullifiers == s.usedNullifiers;
    }
  }

  // ----- the log tells the storage -----

  /** The owner, the registry, the verifier and the timestamp flag that the log last announced. */
  function LoggedOwner(es: seq<Event>): address {
    if es == [] then 0 else
      match es[|es|-1] case OwnershipTransferred(_, a) => a case _ => LoggedOwner(es[..|es|-1])
  }

  function LoggedRegistry(es: seq<Event>): address {
    if es == [] then 0 else
      match es[|es|-1] case DKIMRegistryUpdated(a) => a case _ => LoggedRegistry(es[..|es|-1])
  }

  function LoggedVerifier(es: seq<Event>): address {
    if es == [] then 0 else
      match es[|es|-1] case VerifierUpdated(a) => a case _ => LoggedVerifier(es[..|es|-1])
  }

  function LoggedCheck(es: seq<Event>): bool {
    if es == [] then false else
      match es[|es|-1]
      case Initialized => true
      case TimestampCheckEnabled(enabled) => enabled
      case _ => LoggedCheck(es[..|es|-1])
  }

  /** The template was inserted and not deleted since. */
  predicate LoggedTemplate(es: seq<Event>, id: word) {
    es != [] &&
    match es[|es|-1]
    case CommandTemplateInserted(i) => i == id || LoggedTemplate(es[..|es|-1], id)
    case CommandTemplateDeleted(i) => i != id && LoggedTemplate(es[..|es|-1], id)
    case _ => LoggedTemplate(es[..|es|-1], id)
  }

  predicate LoggedNullifier(es: seq<Event>, n: word) {
    exists i :: 0 <= i < |es| && es[i].EmailAuthed? && es[i].emailNullifier == n
  }

  /** Some storage, as far as the log tells it. */
  ghost predicate Tells(es: seq<Event>, s: State) {
    && s.owner == LoggedOwner(es) && s.dkim == LoggedRegistry(es) && s.verifier == LoggedVerifier(es)
    && s.timestampCheckEnabled == LoggedCheck(es) && (s.initialized <==> Initialized in es)
    && TellsTemplates(es, s.commandTemplates) && TellsNullifiers(es, s.usedNullifiers)
  }

  ghost predicate TellsTemplates(es: seq<Event>, templates: map<word, Template>) {
    forall id: word :: id in templates <==> LoggedTemplate(es, id)
  }

  ghost predicate TellsNullifiers(es: seq<Event>, used: set<word>) {
    forall n: word :: n in used <==> LoggedNullifier(es, n)
  }

  /** Storage after one more event: what a reader of the log would note. */
  ghost function Noted(s: State, e: Event): State {
    match e
    case Initialized => s.(initialized := true, timestampCheckEnabled := true)
    case OwnershipTransferred(_, a) => s.(owner := a)
    case DKIMRegistryUpdated(a) => s.(dkim := a)
    case VerifierUpdated(a) => s.(verifier := a)
    case CommandTemplateInserted(id) => s.(commandTemplates := s.commandTemplates[id := [[]]])
    case CommandTemplateUpdated(_) => s
    case CommandTemplateDeleted(id) => s.(commandTemplates := s.commandTemplates - {id})
    case EmailAuthed(n, _, _, _) => s.(usedNullifiers := s.usedNullifiers + {n})
    case TimestampCheckEnabled(enabled) => s.(timestampCheckEnabled := enabled)
  }

  lemma TemplateLogged(es: seq<Event>, e: Event, id: word)
    ensures LoggedTemplate(es + [e], id) ==
      match e
      case CommandTemplateInserted(i) => i == id || LoggedTemplate(es, id)
      case CommandTemplateDeleted(i) => i != id && LoggedTemplate(es, id)
      case _ => LoggedTemplate(es, id)
  {
    assert (es + [e])[..|es|] == es;
  }

  lemma TemplatesNoted(es: seq<Event>, s: State, e: Event)
    requires TellsTemplates(es, s.commandTemplates)
    ensures TellsTemplates(es + [e], Noted(s, e).commandTemplates)
  {
    forall id: word ensures id in Noted(s, e).commandTemplates <==> LoggedTemplate(es + [e], id) {
      TemplateLogged(es, e, id);
    }
  }

  lemma NullifierLogged(es: seq<Event>, e: Event, n: word)
    ensures LoggedNullifier(es + [e], n) <==> LoggedNullifier(es, n) || (e.EmailAuthed? && e.emailNullifier == n)
  {
    if LoggedNullifier(es, n) {
      var i :| 0 <= i < |es| && es[i].EmailAuthed? && es[i].emailNullifier == n;
      assert (es + [e])[i] == es[i];
    }
    if e.EmailAuthed? && e.emailNullifier == n { assert (es + [e])[|es|] == e; }
  }

  lemma NullifiersNoted(es: seq<Event>, s: State, e: Event)
    requires TellsNullifiers(es, s.usedNullifiers)
    ensures TellsNullifiers(es + [e], Noted(s, e).usedNullifiers)
  {
    forall n: word { NullifierLogged(es, e, n); }
  }

  lemma FieldsLogged(es: seq<Event>, e: Event)
    ensures var grown := es + [e];
      && LoggedOwner(grown) == (if e.OwnershipTransferred? then e.newOwner else LoggedOwner(es))
      && LoggedRegistry(grown) == (if e.DKIMRegistryUpdated? then e.dkimRegistry else LoggedRegistry(es))
      && LoggedVerifier(grown) == (if e.VerifierUpdated? then e.verifier else LoggedVerifier(es))
      && LoggedCheck(grown) ==
         (if e.Initialized? then true else if e.TimestampCheckEnabled? then e.enabled else LoggedCheck(es))
      && (Initialized in grown <==> e.Initialized? || Initialized in es)
  {
    assert (es + [e])[..|es|] == es;
  }

  lemma EventNoted(es: seq<Event>, s: State, e: Event)
    requires Tells(es, s)
    ensures Tells(es + [e], Noted(s, e))
  {
    FieldsLogged(es, e);
    TemplatesNoted(es, s, e);
    NullifiersNoted(es, s, e);
  }

  /** Equal up to what no event tells: salt, controller, last timestamp, and what templates contain. */
  predicate SameTold(s: State, r: State) {
    && r.owner == s.owner && r.dkim == s.dkim && r.verifier == s.verifier
    && r.timestampCheckEnabled == s.timestampCheckEnabled && r.initialized == s.initialized
    && r.commandTemplates.Keys == s.commandTemplates.Keys && r.usedNullifiers == s.usedNullifiers
  }

  lemma TellsSame(es: seq<Event>, s: State, r: State)
    requires Tells(es, s) && SameTold(s, r)
    ensures Tells(es, r)
  {
    forall id: word ensures id in r.commandTemplates <==> LoggedTemplate(es, id) {
      assert id in r.commandTemplates.Keys <==> id in s.commandTemplates.Keys;
    }
  }

  lemma WrittenIsNoted(s: State, sender: address, call: Call)
    requires Allowed(s, sender, call) && !call.Initialize?
    ensures |Emitted(s, call)| == 1 && SameTold(Noted(s, Emitted(s, call)[0]), Written(s, call))
  {
  }

  lemma InitializeIsNoted(s: State, call: Call)
    requires call.Initialize?
    ensures var es := Emitted(s, call); |es| == 2 && SameTold(Noted(Noted(s, es[0]), es[1]), Written(s, call))
  {
  }

  lemma InitializeLogged(s: State, call: Call)
    requires Tells(s.events, s) && call.Initialize?
    ensures Tells(Written(s, call).events, Written(s, call))
  {
    var es := Emitted(s, call);
    InitializeIsNoted(s, call);
    EventNoted(s.events, s, es[0]);
    EventNoted(s.events + [es[0]], Noted(s, es[0]), es[1]);
    assert s.events + es == s.events + [es[0]] + [es[1]];
    TellsSame(s.events + es, Noted(Noted(s, es[0]), es[1]), Written(s, call));
  }

  /**
   * After any run the emitted events tell owner, registry, verifier, timestamp flag, live templates and used
   * nullifiers.
   */
  lemma {:induction false} LogTellsStorage(txs: seq<Transaction>)
    ensures Tells(Run(DEPLOYED, txs).events, Run(DEPLOYED, txs))
    decreases |txs|
  {
    if txs != [] {
      var before, last := txs[..|txs|-1], txs[|txs|-1];
      var s := Run(DEPLOYED, before);
      LogTellsStorage(before);
      if !Allowed(s, last.sender, last.call) {
      } else if last.call.Initialize? {
        InitializeLogged(s, last.call);
      } else {
        var es := Emitted(s, last.call);
        WrittenIsNoted(s, last.sender, last.call);
        EventNoted(s.events, s, es[0]);
        assert es == [es[0]];
        TellsSame(s.events + es, Noted(s, es[0]), Written(s, last.call));
      }
    }
  }

  // ----- what an id holds -----

  /** The k-th transaction goes through. */
  ghost predicate Succeeds(txs: seq<Transaction>, k: nat) {
    k < |txs| && Allowed(Run(DEPLOYED, txs[..k]), txs[k].sender, txs[k].call)
  }

  predicate About(call: Call, id: word) {
    (call.InsertCommandTemplate? || call.UpdateCommandTemplate? || call.DeleteCommandTemplate?) && call.id == id
  }

  predicate Stores(call: Call, id: word, t: Template) {
    (call.InsertCommandTemplate? || call.UpdateCommandTemplate?) && call.id == id && call.template == t
  }

  /** The k-th transaction stored t under id, and no later successful one is about id. */
  ghost predicate StoredLast(txs: seq<Transaction>, k: nat, id: word, t: Template) {
    && Succeeds(txs, k) && Stores(txs[k].call, id, t)
    && forall j: nat :: k < j < |txs| && Succeeds(txs, j) ==> !About(txs[j].call, id)
  }

  lemma SucceedsBefore(txs: seq<Transaction>, k: nat)
    requires k < |txs| - 1
    ensures Succeeds(txs, k) <==> Succeeds(txs[..|txs|-1], k)
  {
    assert txs[..|txs|-1][..k] == txs[..k];
  }

  lemma StoredBefore(txs: seq<Transaction>, k: nat, id: word, t: Template)
    requires k < |txs| - 1
    ensures StoredLast(txs, k, id, t) <==>
      StoredLast(txs[..|txs|-1], k, id, t) && !(Succeeds(txs, |txs| - 1) && About(txs[|txs|-1].call, id))
  {
    forall j: nat | j < |txs| - 1 { SucceedsBefore(txs, j); }
  }

  lemma HeldStep(s: State, call: Call, id: word)
    requires (call.InsertCommandTemplate? || call.UpdateCommandTemplate?) ==> call.template != []
    ensures TemplateAt(Written(s, call).commandTemplates, id) ==
      if !About(call, id) then TemplateAt(s.commandTemplates, id)
      else if call.DeleteCommandTemplate? then [] else call.template
  {
  }

  /** If an id holds a template, some transaction stored it there and nothing about the id has succeeded since. */
  lemma {:induction false} HeldWasStored(txs: seq<Transaction>, id: word) returns (k: nat)
    requires TemplateAt(Run(DEPLOYED, txs).commandTemplates, id) != []
    ensures StoredLast(txs, k, id, TemplateAt(Run(DEPLOYED, txs).commandTemplates, id))
    decreases |txs|
  {
    var n := |txs| - 1;
    var s := Run(DEPLOYED, txs[..n]);
    if Succeeds(txs, n) { HeldStep(s, txs[n].call, id); }
    if Succeeds(txs, n) && About(txs[n].call, id) {
      k := n;
    } else {
      k := HeldWasStored(txs[..n], id);
      StoredBefore(txs, k, id, TemplateAt(s.commandTemplates, id));
    }
  }

  lemma {:induction false} StoredIsHeld(txs: seq<Transaction>, id: word, k: nat, t: Template)
    requires StoredLast(txs, k, id, t)
    ensures TemplateAt(Run(DEPLOYED, txs).commandTemplates, id) == t != []
    decreases |txs|
  {
    var n := |txs| - 1;
    var s := Run(DEPLOYED, txs[..n]);
    if Succeeds(txs, n) { HeldStep(s, txs[n].call, id); }
    if k < n {
      StoredBefore(txs, k, id, t);
      StoredIsHeld(txs[..n], id, k, t);
    }
  }

  /** An id holds t exactly when some transaction stored t there and no later successful one is about the id. */
  lemma TemplatesExact(txs: seq<Transaction>, id: word, t: Template)
    requires t != []
    ensures TemplateAt(Run(DEPLOYED, txs).commandTemplates, id) == t <==> exists k: nat :: StoredLast(txs, k, id, t)
  {
    if TemplateAt(Run(DEPLOYED, txs).commandTemplates, id) == t {
      var k := HeldWasStored(txs, id);
    } else if k: nat :| StoredLast(txs, k, id, t) {
      StoredIsHeld(txs, id, k, t);
    }
  }

  ghost predicate TimestampsMatch(s: State, log: seq<Acceptance>) {
    var ts := CheckedTimestamps(log);
    Increasing(ts) && s.lastTimestamp == if ts == [] then 0 else ts[|ts|-1]
  }

  lemma LastTimestampStep(s: State, tx: Transaction)
    ensures Step(s, tx.sender, tx.call).lastTimestamp ==
      if AuthenticatesAt(s, tx) && s.timestampCheckEnabled && tx.call.msg.proof.timestamp != 0
      then tx.call.msg.proof.timestamp else s.lastTimestamp
    ensures AuthenticatesAt(s, tx) && s.timestampCheckEnabled && tx.call.msg.proof.timestamp != 0 ==>
      tx.call.msg.proof.timestamp > s.lastTimestamp
  {
  }

  lemma TimestampStep(s: State, tx: Transaction, log: seq<Acceptance>)
    requires TimestampsMatch(s, log)
    ensures TimestampsMatch(Step(s, tx.sender, tx.call), Logged(s, tx, log))
  {
    var grown := Logged(s, tx, log);
    LastTimestampStep(s, tx);
    if AuthenticatesAt(s, tx) {
      assert grown[..|grown|-1] == log;
    } else {
      assert grown == log;
    }
  }

  /** The timestamps accepted under the check strictly increase, and lastTimestamp is the last and greatest of them. */
  lemma {:induction false} TimestampsExact(txs: seq<Transaction>)
    ensures TimestampsMatch(Run(DEPLOYED, txs), Acceptances(DEPLOYED, txs))
    decreases |txs|
  {
    if txs != [] {
      var before, last := txs[..|txs|-1], txs[|txs|-1];
      TimestampsExact(before);
      TimestampStep(Run(DEPLOYED, before), last, Acceptances(DEPLOYED, before));
    }
  }

  lemma LastOfIncreasing(ts: seq<word>, i: nat)
    requires Increasing(ts) && i < |ts|
    ensures ts[i] <= ts[|ts|-1]
  {
  }

  /** No timestamp accepted under the check is greater than lastTimestamp. */
  lemma LastIsGreatest(txs: seq<Transaction>, i: nat)
    requires i < |CheckedTimestamps(Acceptances(DEPLOYED, txs))|
    ensures CheckedTimestamps(Acceptances(DEPLOYED, txs))[i] <= Run(DEPLOYED, txs).lastTimestamp
  {
    TimestampsExact(txs);
    LastOfIncreasing(CheckedTimestamps(Acceptances(DEPLOYED, txs)), i);
  }

  ghost predicate NoEmptyTemplate(s: State) {
    forall id: word :: id in s.commandTemplates ==> s.commandTemplates[id] != []
  }

  /** Stored templates are never empty. */
  lemma {:induction false} TemplatesNonempty(txs: seq<Transaction>)
    ensures NoEmptyTemplate(Run(DEPLOYED, txs))
    decreases |txs|
  {
    if txs != [] { TemplatesNonempty(txs[..|txs|-1]); }
  }

  /** What no later call undoes. */
  ghost predicate Keeps(s: State, r: State) {
    && (s.initialized ==> r.initialized && r.accountSalt == s.accountSalt && r.controller == s.controller)
    && (s.dkim != 0 ==> r.dkim != 0) && (s.verifier != 0 ==> r.verifier != 0)
    && s.usedNullifiers <= r.usedNullifiers && s.lastTimestamp <= r.lastTimestamp
  }

  lemma KeepsStep(s: State, tx: Transaction)
    ensures Keeps(s, Step(s, tx.sender, tx.call))
  {
  }

  /** Account and controller stay, registries stay set, used nullifiers stay used, and time does not go back. */
  lemma {:induction false} RunKeeps(s: State, txs: seq<Transaction>)
    ensures Keeps(s, Run(s, txs))
    decreases |txs|
  {
    if txs != [] {
      RunKeeps(s, txs[..|txs|-1]);
      KeepsStep(Run(s, txs[..|txs|-1]), txs[|txs|-1]);
    }
  }

  /** Every email that an initialized contract accepts, at any later time, is one for its own account salt. */
  lemma {:induction false} AcceptedForAccount(s: State, txs: seq<Transaction>, i: nat)
    requires s.initialized
    ensures |s.events| <= |Run(s, txs).events|
    ensures |s.events| <= i < |Run(s, txs).events| && Run(s, txs).events[i].EmailAuthed? ==>
      Run(s, txs).events[i].accountSalt == s.accountSalt
    decreases |txs|
  {
    if txs != [] {
      var before := txs[..|txs|-1];
      RunKeeps(s, before);
      AcceptedForAccount(s, before, i);
    }
  }

  /** Who may change what, and by which call. */
  lemma ChangesAuthorized(s: State, tx: Transaction)
    ensures var r := Step(s, tx.sender, tx.call);
      && (r.accountSalt != s.accountSalt || r.controller != s.controller ==> !s.initialized)
      && (r.owner != s.owner ==> tx.sender == s.owner || !s.initialized)
      && (r.dkim != s.dkim ==> tx.sender == s.owner || (tx.sender == s.controller && s.dkim == 0))
      && (r.verifier != s.verifier ==> tx.sender == s.owner || (tx.sender == s.controller && s.verifier == 0))
      && (r.commandTemplates != s.commandTemplates ==> tx.sender == s.controller)
      && (r.usedNullifiers != s.usedNullifiers || r.lastTimestamp != s.lastTimestamp ==>
            tx.sender == s.controller && AuthenticatesAt(s, tx))
      && (r.timestampCheckEnabled != s.timestampCheckEnabled ==> tx.sender == s.controller || !s.initialized)
  {
  }

  /**
   * Once the contract is initialized, senders other than its owner and controller change nothing, however often they
   * try.
   */
  lemma {:induction false} OutsidersChangeNothing(s: State, txs: seq<Transaction>)
    requires s.initialized && forall i :: 0 <= i < |txs| ==> txs[i].sender != s.owner && txs[i].sender != s.controller
    ensures Run(s, txs) == s
    decreases |txs|
  {
    if txs != [] {
      var before := txs[..|txs|-1];
      assert forall i :: 0 <= i < |before| ==> before[i] == txs[i];
      OutsidersChangeNothing(s, before);
    }
  }

  /** A replayed email is refused at any later time, by whatever calls lie between. */
  lemma ReplayRefused(s: State, tx: Transaction, between: seq<Transaction>, again: Transaction)
    requires AuthenticatesAt(s, tx) && again.call.AuthEmail?
    requires again.call.msg.proof.emailNullifier == tx.call.msg.proof.emailNullifier
    ensures !AuthenticatesAt(Run(Step(s, tx.sender, tx.call), between), again)
    ensures var r := Run(Step(s, tx.sender, tx.call), between); Step(r, again.sender, again.call) == r
  {
    RunKeeps(Step(s, tx.sender, tx.call), between);
  }
}
