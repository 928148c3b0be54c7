# Verification model of the email command pipeline

An email command travels a long way in this system. The relayer fills a template and sends the text with an account
code appended. A circuit finds the command in the signed email with regular-expression scanners, masks the code and
packs what is left into field elements. The relayer unpacks the public signals into a proof. A contract renders the same
template from the decoded parameters, compares, and accepts the email at most once. This project models each stage in
the form the code gives it and proves what the stages promise, alone and to each other.

* **Scanner, Utf8, InvitationCode, ForcedSubject, CommandRegex.** The circuit templates share one shape: write-once
  boolean wires `states[t][q]`, a restart when no gate fires, a backward pass, a reveal mask. `Scanner` keeps those wires
  as they are drawn (`Circuit`) and proves that they compute a one-state scanner (`Table`), when a run is accepted, and
  exactly which bytes are revealed. Each template then has its own gates, its table, and an exact theorem: what `out`
  and every revealed byte mean in terms of a regular expression written as a predicate on bytes. UTF-8 is section 4 of
  RFC 3629.
* **Numerals, Decimal, Hex, HexNumber, Words, Abi.** The printers and parsers: decimal amounts, addresses in three letter
  cases (EIP-55), hex strings, splitting, and the ABI decoding of one parameter.
* **Command, Readings, CommandReading, Binding, Ambiguity, RelayerTemplate.** Rendering a command from a template, what
  its words read as in terms of the raw parameters, finding its parameters again,
  when the command text determines the parameters, and when the relayer's textual substitution agrees with the contract.
* **Packing, Verifier, Masking, MailBody.** 31-byte field packing, the 34 public signals, the relayer's decoding of them,
  the masking arithmetic, and the mail body from which the circuit selects the command and the account code.
* **Hex2Field, DkimMessage.** Reading an account code inside the circuit, and the message that the key registry's signer
  signs.
* **EmailAuth, AuthHistory, EmailSigner, EndToEnd.** The contracts as classes whose methods refine a step relation,
  theorems over every sequence of transactions, the same contract told by its event log, and the theorems that join the
  stages.

Code that the repository writes as loops over buffers or as storage updates is written as methods with loops and as
classes; each is proved against a function, and the theorems are about that function. Circuits and iterator chains are
functions. Byte strings are `seq<byte>`. A Solidity revert is `Outcome.Revert`, and a contract method returns false when
it reverts. Keccak, the Groth16 check and the answers of other contracts are arbitrary functions, chosen anew for every
call, so the theorems hold for all of them.

## Where the code does not do what one would expect

Each of these is proved, with the exact condition under which the expected law holds.

* `uintToDecimalString(0, d)` with `d >= 2` writes a zero byte after its first `0`: the filling branch runs although no
  digit was found (`Decimal.PrintedIsTextIff`). The zero amount is rendered at 18 places, so such a command cannot be
  read back from the signals (`EndToEnd.ZeroDecimalsUnreadable`). More than 253 places revert.
* A space that directly follows ` code` or ` Code` is read as that word's optional space, so a match starting there is
  missed (`InvitationCode.MissedMatch`). `InvitationCode.OutExact` says exactly which matches are seen, and
  `Masking.MaskSuffixIff` when the relayer's own suffix is masked.
* A command with `<`, `>`, `/` or bytes that are not well-formed UTF-8 is cut by the circuit, so it never arrives
  (`MailBody.SlashIsCut` for `a/b`). The index of the command in the body is checked against the command's length bound,
  605, and not the body's.
* An appended code of fewer than 64 digits is masked as a code, but the circuit reads 64 bytes and finds a zero behind
  the digits, so no account code fits (`MailBody.ShortCodeFails`); of a longer one only the first 64 digits are
  compared. `MailBody.MailDelivers` says exactly which commands, with or without a code, meet the constraints on command
  and code and come out of the circuit.
* After `<div id=3D"` that never closes, a complete match goes unseen (`CommandRegex.MissedMatch`);
  `CommandRegex.OutExact` is exact.
* A template with two `{string}` matchers has two parameter lists with one command (`Ambiguity.BindsIff`).
* A value with an opening brace before the last matcher can make the relayer's text differ from the contract's. The exact
  condition is on the template: some value does so exactly when a `{string}` precedes another matcher
  (`RelayerTemplate.AgreesAlwaysIff`).
* Packing forgets trailing zero bytes and bytes past the padded size (`Packing.PackIff`), and unpacking drops zero bytes
  (`Verifier.DecodeIff`).
* Account codes at or above the scalar prime alias smaller ones (`Hex2Field.PrimeReadsAsZero`).

## Model

| member | source | states |
|---|---|---|
| Scanner.OneLive | packages/circuits/src/regexes/invitation_code_regex.circom:26-159 | at every step the live wires are one state or none, and it is the state of the deterministic table |
| Scanner.Follows | packages/circuits/src/regexes/command_regex.circom:34-1286 | a run that has begun at a restart cannot be lost while its word is live |
| Scanner.OutIffAcceptedRun | packages/circuits/src/regexes/invitation_code_regex.circom:162-166 | the output wire is set exactly when some run from a restart reaches the accept state |
| Scanner.RestartIff | packages/circuits/src/regexes/invitation_code_regex.circom:150-152 | the scan restarts at a byte exactly when no run begun at an earlier restart reads it |
| Scanner.ConsecutiveIffInRun | packages/circuits/src/regexes/invitation_code_with_prefix_regex.circom:167-173 | the backward pass marks exactly the bytes of accepted runs |
| Scanner.RevealExact | packages/circuits/src/regexes/invitation_code_with_prefix_regex.circom:174-192 | a byte is revealed exactly when an accepted run takes a listed transition on it, and is 0 otherwise |
| Utf8.LoopExact | packages/circuits/src/regexes/command_regex.circom:34-1286 | a text loop with the seven UTF-8 states comes home exactly on well-formed text without the excluded bytes |
| InvitationCode.TableOfGates | packages/circuits/src/regexes/invitation_code_regex.circom:33-152 | both circuits' gates implement one 8-state deterministic table |
| InvitationCode.WordState | packages/circuits/src/regexes/invitation_code_regex.circom:33-152 | the table is in state 7 exactly on ` [cC]ode ?[0-9a-f]+`, and in the others on its proper prefixes |
| InvitationCode.OutExact | packages/circuits/src/regexes/invitation_code_regex.circom:5-166 | for every message both outputs are set exactly when some match is not absorbed by an unfinished ` code` before it |
| InvitationCode.MatchFound | packages/circuits/src/regexes/invitation_code_regex.circom:5-166 | any match whose five preceding bytes are not ` code` or ` Code` sets both outputs |
| InvitationCode.MissedMatch | packages/circuits/src/regexes/invitation_code_regex.circom:5-166 | ` code Code 12` holds a match and is not accepted |
| InvitationCode.RevealWhole | packages/circuits/src/regexes/invitation_code_with_prefix_regex.circom:167-192 | the prefixed circuit copies exactly the bytes of the seen matches and zeroes every other byte |
| InvitationCode.RevealDigits | packages/circuits/src/regexes/invitation_code_regex.circom:167-187 | the plain circuit copies exactly the hex digits of the same matches |
| ForcedSubject.TableOfGates | packages/circuits/src/regexes/forced_subject_regex.circom:34-584 | the 42-state gates implement one deterministic table |
| ForcedSubject.PrefixEval | packages/circuits/src/regexes/forced_subject_regex.circom:34-584 | from the loop state exactly the six reply and forward prefixes lead back to it |
| ForcedSubject.OverlapAccepted | packages/circuits/src/regexes/forced_subject_regex.circom:34-649 | a match whose CR was read as the end of an earlier body is still accepted |
| ForcedSubject.OutExact | packages/circuits/src/regexes/forced_subject_regex.circom:5-649 | the output is set exactly when a line of the header is a forced subject line, over well-formed UTF-8 |
| CommandRegex.TableOfGates | packages/circuits/src/regexes/command_regex.circom:34-1236 | the 50-state gates implement one deterministic table |
| CommandRegex.OutExact | packages/circuits/src/regexes/command_regex.circom:5-1293 | the output is set exactly when a match of the tag-and-text expression does not begin inside a tag that is still open |
| CommandRegex.RevealText | packages/circuits/src/regexes/command_regex.circom:1294-1333 | exactly the nonempty text after the tag of the seen matches is copied |
| CommandRegex.MissedMatch | packages/circuits/src/regexes/command_regex.circom:34-1293 | a complete match after an opening that never closes is not accepted |
| Decimal.FillFromRight | packages/contracts/src/libraries/DecimalUtils.sol:41-73 | the descending loop stays in bounds, and writes the planned bytes and their count |
| Decimal.UintToDecimalString | packages/contracts/src/libraries/DecimalUtils.sol:20-82 | the buffer algorithm returns the printed amount on every input, or reverts for 254 places or more |
| Decimal.PrintedIsTextIff | packages/contracts/src/libraries/DecimalUtils.sol:41-73 | it is integer part, dot and trimmed fraction exactly when the places fit and the amount is not zero at two or more places |
| Decimal.ReadText | packages/contracts/src/libraries/DecimalUtils.sol:20-82 | parsing the text gives the amount back |
| Decimal.PrintedInjective | packages/contracts/src/libraries/DecimalUtils.sol:20-82 | no two amounts print alike, zero included |
| Hex.HexToBytes | packages/contracts/src/libraries/StringUtils.sol:22-43 | decodes 0x and a nonzero even number of digits of either case, and reverts on all else |
| Hex.BytesToHexString | packages/contracts/src/libraries/CommandUtils.sol:86-97 | two lower-case digits per byte, high nibble first |
| Hex.BytesRoundTrip | packages/contracts/src/libraries/CommandUtils.sol:86-97 | decoding 0x and the printed bytes gives the bytes back exactly when there are any |
| Hex.DecodePrints | packages/contracts/src/libraries/StringUtils.sol:22-75 | printing what was decoded gives the digits in lower case |
| Hex.AddressToChecksumHexString | packages/contracts/src/libraries/CommandUtils.sol:35-72 | the two shifted accumulators give EIP-55: digit k is upper case exactly when hash nibble k is 8 or more |
| Hex.LowerToUpperCase | packages/contracts/src/libraries/CommandUtils.sol:74-84 | only a to f change |
| Hex.AddressToHexString | packages/contracts/src/libraries/CommandUtils.sol:23-33 | the three cases give checksum, lower and upper form; other cases revert |
| Hex.LetterCases | packages/contracts/src/libraries/CommandUtils.sol:23-84 | letter by letter: mixed case follows the hash nibble, the second form has no upper and the third no lower letter |
| Hex.RenderedDecodes | packages/contracts/src/libraries/CommandUtils.sol:23-82 | all three forms decode to the address's own 20 bytes, for any hash function |
| Hex.RenderedInjective | packages/contracts/src/libraries/CommandUtils.sol:23-82 | equal renderings, in any cases, come from equal addresses |
| Words.SplitString | packages/contracts/src/libraries/StringUtils.sol:83-106 | the two-pass splitter returns the parts between delimiters |
| Words.SplitFree | packages/contracts/src/libraries/StringUtils.sol:83-106 | no part has the delimiter, and there is one more part than delimiters |
| Words.JoinSplit | packages/contracts/src/libraries/StringUtils.sol:83-106 | joining the parts gives the string back |
| Words.SplitJoin | packages/contracts/src/libraries/StringUtils.sol:83-106 | splitting a join of delimiter-free words, empty ones included, gives the words back |
| Command.RenderWord | packages/contracts/src/libraries/CommandUtils.sol:112-135 | a matcher takes the next parameter, decoded at its type, and reverts on a missing or malformed one |
| Command.ComputeExpectedCommand | packages/contracts/src/libraries/CommandUtils.sol:103-143 | the loop returns the words joined by single spaces, or reverts when a word cannot be written or the 8-bit counter overflows |
| CommandReading.CommandIff | packages/contracts/src/libraries/CommandUtils.sol:103-143 | over the literal matcher texts and the raw ABI bytes: a command is rendered exactly when there are at most 255 words and each reads as its parameter: {uint} and {decimals} as the encoded word, {int} as its two's complement, {ethAddr} decodes to the last twenty bytes in the letter case asked for, {string} is the encoded text, any other word stays |
| CommandReading.RevertsIff | packages/contracts/src/libraries/CommandUtils.sol:103-143 | rendering reverts exactly for more than 255 words, or a parameter that is missing or not encoded for its matcher |
| CommandReading.ReadingUnique | packages/contracts/src/libraries/CommandUtils.sol:112-131 | for one matcher, parameter and letter case there is one text that reads so |
| Readings.AmountReads | packages/contracts/src/libraries/DecimalUtils.sol:13-15 | a nonzero amount reads back at 18 places, without superfluous zeros; zero is written with its zero byte |
| Readings.RenderedReads | packages/contracts/src/libraries/CommandUtils.sol:23-84 | from the raw word: the text decodes to its last twenty bytes, and each letter follows the case or the hash of the text's own lower-case digits |
| Command.RemovePrefix | packages/contracts/src/libraries/CommandUtils.sol:149-160 | the string without its first bytes, or a revert |
| Command.GetParamWordIndex | packages/contracts/src/libraries/CommandUtils.sol:199-216 | the position of the k-th matcher, if there is one |
| Command.MatcherIndexIff | packages/contracts/src/libraries/CommandUtils.sol:199-216 | it exists exactly when k is below the number of matchers, and k matchers precede it |
| Command.ExtractCommandParamByIndex | packages/contracts/src/libraries/CommandUtils.sol:167-183 | the word at that position, empty for a missing parameter, a revert for too short a command |
| CommandReading.ExtractedExactly | packages/contracts/src/libraries/CommandUtils.sol:167-183 | with the k-th literal matcher at i, extraction returns the word behind i spaces, and reverts exactly when the command has fewer than i spaces; for a larger k it is empty |
| Binding.ExtractRendered | packages/contracts/src/libraries/CommandUtils.sol:103-183 | after space-free words, extraction finds the k-th rendering exactly when that rendering has no space |
| Binding.ExtractRoundTrip | packages/contracts/src/libraries/CommandUtils.sol:103-216 | with space-free words and strings every rendering is extracted again, and "" for larger k |
| Binding.ParamInjective | packages/contracts/src/libraries/CommandUtils.sol:112-131 | equal renderings at one matcher, in any letter cases, come from equal parameters |
| Binding.BindingSpaceFree | packages/contracts/src/EmailAuth.sol:224-241 | space-free lists that render to one command in any letter cases decode alike |
| Binding.BindingOneString | packages/contracts/src/libraries/CommandUtils.sol:103-143 | with at most one {string} the same holds for all parameters, spaces or not |
| Ambiguity.Ambiguous | packages/contracts/src/libraries/CommandUtils.sol:103-143 | with two {string} matchers, two lists that decode differently render to one command |
| Ambiguity.BindsIff | packages/contracts/src/libraries/CommandUtils.sol:103-143 | a template binds its parameters exactly when it has at most one {string} |
| RelayerTemplate.ParseCommandTemplate | packages/relayer/src/command.rs:7-21 | the loop replaces the first brace pair by each value in turn |
| RelayerTemplate.SubstituteNothing | packages/relayer/src/command.rs:13-17 | without an opening brace, or with none closed after the first, a value changes nothing |
| RelayerTemplate.SubstitutionsFill | packages/relayer/src/command.rs:7-21 | values land in the matchers in order, if none before the last has an opening brace |
| RelayerTemplate.Agreement | packages/relayer/src/command.rs:7-21 | the relayer's text for such renderings is the contract's command |
| RelayerTemplate.EarlyStringDisagrees | packages/relayer/src/command.rs:13-17 | a {string} before another matcher has a value on which the two differ |
| RelayerTemplate.AgreesAlwaysIff | packages/relayer/src/command.rs:7-21 | they agree on every command of a template exactly when no {string} precedes another matcher |
| Packing.PackField | packages/contracts/src/utils/Verifier.sol:98-113 | the inner loop accumulates one field little-endian and touches no other |
| Packing.PackBytes2Fields | packages/contracts/src/utils/Verifier.sol:85-116 | the fields are the 31-byte chunks of the padded string |
| Packing.PackBound | packages/contracts/src/utils/Verifier.sol:85-116 | there are ceil(size / 31) fields, each below 2^248 and so below the scalar field's order |
| Packing.PackIff | packages/contracts/src/utils/Verifier.sol:85-116 | two strings pack alike exactly when they agree up to the padded size and trailing zeros |
| Verifier.LayOutSignals | packages/contracts/src/utils/Verifier.sol:51-72 | the 34 slots hold domain, key hash, nullifier, timestamp, command, salt and code flag in that order |
| Verifier.VerifyEmailProof | packages/contracts/src/utils/Verifier.sol:37-75 | a proof with a coordinate outside the base field reverts; otherwise the verifier sees exactly these signals |
| Verifier.VerdictOfEncoding | packages/contracts/src/utils/Verifier.sol:37-75 | for a proof that encodes pA, pB and pC word by word, the Groth16 verifier is asked about these words in this order with the signals; a word at or above the base field reverts |
| Verifier.ProofIsEncoding | packages/contracts/src/utils/Verifier.sol:40-44 | every proof of 256 bytes or more begins with such an encoding |
| Verifier.SignalsIff | packages/contracts/src/utils/Verifier.sol:51-72 | two proofs have equal signals exactly when all seven public members agree, strings up to what packing forgets |
| Verifier.DecodeIff | packages/relayer/src/command.rs:67-82 | unpacking gives back what was packed exactly when it fits and has no zero byte |
| Verifier.MaskedCommandIff | packages/relayer/src/command.rs:67-82 | the relayer reads a proof's command back exactly when it also is UTF-8 |
| Verifier.ReencodeIff | packages/relayer/src/prove.rs:71-88 | re-encoding the decoded proof gives the signals back exactly for the packed domain, a 0/1 flag and zeros only at the command's end |
| Masking.MaskExact | packages/circuits/src/templates/email_auth_template.circom:146-163 | for any reveal that copies command bytes, a masked value is the command's byte, 0 in a seen code or an address, and no byte exactly where both are subtracted |
| Masking.MaskSuffixIff | packages/relayer/src/mail.rs:94-98 | masking the codes of the command with its appended code leaves the command and zeros exactly when it has no seen code and does not end in an unfinished ` code` |
| Masking.LeavesIff | packages/circuits/src/templates/email_auth_template.circom:146-163 | both masks together leave the command and zeros exactly when besides no address is revealed |
| Masking.PlainLeavesIff | packages/relayer/src/mail.rs:96-98 | they leave a command mailed without a code exactly when it has no seen code and no address is revealed |
| Masking.DeliveredIff | packages/relayer/src/command.rs:67-82 | the packed slots are the contract's own and read back as the command exactly when the masks leave it and it is zero-free UTF-8 |
| Masking.Pipeline | packages/circuits/src/templates/email_auth_template.circom:146-164 | from the selected command on, the exact condition for its delivery, with the address output and reveal as parameters |
| MailBody.TextRevealed | packages/circuits/src/templates/email_auth_template.circom:133-142 | in a body that carries a shown text, of the 605 bytes behind the tag exactly the text's are revealed |
| MailBody.SelectsText | packages/circuits/src/templates/email_auth_template.circom:143-144 | the selected command of such a body is the text, with its code if it has one, and zeros |
| MailBody.RevealedAvoids | packages/circuits/src/regexes/command_regex.circom:1294-1333 | no `<`, `>`, `/` or zero byte of a body is ever revealed |
| MailBody.SelectsCode | packages/circuits/src/templates/email_auth_template.circom:174-184 | of a code that stands anywhere in the body, selected where its digits begin, the circuit gets the first 64 digits; a shorter one gives an unreadable string |
| MailBody.StandingCodeChecked | packages/circuits/src/templates/email_auth_template.circom:182-190 | selected there, it passes the code check exactly when it has 64 digits and the first 64 spell the account code in the field |
| MailBody.AppendedCodeStands | packages/relayer/src/mail.rs:94-98 | after a clean command the appended code is a seen match of the whole body, and no digit follows it |
| MailBody.MailDelivers | packages/circuits/src/templates/email_auth_template.circom:133-190 | from the mail body on, mailed with or without a code, a command meets the constraints on command and code and is delivered exactly when it is shown text without a seen code, no address is revealed, its bytes are in range, it begins among the first 605 bytes, and an appended code is not swallowed and spells the account code |
| MailBody.CodeFlagTells | packages/circuits/src/templates/email_auth_template.circom:146-148 | in a mail with shown text and no code of the text's own, the code flag is set exactly when a code was appended |
| MailBody.ConstraintsMet | packages/circuits/src/templates/email_auth_template.circom:133-173 | a body that carries a shown text meets the circuit's constraints on the command exactly when bytes and index are in range |
| MailBody.ConstraintsExactly | packages/circuits/src/templates/email_auth_template.circom:133-173 | for every body and index, the constraints on the command hold exactly when bytes and index are in range, some command is seen, and a code seen in the selected command is seen in the body |
| MailBody.SlashIsCut | packages/circuits/src/templates/email_auth_template.circom:133-144 | `a/b` is clean UTF-8 and is not delivered |
| MailBody.ShownCodeInBody | packages/circuits/src/templates/email_auth_template.circom:166-173 | a code that is seen in the shown text of a body is seen in the body |
| MailBody.CodeConstraint | packages/circuits/src/templates/email_auth_template.circom:173 | so the constraint between the two code outputs holds for every selected command |
| HexNumber.HexTextValue | packages/circuits/src/utils/hex2int.circom:8-19 | printing a number in hex and reading it gives it back |
| HexNumber.ToHexStringMinimal | packages/contracts/src/utils/ECDSAOwnedDKIMRegistry.sol:148 | the hex string is 0x and the digits of the number in whole bytes, as few as hold it |
| HexNumber.ToHexStringInjective | packages/contracts/src/utils/ECDSAOwnedDKIMRegistry.sol:142-150 | the variable-length hex text determines the number |
| Hex2Field.SatisfiableIff | packages/circuits/src/utils/hex2int.circom:39-68 | the constraints can be met exactly by the characters 0 to 9 and a to f |
| Hex2Field.FieldExact | packages/circuits/src/utils/hex2int.circom:9-36 | the output is the big-endian value modulo the field order |
| Hex2Field.ReadsBackIff | packages/circuits/src/utils/hex2int.circom:8-19 | 64-digit text of a number reads back exactly when the number is below the order |
| Hex2Field.FieldInjective | packages/circuits/src/utils/hex2int.circom:8-19 | below the order, the value determines the 64 digits |
| Hex2Field.PrimeReadsAsZero | packages/circuits/src/utils/hex2int.circom:8-19 | the digits of the scalar prime and of zero read alike |
| Hex2Field.NoCodePasses | packages/circuits/src/templates/email_auth_template.circom:185-190 | one-step fact: without a code the account-code check always passes |
| Hex2Field.CodeReads | packages/circuits/src/templates/email_auth_template.circom:185-190 | with a code it passes exactly when the code is readable and its value in the field is the account code |
| Hex2Field.PrintedCodePasses | packages/circuits/src/templates/email_auth_template.circom:185-190 | the 64-digit lower-case text of the account code passes the check |
| Hex2Field.SelectIsProduct | packages/circuits/src/utils/hex2int.circom:39-68 | one-step fact: the bit selections of the model are the products of the constraints |
| DkimMessage.MessageIff | packages/contracts/src/utils/ECDSAOwnedDKIMRegistry.sol:137-151 | two messages are equal exactly when the hashes and the text before the hash are, whatever the domains contain |
| DkimMessage.MessageText | packages/contracts/src/utils/ECDSAOwnedDKIMRegistry.sol:137-151 | the message byte for byte, with minimal digits of the key hash: exactly 64 for a hash of 32 significant bytes |
| DkimMessage.OtherPrefixesAmbiguous | packages/contracts/src/utils/ECDSAOwnedDKIMRegistry.sol:137-151 | corollary, by an example: with prefixes of the caller's choice two different triples share a message |
| DkimMessage.MessageInjective | packages/contracts/src/utils/ECDSAOwnedDKIMRegistry.sol:25-26 | for SET: and REVOKE: the message determines operation, domain and key hash |
| EmailAuth.CheckCommand | packages/contracts/src/EmailAuth.sol:224-241 | the three-case loop passes exactly when some letter case renders to the trimmed command |
| EmailAuth.EmailAuth.Initialize | packages/contracts/src/EmailAuth.sol:58-67 | runs once, sets the owner, and turns the timestamp check on |
| EmailAuth.EmailAuth.TransferOwnership | packages/contracts/src/EmailAuth.sol:18 | the inherited call: the owner names a nonzero successor |
| EmailAuth.EmailAuth.RenounceOwnership | packages/contracts/src/EmailAuth.sol:18 | the inherited call: the owner leaves no successor |
| EmailAuth.EmailAuth.InitDKIMRegistry | packages/contracts/src/EmailAuth.sol:83-94 | sets an unset registry, for the controller |
| EmailAuth.EmailAuth.InitVerifier | packages/contracts/src/EmailAuth.sol:98-106 | sets an unset verifier, for the controller |
| EmailAuth.EmailAuth.UpdateDKIMRegistry | packages/contracts/src/EmailAuth.sol:110-117 | replaces the registry by a nonzero address, for the owner |
| EmailAuth.EmailAuth.UpdateVerifier | packages/contracts/src/EmailAuth.sol:121-125 | replaces the verifier by a nonzero address, for the owner |
| EmailAuth.EmailAuth.InsertCommandTemplate | packages/contracts/src/EmailAuth.sol:144-155 | adds a nonempty template under an unused id |
| EmailAuth.EmailAuth.UpdateCommandTemplate | packages/contracts/src/EmailAuth.sol:161-172 | replaces an existing template by a nonempty one |
| EmailAuth.EmailAuth.DeleteCommandTemplate | packages/contracts/src/EmailAuth.sol:177-184 | removes an existing template |
| EmailAuth.EmailAuth.SetTimestampCheckEnabled | packages/contracts/src/EmailAuth.sol:263-266 | sets the flag, for the controller |
| EmailAuth.EmailAuth.AuthEmail | packages/contracts/src/EmailAuth.sol:189-258 | accepts exactly the messages that meet every requirement, records nullifier and timestamp, and changes nothing otherwise |
| EmailAuth.NullifiersExact | packages/contracts/src/EmailAuth.sol:189-258 | after any run the used nullifiers are exactly the accepted ones, and none was accepted twice |
| AuthHistory.HistoryDecides | packages/contracts/src/EmailAuth.sol:58-266 | after any run, the events, the first initialization, the stored templates and the checked timestamps decide of every next call whether it goes through and what it emits |
| AuthHistory.AcceptedAreGenuine | packages/contracts/src/EmailAuth.sol:189-258 | every acceptance in the log of any run is of an email sent by the controller, with the account's salt, a key valid at the registry and a proof valid at the verifier last announced before it, and a command that renders the template last stored under its id |
| AuthHistory.InitializedOnce | packages/contracts/src/EmailAuth.sol:58-67 | after any run, controller and salt are those of the first initialization with a nonzero owner |
| EmailAuth.LogTellsStorage | packages/contracts/src/EmailAuth.sol:36-46 | after any run the emitted events tell owner, registry, verifier, timestamp flag, live templates and used nullifiers |
| EmailAuth.TemplatesExact | packages/contracts/src/EmailAuth.sol:144-184 | after any run an id holds a template exactly when a successful call stored it there and no later successful call is about the id |
| EmailAuth.TimestampsExact | packages/contracts/src/EmailAuth.sol:204-249 | timestamps accepted under the check strictly increase, and lastTimestamp is the last of them or 0 |
| EmailAuth.LastIsGreatest | packages/contracts/src/EmailAuth.sol:208-249 | no timestamp accepted under the check is greater than lastTimestamp |
| EmailAuth.TemplatesNonempty | packages/contracts/src/EmailAuth.sol:144-184 | after any run every stored template is nonempty |
| EmailAuth.RunKeeps | packages/contracts/src/EmailAuth.sol:58-266 | account and controller stay, registries stay set, used nullifiers stay used, and time does not go back |
| EmailAuth.ReplayRefused | packages/contracts/src/EmailAuth.sol:200-203 | an accepted email is refused ever after, whatever calls lie between |
| EmailAuth.AcceptedForAccount | packages/contracts/src/EmailAuth.sol:204-207 | every email accepted by an initialized contract is for its own account salt |
| EmailAuth.ChangesAuthorized | packages/contracts/src/EmailAuth.sol:48-51 | one-step fact behind OutsidersChangeNothing: which sender and which call can change each part of the storage |
| EmailAuth.OutsidersChangeNothing | packages/contracts/src/EmailAuth.sol:48-51 | once initialized, no sequence of calls by senders other than owner and controller changes anything |
| EmailSigner.EmailSigner.Initialize | packages/contracts/src/EmailSigner.sol:67-82 | runs once, with no zero argument |
| EmailSigner.EmailSigner.VerifyEmail | packages/contracts/src/EmailSigner.sol:90-138 | passes exactly for messages that meet every requirement |
| EmailSigner.EmailSigner.IsValidSignature | packages/contracts/src/EmailSigner.sol:144-165 | answers the magic value exactly for the signed hash, 0 for others, and reverts on an invalid email |
| EmailSigner.EmailSigner.IsValidSignatureOfData | packages/contracts/src/EmailSigner.sol:171-178 | the same over the hash of the data, with the legacy value |
| EmailSigner.RendersHash | packages/contracts/src/EmailSigner.sol:92-133 | the only command a first parameter renders to is "signHash " and its decimal value |
| EmailSigner.OneHashPerCommand | packages/contracts/src/EmailSigner.sol:90-165 | verified messages with one masked command sign one hash, whatever their parameters, cases and skipped prefixes |
| EmailSigner.AtMostOneHash | packages/contracts/src/EmailSigner.sol:144-165 | at most one hash gets the magic value for one masked command |
| EmailSigner.ValidExactly | packages/contracts/src/EmailSigner.sol:144-165 | a verified signature is valid for exactly the hash that its command spells |
| EmailSigner.AnswerExactly | packages/contracts/src/EmailSigner.sol:90-165 | an initialized signer answers the magic value exactly for a message with its own salt and template id, a key valid at its registry, a proof valid at its verifier, and a command that spells the hash; 0 exactly for such a message for another hash; and reverts otherwise |
| EndToEnd.CommandGoesThrough | packages/relayer/src/prove.rs:71-88 | the relayer's text, mailed with or without a code and taken through scanners, code check, masks and packing, is accepted by the circuit, gives the slots of the contract's own rendering, is read back and passes its check, exactly under the conditions of MailDelivers |
| EndToEnd.AcceptedBinding | packages/contracts/src/EmailAuth.sol:189-258 | two accepted emails with one masked command, template and prefix carry the same parameters |
| EndToEnd.ZeroDecimalsUnreadable | packages/contracts/src/libraries/DecimalUtils.sol:53-56 | a command with a zero decimal amount has a zero byte and is not read back from the signals |

## Left out

- Groth16, RSA, SHA-256, Poseidon and keccak: arbitrary functions or answers. `Strings.equal` compares hashes in the library; here it is equality.
- The email-address, domain, from, to and timestamp scanners: their templates are not in the repository. The address output is any bit and its reveal any copy of command bytes that leaves out spaces.
- The reveal selector: its template is not in the repository. It is taken to shift the revealed bytes so that the selected index comes first; `MailBody` selects the first byte behind the tag and the first digit of the appended code. Whatever else the unseen template checks is left out.
- MailBody.MailDelivers: asks that no later command of the mail reaches the 605 selected bytes, that something is mailed, and that an appended code is nonempty lower-case hex. An empty text without code shows no command of its own.
- HTML escaping by the mail template engine and the quoted-printable encoding: the body is the cleaned one that the circuit scans.
- `PackBytes` of the circuit library is not part of this model; it is taken to pack as the contract does. `u256_to_bytes32_little` is taken to be the 32-byte little-endian encoding.
- Gates of the circuit library: AND, MultiOR, MultiNOR, MultiAND are boolean gates and `ORAnd([a, b, c])` is (a or b) and c.
- The relayer's `extract_template_vals_from_command`: its source is not in the repository. Agreement is with the contract's own renderings.
- Relayer HTTP, database, mail, chain client and configuration: I/O. Of the mail module only the format of the appended code is modelled.
- Proxies, upgrades, CREATE2 deployment and factories: wrappers over unseen libraries. Initializer and ownership code of EmailAuth follow version 5 of the contracts library, as declared in the package file. `_disableInitializers` concerns the implementation contract, not the storage modelled here.
- The key registries: answers of `isDKIMPublicKeyHashValid` are arbitrary in every call. Of the ECDSA-owned registry only the signed message is modelled; its external registry is unseen.
- Getters of the contracts, `StringUtils.hexToBytes32` and the constant `commandBytes`: they would only add easy members.
- The legacy subject template: the same masking as the main one.
- Command.GetParamWordIndex: None stands for the maximal unsigned integer, as no template is that long.
- Ambiguity.BindsIff: asks for template words of at most 2^32 bytes, because parameters of 2^64 bytes or more are refused by ABI decoding.
- Gas and memory limits.
