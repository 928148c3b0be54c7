/** The mail body that carries a command and its code, and which of them come out of the circuit again. */
module MailBody {
  import opened Bytes
  import opened Scanner
  import opened Utf8
  import opened CommandRegex
  import opened Packing
  import opened Verifier
  import opened Masking
  import opened HexNumber
  import opened Hex2Field
  import Code = InvitationCode

  /**
   * What surrounds the command: the body before its tag, the three free parts of the tag, and the body after the `<`.
   */
  datatype Mail = Mail(pre: bytes, a1: bytes, a2: bytes, b: bytes, post: bytes) {
    /** The body with a text behind the tag. */
    function Body(text: bytes): bytes { pre + Tag(a1, a2, b) + text + [LT] + post }

    /** Where the text begins. */
    function Start(): nat { |pre| + |Tag(a1, a2, b)| }

    /** The tag is well-formed, no open tag before it swallows it, and no later command reaches the selected bytes. */
    ghost predicate Carries(text: bytes) {
      && TagParts(a1, a2, b) && !Inside(Body(text), |pre|)
      && NoCommandShown(Body(text), Start() + |text|, Start() + COMMAND_BYTES)
    }
  }

  /** No command that begins at q or later shows text before the end. */
  ghost predicate NoCommandShown(body: bytes, q: nat, end: nat) {
    forall p: nat, t: nat, c :: q <= p && LiveCommand(body, p, t, c) ==> end <= t - |c|
  }

  function Suffixed(text: bytes, h: bytes): bytes { text + CODE_WORD + h }

  /** What the relayer mails: the command, followed by its account code when there is one. */
  function Mailed(text: bytes, code: Option<bytes>): (r: bytes)
    ensures r == text + if code.Some? then Ascii(" Code ") + code.value else []
  {
    assert CODE_WORD == Ascii(" Code ");
    match code
    case Some(h) => Suffixed(text, h)
    case None => text
  }

  predicate ReadableCode(code: Option<bytes>) { code.Some? ==> HexCode(code.value) }

  /** What the command circuit reveals at one index, 0 past the end. */
  ghost function Revealed(body: bytes, k: nat): (r: byte)
    ensures r == if k < |body| && InCommand(body, k) then body[k] else 0
  {
    if k < |body| then RevealText(body, k); Reveal(CIRCUIT, Input(body), k) else 0
  }

  /** command_all: the revealed bytes from the selected index on. */
  ghost function CommandAll(body: bytes, idx: nat): (r: bytes)
    ensures |r| == COMMAND_BYTES
  {
    seq<byte>(COMMAND_BYTES, i requires 0 <= i < COMMAND_BYTES => Revealed(body, idx + i))
  }

  // ----- two live commands do not overlap -----

  lemma LiveInput(body: bytes, p: nat, t: nat, c: bytes)
    requires LiveCommand(body, p, t, c)
    ensures LiveCommand(Input(body), p + 1, t + 1, c)
  {
    LiveShift(body, p + 1, t + 1, c);
  }

  /** A live command, in the coordinates of the scanner, is an accepted run. */
  lemma LiveRun(tb: Table, body: bytes, p: nat, t: nat, c: bytes)
    requires Sealed(tb) && LiveCommand(body, p, t, c)
    ensures AcceptedRun(tb, Input(body), p + 1, t + 1)
  {
    LiveInput(body, p, t, c);
    CommandIsRun(tb, Input(body), p + 1, t + 1, c);
  }

  lemma RunUnbroken(tb: Table, inp: bytes, s: nat, t: nat, u: nat)
    requires ZeroIsDead(tb) && tb.accept != 0 && AcceptedRun(tb, inp, s, t) && s < u < t
    ensures !Restart(tb, inp, u)
  {
    Follows(tb, inp, s, t);
  }

  lemma DisjointRuns(tb: Table, body: bytes, p: nat, t: nat, c: bytes, q: nat, u: nat, d: bytes)
    requires Sealed(tb) && LiveCommand(body, p, t, c) && LiveCommand(body, q, u, d)
    ensures !(p < q < t)
  {
    LiveRun(tb, body, p, t, c);
    LiveRun(tb, body, q, u, d);
    if p < q < t { RunUnbroken(tb, Input(body), p + 1, t + 1, q + 1); }
  }

  lemma Disjoint(body: bytes, p: nat, t: nat, c: bytes, q: nat, u: nat, d: bytes)
    requires LiveCommand(body, p, t, c) && LiveCommand(body, q, u, d)
    ensures !(p < q < t)
  {
    TableSealed();
    DisjointRuns(TABLE, body, p, t, c, q, u, d);
  }

  /** A match goes on past a whole match only with text. */
  lemma NoLongerMatch(w: bytes, c: bytes, n: nat)
    requires MatchText(w, c) && 1 <= n < |w| && CommandMatch(w[..n])
    ensures w[n] != LT
  {
    TableSealed();
    var a1, a2, b := MatchTag(w, c);
    MatchState(TABLE, w[..n]);
    if n < |w| - |c| { TagState(TABLE, w, c, n); }
    assert c[n-(|w|-|c|)] == w[n];
    TextAvoids(c, {0, 47, 60, 62}, n - (|w| - |c|));
  }

  // ----- a shown text -----

  lemma CarriedLive(m: Mail, text: bytes)
    requires m.Carries(text) && text != [] && Shown(text)
    ensures LiveCommand(m.Body(text), |m.pre|, m.Start() + |text|, text)
  {
    var w := m.Body(text)[|m.pre|..m.Start()+|text|];
    assert w == Tag(m.a1, m.a2, m.b) + text;
    assert MatchText(w, text);
  }

  /** No match passes a `<` that ends a shorter match. */
  lemma MatchStops(body: bytes, p: nat, q: nat, t: nat, c: bytes)
    requires p < q < t <= |body| && body[q] == LT && CommandMatch(body[p..q])
    ensures !MatchText(body[p..t], c)
  {
    assert body[p..t][..q-p] == body[p..q] && body[p..t][q-p] == body[q];
    if MatchText(body[p..t], c) { NoLongerMatch(body[p..t], c, q - p); }
  }

  lemma LtAfter(m: Mail, text: bytes)
    ensures var q := m.Start() + |text|; q < |m.Body(text)| && m.Body(text)[q] == LT
  {
  }

  lemma SameStart(m: Mail, text: bytes, t: nat, c: bytes)
    requires m.Carries(text) && text != [] && Shown(text) && LiveCommand(m.Body(text), |m.pre|, t, c)
    ensures t <= m.Start() + |text|
  {
    var q := m.Start() + |text|;
    CarriedLive(m, text);
    LtAfter(m, text);
    assert CommandMatch(m.Body(text)[|m.pre|..q]);
    if q < t { MatchStops(m.Body(text), |m.pre|, q, t, c); }
  }

  /** In the selected bytes nothing is revealed past the text. */
  lemma NothingAfter(m: Mail, text: bytes, p: nat, t: nat, c: bytes, i: nat)
    requires m.Carries(text) && text != [] && Shown(text) && m.Start() + |text| <= i < m.Start() + COMMAND_BYTES
    ensures !ShownIn(m.Body(text), p, t, c, i)
  {
    var q := m.Start() + |text|;
    if ShownIn(m.Body(text), p, t, c, i) {
      CarriedLive(m, text);
      Disjoint(m.Body(text), p, t, c, |m.pre|, q, text);
      Disjoint(m.Body(text), |m.pre|, q, text, p, t, c);
      if p == |m.pre| { SameStart(m, text, t, c); }
    }
  }

  lemma TextRevealed(m: Mail, text: bytes, i: nat)
    requires m.Carries(text) && text != [] && Shown(text)
    requires m.Start() <= i < |m.Body(text)| && i < m.Start() + COMMAND_BYTES
    ensures InCommand(m.Body(text), i) <==> i < m.Start() + |text|
  {
    if i < m.Start() + |text| {
      CarriedLive(m, text);
      assert ShownIn(m.Body(text), |m.pre|, m.Start() + |text|, text, i);
    } else if InCommand(m.Body(text), i) {
      var p: nat, t: nat, c :| ShownIn(m.Body(text), p, t, c, i);
      NothingAfter(m, text, p, t, c, i);
    }
  }

  lemma SelectedByte(m: Mail, text: bytes, i: nat)
    requires m.Carries(text) && text != [] && Shown(text) && i < COMMAND_BYTES
    ensures CommandAll(m.Body(text), m.Start())[i] == if i < |text| then text[i] else 0
  {
    assert CommandAll(m.Body(text), m.Start())[i] == Revealed(m.Body(text), m.Start() + i);
    if m.Start() + i < |m.Body(text)| { TextRevealed(m, text, m.Start() + i); }
    if i < |text| { assert m.Body(text)[m.Start()+i] == text[i]; }
  }

  lemma SuffixShown(text: bytes, h: bytes)
    requires Shown(text) && HexCode(h)
    ensures Shown(Suffixed(text, h))
  {
    var s := CODE_WORD + h;
    forall i | 0 <= i < |s| ensures s[i] < 0x80 && s[i] !in {0, 47, 60, 62} {
      if i >= 6 { assert s[i] == h[i-6]; } else { assert s[i] == CODE_WORD[i]; }
    }
    AsciiText(s, {0, 47, 60, 62});
    TextConcat(text, s, {0, 47, 60, 62});
    assert text + s == Suffixed(text, h);
  }

  lemma MailedShown(text: bytes, code: Option<bytes>)
    requires Shown(text) && ReadableCode(code)
    ensures Shown(Mailed(text, code))
  {
    if code.Some? { SuffixShown(text, code.value); }
  }

  /** The circuit selects the whole text, with its code if there is one, and zeros after it. */
  lemma SelectsText(m: Mail, text: bytes)
    requires m.Carries(text) && text != [] && Shown(text) && |text| <= COMMAND_BYTES
    ensures CommandAll(m.Body(text), m.Start()) == Padded(text, COMMAND_BYTES)
  {
    forall i | 0 <= i < COMMAND_BYTES
      ensures CommandAll(m.Body(text), m.Start())[i] == Padded(text, COMMAND_BYTES)[i]
    {
      SelectedByte(m, text, i);
    }
  }

  lemma SuffixedPadded(text: bytes, h: bytes)
    requires |text| + 6 + |h| <= COMMAND_BYTES
    ensures Padded(Suffixed(text, h), COMMAND_BYTES) == WithCode(text, h, COMMAND_BYTES)
  {
    assert WithCode(text, h, COMMAND_BYTES) ==
      Suffixed(text, h) + Repeat(0, COMMAND_BYTES - |Suffixed(text, h)|);
  }

  // ----- a text that is not shown -----

  lemma ShownPart(body: bytes, p: nat, t: nat, c: bytes)
    requires LiveCommand(body, p, t, c)
    ensures |c| < t - p && c == body[t-|c|..t] && body[t-|c|-1] == GT
  {
    var a1, a2, b := MatchTag(body[p..t], c);
    var w := body[p..t];
    assert w[|w|-|c|..] == c;
    assert Tag(a1, a2, b)[|w|-|c|-1] == GT;
  }

  /** Of the three bytes and zero, none is ever revealed. */
  lemma RevealedAvoids(body: bytes, i: nat)
    requires i < |body| && InCommand(body, i)
    ensures body[i] !in {0, 47, 60, 62}
  {
    var p: nat, t: nat, c :| ShownIn(body, p, t, c, i);
    ShownPart(body, p, t, c);
    TextAvoids(c, {0, 47, 60, 62}, i - (t - |c|));
  }

  /** The command that reveals the last byte of a stretch after `>` begins with the stretch. */
  lemma StretchStart(body: bytes, i: nat, n: nat, p: nat, t: nat, c: bytes)
    requires 1 <= i < n <= |body| && body[i-1] == GT && ShownIn(body, p, t, c, n - 1)
    requires forall k :: i <= k < n ==> InCommand(body, k)
    ensures t - |c| == i
  {
    ShownPart(body, p, t, c);
    var a := t - |c|;
    if a < i { TextAvoids(c, {0, 47, 60, 62}, i - 1 - a); }
    if a > i { RevealedAvoids(body, a - 1); }
  }

  lemma SliceTake(body: bytes, i: nat, n: nat, t: nat)
    requires i <= n <= t <= |body|
    ensures body[i..t][..n-i] == body[i..n] && (n < t ==> body[i..t][n-i] == body[n])
  {
  }

  lemma ShownPrefix(c: bytes, n: nat)
    requires Shown(c) && n <= |c| && (n < |c| ==> c[n] < 0x80)
    ensures Shown(c[..n])
  {
    if n < |c| { TextCut(c, {0, 47, 60, 62}, n); } else { assert c[..n] == c; }
  }

  /** A stretch of revealed bytes between `>` and an ASCII byte is shown text. */
  lemma RevealedShown(body: bytes, i: nat, n: nat)
    requires 1 <= i <= n < |body| && body[i-1] == GT && body[n] < 0x80
    requires forall k :: i <= k < n ==> InCommand(body, k)
    ensures Shown(body[i..n])
  {
    if i < n {
      assert InCommand(body, n - 1);
      var p: nat, t: nat, c :| ShownIn(body, p, t, c, n - 1);
      StretchStart(body, i, n, p, t, c);
      ShownPart(body, p, t, c);
      SliceTake(body, i, n, t);
      ShownPrefix(c, n - i);
    }
  }

  lemma LeftByte(command: bytes, emailOut: nat, email: bytes, i: nat, x: byte)
    requires Copies(command, email) && emailOut <= 1 && i < |command| && x != 0
    requires MaskedByte(command, emailOut, email, i) == x
    ensures command[i] == x
  {
    MaskExact(command, emailOut, email, i);
  }

  lemma SelectedIsRevealed(body: bytes, idx: nat, i: nat)
    requires i < COMMAND_BYTES && CommandAll(body, idx)[i] != 0
    ensures idx + i < |body| && InCommand(body, idx + i)
  {
    assert CommandAll(body, idx)[i] == Revealed(body, idx + i);
  }

  lemma DeliveredByte(command: bytes, emailOut: nat, email: bytes, text: bytes, i: nat)
    requires |command| == COMMAND_BYTES && Copies(command, email) && emailOut <= 1
    requires Leaves(MaskedValues(command, emailOut, email), text) && i < |text| && text[i] != 0
    ensures command[i] == text[i]
  {
    assert MaskedValues(command, emailOut, email)[i] == Padded(text, COMMAND_BYTES)[i];
    LeftByte(command, emailOut, email, i, text[i]);
  }

  lemma DeliveredRevealed(body: bytes, idx: nat, text: bytes, emailOut: nat, email: bytes, i: nat)
    requires Copies(CommandAll(body, idx), email) && emailOut <= 1 && i < |text|
    requires Delivered(text, MaskedValues(CommandAll(body, idx), emailOut, email))
    ensures idx + i < |body| && InCommand(body, idx + i)
  {
    DeliveredIff(text, MaskedValues(CommandAll(body, idx), emailOut, email));
    DeliveredByte(CommandAll(body, idx), emailOut, email, text, i);
    SelectedIsRevealed(body, idx, i);
  }

  lemma PartsStand(pre: bytes, tag: bytes, text: bytes, rest: bytes)
    requires tag != [] && tag[|tag|-1] == GT && rest != []
    ensures var body, idx := pre + tag + text + rest, |pre| + |tag|;
      && 1 <= idx && idx + |text| < |body| && body[idx-1] == GT && body[idx+|text|] == rest[0]
      && body[idx..idx+|text|] == text
  {
  }

  /** What follows the text in the body: its code, if it has one, and the `<`. */
  function Rest(m: Mail, code: Option<bytes>): (r: bytes)
    ensures r != [] && r[0] < 0x80
  {
    match code
    case Some(h) => CODE_WORD + h + [LT] + m.post
    case None => [LT] + m.post
  }

  lemma BodyParts(m: Mail, text: bytes, code: Option<bytes>)
    ensures m.Body(Mailed(text, code)) == m.pre + Tag(m.a1, m.a2, m.b) + text + Rest(m, code)
  {
  }

  lemma TextStands(m: Mail, text: bytes, code: Option<bytes>)
    ensures var body, idx := m.Body(Mailed(text, code)), m.Start();
      && 1 <= idx && idx + |text| < |body| && body[idx-1] == GT && body[idx+|text|] < 0x80
      && body[idx..idx+|text|] == text
  {
    var tag := Tag(m.a1, m.a2, m.b);
    assert tag[|tag|-1] == GT;
    BodyParts(m, text, code);
    PartsStand(m.pre, tag, text, Rest(m, code));
  }

  lemma DeliveredStretch(body: bytes, idx: nat, text: bytes, emailOut: nat, email: bytes)
    requires 1 <= idx && idx + |text| < |body| && body[idx-1] == GT && body[idx+|text|] < 0x80
    requires body[idx..idx+|text|] == text && emailOut <= 1 && Copies(CommandAll(body, idx), email)
    requires Delivered(text, MaskedValues(CommandAll(body, idx), emailOut, email))
    ensures Shown(text)
  {
    forall k | idx <= k < idx + |text| ensures InCommand(body, k) {
      DeliveredRevealed(body, idx, text, emailOut, email, k - idx);
    }
    RevealedShown(body, idx, idx + |text|);
  }

  /** What is delivered was shown. */
  lemma DeliveredShown(m: Mail, text: bytes, code: Option<bytes>, emailOut: nat, email: bytes)
    requires emailOut <= 1 && Copies(CommandAll(m.Body(Mailed(text, code)), m.Start()), email)
    requires Delivered(text, MaskedValues(CommandAll(m.Body(Mailed(text, code)), m.Start()), emailOut, email))
    ensures Shown(text)
  {
    TextStands(m, text, code);
    DeliveredStretch(m.Body(Mailed(text, code)), m.Start(), text, emailOut, email);
  }

  // ----- the two code scanners agree -----

  /** `>` ends what a match could be absorbed by. */
  lemma {:induction false} AbsorbedBehind(body: bytes, i: nat, p: nat)
    requires 1 <= i && i + p <= |body| && body[i-1] == GT
    ensures Code.Absorbed(body, i + p) <==> Code.Absorbed(body[i..], p)
    decreases p
  {
    if p >= 5 {
      assert body[i..][p-5..p] == body[i+p-5..i+p];
      AbsorbedBehind(body, i, p - 5);
    } else if i + p >= 5 && Code.Opening(body[i+p-5..i+p]) {
      OpeningBytes(body[i+p-5..i+p], 4 - p);
    }
  }

  lemma OpeningBytes(w: bytes, k: nat)
    requires |w| == 5 && Code.Opening(w) && k < 5
    ensures w[k] != GT
  {
  }

  lemma CodeBehind(body: bytes, i: nat, p: nat, t: nat)
    requires 1 <= i && i + t <= |body| && body[i-1] == GT && Code.LiveMatch(body[i..], p, t)
    ensures Code.LiveMatch(body, i + p, i + t)
  {
    assert body[i..][p..t] == body[i+p..i+t];
    AbsorbedBehind(body, i, p);
  }

  /** A live match of a stretch behind `>` is one of the body. */
  lemma CodeInStretch(body: bytes, i: nat, c: bytes, p: nat, t: nat)
    requires 1 <= i && i + |c| <= |body| && body[i-1] == GT && body[i..i+|c|] == c && Code.LiveMatch(c, p, t)
    ensures Code.LiveMatch(body, i + p, i + t)
  {
    assert body[i..][..|c|] == c;
    CodeInPrefix(body[i..], |c|, p, t);
    CodeBehind(body, i, p, t);
  }

  /** A code that the scanner sees in the shown text, it also sees in the body: the text follows a `>`. */
  lemma ShownCodeInBody(body: bytes, p: nat, t: nat, c: bytes)
    requires LiveCommand(body, p, t, c) && Code.HasLiveMatch(c)
    ensures Code.HasLiveMatch(body)
  {
    ShownPart(body, p, t, c);
    var s: nat, u: nat :| Code.LiveMatch(c, s, u);
    CodeInStretch(body, t - |c|, c, s, u);
  }

  /** The circuit's constraint that a code in the selected command must also be one in the body can always be met. */
  lemma CodeConstraint(body: bytes, p: nat, t: nat, c: bytes)
    requires LiveCommand(body, p, t, c) && |c| <= COMMAND_BYTES
    ensures CodeBit(Padded(c, COMMAND_BYTES)) * (1 - Bit(Out(Code.PLAIN, Input(body)))) == 0
  {
    Code.OutExact(Code.WITH_PREFIX, Padded(c, COMMAND_BYTES));
    Code.OutExact(Code.PLAIN, body);
    if Code.HasLiveMatch(Padded(c, COMMAND_BYTES)) {
      PaddedCodes(c, COMMAND_BYTES);
      ShownCodeInBody(body, p, t, c);
    }
  }

  // ----- the code that the circuit selects -----

  /** What the code circuit reveals of the body at one index. */
  ghost function CodeRevealed(body: bytes, k: nat): (r: byte)
    requires k < |body|
    ensures r == if Code.InDigits(body, k) then body[k] else 0
  {
    Code.RevealDigits(body, k);
    Reveal(Code.PLAIN, Input(body), k)
  }

  /** replaced_code_regex_reveal, 0 past the end: without a code, 1 at the first index and 0 elsewhere. */
  ghost function Replaced(body: bytes, isCodeExist: nat, k: nat): byte {
    if k >= |body| then 0
    else if k == 0 then Select(isCodeExist, CodeRevealed(body, k) - 1) + 1
    else Select(isCodeExist, CodeRevealed(body, k))
  }

  /** shifted_code_hex: sixty-four bytes from the selected index on. */
  ghost function SelectedCode(body: bytes, isCodeExist: nat, codeIdx: nat): (r: bytes)
    ensures |r| == 64
  {
    seq<byte>(64, i requires 0 <= i < 64 => Replaced(body, isCodeExist, codeIdx + i))
  }

  lemma SelectedDigit(body: bytes, codeIdx: nat, i: nat)
    requires i < 64 && codeIdx + i < |body|
    ensures SelectedCode(body, 1, codeIdx)[i] == if Code.InDigits(body, codeIdx + i) then body[codeIdx+i] else 0
  {
    assert SelectedCode(body, 1, codeIdx)[i] == Replaced(body, 1, codeIdx + i);
  }

  /** Only hex digits are revealed by the code scanner. */
  lemma DigitsAreHex(body: bytes, i: nat)
    requires i < |body|
    ensures Code.InDigits(body, i) ==> IsHex(body[i])
  {
    if Code.InDigits(body, i) {
      var p: nat, t: nat :| Code.DigitOf(body, p, t, i);
      assert IsHex(body[p..t][i-p]);
    }
  }

  /** The digits of a live match whose sixth byte is a space. */
  lemma DigitsBehindSpace(body: bytes, p: nat, t: nat, i: nat)
    requires Code.LiveMatch(body, p, t) && p + 6 <= i < t && body[p+5] == SPACE
    ensures Code.InDigits(body, i)
  {
    assert body[p..t][5] == body[p+5];
    assert Code.DigitOf(body, p, t, i);
  }

  /** An account code stands in the body at p: ` Code ` and its digits are a live match, and no hex digit follows. */
  ghost predicate CodeStands(body: bytes, p: nat, h: bytes) {
    && p + 6 + |h| < |body| && body[p+6..p+6+|h|] == h
    && Code.LiveMatch(body, p, p + 6 + |h|) && body[p+5] == SPACE && !IsHex(body[p+6+|h|])
  }

  lemma StandingDigit(body: bytes, p: nat, h: bytes, i: nat)
    requires CodeStands(body, p, h) && i < |h|
    ensures Code.InDigits(body, p + 6 + i)
  {
    DigitsBehindSpace(body, p, p + 6 + |h|, p + 6 + i);
  }

  lemma SelectsDigit(body: bytes, codeIdx: nat, h: bytes, i: nat)
    requires codeIdx + |h| < |body| && body[codeIdx..codeIdx+|h|] == h && i < 64 && i < |h|
    requires Code.InDigits(body, codeIdx + i)
    ensures SelectedCode(body, 1, codeIdx)[i] == h[i]
  {
    assert body[codeIdx..codeIdx+|h|][i] == body[codeIdx+i];
    SelectedDigit(body, codeIdx, i);
  }

  lemma SelectsZero(body: bytes, codeIdx: nat, i: nat)
    requires i < 64 && codeIdx + i < |body| && !IsHex(body[codeIdx+i])
    ensures SelectedCode(body, 1, codeIdx)[i] == 0
  {
    DigitsAreHex(body, codeIdx + i);
    SelectedDigit(body, codeIdx, i);
  }

  /** Of a standing code the circuit selects the first sixty-four digits; a shorter one gives no readable string. */
  lemma SelectsCode(body: bytes, p: nat, h: bytes)
    requires CodeStands(body, p, h)
    ensures |h| >= 64 ==> SelectedCode(body, 1, p + 6) == h[..64]
    ensures |h| < 64 ==> !AllHex(SelectedCode(body, 1, p + 6))
  {
    var r := SelectedCode(body, 1, p + 6);
    if |h| < 64 {
      SelectsZero(body, p + 6, |h|);
      assert !IsHex(r[|h|]);
    } else {
      forall i | 0 <= i < 64 ensures r[i] == h[..64][i] {
        StandingDigit(body, p, h, i);
        SelectsDigit(body, p + 6, h, i);
      }
    }
  }

  /** The code's first sixty-four digits spell the account code in the field of order q. */
  predicate CodeFor(h: bytes, accountCode: nat, q: nat)
    requires q > 0 && AllHex(h)
  {
    |h| >= 64 && HexValue(h[..64]) % q == accountCode
  }

  /** The circuit's constraints on the code: its index, its digits, and its value. */
  ghost predicate CodeChecked(body: bytes, isCodeExist: nat, codeIdx: nat, accountCode: nat, q: nat)
    requires isCodeExist <= 1 && accountCode < q
  {
    codeIdx < |body| && CodeConstraints(isCodeExist, SelectedCode(body, isCodeExist, codeIdx), accountCode, q)
  }

  /** Selected where it stands, a code passes exactly when it spells the account code. */
  lemma StandingCodeChecked(body: bytes, p: nat, h: bytes, accountCode: nat, q: nat)
    requires AllHex(h) && CodeStands(body, p, h) && accountCode < q && q > 1
    ensures CodeChecked(body, 1, p + 6, accountCode, q) <==> CodeFor(h, accountCode, q)
  {
    SelectsCode(body, p, h);
    CodeReads(SelectedCode(body, 1, p + 6), accountCode, q);
  }

  /** Where the digits of the appended code begin. */
  function CodeIndex(m: Mail, text: bytes): nat { m.Start() + |text| + 6 }

  lemma SuffixLive(text: bytes, h: bytes)
    requires HexCode(h) && CleanEnd(text)
    ensures Code.LiveMatch(Suffixed(text, h), |text|, |text| + 6 + |h|)
  {
    var size := |text| + 6 + |h|;
    SuffixMatches(text, h, size);
    CodeAtEnd(text, h, size);
    assert WithCode(text, h, size) == Suffixed(text, h);
  }

  lemma SuffixParts(text: bytes, h: bytes)
    ensures var full := Suffixed(text, h);
      |full| == |text| + 6 + |h| && full[|text|+5] == SPACE && full[|text|+6..] == h
  {
    assert Suffixed(text, h)[|text|+5] == CODE_WORD[5];
  }

  /** A text stands in the body at i, between `>` and `<`. */
  predicate Behind(body: bytes, i: nat, text: bytes) {
    && 1 <= i && i + |text| < |body| && body[i-1] == GT && body[i+|text|] == LT
    && body[i..i+|text|] == text
  }

  lemma MailedStands(m: Mail, text: bytes)
    ensures Behind(m.Body(text), m.Start(), text)
  {
    TextStands(m, text, None);
    LtAfter(m, text);
  }

  lemma StretchParts(body: bytes, i: nat, full: bytes, n: nat)
    requires i + |full| <= |body| && body[i..i+|full|] == full && n < |full|
    ensures body[i+n] == full[n] && body[i+n+1..i+|full|] == full[n+1..]
  {
    assert body[i..i+|full|][n] == body[i+n];
    assert body[i+n+1..i+|full|] == body[i..i+|full|][n+1..];
  }

  lemma CodeStandsBehind(body: bytes, i: nat, full: bytes, n: nat, h: bytes)
    requires Behind(body, i, full) && Code.LiveMatch(full, n, |full|)
    requires |full| == n + 6 + |h| && full[n+5] == SPACE && full[n+6..] == h
    ensures CodeStands(body, i + n, h)
  {
    CodeInStretch(body, i, full, n, |full|);
    StretchParts(body, i, full, n + 5);
  }

  /** After a clean command the appended code stands in the body. */
  lemma AppendedCodeStands(body: bytes, i: nat, text: bytes, h: bytes)
    requires HexCode(h) && CleanEnd(text) && Behind(body, i, Suffixed(text, h))
    ensures CodeStands(body, i + |text|, h)
  {
    SuffixLive(text, h);
    SuffixParts(text, h);
    CodeStandsBehind(body, i, Suffixed(text, h), |text|, h);
  }

  /** The circuit sees a code in the selected command exactly when the mailed text has a seen one. */
  lemma CodeBitIs(full: bytes)
    requires |full| <= COMMAND_BYTES
    ensures CodeBit(Padded(full, COMMAND_BYTES)) == if Code.HasLiveMatch(full) then 1 else 0
  {
    Code.OutExact(Code.WITH_PREFIX, Padded(full, COMMAND_BYTES));
    PaddedCodes(full, COMMAND_BYTES);
  }

  /** The code that was appended to a clean command passes exactly when it spells the account code. */
  lemma AppendedCodeChecked(body: bytes, i: nat, text: bytes, h: bytes, accountCode: nat, q: nat)
    requires HexCode(h) && CleanEnd(text) && |Suffixed(text, h)| <= COMMAND_BYTES
    requires Behind(body, i, Suffixed(text, h)) && accountCode < q && q > 1
    ensures var bit := CodeBit(Padded(Suffixed(text, h), COMMAND_BYTES));
      bit <= 1 && (CodeChecked(body, bit, i + |text| + 6, accountCode, q) <==> CodeFor(h, accountCode, q))
  {
    SuffixLive(text, h);
    CodeBitIs(Suffixed(text, h));
    AppendedCodeStands(body, i, text, h);
    StandingCodeChecked(body, i + |text|, h, accountCode, q);
  }

  // ----- exactly which commands are delivered -----

  /** The circuit's constraints on body, index and selected command. */
  ghost predicate CommandConstraints(body: bytes, idx: nat) {
    && Message(body) && Out(CIRCUIT, Input(body)) && idx < COMMAND_BYTES
    && CodeBit(CommandAll(body, idx)) * (1 - Bit(Out(Code.PLAIN, Input(body)))) == 0
  }

  lemma BitProduct(a: bool, b: bool)
    ensures Bit(a) * (1 - Bit(b)) == 0 <==> (a ==> b)
  {
    if a { assert Bit(a) * (1 - Bit(b)) == 1 - Bit(b); } else { assert Bit(a) * (1 - Bit(b)) == 0; }
  }

  lemma CodeProduct(command: bytes, body: bytes)
    ensures CodeBit(command) * (1 - Bit(Out(Code.PLAIN, Input(body)))) == 0 <==>
      (Code.HasLiveMatch(command) ==> Code.HasLiveMatch(body))
  {
    Code.OutExact(Code.WITH_PREFIX, command);
    Code.OutExact(Code.PLAIN, body);
    BitProduct(Out(Code.WITH_PREFIX, Input(command)), Out(Code.PLAIN, Input(body)));
  }

  /**
   * For every body and index: the bytes are in range, some command is seen, the index is below the command's bound, and
   * a code that is seen in the selected command is seen in the body too.
   */
  lemma ConstraintsExactly(body: bytes, idx: nat)
    ensures CommandConstraints(body, idx) <==>
      && Message(body) && HasLiveCommand(body) && idx < 605
      && (Code.HasLiveMatch(CommandAll(body, idx)) ==> Code.HasLiveMatch(body))
  {
    CodeProduct(CommandAll(body, idx), body);
    OutExact(body);
  }

  /** A body that carries a shown text meets them, if its bytes and the index are in range. */
  lemma ConstraintsMet(m: Mail, text: bytes)
    requires m.Carries(text) && text != [] && Shown(text) && |text| <= COMMAND_BYTES
    ensures CommandConstraints(m.Body(text), m.Start()) <==> Message(m.Body(text)) && m.Start() < COMMAND_BYTES
  {
    CarriedLive(m, text);
    OutExact(m.Body(text));
    SelectsText(m, text);
    CodeConstraint(m.Body(text), |m.pre|, m.Start() + |text|, text);
  }

  lemma ShownHasNoZero(text: bytes)
    requires Shown(text)
    ensures 0 !in text && Text(text, {})
  {
    TextWeaken(text, {0, 47, 60, 62}, {});
    if 0 in text {
      var i :| 0 <= i < |text| && text[i] == 0;
      TextAvoids(text, {0, 47, 60, 62}, i);
    }
  }

  /** What the prover chooses and the address scanner answers. */
  datatype Witness = Witness(codeIdx: nat, accountCode: nat, emailOut: nat, email: bytes) {
    predicate InField(q: nat) { accountCode < q && q > 1 && emailOut <= 1 }
  }

  /** No code comes from the command itself; an appended one is seen and spells the account code. */
  ghost predicate CodeFits(text: bytes, code: Option<bytes>, w: Witness, q: nat, body: bytes)
    requires ReadableCode(code) && q > 0
  {
    match code
    case Some(h) => CleanEnd(text) && CodeFor(h, w.accountCode, q)
    case None => !Code.HasLiveMatch(text) && w.codeIdx < |body|
  }

  lemma ShownWithCode(text: bytes, h: bytes, command: bytes, emailOut: nat, email: bytes)
    requires Shown(text) && HexCode(h) && |text| + 6 + |h| <= COMMAND_BYTES
    requires command == Padded(Suffixed(text, h), COMMAND_BYTES) && emailOut <= 1 && AddressReveal(command, email)
    ensures Delivered(text, MaskedValues(command, emailOut, email)) <==> CleanEnd(text) && NoAddress(emailOut, email)
  {
    SuffixedPadded(text, h);
    Pipeline(text, h, emailOut, email);
    ShownHasNoZero(text);
  }

  lemma ShownWithoutCode(text: bytes, command: bytes, emailOut: nat, email: bytes)
    requires Shown(text) && |text| <= COMMAND_BYTES && command == Padded(text, COMMAND_BYTES)
    requires emailOut <= 1 && Copies(command, email)
    ensures Delivered(text, MaskedValues(command, emailOut, email)) <==>
      !Code.HasLiveMatch(text) && NoAddress(emailOut, email)
  {
    PlainLeavesIff(text, COMMAND_BYTES, emailOut, email);
    DeliveredIff(text, MaskedValues(command, emailOut, email));
    ShownHasNoZero(text);
  }

  /** A body meets every constraint on command and code, and what the circuit packs delivers the text. */
  ghost predicate BodyDelivers(body: bytes, idx: nat, text: bytes, w: Witness, q: nat)
    requires w.InField(q) && |w.email| == COMMAND_BYTES
  {
    var command := CommandAll(body, idx);
    && CommandConstraints(body, idx)
    && CodeChecked(body, CodeBit(command), w.codeIdx, w.accountCode, q)
    && Delivered(text, MaskedValues(command, w.emailOut, w.email))
  }

  ghost predicate MailArrives(m: Mail, text: bytes, code: Option<bytes>, w: Witness, q: nat)
    requires w.InField(q) && |w.email| == COMMAND_BYTES
  {
    BodyDelivers(m.Body(Mailed(text, code)), m.Start(), text, w, q)
  }

  /** A body with a command and its appended code, selected where they stand. */
  lemma BodyWithCode(body: bytes, idx: nat, text: bytes, h: bytes, w: Witness, q: nat)
    requires HexCode(h) && |Suffixed(text, h)| <= COMMAND_BYTES && Shown(text) && Behind(body, idx, Suffixed(text, h))
    requires CommandAll(body, idx) == Padded(Suffixed(text, h), COMMAND_BYTES)
    requires w.InField(q) && AddressReveal(CommandAll(body, idx), w.email) && w.codeIdx == idx + |text| + 6
    ensures BodyDelivers(body, idx, text, w, q) <==>
      && CommandConstraints(body, idx)
      && CleanEnd(text) && CodeFor(h, w.accountCode, q) && NoAddress(w.emailOut, w.email)
  {
    ShownWithCode(text, h, CommandAll(body, idx), w.emailOut, w.email);
    if CleanEnd(text) { AppendedCodeChecked(body, idx, text, h, w.accountCode, q); }
  }

  lemma BodyWithoutCode(body: bytes, idx: nat, text: bytes, w: Witness, q: nat)
    requires |text| <= COMMAND_BYTES && Shown(text) && CommandAll(body, idx) == Padded(text, COMMAND_BYTES)
    requires w.InField(q) && AddressReveal(CommandAll(body, idx), w.email)
    ensures BodyDelivers(body, idx, text, w, q) <==>
      && CommandConstraints(body, idx)
      && !Code.HasLiveMatch(text) && w.codeIdx < |body| && NoAddress(w.emailOut, w.email)
  {
    CodeBitIs(text);
    ShownWithoutCode(text, CommandAll(body, idx), w.emailOut, w.email);
    NoCodePasses(SelectedCode(body, 0, w.codeIdx), w.accountCode, q);
  }

  /** With an appended code, selected where it was appended. */
  lemma ArrivesWithCode(m: Mail, text: bytes, h: bytes, w: Witness, q: nat)
    requires HexCode(h) && |Suffixed(text, h)| <= COMMAND_BYTES && m.Carries(Suffixed(text, h)) && Shown(text)
    requires w.InField(q) && AddressReveal(CommandAll(m.Body(Suffixed(text, h)), m.Start()), w.email)
    requires w.codeIdx == CodeIndex(m, text)
    ensures MailArrives(m, text, Some(h), w, q) <==>
      && CleanEnd(text) && CodeFor(h, w.accountCode, q) && NoAddress(w.emailOut, w.email)
      && Message(m.Body(Suffixed(text, h))) && m.Start() < COMMAND_BYTES
  {
    SuffixShown(text, h);
    SelectsText(m, Suffixed(text, h));
    ConstraintsMet(m, Suffixed(text, h));
    MailedStands(m, Suffixed(text, h));
    BodyWithCode(m.Body(Suffixed(text, h)), m.Start(), text, h, w, q);
  }

  /** Without a code, whichever index of the body the prover names. */
  lemma ArrivesWithoutCode(m: Mail, text: bytes, w: Witness, q: nat)
    requires text != [] && |text| <= COMMAND_BYTES && m.Carries(text) && Shown(text)
    requires w.InField(q) && AddressReveal(CommandAll(m.Body(text), m.Start()), w.email)
    ensures MailArrives(m, text, None, w, q) <==>
      && !Code.HasLiveMatch(text) && w.codeIdx < |m.Body(text)| && NoAddress(w.emailOut, w.email)
      && Message(m.Body(text)) && m.Start() < COMMAND_BYTES
  {
    SelectsText(m, text);
    ConstraintsMet(m, text);
    BodyWithoutCode(m.Body(text), m.Start(), text, w, q);
  }

  /**
   * From the mail body on, through every constraint on command and code: a command is delivered exactly when it is
   * shown text (well-formed UTF-8 without `<`, `>`, `/` and zero) with no seen code of its own, no address is revealed,
   * the mail's bytes are below the sentinel, the text begins among the first 605 bytes, and an appended code is not
   * swallowed by an unfinished ` code`, has 64 digits or more, and its first 64 spell the account code.
   */
  lemma MailDelivers(m: Mail, text: bytes, code: Option<bytes>, w: Witness, q: nat)
    requires ReadableCode(code) && Mailed(text, code) != [] && |Mailed(text, code)| <= 605
    requires m.Carries(Mailed(text, code)) && (code.Some? ==> w.codeIdx == CodeIndex(m, text))
    requires w.InField(q) && AddressReveal(CommandAll(m.Body(Mailed(text, code)), m.Start()), w.email)
    ensures MailArrives(m, text, code, w, q) <==>
      && Shown(text) && NoAddress(w.emailOut, w.email) && CodeFits(text, code, w, q, m.Body(Mailed(text, code)))
      && Message(m.Body(Mailed(text, code))) && m.Start() < 605
  {
    if Shown(text) {
      match code
      case Some(h) => ArrivesWithCode(m, text, h, w, q);
      case None => ArrivesWithoutCode(m, text, w, q);
    } else if MailArrives(m, text, code, w, q) {
      DeliveredShown(m, text, code, w.emailOut, w.email);
    }
  }

  /** A code of fewer than 64 digits is masked, but meets no account code. */
  lemma ShortCodeFails(m: Mail, text: bytes, h: bytes, w: Witness, q: nat)
    requires HexCode(h) && |h| < 64 && |Suffixed(text, h)| <= COMMAND_BYTES && m.Carries(Suffixed(text, h))
    requires w.InField(q) && AddressReveal(CommandAll(m.Body(Suffixed(text, h)), m.Start()), w.email)
    requires w.codeIdx == CodeIndex(m, text)
    ensures !MailArrives(m, text, Some(h), w, q)
  {
    MailDelivers(m, text, Some(h), w, q);
  }

  /** No code of the text itself, and no unfinished one before an appended code. */
  ghost predicate NoOwnCode(text: bytes, code: Option<bytes>) {
    if code.Some? then CleanEnd(text) else !Code.HasLiveMatch(text)
  }

  /** The public code flag of such a mail says whether a code was appended. */
  lemma CodeFlagTells(m: Mail, text: bytes, code: Option<bytes>)
    requires ReadableCode(code) && Mailed(text, code) != [] && |Mailed(text, code)| <= COMMAND_BYTES
    requires m.Carries(Mailed(text, code)) && Shown(text) && NoOwnCode(text, code)
    ensures CodeBit(CommandAll(m.Body(Mailed(text, code)), m.Start())) == if code.Some? then 1 else 0
  {
    MailedShown(text, code);
    SelectsText(m, Mailed(text, code));
    CodeBitIs(Mailed(text, code));
    if code.Some? { SuffixLive(text, code.value); }
  }

  lemma SlashNotShown()
    ensures !Shown(Ascii("a/b"))
  {
    var text := Ascii("a/b");
    assert text[1..][0] == 47;
    assert !Text(text[1..], {0, 47, 60, 62});
  }

  /** A command with a slash is clean UTF-8, and is cut before the slash. */
  lemma SlashIsCut(m: Mail, code: Option<bytes>, w: Witness, q: nat)
    requires var full := Mailed(Ascii("a/b"), code);
      && ReadableCode(code) && |full| <= COMMAND_BYTES && m.Carries(full)
      && w.InField(q) && AddressReveal(CommandAll(m.Body(full), m.Start()), w.email)
    requires code.Some? ==> w.codeIdx == CodeIndex(m, Ascii("a/b"))
    ensures var text := Ascii("a/b"); Text(text, {0}) && CleanEnd(text) && !MailArrives(m, text, code, w, q)
  {
    var text := Ascii("a/b");
    AsciiText(text, {0});
    SlashNotShown();
    MailDelivers(m, text, code, w, q);
  }
}
