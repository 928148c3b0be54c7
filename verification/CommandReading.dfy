/** What a rendered command says: each word read back from the matcher's own text and the parameter's raw bytes. */
module CommandReading {
  import opened Bytes
  import opened Words
  import opened Numerals
  import opened Hex
  import opened Abi
  import opened Command
  import opened Readings
  import Decimal

  // ----- words -----

  /** One encoded word. */
  predicate HasWord(raw: bytes) { |raw| >= 32 }

  function FirstWord(raw: bytes): word
    requires HasWord(raw)
  {
    BigEndianBound(raw[..32]);
    WordSize();
    BigEndian(raw[..32])
  }

  /** A string of a given length at a given offset, both announced by words and in bounds. */
  predicate StringAt(raw: bytes, at: nat, length: nat) {
    && HasWord(raw) && FirstWord(raw) == at < 0x1_0000000000000000
    && at + 32 <= |raw| && BigEndian(raw[at..at+32]) == length < 0x1_0000000000000000
    && at + 32 + length <= |raw|
  }

  ghost predicate HasString(raw: bytes) { exists at: nat, length: nat :: StringAt(raw, at, length) }

  ghost predicate ReadsString(raw: bytes, text: bytes) {
    exists at: nat, length: nat :: StringAt(raw, at, length) && text == raw[at+32..at+32+length]
  }

  /** The five literal matchers, as a template spells them. */
  predicate IsPlaceholder(w: bytes) {
    || w == Ascii("{string}") || w == Ascii("{uint}") || w == Ascii("{int}") || w == Ascii("{decimals}")
    || w == Ascii("{ethAddr}")
  }

  function Placeholders(t: Template): nat {
    if t == [] then 0 else Placeholders(t[..|t|-1]) + if IsPlaceholder(t[|t|-1]) then 1 else 0
  }

  /** A parameter is encoded as the template word asks, and the letter case exists if it is needed. */
  ghost predicate Encoded(w: bytes, raw: bytes, stringCase: nat) {
    if w == Ascii("{string}") then HasString(raw)
    else if w == Ascii("{ethAddr}") then HasWord(raw) && raw[..12] == Repeat(0, 12) && stringCase < 3
    else HasWord(raw)
  }

  /** What the text says about the parameter, or that it is the template word itself. */
  ghost predicate ReadsAs(w: bytes, raw: bytes, text: bytes, stringCase: nat, keccak: bytes -> word)
    requires Encoded(w, raw, stringCase)
  {
    if w == Ascii("{string}") then ReadsString(raw, text)
    else if w == Ascii("{uint}") then ReadsUint(text, FirstWord(raw))
    else if w == Ascii("{int}") then ReadsInt(text, FirstWord(raw))
    else if w == Ascii("{decimals}") then ReadsAmount(text, FirstWord(raw))
    else if w == Ascii("{ethAddr}") then ReadsAddress(text, raw[12..32], stringCase, keccak)
    else text == w
  }

  /** Position i of the template can be written: it is no matcher, or its parameter is there and encoded for it. */
  ghost predicate Writable(params: seq<bytes>, t: Template, stringCase: nat, i: nat)
    requires i < |t|
  {
    var j := Placeholders(t[..i]);
    IsPlaceholder(t[i]) ==> j < |params| && Encoded(t[i], params[j], stringCase)
  }

  ghost predicate WordReads(params: seq<bytes>, t: Template, stringCase: nat, keccak: bytes -> word, i: nat,
                            text: bytes)
    requires i < |t| && Writable(params, t, stringCase, i)
  {
    if IsPlaceholder(t[i]) then ReadsAs(t[i], params[Placeholders(t[..i])], text, stringCase, keccak) else text == t[i]
  }

  lemma Lengths()
    ensures |Ascii("{string}")| == 8 && |Ascii("{uint}")| == 6 && |Ascii("{int}")| == 5
    ensures |Ascii("{decimals}")| == 10 && |Ascii("{ethAddr}")| == 9
  {
  }

  lemma PlaceholderIff(w: bytes)
    ensures IsPlaceholder(w) <==> IsMatcher(w)
  {
    Lengths();
  }

  lemma {:induction false} PlaceholdersAre(t: Template)
    ensures Placeholders(t) == MatcherCount(t)
    decreases |t|
  {
    if t != [] {
      PlaceholderIff(t[|t|-1]);
      PlaceholdersAre(t[..|t|-1]);
    }
  }

  /** No two texts say the same. */
  lemma ReadingUnique(w: bytes, raw: bytes, x: bytes, y: bytes, stringCase: nat, keccak: bytes -> word)
    requires Encoded(w, raw, stringCase)
    requires ReadsAs(w, raw, x, stringCase, keccak) && ReadsAs(w, raw, y, stringCase, keccak)
    ensures x == y
  {
    if w == Ascii("{string}") {
    } else if w == Ascii("{uint}") {
      UintUnique(x, FirstWord(raw));
      UintUnique(y, FirstWord(raw));
    } else if w == Ascii("{int}") {
      IntUnique(x, y, FirstWord(raw));
    } else if w == Ascii("{decimals}") {
      if FirstWord(raw) > 0 {
        AmountUnique(x, FirstWord(raw));
        AmountUnique(y, FirstWord(raw));
      }
    } else if w == Ascii("{ethAddr}") {
      AddressUnique(x, y, raw[12..32], stringCase, keccak);
    }
  }

  lemma StringReads(raw: bytes)
    ensures DecodeString(raw).Ok? <==> HasString(raw)
    ensures DecodeString(raw).Ok? ==> ReadsString(raw, DecodeString(raw).value)
  {
    if |raw| >= 32 {
      assert raw[0..32] == raw[..32];
      var at := FirstWord(raw);
      if at + 32 <= |raw| {
        var length := BigEndian(raw[at..at+32]);
        assert DecodeString(raw).Ok? ==> StringAt(raw, at, length);
      }
    }
  }

  lemma WordIs(raw: bytes)
    requires HasWord(raw)
    ensures WordAt(raw, 0) == FirstWord(raw)
  {
    assert raw[0..32] == raw[..32];
  }

  /** One parameter, from its raw bytes: when it can be written, and what the text says. */
  ghost predicate ParamReads(m: Matcher, w: bytes, raw: bytes, stringCase: nat, keccak: bytes -> word) {
    && (Decoded(m, raw).Ok? && RenderedParam(Decoded(m, raw).value, stringCase, keccak).Ok? <==>
        Encoded(w, raw, stringCase))
    && (Encoded(w, raw, stringCase) ==>
          ReadsAs(w, raw, RenderedParam(Decoded(m, raw).value, stringCase, keccak).value, stringCase, keccak))
  }

  lemma StringParam(raw: bytes, stringCase: nat, keccak: bytes -> word)
    ensures ParamReads(StringM, Ascii("{string}"), raw, stringCase, keccak)
  {
    StringReads(raw);
  }

  lemma UintParam(raw: bytes, stringCase: nat, keccak: bytes -> word)
    ensures ParamReads(UintM, Ascii("{uint}"), raw, stringCase, keccak)
  {
    Lengths();
    if HasWord(raw) {
      WordIs(raw);
      DecReads(FirstWord(raw));
    }
  }

  lemma IntParam(raw: bytes, stringCase: nat, keccak: bytes -> word)
    ensures ParamReads(IntM, Ascii("{int}"), raw, stringCase, keccak)
  {
    Lengths();
    if HasWord(raw) {
      WordIs(raw);
      DecSignedReads(FirstWord(raw));
    }
  }

  lemma DecimalsParam(raw: bytes, stringCase: nat, keccak: bytes -> word)
    ensures ParamReads(DecimalsM, Ascii("{decimals}"), raw, stringCase, keccak)
  {
    Lengths();
    if HasWord(raw) {
      WordIs(raw);
      AmountReads(FirstWord(raw));
    }
  }

  lemma AddressWord(raw: bytes)
    ensures DecodeAddress(raw) == if HasWord(raw) && raw[..12] == Repeat(0, 12) then Ok(FirstWord(raw)) else Revert
  {
    if HasWord(raw) {
      WordIs(raw);
      AddressWordIff(raw[..32]);
      assert raw[..32][..12] == raw[..12];
    }
  }

  lemma AddressText(raw: bytes, a: address, stringCase: nat, keccak: bytes -> word)
    requires DecodeAddress(raw) == Ok(a) && HasWord(raw) && stringCase < 3
    ensures Rendered(a, stringCase, keccak).Ok?
    ensures ReadsAddress(Rendered(a, stringCase, keccak).value, raw[12..32], stringCase, keccak)
  {
    WordIs(raw);
    assert raw[..32][12..32] == raw[12..32];
    RenderedReads(raw[..32], stringCase, keccak);
  }

  lemma MatcherReads(w: bytes, raw: bytes, stringCase: nat, keccak: bytes -> word)
    requires IsMatcher(w)
    ensures ParamReads(MatcherOf(w).value, w, raw, stringCase, keccak)
  {
    match MatcherOf(w).value {
      case StringM => StringParam(raw, stringCase, keccak);
      case UintM => UintParam(raw, stringCase, keccak);
      case IntM => IntParam(raw, stringCase, keccak);
      case DecimalsM => DecimalsParam(raw, stringCase, keccak);
      case EthAddrM =>
        Lengths();
        AddressWord(raw);
        if DecodeAddress(raw).Ok? && stringCase < 3 {
          AddressText(raw, DecodeAddress(raw).value, stringCase, keccak);
        }
    }
  }

  lemma WordForReads(params: seq<bytes>, t: Template, stringCase: nat, keccak: bytes -> word, i: nat)
    requires i < |t|
    ensures WordFor(params, t, i, stringCase, keccak).Ok? <==> Writable(params, t, stringCase, i)
    ensures Writable(params, t, stringCase, i) ==>
      WordReads(params, t, stringCase, keccak, i, WordFor(params, t, i, stringCase, keccak).value)
  {
    var j := MatcherCount(t[..i]);
    PlaceholderIff(t[i]);
    PlaceholdersAre(t[..i]);
    if IsMatcher(t[i]) && j < |params| { MatcherReads(t[i], params[j], stringCase, keccak); }
  }

  // ----- commands -----

  lemma {:induction false} WordsOkIff(params: seq<bytes>, t: Template, n: nat, stringCase: nat, keccak: bytes -> word)
    requires n <= |t|
    ensures WordsOf(params, t, n, stringCase, keccak).Ok? <==>
      forall i: nat :: i < n ==> Writable(params, t, stringCase, i)
    decreases n
  {
    if n > 0 {
      WordsOkIff(params, t, n - 1, stringCase, keccak);
      WordForReads(params, t, stringCase, keccak, n - 1);
    }
  }

  /** The words read as the template and the parameters say. */
  ghost predicate AllRead(params: seq<bytes>, t: Template, stringCase: nat, keccak: bytes -> word, ws: seq<bytes>) {
    && |ws| == |t|
    && forall i: nat :: i < |t| ==>
         Writable(params, t, stringCase, i) && WordReads(params, t, stringCase, keccak, i, ws[i])
  }

  lemma WordsRead(params: seq<bytes>, t: Template, stringCase: nat, keccak: bytes -> word)
    requires WordsOf(params, t, |t|, stringCase, keccak).Ok?
    ensures AllRead(params, t, stringCase, keccak, WordsOf(params, t, |t|, stringCase, keccak).value)
  {
    var ws := WordsOf(params, t, |t|, stringCase, keccak).value;
    forall i: nat | i < |t|
      ensures Writable(params, t, stringCase, i) && WordReads(params, t, stringCase, keccak, i, ws[i])
    {
      WordsOfAt(params, t, |t|, stringCase, keccak, i);
      WordForReads(params, t, stringCase, keccak, i);
    }
  }

  lemma SameReading(params: seq<bytes>, t: Template, stringCase: nat, keccak: bytes -> word, us: seq<bytes>,
                    ws: seq<bytes>)
    requires AllRead(params, t, stringCase, keccak, us) && AllRead(params, t, stringCase, keccak, ws)
    ensures us == ws
  {
    forall i: nat | i < |t| ensures us[i] == ws[i] {
      assert Writable(params, t, stringCase, i) && WordReads(params, t, stringCase, keccak, i, us[i]);
      assert WordReads(params, t, stringCase, keccak, i, ws[i]);
      if IsPlaceholder(t[i]) {
        ReadingUnique(t[i], params[Placeholders(t[..i])], us[i], ws[i], stringCase, keccak);
      }
    }
  }

  lemma ReadWordsAre(params: seq<bytes>, t: Template, stringCase: nat, keccak: bytes -> word, ws: seq<bytes>)
    requires AllRead(params, t, stringCase, keccak, ws)
    ensures WordsOf(params, t, |t|, stringCase, keccak) == Ok(ws)
  {
    WordsOkIff(params, t, |t|, stringCase, keccak);
    WordsRead(params, t, stringCase, keccak);
    SameReading(params, t, stringCase, keccak, ws, WordsOf(params, t, |t|, stringCase, keccak).value);
  }

  /**
   * What a rendered command says, word by word, from the matchers' literal texts and the raw parameters: numbers and
   * amounts read as the encoded word, signed ones as its two's complement, addresses decode to its last twenty bytes in
   * the letter case asked for, strings are the encoded text, and other words are the template's own. A command is
   * rendered exactly when it has at most 255 words and they read so, and there is only one such command.
   */
  lemma CommandIff(params: seq<bytes>, t: Template, stringCase: nat, keccak: bytes -> word, command: bytes)
    ensures Expected(params, t, stringCase, keccak) == Ok(command) <==>
      |t| <= 255 && exists ws :: AllRead(params, t, stringCase, keccak, ws) && command == Join(ws, SPACE)
  {
    if Expected(params, t, stringCase, keccak) == Ok(command) {
      WordsRead(params, t, stringCase, keccak);
    } else if ws :| |t| <= 255 && AllRead(params, t, stringCase, keccak, ws) && command == Join(ws, SPACE) {
      ReadWordsAre(params, t, stringCase, keccak, ws);
    }
  }

  /** It reverts exactly when there are more words, or some parameter is missing or not encoded for its matcher. */
  lemma RevertsIff(params: seq<bytes>, t: Template, stringCase: nat, keccak: bytes -> word)
    ensures Expected(params, t, stringCase, keccak) == Revert <==>
      |t| > 255 || exists i: nat :: i < |t| && !Writable(params, t, stringCase, i)
  {
    WordsOkIff(params, t, |t|, stringCase, keccak);
  }

  // ----- extraction -----

  /** Position i holds the k-th matcher. */
  predicate HoldsParam(t: Template, k: nat, i: nat) {
    i < |t| && IsPlaceholder(t[i]) && Placeholders(t[..i]) == k
  }

  lemma IndexHolds(t: Template, k: nat)
    ensures MatcherIndex(t, k).None? <==> k >= Placeholders(t)
    ensures MatcherIndex(t, k).Some? ==> HoldsParam(t, k, MatcherIndex(t, k).value)
  {
    MatcherIndexIff(t, k);
    PlaceholdersAre(t);
    if MatcherIndex(t, k).Some? {
      PlaceholdersAre(t[..MatcherIndex(t, k).value]);
      PlaceholderIff(t[MatcherIndex(t, k).value]);
    }
  }

  lemma {:induction false} PlaceholdersGrow(t: Template, i: nat, j: nat)
    requires i < j <= |t| && IsPlaceholder(t[i])
    ensures Placeholders(t[..i]) < Placeholders(t[..j])
    decreases j
  {
    assert t[..j][..j-1] == t[..j-1];
    if i < j - 1 { PlaceholdersGrow(t, i, j - 1); }
  }

  lemma OneHolder(t: Template, k: nat, i: nat, j: nat)
    requires HoldsParam(t, k, i) && HoldsParam(t, k, j)
    ensures i == j
  {
    if i < j { PlaceholdersGrow(t, i, j); }
    if j < i { PlaceholdersGrow(t, j, i); }
  }

  /**
   * Extraction of parameter k: empty for a k that the template does not have; otherwise, with the k-th matcher at i,
   * the word of the command that follows i spaces, and a revert exactly when the command has fewer than i spaces.
   */
  lemma ExtractedExactly(t: Template, command: bytes, k: nat, i: nat)
    ensures k >= Placeholders(t) ==> Extracted(t, command, k) == Ok([])
    ensures HoldsParam(t, k, i) ==>
      k < Placeholders(t) && (Extracted(t, command, k) == Revert <==> i >= Count(command, SPACE) + 1)
    ensures HoldsParam(t, k, i) && i <= Count(command, SPACE) ==>
      exists u, w, v :: Extracted(t, command, k) == Ok(w) && PartAt(command, i, u, w, v)
  {
    IndexHolds(t, k);
    SplitFree(command, SPACE);
    if HoldsParam(t, k, i) {
      PlaceholdersGrow(t, i, |t|);
      assert t[..|t|] == t;
      OneHolder(t, k, i, MatcherIndex(t, k).value);
      if i <= Count(command, SPACE) { PartOf(command, i); }
    }
  }

  /** w stands in the command between u and v, after i spaces, and has none. */
  predicate PartAt(command: bytes, i: nat, u: bytes, w: bytes, v: bytes) {
    && command == u + w + v && Free(w, SPACE) && Count(u, SPACE) == i
    && (u == [] || u[|u|-1] == SPACE) && (v == [] || v[0] == SPACE)
  }

  lemma {:induction false} CountJoin(ws: seq<bytes>)
    requires AllFree(ws, SPACE)
    ensures Count(Before(ws, SPACE), SPACE) == |ws|
  {
    if ws != [] {
      SplitJoin(ws, SPACE);
      SplitFree(Join(ws, SPACE), SPACE);
      assert Before(ws, SPACE)[..|Join(ws, SPACE)|] == Join(ws, SPACE);
    }
  }

  lemma JoinParts(ws: seq<bytes>, i: nat)
    requires i < |ws|
    ensures var rest := ws[i+1..];
      Join(ws, SPACE) == Before(ws[..i], SPACE) + ws[i] + if rest == [] then [] else [SPACE] + Join(rest, SPACE)
  {
    var rest := ws[i+1..];
    assert ws == ws[..i] + ([ws[i]] + rest);
    JoinAppend(ws[..i], [ws[i]] + rest, SPACE);
    if rest != [] { JoinCons(ws[i], rest, SPACE); } else { assert [ws[i]] + rest == [ws[i]]; }
  }

  lemma PartOf(command: bytes, i: nat)
    requires i < |Split(command, SPACE)|
    ensures exists u, v :: PartAt(command, i, u, Split(command, SPACE)[i], v)
  {
    var ws := Split(command, SPACE);
    SplitFree(command, SPACE);
    JoinSplit(command, SPACE);
    JoinParts(ws, i);
    CountJoin(ws[..i]);
    var v := if ws[i+1..] == [] then [] else [SPACE] + Join(ws[i+1..], SPACE);
    assert PartAt(command, i, Before(ws[..i], SPACE), ws[i], v);
  }
}
