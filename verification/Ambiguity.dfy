/** Two string matchers in one template make commands ambiguous: the converse of Binding.BindingOneString. */
module Ambiguity {
  import opened Bytes
  import opened Words
  import opened Abi
  import opened Command
  import opened Binding

  // ----- joins that agree -----

  lemma JoinLast(ws: seq<bytes>, w: bytes)
    requires ws != []
    ensures Join(ws + [w], SPACE) == Join(ws + [[]], SPACE) + w
  {
    JoinSnoc(ws, w);
    JoinSnoc(ws, []);
  }

  lemma JoinFirst(u: bytes, ws: seq<bytes>)
    requires ws != []
    ensures Join([u] + ws, SPACE) == u + Join([[]] + ws, SPACE)
  {
    JoinCons(u, ws, SPACE);
    JoinCons([], ws, SPACE);
  }

  /** What stands between two slots is written the same whichever slot holds it. */
  lemma JoinSwap(ws: seq<bytes>)
    ensures var mid := Join([[]] + ws + [[]], SPACE);
      mid != [] && Join([mid] + ws + [[]], SPACE) == mid + mid == Join([[]] + ws + [mid], SPACE)
  {
    var mid := Join([[]] + ws + [[]], SPACE);
    JoinSnoc([[]] + ws, []);
    JoinLast([[]] + ws, mid);
    JoinFirst(mid, ws + [[]]);
    assert [mid] + ws + [[]] == [mid] + (ws + [[]]) && [[]] + ws + [[]] == [[]] + (ws + [[]]);
  }

  lemma JoinTail(us: seq<bytes>, tail: seq<bytes>)
    requires us != [] && tail != []
    ensures Join(us + tail, SPACE) == Join(us, SPACE) + [SPACE] + Join(tail, SPACE)
  {
    JoinAppend(us, tail, SPACE);
  }

  /** Word lists that join alike can stand for each other inside a longer list. */
  lemma JoinInside(head: seq<bytes>, us: seq<bytes>, ws: seq<bytes>, tail: seq<bytes>)
    requires us != [] && ws != [] && Join(us, SPACE) == Join(ws, SPACE)
    ensures Join(head + (us + tail), SPACE) == Join(head + (ws + tail), SPACE)
  {
    if tail == [] {
      assert us + tail == us && ws + tail == ws;
    } else {
      JoinTail(us, tail);
      JoinTail(ws, tail);
    }
    JoinAppend(head, us + tail, SPACE);
    JoinAppend(head, ws + tail, SPACE);
  }

  lemma SlotUpdate(ws: seq<bytes>, i: nat, j: nat, mid: bytes)
    requires i < j < |ws| && ws[i] == [] && ws[j] == []
    ensures ws[i..j+1] == [[]] + ws[i+1..j] + [[]]
    ensures ws[i := mid] == ws[..i] + (([mid] + ws[i+1..j] + [[]]) + ws[j+1..])
    ensures ws[j := mid] == ws[..i] + (([[]] + ws[i+1..j] + [mid]) + ws[j+1..])
  {
  }

  /** Between two empty slots, the text between them can be moved from one slot to the other. */
  lemma Shift(ws: seq<bytes>, i: nat, j: nat)
    requires i < j < |ws| && ws[i] == [] && ws[j] == []
    ensures var mid := Join(ws[i..j+1], SPACE); mid != [] && Join(ws[i := mid], SPACE) == Join(ws[j := mid], SPACE)
  {
    var inner, mid := ws[i+1..j], Join(ws[i..j+1], SPACE);
    SlotUpdate(ws, i, j, mid);
    JoinSwap(inner);
    JoinInside(ws[..i], [mid] + inner + [[]], [[]] + inner + [mid], ws[j+1..]);
  }

  lemma {:induction false} JoinBound(ws: seq<bytes>, n: nat)
    requires forall i :: 0 <= i < |ws| ==> |ws[i]| <= n
    ensures |Join(ws, SPACE)| <= |ws| * (n + 1)
    decreases |ws|
  {
    if |ws| > 1 {
      JoinBound(ws[..|ws|-1], n);
      assert (|ws| - 1) * (n + 1) + (n + 1) == |ws| * (n + 1);
    } else if |ws| == 1 {
      assert 1 * (n + 1) == n + 1;
    }
  }

  // ----- parameters for chosen texts -----

  /** A parameter for one matcher: the given text, or zero. */
  function RawFor(m: Matcher, text: bytes): bytes {
    if m.StringM? then EncodeString(text) else ToBigEndian(0, 32)
  }

  /** Parameters that give string matcher k the text texts[k], and every other matcher zero. */
  function Build(t: Template, texts: seq<bytes>): seq<bytes>
    requires |t| == |texts|
  {
    if t == [] then []
    else
      var n := |t| - 1;
      Build(t[..n], texts[..n]) + if IsMatcher(t[n]) then [RawFor(MatcherOf(t[n]).value, texts[n])] else []
  }

  lemma {:induction false} BuildLength(t: Template, texts: seq<bytes>)
    requires |t| == |texts|
    ensures |Build(t, texts)| == MatcherCount(t)
    decreases |t|
  {
    if t != [] { BuildLength(t[..|t|-1], texts[..|t|-1]); }
  }

  lemma BuildStep(t: Template, texts: seq<bytes>)
    requires |t| == |texts| > 0
    ensures var n := |t| - 1;
      && Build(t[..n], texts[..n]) <= Build(t, texts)
      && (IsMatcher(t[n]) ==>
            && MatcherCount(t[..n]) < |Build(t, texts)|
            && Build(t, texts)[MatcherCount(t[..n])] == RawFor(MatcherOf(t[n]).value, texts[n]))
  {
    BuildLength(t[..|t|-1], texts[..|t|-1]);
  }

  lemma {:induction false} BuildAt(t: Template, texts: seq<bytes>, i: nat)
    requires |t| == |texts| && i < |t| && IsMatcher(t[i])
    ensures MatcherCount(t[..i]) < |Build(t, texts)|
    ensures Build(t, texts)[MatcherCount(t[..i])] == RawFor(MatcherOf(t[i]).value, texts[i])
    decreases |t|
  {
    var n := |t| - 1;
    BuildStep(t, texts);
    if i < n {
      BuildAt(t[..n], texts[..n], i);
      assert t[..n][..i] == t[..i];
    }
  }

  /** What the zero word decodes to. */
  function ZeroParam(m: Matcher): Param {
    match m
    case StringM => Str([])
    case UintM => Uint(0)
    case IntM => Int(0)
    case DecimalsM => Decimals(0)
    case EthAddrM => EthAddr(0)
  }

  lemma ZeroRendered(m: Matcher, keccak: bytes -> word)
    ensures RenderedParam(ZeroParam(m), 1, keccak).Ok?
  {
  }

  lemma ZeroDecoded(m: Matcher)
    requires !m.StringM?
    ensures Decoded(m, ToBigEndian(0, 32)) == Ok(ZeroParam(m))
  {
    ZeroWord();
  }

  /** The word that template word w becomes: the text at a string matcher, a zero at any other. */
  function Filled(w: bytes, text: bytes, keccak: bytes -> word): bytes {
    match MatcherOf(w)
    case None => w
    case Some(StringM) => text
    case Some(m) => ZeroRendered(m, keccak); RenderedParam(ZeroParam(m), 1, keccak).value
  }

  lemma FilledText(w: bytes, text: bytes, keccak: bytes -> word)
    requires |text| < TWO_64 && MatcherOf(w) == Some(StringM)
    ensures Decoded(StringM, RawFor(StringM, text)) == Ok(Str(text)) && Filled(w, text, keccak) == text
  {
    StringRoundTrip(text);
  }

  lemma FilledZero(m: Matcher, w: bytes, text: bytes, keccak: bytes -> word)
    requires MatcherOf(w) == Some(m) && !m.StringM?
    ensures Decoded(m, RawFor(m, text)) == Ok(ZeroParam(m))
    ensures RenderedParam(ZeroParam(m), 1, keccak) == Ok(Filled(w, text, keccak))
  {
    ZeroDecoded(m);
    ZeroRendered(m, keccak);
  }

  ghost predicate Short(texts: seq<bytes>) { forall i :: 0 <= i < |texts| ==> |texts[i]| < TWO_64 }

  lemma BuildWord(t: Template, texts: seq<bytes>, i: nat, keccak: bytes -> word)
    requires |t| == |texts| && i < |t| && Short(texts)
    ensures WordFor(Build(t, texts), t, i, 1, keccak) == Ok(Filled(t[i], texts[i], keccak))
  {
    if IsMatcher(t[i]) { BuildAt(t, texts, i); }
    if IsString(t[i]) {
      FilledText(t[i], texts[i], keccak);
    } else if IsMatcher(t[i]) {
      FilledZero(MatcherOf(t[i]).value, t[i], texts[i], keccak);
    }
  }

  function FilledAll(t: Template, texts: seq<bytes>, keccak: bytes -> word): (r: seq<bytes>)
    requires |t| == |texts|
    ensures |r| == |t|
  {
    seq(|t|, i requires 0 <= i < |t| => Filled(t[i], texts[i], keccak))
  }

  /** Each word is written as ws says. */
  ghost predicate Writes(params: seq<bytes>, t: Template, ws: seq<bytes>, keccak: bytes -> word) {
    |ws| == |t| && forall i :: 0 <= i < |t| ==> WordFor(params, t, i, 1, keccak) == Ok(ws[i])
  }

  lemma {:induction false} WritesWords(params: seq<bytes>, t: Template, ws: seq<bytes>, n: nat, keccak: bytes -> word)
    requires Writes(params, t, ws, keccak) && n <= |t|
    ensures WordsOf(params, t, n, 1, keccak) == Ok(ws[..n])
    decreases n
  {
    if n > 0 {
      WritesWords(params, t, ws, n - 1, keccak);
      assert ws[..n] == ws[..n-1] + [ws[n-1]];
    }
  }

  lemma BuildAllWords(t: Template, texts: seq<bytes>, keccak: bytes -> word)
    requires |t| == |texts| && Short(texts)
    ensures WordsOf(Build(t, texts), t, |t|, 1, keccak) == Ok(FilledAll(t, texts, keccak))
  {
    var ws := FilledAll(t, texts, keccak);
    forall i | 0 <= i < |t| ensures WordFor(Build(t, texts), t, i, 1, keccak) == Ok(ws[i]) {
      BuildWord(t, texts, i, keccak);
    }
    WritesWords(Build(t, texts), t, ws, |t|, keccak);
    assert ws[..|t|] == ws;
  }

  // ----- the two parameter lists -----

  lemma {:induction false} TwoStrings(t: Template) returns (i: nat, j: nat)
    requires StringCount(t) >= 2
    ensures i < j < |t| && IsString(t[i]) && IsString(t[j])
    decreases |t|
  {
    var v := t[..|t|-1];
    if StringCount(v) >= 2 {
      i, j := TwoStrings(v);
    } else {
      i := OneString(v);
      j := |t| - 1;
    }
  }

  lemma {:induction false} OneString(t: Template) returns (i: nat)
    requires StringCount(t) >= 1
    ensures i < |t| && IsString(t[i])
    decreases |t|
  {
    if IsString(t[|t|-1]) { i := |t| - 1; } else { i := OneString(t[..|t|-1]); }
  }

  const MAX_WORD: nat := 0x1_00000000

  /** Template words below four gigabytes. */
  ghost predicate Modest(t: Template) { forall i :: 0 <= i < |t| ==> |t[i]| <= MAX_WORD }

  lemma FilledBound(w: bytes, keccak: bytes -> word)
    requires |w| <= MAX_WORD
    ensures |Filled(w, [], keccak)| <= MAX_WORD
  {
    if MatcherOf(w) == Some(DecimalsM) { assert |Decimal.Printed(0, Decimal.DEFAULT_DECIMALS).value| <= 256; }
  }

  lemma EmptyTextsBound(t: Template, keccak: bytes -> word, i: nat, j: nat)
    requires Modest(t) && i <= j < |t| <= 255
    ensures var texts := seq(|t|, _ => []); |Join(FilledAll(t, texts, keccak)[i..j+1], SPACE)| < TWO_64
  {
    var ws := FilledAll(t, seq(|t|, _ => []), keccak)[i..j+1];
    forall k | 0 <= k < |ws| ensures |ws[k]| <= MAX_WORD { FilledBound(t[i+k], keccak); }
    JoinBound(ws, MAX_WORD);
    assert |ws| * (MAX_WORD + 1) <= 255 * (MAX_WORD + 1);
  }

  lemma FilledAllUpdate(t: Template, texts: seq<bytes>, i: nat, text: bytes, keccak: bytes -> word)
    requires |t| == |texts| && i < |t| && IsString(t[i])
    ensures FilledAll(t, texts[i := text], keccak) == FilledAll(t, texts, keccak)[i := text]
  {
  }

  lemma MovedText(t: Template, texts: seq<bytes>, i: nat, text: bytes, keccak: bytes -> word)
    requires |t| == |texts| && Short(texts) && |text| < TWO_64 && i < |t| <= 255 && IsString(t[i])
    ensures Expected(Build(t, texts[i := text]), t, 1, keccak) ==
      Ok(Join(FilledAll(t, texts, keccak)[i := text], SPACE))
  {
    BuildAllWords(t, texts[i := text], keccak);
    FilledAllUpdate(t, texts, i, text, keccak);
  }

  lemma DifferentTexts(t: Template, texts: seq<bytes>, i: nat, j: nat, mid: bytes)
    requires |t| == |texts| && i < j < |t| && IsString(t[i]) && texts[i] == [] && mid != [] && |mid| < TWO_64
    ensures !SameParams(Build(t, texts[i := mid]), Build(t, texts[j := mid]), t)
  {
    BuildAt(t, texts[i := mid], i);
    BuildAt(t, texts[j := mid], i);
    StringRoundTrip(mid);
    StringRoundTrip([]);
    assert !SameParam(Build(t, texts[i := mid]), Build(t, texts[j := mid]), t, i);
  }

  /** With two string matchers, two parameter lists that differ render to one command. */
  lemma Ambiguous(t: Template, keccak: bytes -> word) returns (p: seq<bytes>, q: seq<bytes>)
    requires StringCount(t) >= 2 && |t| <= 255 && Modest(t)
    ensures Expected(p, t, 1, keccak).Ok? && Expected(p, t, 1, keccak) == Expected(q, t, 1, keccak)
    ensures !SameParams(p, q, t)
  {
    var i, j := TwoStrings(t);
    var texts: seq<bytes> := seq(|t|, _ => []);
    var ws := FilledAll(t, texts, keccak);
    var mid := Join(ws[i..j+1], SPACE);
    EmptyTextsBound(t, keccak, i, j);
    Shift(ws, i, j);
    p, q := Build(t, texts[i := mid]), Build(t, texts[j := mid]);
    MovedText(t, texts, i, mid, keccak);
    MovedText(t, texts, j, mid, keccak);
    DifferentTexts(t, texts, i, j, mid);
  }

  /** Two parameter lists that render to one command. */
  predicate Collide(p: seq<bytes>, q: seq<bytes>, t: Template, caseP: nat, caseQ: nat, keccak: bytes -> word) {
    && caseP < 3 && caseQ < 3
    && Expected(p, t, caseP, keccak).Ok? && Expected(p, t, caseP, keccak) == Expected(q, t, caseQ, keccak)
  }

  /** The command determines the parameters that the template uses. */
  ghost predicate Binds(t: Template, keccak: bytes -> word) {
    forall p, q, caseP, caseQ :: Collide(p, q, t, caseP, caseQ, keccak) ==> SameParams(p, q, t)
  }

  /** A template binds its parameters, whatever they contain, exactly when it has at most one {string}. */
  lemma BindsIff(t: Template, keccak: bytes -> word)
    requires |t| <= 255 && Modest(t)
    ensures Binds(t, keccak) <==> StringCount(t) <= 1
  {
    if StringCount(t) <= 1 {
      forall p, q, caseP, caseQ | Collide(p, q, t, caseP, caseQ, keccak) ensures SameParams(p, q, t) {
        BindingOneString(p, q, t, caseP, caseQ, keccak);
      }
    } else {
      var p, q := Ambiguous(t, keccak);
      assert Collide(p, q, t, 1, 1, keccak);
    }
  }
}
