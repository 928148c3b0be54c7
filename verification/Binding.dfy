/** What a command says about its parameters: extraction finds them, and the command determines them. */
module Binding {
  import opened Bytes
  import opened Words
  import opened Numerals
  import opened Hex
  import opened Abi
  import opened Command

  // ----- renderings contain no space and no brace, except of strings -----

  const OPEN: byte := 123
  const CLOSE: byte := 125

  lemma ParamAvoids(p: Param, stringCase: nat, keccak: bytes -> word, b: byte)
    requires b == SPACE || b == OPEN
    requires !p.Str? && RenderedParam(p, stringCase, keccak).Ok?
    ensures Free(RenderedParam(p, stringCase, keccak).value, b)
  {
    var s := RenderedParam(p, stringCase, keccak).value;
    match p {
      case Uint(u) =>
      case Int(i) =>
      case Decimals(d) =>
        if b in s { Decimal.PrintedBytes(d, Decimal.DEFAULT_DECIMALS, b); }
      case EthAddr(a) =>
        forall i | 0 <= i < |s| ensures s[i] != b {
          if i >= 2 { RenderedDigit(a, stringCase, keccak, i); } else { assert s[i] == PREFIX[i]; }
        }
    }
  }

  /** The rendering of a parameter determines it, in whatever letter cases. */
  lemma ParamInjective(m: Matcher, rawP: bytes, rawQ: bytes, p: Param, q: Param, caseP: nat, caseQ: nat,
                       keccak: bytes -> word)
    requires caseP < 3 && caseQ < 3 && Decoded(m, rawP) == Ok(p) && Decoded(m, rawQ) == Ok(q)
    requires RenderedParam(p, caseP, keccak).Ok? && RenderedParam(p, caseP, keccak) == RenderedParam(q, caseQ, keccak)
    ensures p == q
  {
    match m {
      case StringM =>
      case UintM => DecInjective(p.u, q.u);
      case IntM => DecSignedInjective(p.i, q.i);
      case DecimalsM => Decimal.PrintedInjective(p.d, q.d, Decimal.DEFAULT_DECIMALS);
      case EthAddrM => RenderedInjective(p.a, caseP, q.a, caseQ, keccak);
    }
  }

  predicate IsString(w: bytes) { MatcherOf(w) == Some(StringM) }

  /** Words that cannot carry a space of the parameter's own. */
  lemma WordForFree(params: seq<bytes>, t: Template, i: nat, stringCase: nat, keccak: bytes -> word)
    requires i < |t| && WordFor(params, t, i, stringCase, keccak).Ok? && !IsString(t[i])
    ensures MatcherOf(t[i]).None? ==> WordFor(params, t, i, stringCase, keccak) == Ok(t[i])
    ensures MatcherOf(t[i]).Some? ==> Free(WordFor(params, t, i, stringCase, keccak).value, SPACE)
  {
    var j := MatcherCount(t[..i]);
    match MatcherOf(t[i]) {
      case None =>
      case Some(m) => ParamAvoids(Decoded(m, params[j]).value, stringCase, keccak, SPACE);
    }
  }

  /** Template words and string parameters without spaces. */
  ghost predicate SpaceFree(params: seq<bytes>, t: Template) {
    forall i :: 0 <= i < |t| ==>
      && (MatcherOf(t[i]).None? ==> Free(t[i], SPACE))
      && (IsString(t[i]) && MatcherCount(t[..i]) < |params| && DecodeString(params[MatcherCount(t[..i])]).Ok?
          ==> Free(DecodeString(params[MatcherCount(t[..i])]).value, SPACE))
  }

  lemma SpaceFreeWord(params: seq<bytes>, t: Template, i: nat, stringCase: nat, keccak: bytes -> word)
    requires SpaceFree(params, t) && i < |t| && WordFor(params, t, i, stringCase, keccak).Ok?
    ensures Free(WordFor(params, t, i, stringCase, keccak).value, SPACE)
  {
    if !IsString(t[i]) { WordForFree(params, t, i, stringCase, keccak); }
  }

  lemma SpaceFreeWords(params: seq<bytes>, t: Template, stringCase: nat, keccak: bytes -> word)
    requires SpaceFree(params, t) && WordsOf(params, t, |t|, stringCase, keccak).Ok?
    ensures AllFree(WordsOf(params, t, |t|, stringCase, keccak).value, SPACE)
  {
    var ws := WordsOf(params, t, |t|, stringCase, keccak).value;
    forall i | 0 <= i < |ws| ensures Free(ws[i], SPACE) {
      WordsOfAt(params, t, |t|, stringCase, keccak, i);
      SpaceFreeWord(params, t, i, stringCase, keccak);
    }
  }

  // ----- extraction finds the parameters -----

  /**
   * The k-th parameter of a rendered command is found again whenever no earlier word contains a space: exactly when its
   * own rendering contains none. A parameter that the template does not have comes back empty.
   */
  lemma ExtractRendered(params: seq<bytes>, t: Template, stringCase: nat, keccak: bytes -> word, k: nat)
    requires Expected(params, t, stringCase, keccak).Ok?
    ensures var command := Expected(params, t, stringCase, keccak).value;
      match MatcherIndex(t, k)
      case None => k >= MatcherCount(t) && Extracted(t, command, k) == Ok([])
      case Some(i) =>
        var ws := WordsOf(params, t, |t|, stringCase, keccak).value;
        && MatcherCount(t[..i]) == k < MatcherCount(t)
        && WordFor(params, t, i, stringCase, keccak) == Ok(ws[i])
        && (AllFree(ws[..i], SPACE) ==> (Extracted(t, command, k) == Ok(ws[i]) <==> Free(ws[i], SPACE)))
  {
    MatcherIndexIff(t, k);
    match MatcherIndex(t, k) {
      case None =>
      case Some(i) =>
        var ws := WordsOf(params, t, |t|, stringCase, keccak).value;
        WordsOfAt(params, t, |t|, stringCase, keccak, i);
        if AllFree(ws[..i], SPACE) {
          SplitJoinPrefix(ws, SPACE, i);
          SplitFree(Join(ws, SPACE), SPACE);
        }
    }
  }

  /** Round trip: with space-free words and strings, extraction returns the rendering of every parameter. */
  lemma ExtractRoundTrip(params: seq<bytes>, t: Template, stringCase: nat, keccak: bytes -> word, k: nat)
    requires Expected(params, t, stringCase, keccak).Ok? && SpaceFree(params, t)
    ensures Extracted(t, Expected(params, t, stringCase, keccak).value, k) ==
      match MatcherIndex(t, k) case None => Ok([]) case Some(i) => WordFor(params, t, i, stringCase, keccak)
  {
    ExtractRendered(params, t, stringCase, keccak, k);
    SpaceFreeWords(params, t, stringCase, keccak);
    var ws := WordsOf(params, t, |t|, stringCase, keccak).value;
    if MatcherIndex(t, k).Some? {
      var i := MatcherIndex(t, k).value;
      assert AllFree(ws[..i], SPACE);
      assert Free(ws[i], SPACE);
    }
  }

  // ----- the command determines the parameters -----

  /** Both parameter lists decode alike wherever the template uses them. */
  ghost predicate SameParams(p: seq<bytes>, q: seq<bytes>, t: Template) {
    forall i :: 0 <= i < |t| && MatcherOf(t[i]).Some? ==> SameParam(p, q, t, i)
  }

  predicate SameParam(p: seq<bytes>, q: seq<bytes>, t: Template, i: nat)
    requires i < |t| && MatcherOf(t[i]).Some?
  {
    var j := MatcherCount(t[..i]);
    j < |p| && j < |q| && Decoded(MatcherOf(t[i]).value, p[j]) == Decoded(MatcherOf(t[i]).value, q[j])
  }

  lemma SameWordsSameParams(p: seq<bytes>, q: seq<bytes>, t: Template, caseP: nat, caseQ: nat, keccak: bytes -> word)
    requires caseP < 3 && caseQ < 3
    requires WordsOf(p, t, |t|, caseP, keccak).Ok?
    requires WordsOf(p, t, |t|, caseP, keccak) == WordsOf(q, t, |t|, caseQ, keccak)
    ensures SameParams(p, q, t)
  {
    forall i | 0 <= i < |t| && MatcherOf(t[i]).Some? ensures SameParam(p, q, t, i) {
      WordsOfAt(p, t, |t|, caseP, keccak, i);
      WordsOfAt(q, t, |t|, caseQ, keccak, i);
      var m, j := MatcherOf(t[i]).value, MatcherCount(t[..i]);
      ParamInjective(m, p[j], q[j], Decoded(m, p[j]).value, Decoded(m, q[j]).value, caseP, caseQ, keccak);
    }
  }

  /** Space-free words: two parameter lists that render to the same command, in any letter cases, decode alike. */
  lemma BindingSpaceFree(p: seq<bytes>, q: seq<bytes>, t: Template, caseP: nat, caseQ: nat, keccak: bytes -> word)
    requires caseP < 3 && caseQ < 3 && SpaceFree(p, t) && SpaceFree(q, t)
    requires Expected(p, t, caseP, keccak).Ok? && Expected(p, t, caseP, keccak) == Expected(q, t, caseQ, keccak)
    ensures SameParams(p, q, t)
  {
    SpaceFreeWords(p, t, caseP, keccak);
    SpaceFreeWords(q, t, caseQ, keccak);
    if t != [] {
      JoinInjective(WordsOf(p, t, |t|, caseP, keccak).value, WordsOf(q, t, |t|, caseQ, keccak).value, SPACE);
    }
    SameWordsSameParams(p, q, t, caseP, caseQ, keccak);
  }

  function StringCount(t: Template): nat {
    if t == [] then 0 else StringCount(t[..|t|-1]) + if IsString(t[|t|-1]) then 1 else 0
  }

  // ----- one free word among fixed ones -----

  /** Equal words, or two words without spaces. */
  predicate Rigid(u: bytes, w: bytes) { u == w || (Free(u, SPACE) && Free(w, SPACE)) }

  lemma SpaceInside(u: bytes, x: bytes, w: bytes, y: bytes)
    requires |u| < |w| && u + [SPACE] + x == w + [SPACE] + y
    ensures !Free(w, SPACE)
  {
    assert (u + [SPACE] + x)[|u|] == w[|u|];
  }

  lemma FirstWordUnique(u: bytes, x: bytes, w: bytes, y: bytes)
    requires Rigid(u, w) && u + [SPACE] + x == w + [SPACE] + y
    ensures u == w && x == y
  {
    if |u| < |w| { SpaceInside(u, x, w, y); }
    if |w| < |u| { SpaceInside(w, y, u, x); }
    assert u == (u + [SPACE] + x)[..|u|] && w == (w + [SPACE] + y)[..|w|];
    assert x == (u + [SPACE] + x)[|u|+1..] && y == (w + [SPACE] + y)[|w|+1..];
  }

  lemma SpaceInsideLast(x: bytes, u: bytes, y: bytes, w: bytes)
    requires |u| < |w| && x + [SPACE] + u == y + [SPACE] + w
    ensures !Free(w, SPACE)
  {
    assert (x + [SPACE] + u)[|x|] == w[|x|-|y|-1];
  }

  lemma LastWordUnique(x: bytes, u: bytes, y: bytes, w: bytes)
    requires Rigid(u, w) && x + [SPACE] + u == y + [SPACE] + w
    ensures u == w && x == y
  {
    if |u| < |w| { SpaceInsideLast(x, u, y, w); }
    if |w| < |u| { SpaceInsideLast(y, w, x, u); }
    var s := x + [SPACE] + u;
    assert u == s[|x|+1..] && w == s[|y|+1..];
    assert x == s[..|x|] && y == s[..|y|];
  }

  /** If all words but one are rigid, the join determines them all. */
  lemma {:induction false} JoinDetermines(us: seq<bytes>, ws: seq<bytes>, j: nat)
    requires |us| == |ws| > 0 && Join(us, SPACE) == Join(ws, SPACE)
    requires forall i :: 0 <= i < |us| && i != j ==> Rigid(us[i], ws[i])
    ensures us == ws
    decreases |us|
  {
    if |us| == 1 {
    } else if j == 0 {
      var n := |us| - 1;
      LastWordUnique(Join(us[..n], SPACE), us[n], Join(ws[..n], SPACE), ws[n]);
      JoinDetermines(us[..n], ws[..n], 0);
      assert us == us[..n] + [us[n]] && ws == ws[..n] + [ws[n]];
    } else {
      assert us == [us[0]] + us[1..] && ws == [ws[0]] + ws[1..];
      JoinCons(us[0], us[1..], SPACE);
      JoinCons(ws[0], ws[1..], SPACE);
      FirstWordUnique(us[0], Join(us[1..], SPACE), ws[0], Join(ws[1..], SPACE));
      JoinDetermines(us[1..], ws[1..], j - 1);
    }
  }

  lemma {:induction false} NoString(t: Template, i: nat)
    requires StringCount(t) == 0 && i < |t|
    ensures !IsString(t[i])
    decreases |t|
  {
    if i < |t| - 1 { NoString(t[..|t|-1], i); }
  }

  /** The position of the only string matcher, if there is one. */
  lemma {:induction false} OnlyString(t: Template) returns (j: nat)
    requires StringCount(t) <= 1
    ensures forall i :: 0 <= i < |t| && i != j ==> !IsString(t[i])
    decreases |t|
  {
    if t == [] {
      j := 0;
    } else if IsString(t[|t|-1]) {
      j := |t| - 1;
      forall i | 0 <= i < |t| - 1 ensures !IsString(t[i]) { NoString(t[..|t|-1], i); }
    } else {
      j := OnlyString(t[..|t|-1]);
      forall i | 0 <= i < |t| && i != j ensures !IsString(t[i]) {
        if i < |t| - 1 { assert t[..|t|-1][i] == t[i]; }
      }
    }
  }

  /** At most one string matcher: binding holds for all parameters and all templates, spaces or not. */
  lemma BindingOneString(p: seq<bytes>, q: seq<bytes>, t: Template, caseP: nat, caseQ: nat, keccak: bytes -> word)
    requires caseP < 3 && caseQ < 3 && StringCount(t) <= 1
    requires Expected(p, t, caseP, keccak).Ok? && Expected(p, t, caseP, keccak) == Expected(q, t, caseQ, keccak)
    ensures SameParams(p, q, t)
  {
    if t != [] {
      var us, ws := WordsOf(p, t, |t|, caseP, keccak).value, WordsOf(q, t, |t|, caseQ, keccak).value;
      var j := OnlyString(t);
      forall i | 0 <= i < |us| && i != j ensures Rigid(us[i], ws[i]) {
        WordsOfAt(p, t, |t|, caseP, keccak, i);
        WordsOfAt(q, t, |t|, caseQ, keccak, i);
        WordForFree(p, t, i, caseP, keccak);
        WordForFree(q, t, i, caseQ, keccak);
      }
      JoinDetermines(us, ws, j);
      SameWordsSameParams(p, q, t, caseP, caseQ, keccak);
    }
  }
}
