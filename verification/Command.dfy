/** CommandUtils: rendering a command from a template, and finding parameters in it again. */
module Command {
  import opened Bytes
  import opened Words
  import opened Numerals
  import opened Hex
  import opened Abi
  import Decimal

  const STRING_MATCHER: bytes := Ascii("{string}")
  const UINT_MATCHER: bytes := Ascii("{uint}")
  const INT_MATCHER: bytes := Ascii("{int}")
  const DECIMALS_MATCHER: bytes := Ascii("{decimals}")
  const ETH_ADDR_MATCHER: bytes := Ascii("{ethAddr}")

  datatype Matcher = StringM | UintM | IntM | DecimalsM | EthAddrM

  /** A decoded parameter. */
  datatype Param = Str(s: bytes) | Uint(u: word) | Int(i: int) | Decimals(d: word) | EthAddr(a: address)

  type Template = seq<bytes>

  function MatcherOf(w: bytes): Option<Matcher> {
    if w == STRING_MATCHER then Some(StringM)
    else if w == UINT_MATCHER then Some(UintM)
    else if w == INT_MATCHER then Some(IntM)
    else if w == DECIMALS_MATCHER then Some(DecimalsM)
    else if w == ETH_ADDR_MATCHER then Some(EthAddrM)
    else None
  }

  predicate IsMatcher(w: bytes) { MatcherOf(w).Some? }

  function MatcherCount(t: Template): nat {
    if t == [] then 0 else MatcherCount(t[..|t|-1]) + if IsMatcher(t[|t|-1]) then 1 else 0
  }

  /** abi.decode at the type that the matcher names. */
  function Decoded(m: Matcher, raw: bytes): Outcome<Param> {
    match m
    case StringM => var s :- DecodeString(raw); Ok(Str(s))
    case UintM => var u :- DecodeUint(raw); Ok(Uint(u))
    case IntM => var i :- DecodeInt(raw); Ok(Int(i))
    case DecimalsM => var d :- DecodeUint(raw); Ok(Decimals(d))
    case EthAddrM => var a :- DecodeAddress(raw); Ok(EthAddr(a))
  }

  /** How a decoded parameter is written. */
  function RenderedParam(p: Param, stringCase: nat, keccak: bytes -> word): Outcome<bytes> {
    match p
    case Str(s) => Ok(s)
    case Uint(u) => Ok(Dec(u))
    case Int(i) => Ok(DecSigned(i))
    case Decimals(d) => Decimal.Printed(d, Decimal.DEFAULT_DECIMALS)
    case EthAddr(a) => Rendered(a, stringCase, keccak)
  }

  /** The word for template position i: the next parameter for a matcher, the word itself otherwise. */
  function WordFor(params: seq<bytes>, t: Template, i: nat, stringCase: nat, keccak: bytes -> word): Outcome<bytes>
    requires i < |t|
  {
    var j := MatcherCount(t[..i]);
    match MatcherOf(t[i])
    case None => Ok(t[i])
    case Some(m) =>
      if j >= |params| then Revert
      else var p :- Decoded(m, params[j]); RenderedParam(p, stringCase, keccak)
  }

  /** The words of the command, if every one of them can be written. */
  function WordsOf(params: seq<bytes>, t: Template, n: nat, stringCase: nat, keccak: bytes -> word)
    : (r: Outcome<seq<bytes>>)
    requires n <= |t|
    ensures r.Ok? ==> |r.value| == n
  {
    if n == 0 then Ok([])
    else
      var ws :- WordsOf(params, t, n - 1, stringCase, keccak);
      var w :- WordFor(params, t, n - 1, stringCase, keccak);
      Ok(ws + [w])
  }

  /** The command; a template of more than 255 words overflows the 8-bit counter. */
  function Expected(params: seq<bytes>, t: Template, stringCase: nat, keccak: bytes -> word): Outcome<bytes> {
    if |t| > 255 then Revert
    else var ws :- WordsOf(params, t, |t|, stringCase, keccak); Ok(Join(ws, SPACE))
  }

  lemma {:induction false} WordsOfAt(params: seq<bytes>, t: Template, n: nat, stringCase: nat, keccak: bytes -> word,
                                     i: nat)
    requires i < n <= |t| && WordsOf(params, t, n, stringCase, keccak).Ok?
    ensures WordFor(params, t, i, stringCase, keccak) == Ok(WordsOf(params, t, n, stringCase, keccak).value[i])
    decreases n
  {
    if i < n - 1 { WordsOfAt(params, t, n - 1, stringCase, keccak, i); }
  }

  /** Once a word cannot be written, no longer prefix can. */
  lemma {:induction false} WordsOfRevert(params: seq<bytes>, t: Template, n: nat, m: nat, stringCase: nat,
                                         keccak: bytes -> word)
    requires n <= m <= |t| && WordsOf(params, t, n, stringCase, keccak).Revert?
    ensures WordsOf(params, t, m, stringCase, keccak).Revert?
    decreases m
  {
    if n < m { WordsOfRevert(params, t, n, m - 1, stringCase, keccak); }
  }

  /** One matcher's branch of the rendering loop. */
  method RenderParam(m: Matcher, raw: bytes, stringCase: nat, keccak: bytes -> word) returns (r: Outcome<bytes>)
    ensures r == match Decoded(m, raw) case Ok(p) => RenderedParam(p, stringCase, keccak) case Revert => Revert
  {
    var decoded := Decoded(m, raw);
    if decoded.Revert? { return Revert; }
    match decoded.value {
      case Str(s) => r := Ok(s);
      case Uint(u) => r := Ok(Dec(u));
      case Int(i) => r := Ok(DecSigned(i));
      case Decimals(d) => r := Decimal.UintToDecimalString(d, Decimal.DEFAULT_DECIMALS);
      case EthAddr(a) => r := AddressToHexString(a, stringCase, keccak);
    }
  }

  /** The whole branch on template[i], with the parameter index it uses. */
  method RenderWord(commandParams: seq<bytes>, template: Template, i: nat, nextParamIndex: nat, stringCase: nat,
                    keccak: bytes -> word) returns (r: Outcome<bytes>, isParamExist: bool)
    requires i < |template| && nextParamIndex == MatcherCount(template[..i])
    ensures r == WordFor(commandParams, template, i, stringCase, keccak) && isParamExist == IsMatcher(template[i])
  {
    var matcher := MatcherOf(template[i]);
    isParamExist := matcher.Some?;
    if matcher.None? {
      r := Ok(template[i]);
    } else if nextParamIndex >= |commandParams| {
      r := Revert;
    } else {
      r := RenderParam(matcher.value, commandParams[nextParamIndex], stringCase, keccak);
    }
  }

  lemma JoinSnoc(ws: seq<bytes>, w: bytes)
    ensures Join(ws + [w], SPACE) == if ws == [] then w else Join(ws, SPACE) + [SPACE] + w
  {
    assert (ws + [w])[..|ws|] == ws;
  }

  lemma MatcherCountStep(t: Template, i: nat)
    requires i < |t|
    ensures MatcherCount(t[..i+1]) == MatcherCount(t[..i]) + if IsMatcher(t[i]) then 1 else 0
    ensures MatcherCount(t[..i]) <= i
    decreases i
  {
    assert t[..i+1][..i] == t[..i];
    if i > 0 { MatcherCountStep(t, i - 1); }
  }

  /** CommandUtils.computeExpectedCommand. */
  method ComputeExpectedCommand(commandParams: seq<bytes>, template: Template, stringCase: nat, keccak: bytes -> word)
    returns (r: Outcome<bytes>)
    ensures r == Expected(commandParams, template, stringCase, keccak)
  {
    var nextParamIndex, i := 0, 0;
    var expectedCommand: bytes := [];
    ghost var words: seq<bytes> := [];
    while i < |template|
      invariant i <= |template| && i <= 255 && nextParamIndex == MatcherCount(template[..i])
      invariant WordsOf(commandParams, template, i, stringCase, keccak) == Ok(words)
      invariant expectedCommand == Join(words, SPACE)
      decreases |template| - i
    {
      var stringParam, isParamExist := RenderWord(commandParams, template, i, nextParamIndex, stringCase, keccak);
      if stringParam.Revert? {
        WordsOfRevert(commandParams, template, i + 1, |template|, stringCase, keccak);
        return Revert;
      }
      if i > 0 { expectedCommand := expectedCommand + [SPACE]; }
      expectedCommand := expectedCommand + stringParam.value;
      JoinSnoc(words, stringParam.value);
      words := words + [stringParam.value];
      MatcherCountStep(template, i);
      if isParamExist { nextParamIndex := nextParamIndex + 1; }
      if i == 255 { return Revert; }
      i := i + 1;
    }
    r := Ok(expectedCommand);
  }

  /** CommandUtils.removePrefix, and EmailAuth's own copy of it. */
  method RemovePrefix(str: bytes, numBytes: nat) returns (r: Outcome<bytes>)
    ensures r == if numBytes <= |str| then Ok(str[numBytes..]) else Revert
  {
    if !(numBytes <= |str|) { return Revert; }
    var result := new byte[|str| - numBytes](_ => 0);
    var i := numBytes;
    while i < |str|
      invariant numBytes <= i <= |str|
      invariant forall j :: 0 <= j < i - numBytes ==> result[j] == str[numBytes+j]
    {
      result[i - numBytes] := str[i];
      i := i + 1;
    }
    assert result[..] == str[numBytes..];
    r := Ok(result[..]);
  }

  // ----- finding a parameter again -----

  /** The position of the k-th matcher. */
  function MatcherIndex(t: Template, k: nat): (r: Option<nat>)
    ensures r.Some? ==> r.value < |t| && IsMatcher(t[r.value])
  {
    if t == [] then None
    else
      var r := MatcherIndex(t[..|t|-1], k);
      if r.Some? then r
      else if IsMatcher(t[|t|-1]) && MatcherCount(t[..|t|-1]) == k then Some(|t|-1) else None
  }

  lemma {:induction false} MatcherIndexIff(t: Template, k: nat)
    ensures MatcherIndex(t, k).Some? <==> k < MatcherCount(t)
    ensures MatcherIndex(t, k).Some? ==> MatcherCount(t[..MatcherIndex(t, k).value]) == k
    decreases |t|
  {
    if t != [] {
      var v := t[..|t|-1];
      MatcherIndexIff(v, k);
      if MatcherIndex(v, k).Some? { assert v[..MatcherIndex(v, k).value] == t[..MatcherIndex(v, k).value]; }
    }
  }

  lemma {:induction false} MatcherIndexPrefix(t: Template, k: nat, n: nat)
    requires n <= |t| && MatcherIndex(t[..n], k).Some?
    ensures MatcherIndex(t, k) == MatcherIndex(t[..n], k)
    decreases |t| - n
  {
    if n < |t| {
      assert t[..n+1][..n] == t[..n];
      MatcherIndexPrefix(t, k, n + 1);
    } else {
      assert t[..n] == t;
    }
  }

  /** CommandUtils._getParamWordIndex; None stands for the maximal uint. */
  method GetParamWordIndex(template: Template, paramIndex: nat) returns (r: Option<nat>)
    ensures r == MatcherIndex(template, paramIndex)
  {
    var paramTemplateIndex, i := 0, 0;
    while i < |template|
      invariant i <= |template| && paramTemplateIndex == MatcherCount(template[..i]) <= paramIndex
      invariant MatcherIndex(template[..i], paramIndex) == None
    {
      assert template[..i+1][..i] == template[..i];
      if IsMatcher(template[i]) {
        if paramTemplateIndex == paramIndex {
          MatcherIndexPrefix(template, paramIndex, i + 1);
          return Some(i);
        }
        paramTemplateIndex := paramTemplateIndex + 1;
      }
      i := i + 1;
    }
    assert template[..i] == template;
    r := None;
  }

  /** What extraction returns: empty for a missing parameter, a revert when the command has too few words. */
  function Extracted(t: Template, command: bytes, k: nat): Outcome<bytes> {
    match MatcherIndex(t, k)
    case None => Ok([])
    case Some(i) => if i < |Split(command, SPACE)| then Ok(Split(command, SPACE)[i]) else Revert
  }

  /** CommandUtils.extractCommandParamByIndex. */
  method ExtractCommandParamByIndex(template: Template, command: bytes, paramIndex: nat) returns (r: Outcome<bytes>)
    ensures r == Extracted(template, command, paramIndex)
  {
    var wordIndex := GetParamWordIndex(template, paramIndex);
    if wordIndex.None? { return Ok([]); }
    var parts := SplitString(command, SPACE);
    if wordIndex.value >= |parts| { return Revert; }
    r := Ok(parts[wordIndex.value]);
  }
}
