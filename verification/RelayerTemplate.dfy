/** The relayer's own way of filling a template: textual replacement of the first brace pair, value by value. */
module RelayerTemplate {
  import opened Bytes
  import opened Words
  import opened Numerals
  import opened Command
  import opened Binding
  import opened Ambiguity

  /** str::find of an ASCII character. */
  function Find(s: bytes, b: byte): (r: Option<nat>)
    ensures r.Some? ==> r.value < |s| && s[r.value] == b && Free(s[..r.value], b)
    ensures r.None? ==> Free(s, b)
  {
    if s == [] then None
    else if s[0] == b then Some(0)
    else
      match Find(s[1..], b)
      case None => None
      case Some(k) => assert s[..k+1] == [s[0]] + s[1..][..k]; Some(k + 1)
  }

  /** The first opening brace and everything to the next closing brace give way to the value. */
  function Substitute(s: bytes, value: bytes): bytes {
    match Find(s, OPEN)
    case None => s
    case Some(start) =>
      match Find(s[start..], CLOSE)
      case None => s
      case Some(end) => s[..start] + value + s[start+end+1..]
  }

  function Substitutions(s: bytes, values: seq<bytes>): bytes {
    if values == [] then s else Substitute(Substitutions(s, values[..|values|-1]), values[|values|-1])
  }

  lemma SubstitutionsStep(s: bytes, values: seq<bytes>, n: nat)
    requires n < |values|
    ensures Substitutions(s, values[..n+1]) == Substitute(Substitutions(s, values[..n]), values[n])
  {
    assert values[..n+1][..n] == values[..n];
  }

  /** The body of parse_command_template's loop. */
  method ReplaceFirst(text: bytes, value: bytes) returns (parsed: bytes)
    ensures parsed == Substitute(text, value)
  {
    parsed := text;
    var start := Find(parsed, OPEN);
    if start.Some? {
      var end := Find(parsed[start.value..], CLOSE);
      if end.Some? {
        parsed := parsed[..start.value] + value + parsed[start.value+end.value+1..];
      }
    }
  }

  /** parse_command_template. */
  method ParseCommandTemplate(template: bytes, params: seq<bytes>) returns (parsed: bytes)
    ensures parsed == Substitutions(template, params)
  {
    parsed := template;
    var next := 0;
    while next < |params|
      invariant next <= |params| && parsed == Substitutions(template, params[..next])
    {
      SubstitutionsStep(template, params, next);
      parsed := ReplaceFirst(parsed, params[next]);
      next := next + 1;
    }
    assert params[..next] == params;
  }

  // ----- one substitution -----

  lemma FreeUpTo(s: bytes, b: byte, k: nat)
    requires k <= |s| && Free(s[..k], b)
    ensures forall j :: 0 <= j < k ==> s[j] != b
  {
    forall j | 0 <= j < k ensures s[j] != b { assert s[..k][j] == s[j]; }
  }

  lemma FindUnique(s: bytes, b: byte, k: nat)
    requires k < |s| && s[k] == b && Free(s[..k], b)
    ensures Find(s, b) == Some(k)
  {
    FreeUpTo(s, b, k);
    FreeUpTo(s, b, Find(s, b).value);
  }

  /** An opening brace, a closing one at the end, and no other closing brace. */
  predicate Braced(m: bytes) { |m| >= 2 && m[0] == OPEN && m[|m|-1] == CLOSE && Free(m[..|m|-1], CLOSE) }

  lemma MatcherBraced(m: bytes)
    requires IsMatcher(m)
    ensures Braced(m)
  {
  }

  lemma SubstituteAt(u: bytes, m: bytes, w: bytes, value: bytes)
    requires Free(u, OPEN) && Braced(m)
    ensures Substitute(u + m + w, value) == u + value + w
  {
    var s := u + m + w;
    assert s[..|u|] == u;
    FindUnique(s, OPEN, |u|);
    var rest := s[|u|..];
    assert rest == m + w && rest[..|m|-1] == m[..|m|-1];
    FindUnique(rest, CLOSE, |m| - 1);
    assert s[|u|+|m|..] == w;
  }

  /** Without an opening brace, or with none closed after the first, nothing is replaced. */
  lemma SubstituteNothing(u: bytes, v: bytes, value: bytes)
    requires Free(u, OPEN) && (v != [] ==> v[0] == OPEN && Free(v, CLOSE))
    ensures Substitute(u + v, value) == u + v
  {
    var s := u + v;
    if v == [] {
      assert s == u;
    } else {
      assert s[..|u|] == u && s[|u|..] == v;
      FindUnique(s, OPEN, |u|);
    }
  }

  // ----- words around one word -----

  function After(ws: seq<bytes>): bytes { if ws == [] then [] else [SPACE] + Join(ws, SPACE) }

  lemma JoinFront(w: bytes, vs: seq<bytes>)
    ensures Join([w] + vs, SPACE) == w + After(vs)
  {
    if vs == [] { assert [w] + vs == [w]; } else { JoinCons(w, vs, SPACE); }
  }

  lemma JoinAround(us: seq<bytes>, w: bytes, vs: seq<bytes>)
    ensures Join(us + [w] + vs, SPACE) == Before(us, SPACE) + w + After(vs)
  {
    assert us + [w] + vs == us + ([w] + vs);
    JoinAppend(us, [w] + vs, SPACE);
    JoinFront(w, vs);
  }

  lemma {:induction false} JoinAvoids(ws: seq<bytes>, b: byte)
    requires AllFree(ws, b) && b != SPACE
    ensures Free(Join(ws, SPACE), b)
    decreases |ws|
  {
    if |ws| > 1 { JoinAvoids(ws[..|ws|-1], b); }
  }

  /** Among space-joined words, the first one with a brace is the one replaced. */
  lemma SubstituteWord(ws: seq<bytes>, i: nat, value: bytes)
    requires i < |ws| && AllFree(ws[..i], OPEN) && Braced(ws[i])
    ensures Substitute(Join(ws, SPACE), value) == Join(ws[i := value], SPACE)
  {
    JoinAvoids(ws[..i], OPEN);
    JoinAround(ws[..i], ws[i], ws[i+1..]);
    JoinAround(ws[..i], value, ws[i+1..]);
    assert ws == ws[..i] + [ws[i]] + ws[i+1..] && ws[i := value] == ws[..i] + [value] + ws[i+1..];
    SubstituteAt(Before(ws[..i], SPACE), ws[i], After(ws[i+1..]), value);
  }

  // ----- the whole template -----

  /** Template words that are matchers or have no opening brace. */
  ghost predicate PlainTemplate(t: Template) { forall i :: 0 <= i < |t| ==> IsMatcher(t[i]) || Free(t[i], OPEN) }

  /** Word i of the template once the given values are filled in, in order. */
  function FilledWord(t: Template, values: seq<bytes>, i: nat): bytes
    requires i < |t|
  {
    if IsMatcher(t[i]) && MatcherCount(t[..i]) < |values| then values[MatcherCount(t[..i])] else t[i]
  }

  function FilledWords(t: Template, values: seq<bytes>): (r: seq<bytes>)
    ensures |r| == |t|
  {
    seq(|t|, i requires 0 <= i < |t| => FilledWord(t, values, i))
  }

  lemma {:induction false} MatcherCountMonotone(t: Template, i: nat, j: nat)
    requires i < j <= |t|
    ensures MatcherCount(t[..i]) + (if IsMatcher(t[i]) then 1 else 0) <= MatcherCount(t[..j])
    decreases j
  {
    MatcherCountStep(t, j - 1);
    if i < j - 1 { MatcherCountMonotone(t, i, j - 1); }
  }

  /** The next value goes to the next matcher, and to no other word. */
  lemma FilledWordStep(t: Template, values: seq<bytes>, value: bytes, i: nat, j: nat)
    requires i < |t| && IsMatcher(t[i]) && MatcherCount(t[..i]) == |values| && j < |t|
    ensures FilledWord(t, values + [value], j) == if j == i then value else FilledWord(t, values, j)
    ensures j == i ==> FilledWord(t, values, j) == t[i]
  {
    if IsMatcher(t[j]) {
      if j < i { MatcherCountMonotone(t, j, i); }
      if i < j { MatcherCountMonotone(t, i, j); }
    }
  }

  lemma FilledWordsStep(t: Template, values: seq<bytes>, value: bytes, i: nat)
    requires i < |t| && IsMatcher(t[i]) && MatcherCount(t[..i]) == |values|
    ensures FilledWords(t, values + [value]) == FilledWords(t, values)[i := value]
    ensures FilledWords(t, values)[i] == t[i]
  {
    forall j | 0 <= j < |t| ensures FilledWords(t, values + [value])[j] == FilledWords(t, values)[i := value][j] {
      FilledWordStep(t, values, value, i, j);
    }
    FilledWordStep(t, values, value, i, i);
  }

  /** Before the next matcher no word has a brace, if no value so far has one. */
  lemma FilledAvoids(t: Template, values: seq<bytes>, i: nat)
    requires PlainTemplate(t) && AllFree(values, OPEN) && i < |t| && MatcherCount(t[..i]) == |values|
    ensures AllFree(FilledWords(t, values)[..i], OPEN)
  {
    var ws := FilledWords(t, values);
    forall j | 0 <= j < i ensures Free(ws[..i][j], OPEN) {
      if IsMatcher(t[j]) { MatcherCountMonotone(t, j, i); }
    }
  }

  /** The values land in the matchers in order, as long as no value before the last one has an opening brace. */
  lemma {:induction false} SubstitutionsFill(t: Template, values: seq<bytes>)
    requires PlainTemplate(t) && |values| <= MatcherCount(t)
    requires values != [] ==> AllFree(values[..|values|-1], OPEN)
    ensures Substitutions(Join(t, SPACE), values) == Join(FilledWords(t, values), SPACE)
    decreases |values|
  {
    if values == [] {
      assert FilledWords(t, values) == t;
    } else {
      var k := |values| - 1;
      var v := values[..k];
      assert values == v + [values[k]];
      SubstitutionsFill(t, v);
      MatcherIndexIff(t, k);
      var i := MatcherIndex(t, k).value;
      FilledAvoids(t, v, i);
      FilledWordsStep(t, v, values[k], i);
      MatcherBraced(t[i]);
      SubstituteWord(FilledWords(t, v), i, values[k]);
    }
  }

  // ----- agreement with the contract -----

  /** The contract's rendering of each of its parameters, in template order. */
  function Renderings(params: seq<bytes>, t: Template, n: nat, stringCase: nat, keccak: bytes -> word): (r: seq<bytes>)
    requires n <= |t| && WordsOf(params, t, |t|, stringCase, keccak).Ok?
    ensures |r| == MatcherCount(t[..n])
  {
    if n == 0 then []
    else
      MatcherCountStep(t, n - 1);
      Renderings(params, t, n - 1, stringCase, keccak)
      + if IsMatcher(t[n-1]) then [WordsOf(params, t, |t|, stringCase, keccak).value[n-1]] else []
  }

  lemma RenderingsStep(params: seq<bytes>, t: Template, n: nat, stringCase: nat, keccak: bytes -> word)
    requires 0 < n <= |t| && WordsOf(params, t, |t|, stringCase, keccak).Ok?
    ensures Renderings(params, t, n - 1, stringCase, keccak) <= Renderings(params, t, n, stringCase, keccak)
    ensures IsMatcher(t[n-1]) ==>
      && MatcherCount(t[..n]) == MatcherCount(t[..n-1]) + 1
      && Renderings(params, t, n, stringCase, keccak)[MatcherCount(t[..n-1])] ==
         WordsOf(params, t, |t|, stringCase, keccak).value[n-1]
  {
    MatcherCountStep(t, n - 1);
  }

  lemma {:induction false} RenderingAt(params: seq<bytes>, t: Template, n: nat, stringCase: nat, keccak: bytes -> word,
                                       i: nat)
    requires i < n <= |t| && WordsOf(params, t, |t|, stringCase, keccak).Ok? && IsMatcher(t[i])
    ensures var vs := Renderings(params, t, n, stringCase, keccak);
      MatcherCount(t[..i]) < |vs| && vs[MatcherCount(t[..i])] == WordsOf(params, t, |t|, stringCase, keccak).value[i]
    decreases n
  {
    RenderingsStep(params, t, n, stringCase, keccak);
    if i < n - 1 { RenderingAt(params, t, n - 1, stringCase, keccak, i); }
  }

  lemma RenderingsFill(params: seq<bytes>, t: Template, stringCase: nat, keccak: bytes -> word)
    requires WordsOf(params, t, |t|, stringCase, keccak).Ok?
    ensures FilledWords(t, Renderings(params, t, |t|, stringCase, keccak)) ==
      WordsOf(params, t, |t|, stringCase, keccak).value
  {
    var vs, ws := Renderings(params, t, |t|, stringCase, keccak), WordsOf(params, t, |t|, stringCase, keccak).value;
    forall i | 0 <= i < |t| ensures FilledWord(t, vs, i) == ws[i] {
      WordsOfAt(params, t, |t|, stringCase, keccak, i);
      if IsMatcher(t[i]) { RenderingAt(params, t, |t|, stringCase, keccak, i); }
    }
  }

  /** The relayer's text for the contract's renderings, and the contract's own command. */
  ghost predicate Agrees(params: seq<bytes>, t: Template, stringCase: nat, keccak: bytes -> word)
    requires Expected(params, t, stringCase, keccak).Ok?
  {
    Substitutions(Join(t, SPACE), Renderings(params, t, |t|, stringCase, keccak)) ==
      Expected(params, t, stringCase, keccak).value
  }

  /** Relayer and contract write the same command, if no rendering but the last has an opening brace. */
  lemma Agreement(params: seq<bytes>, t: Template, stringCase: nat, keccak: bytes -> word)
    requires PlainTemplate(t) && Expected(params, t, stringCase, keccak).Ok?
    requires var vs := Renderings(params, t, |t|, stringCase, keccak); vs != [] ==> AllFree(vs[..|vs|-1], OPEN)
    ensures Agrees(params, t, stringCase, keccak)
  {
    assert t[..|t|] == t;
    SubstitutionsFill(t, Renderings(params, t, |t|, stringCase, keccak));
    RenderingsFill(params, t, stringCase, keccak);
  }

  // ----- exactly when they always agree -----

  /** No {string} except perhaps as the last matcher. */
  ghost predicate StringsLast(t: Template) {
    forall i :: 0 <= i < |t| && IsString(t[i]) ==> MatcherCount(t[..i]) + 1 == MatcherCount(t)
  }

  /** Relayer and contract agree on everything the contract can render. */
  ghost predicate AgreesAlways(t: Template, keccak: bytes -> word) {
    forall params, stringCase :: Expected(params, t, stringCase, keccak).Ok? ==> Agrees(params, t, stringCase, keccak)
  }

  lemma EarlyAvoids(params: seq<bytes>, t: Template, stringCase: nat, keccak: bytes -> word, k: nat)
    requires WordsOf(params, t, |t|, stringCase, keccak).Ok? && StringsLast(t) && k + 1 < MatcherCount(t)
    ensures var vs := Renderings(params, t, |t|, stringCase, keccak); t[..|t|] == t && Free(vs[k], OPEN)
  {
    assert t[..|t|] == t;
    MatcherIndexIff(t, k);
    var i := MatcherIndex(t, k).value;
    RenderingAt(params, t, |t|, stringCase, keccak, i);
    WordsOfAt(params, t, |t|, stringCase, keccak, i);
    ParamAvoids(Decoded(MatcherOf(t[i]).value, params[k]).value, stringCase, keccak, OPEN);
  }

  /** Then no rendering but the last can have an opening brace. */
  lemma EarlyFree(params: seq<bytes>, t: Template, stringCase: nat, keccak: bytes -> word)
    requires WordsOf(params, t, |t|, stringCase, keccak).Ok? && StringsLast(t)
    ensures var vs := Renderings(params, t, |t|, stringCase, keccak); vs != [] ==> AllFree(vs[..|vs|-1], OPEN)
  {
    assert t[..|t|] == t;
    var vs := Renderings(params, t, |t|, stringCase, keccak);
    if vs != [] {
      var early := vs[..|vs|-1];
      forall k | 0 <= k < |early| ensures Free(early[k], OPEN) { EarlyAvoids(params, t, stringCase, keccak, k); }
    }
  }

  /** Text before the first brace is never touched again. */
  lemma {:induction false} PrefixStays(s: bytes, values: seq<bytes>, n: nat)
    requires n <= |s| && Free(s[..n], OPEN)
    ensures n <= |Substitutions(s, values)| && Free(Substitutions(s, values)[..n], OPEN)
    decreases |values|
  {
    if values != [] {
      var u := Substitutions(s, values[..|values|-1]);
      PrefixStays(s, values[..|values|-1], n);
      FreeUpTo(u, OPEN, n);
      if Find(u, OPEN).Some? {
        var r := Substitute(u, values[|values|-1]);
        assert r[..n] == u[..n];
      }
    }
  }

  lemma {:induction false} SubstitutionsAppend(s: bytes, us: seq<bytes>, vs: seq<bytes>)
    ensures Substitutions(s, us + vs) == Substitutions(Substitutions(s, us), vs)
    decreases |vs|
  {
    if vs == [] {
      assert us + vs == us;
    } else {
      SubstitutionsAppend(s, us, vs[..|vs|-1]);
      assert (us + vs)[..|us + vs|-1] == us + vs[..|vs|-1];
    }
  }

  const BRACES: bytes := [OPEN, CLOSE]

  lemma BracesStand(t: Template, v: seq<bytes>, i: nat)
    requires PlainTemplate(t) && AllFree(v, OPEN) && i < |t| && IsMatcher(t[i]) && MatcherCount(t[..i]) == |v|
    ensures var part := FilledWords(t, v + [BRACES]); AllFree(part[..i], OPEN) && part[i] == BRACES
  {
    FilledAvoids(t, v, i);
    FilledWordsStep(t, v, BRACES, i);
    assert FilledWords(t, v)[i := BRACES][..i] == FilledWords(t, v)[..i];
  }

  lemma BracesFill(t: Template, v: seq<bytes>)
    requires PlainTemplate(t) && AllFree(v, OPEN) && |v| < MatcherCount(t)
    ensures Substitutions(Join(t, SPACE), v + [BRACES]) == Join(FilledWords(t, v + [BRACES]), SPACE)
  {
    assert (v + [BRACES])[..|v|] == v;
    SubstitutionsFill(t, v + [BRACES]);
  }

  lemma SubstituteBraces(ws: seq<bytes>, i: nat, value: bytes)
    requires i < |ws| && AllFree(ws[..i], OPEN) && ws[i] == BRACES
    ensures Substitute(Join(ws, SPACE), value) == Join(ws[i := value], SPACE)
  {
    SubstituteWord(ws, i, value);
  }

  /** A value `{}` that is not the last is what the next value replaces. */
  lemma BracesReplaced(t: Template, v: seq<bytes>, value: bytes, i: nat)
    requires PlainTemplate(t) && AllFree(v, OPEN)
    requires i < |t| && IsMatcher(t[i]) && MatcherCount(t[..i]) == |v| < MatcherCount(t)
    ensures var part := FilledWords(t, v + [BRACES]);
      Substitute(Substitutions(Join(t, SPACE), v + [BRACES]), value) == Join(part[i := value], SPACE)
  {
    BracesStand(t, v, i);
    BracesFill(t, v);
    SubstituteBraces(FilledWords(t, v + [BRACES]), i, value);
  }

  lemma BracesAt(ws: seq<bytes>, i: nat)
    requires i < |ws| && ws[i] == BRACES
    ensures var p := |Before(ws[..i], SPACE)|; p < |Join(ws, SPACE)| && Join(ws, SPACE)[p] == OPEN
  {
    JoinAround(ws[..i], BRACES, ws[i+1..]);
    assert ws == ws[..i] + [BRACES] + ws[i+1..];
  }

  lemma NoBraceThere(r: bytes, ws: seq<bytes>, i: nat)
    requires i < |ws| && ws[i] == BRACES
    requires var n := |Before(ws[..i], SPACE)| + 1; n <= |r| && Free(r[..n], OPEN)
    ensures r != Join(ws, SPACE)
  {
    BracesAt(ws, i);
    FreeUpTo(r, OPEN, |Before(ws[..i], SPACE)| + 1);
  }

  lemma AfterReplaced(t: Template, v: seq<bytes>, p: seq<bytes>, value: bytes, later: seq<bytes>, i: nat)
    requires PlainTemplate(t) && AllFree(v, OPEN) && p == v + [BRACES] && Free(value, OPEN) && value != []
    requires i < |t| && IsMatcher(t[i]) && MatcherCount(t[..i]) == |v| < MatcherCount(t)
    ensures var n := |Before(FilledWords(t, p)[..i], SPACE)| + 1;
      var r := Substitutions(Substitute(Substitutions(Join(t, SPACE), p), value), later);
      n <= |r| && Free(r[..n], OPEN)
  {
    BracesReplaced(t, v, value, i);
    BracesStand(t, v, i);
    AfterBraces(FilledWords(t, p), value, later, i);
  }

  lemma BracesLostAt(t: Template, vs: seq<bytes>, k: nat, i: nat, r: bytes)
    requires k < |vs| && vs[k] == BRACES && i < |t| && IsMatcher(t[i]) && MatcherCount(t[..i]) == k
    requires var n := |Before(FilledWords(t, vs[..k+1])[..i], SPACE)| + 1; n <= |r| && Free(r[..n], OPEN)
    ensures r != Join(FilledWords(t, vs), SPACE)
  {
    SamePrefix(t, vs, k, i);
    NoBraceThere(r, FilledWords(t, vs), i);
  }

  /** So the text written for it is lost. */
  lemma BracesLost(t: Template, vs: seq<bytes>, k: nat)
    requires PlainTemplate(t) && |vs| == MatcherCount(t) && k + 1 < |vs|
    requires vs[k] == BRACES && AllFree(vs[..k], OPEN) && Free(vs[k+1], OPEN) && vs[k+1] != []
    ensures Substitutions(Join(t, SPACE), vs) != Join(FilledWords(t, vs), SPACE)
  {
    MatcherIndexIff(t, k);
    var i := MatcherIndex(t, k).value;
    UpTo(vs, k);
    AfterReplaced(t, vs[..k], vs[..k+1], vs[k+1], vs[k+2..], i);
    SplitAt(Join(t, SPACE), vs, k + 1);
    BracesLostAt(t, vs, k, i, Substitutions(Join(t, SPACE), vs));
  }

  lemma UpTo(vs: seq<bytes>, k: nat)
    requires k < |vs|
    ensures vs[..k+1] == vs[..k] + [vs[k]]
  {
  }

  lemma SplitAt(s: bytes, vs: seq<bytes>, n: nat)
    requires n < |vs|
    ensures Substitutions(s, vs) == Substitutions(Substitute(Substitutions(s, vs[..n]), vs[n]), vs[n+1..])
  {
    SubstitutionsStep(s, vs, n);
    SubstitutionsAppend(s, vs[..n+1], vs[n+1..]);
    assert vs == vs[..n+1] + vs[n+1..];
  }

  lemma WordStart(us: seq<bytes>, v: bytes, ws: seq<bytes>)
    requires AllFree(us, OPEN) && Free(v, OPEN) && v != []
    ensures var n, s := |Before(us, SPACE)| + 1, Join(us + [v] + ws, SPACE); n <= |s| && Free(s[..n], OPEN)
  {
    JoinAround(us, v, ws);
    JoinAvoids(us, OPEN);
    assert Join(us + [v] + ws, SPACE)[..|Before(us, SPACE)|+1] == Before(us, SPACE) + [v[0]];
  }

  /** From the next value on, the position where the braces stood holds none, whatever is filled in later. */
  lemma AfterBraces(part: seq<bytes>, v: bytes, later: seq<bytes>, i: nat)
    requires i < |part| && AllFree(part[..i], OPEN) && Free(v, OPEN) && v != []
    ensures var n := |Before(part[..i], SPACE)| + 1; var r := Substitutions(Join(part[i := v], SPACE), later);
      n <= |r| && Free(r[..n], OPEN)
  {
    WordStart(part[..i], v, part[i+1..]);
    assert part[i := v] == part[..i] + [v] + part[i+1..];
    PrefixStays(Join(part[i := v], SPACE), later, |Before(part[..i], SPACE)| + 1);
  }

  lemma SamePrefix(t: Template, vs: seq<bytes>, k: nat, i: nat)
    requires k < |vs| && i < |t| && IsMatcher(t[i]) && MatcherCount(t[..i]) == k
    ensures FilledWords(t, vs[..k+1])[..i] == FilledWords(t, vs)[..i] && FilledWords(t, vs)[i] == vs[k]
  {
    forall j | 0 <= j < i ensures FilledWord(t, vs[..k+1], j) == FilledWord(t, vs, j) {
      if IsMatcher(t[j]) { MatcherCountMonotone(t, j, i); }
    }
  }

  lemma FilledZeroAvoids(w: bytes, keccak: bytes -> word)
    requires IsMatcher(w)
    ensures Filled(w, [ZERO], keccak) != [] && Free(Filled(w, [ZERO], keccak), OPEN)
  {
    if !IsString(w) {
      var m := MatcherOf(w).value;
      ZeroRendered(m, keccak);
      ParamAvoids(ZeroParam(m), 1, keccak, OPEN);
    }
  }

  lemma TextsRendering(t: Template, texts: seq<bytes>, keccak: bytes -> word, i: nat)
    requires |t| == |texts| && Short(texts) && |t| <= 255 && i < |t| && IsMatcher(t[i])
    ensures WordsOf(Build(t, texts), t, |t|, 1, keccak) == Ok(FilledAll(t, texts, keccak))
    ensures var vs := Renderings(Build(t, texts), t, |t|, 1, keccak);
      MatcherCount(t[..i]) < |vs| && vs[MatcherCount(t[..i])] == Filled(t[i], texts[i], keccak)
  {
    BuildAllWords(t, texts, keccak);
    RenderingAt(Build(t, texts), t, |t|, 1, keccak, i);
  }

  /** Zeros everywhere, and `{}` at one string matcher. */
  function BracesText(t: Template, i: nat): (texts: seq<bytes>)
    requires i < |t|
    ensures |texts| == |t| && Short(texts)
  {
    seq<bytes>(|t|, j requires 0 <= j < |t| => if j == i then BRACES else [ZERO])
  }

  lemma OtherRenderings(t: Template, keccak: bytes -> word, i: nat, c: nat)
    requires |t| <= 255 && i < |t| && IsString(t[i]) && c < MatcherCount(t) && c != MatcherCount(t[..i])
    ensures WordsOf(Build(t, BracesText(t, i)), t, |t|, 1, keccak).Ok?
    ensures var vs := Renderings(Build(t, BracesText(t, i)), t, |t|, 1, keccak);
      c < |vs| && vs[c] != [] && Free(vs[c], OPEN)
  {
    MatcherIndexIff(t, c);
    var j := MatcherIndex(t, c).value;
    TextsRendering(t, BracesText(t, i), keccak, j);
    FilledZeroAvoids(t[j], keccak);
  }

  /** A string matcher before the last matcher: a command on which relayer and contract differ. */
  lemma EarlyStringDisagrees(t: Template, keccak: bytes -> word, i: nat) returns (params: seq<bytes>)
    requires PlainTemplate(t) && |t| <= 255 && i < |t| && IsString(t[i]) && MatcherCount(t[..i]) + 1 < MatcherCount(t)
    ensures Expected(params, t, 1, keccak).Ok? && !Agrees(params, t, 1, keccak)
  {
    var k := MatcherCount(t[..i]);
    params := Build(t, BracesText(t, i));
    TextsRendering(t, BracesText(t, i), keccak, i);
    assert t[..|t|] == t;
    forall c: nat | c <= k + 1 && c != k { OtherRenderings(t, keccak, i, c); }
    BracesLost(t, Renderings(params, t, |t|, 1, keccak), k);
    RenderingsFill(params, t, 1, keccak);
  }

  /** Relayer and contract agree on every command of a template exactly when no {string} precedes another matcher. */
  lemma AgreesAlwaysIff(t: Template, keccak: bytes -> word)
    requires PlainTemplate(t) && |t| <= 255
    ensures AgreesAlways(t, keccak) <==> StringsLast(t)
  {
    if StringsLast(t) {
      forall params, stringCase | Expected(params, t, stringCase, keccak).Ok?
        ensures Agrees(params, t, stringCase, keccak)
      {
        EarlyFree(params, t, stringCase, keccak);
        Agreement(params, t, stringCase, keccak);
      }
    } else {
      var i :| 0 <= i < |t| && IsString(t[i]) && MatcherCount(t[..i]) + 1 != MatcherCount(t);
      MatcherCountMonotone(t, i, |t|);
      assert t[..|t|] == t;
      var params := EarlyStringDisagrees(t, keccak, i);
    }
  }
}
