/** The command scanner: (<div id=3D"[^"]*zkemail[^"]*"[^>]*>)[^<>/]+, revealing the text after the tag. */
module CommandRegex {
  import opened Bytes
  import opened Scanner
  import opened Utf8

  /** The AND gates, grouped by the state whose OR gate they feed. */
  predicate Edge(a: nat, c: byte, b: nat) {
    match b
    case 2 => a == 1 && c == 100
    case 3 => a == 2 && c == 105
    case 4 => a == 3 && c == 118
    case 5 => a == 4 && c == 32
    case 6 => a == 5 && c == 105
    case 7 => a == 6 && c == 100
    case 8 => a == 7 && c == 61
    case 9 => a == 8 && c == 51
    case 10 => a == 9 && c == 68
    case 11 =>
      || (a == 10 && c == 34)
      || (a == 11 && (1 <= c <= 33 || 35 <= c <= 121 || 123 <= c <= 127))
      || (a == 12 && (128 <= c <= 191))
      || (a == 19 && (1 <= c <= 33 || 35 <= c <= 106 || 108 <= c <= 121 || 123 <= c <= 127))
      || (a == 20 && (1 <= c <= 33 || 35 <= c <= 100 || 102 <= c <= 121 || 123 <= c <= 127))
      || (a == 21 && (1 <= c <= 33 || 35 <= c <= 108 || 110 <= c <= 121 || 123 <= c <= 127))
      || (a == 22 && (1 <= c <= 33 || 35 <= c <= 96 || 98 <= c <= 121 || 123 <= c <= 127))
      || (a == 23 && (1 <= c <= 33 || 35 <= c <= 104 || 106 <= c <= 121 || 123 <= c <= 127))
      || (a == 24 && (1 <= c <= 33 || 35 <= c <= 107 || 109 <= c <= 121 || 123 <= c <= 127))
    case 12 =>
      || (InAttribute(a) && (194 <= c <= 223))
      || (a == 13 && (160 <= c <= 191))
      || (a == 14 && (128 <= c <= 191))
      || (a == 15 && (128 <= c <= 159))
    case 13 => InAttribute(a) && c == 224
    case 14 =>
      || (InAttribute(a) && (225 <= c <= 236 || 238 <= c <= 239))
      || (a == 16 && (144 <= c <= 191))
      || (a == 17 && (128 <= c <= 191))
      || (a == 18 && (128 <= c <= 143))
    case 15 => InAttribute(a) && c == 237
    case 16 => InAttribute(a) && c == 240
    case 17 => InAttribute(a) && (241 <= c <= 243)
    case 18 => InAttribute(a) && c == 244
    case 19 => InAttribute(a) && c == 122
    case 20 => a == 19 && c == 107
    case 21 => a == 20 && c == 101
    case 22 => a == 21 && c == 109
    case 23 => a == 22 && c == 97
    case 24 => a == 23 && c == 105
    case 25 =>
      || (a == 24 && c == 108)
      || (a == 25 && (1 <= c <= 33 || 35 <= c <= 127))
      || (a == 27 && (128 <= c <= 191))
    case 26 =>
      || (a == 25 && c == 34)
      || (a == 26 && (1 <= c <= 61 || 63 <= c <= 127))
      || (a == 35 && (128 <= c <= 191))
    case 27 =>
      || (a == 25 && (194 <= c <= 223))
      || (a == 28 && (160 <= c <= 191))
      || (a == 29 && (128 <= c <= 191))
      || (a == 30 && (128 <= c <= 159))
    case 28 => a == 25 && c == 224
    case 29 =>
      || (a == 25 && (225 <= c <= 236 || 238 <= c <= 239))
      || (a == 31 && (144 <= c <= 191))
      || (a == 32 && (128 <= c <= 191))
      || (a == 33 && (128 <= c <= 143))
    case 30 => a == 25 && c == 237
    case 31 => a == 25 && c == 240
    case 32 => a == 25 && (241 <= c <= 243)
    case 33 => a == 25 && c == 244
    case 34 => a == 26 && c == 62
    case 35 =>
      || (a == 26 && (194 <= c <= 223))
      || (a == 36 && (160 <= c <= 191))
      || (a == 37 && (128 <= c <= 191))
      || (a == 38 && (128 <= c <= 159))
    case 36 => a == 26 && c == 224
    case 37 =>
      || (a == 26 && (225 <= c <= 236 || 238 <= c <= 239))
      || (a == 39 && (144 <= c <= 191))
      || (a == 40 && (128 <= c <= 191))
      || (a == 41 && (128 <= c <= 143))
    case 38 => a == 26 && c == 237
    case 39 => a == 26 && c == 240
    case 40 => a == 26 && (241 <= c <= 243)
    case 41 => a == 26 && c == 244
    case 42 =>
      || ((a == 34 || a == 42) && (1 <= c <= 46 || 48 <= c <= 59 || c == 61 || 63 <= c <= 127))
      || (a == 43 && (128 <= c <= 191))
    case 43 =>
      || ((a == 34 || a == 42) && (194 <= c <= 223))
      || (a == 44 && (160 <= c <= 191))
      || (a == 45 && (128 <= c <= 191))
      || (a == 46 && (128 <= c <= 159))
    case 44 => (a == 34 || a == 42) && c == 224
    case 45 =>
      || ((a == 34 || a == 42) && (225 <= c <= 236 || 238 <= c <= 239))
      || (a == 47 && (144 <= c <= 191))
      || (a == 48 && (128 <= c <= 191))
      || (a == 49 && (128 <= c <= 143))
    case 46 => (a == 34 || a == 42) && c == 237
    case 47 => (a == 34 || a == 42) && c == 240
    case 48 => (a == 34 || a == 42) && (241 <= c <= 243)
    case 49 => (a == 34 || a == 42) && c == 244
    case _ => false
  }

  /** The seven states that read attribute text and remember how much of `zkemail` it ends with. */
  predicate InAttribute(q: nat) { q == 11 || 19 <= q <= 24 }

  predicate Start(c: byte, b: nat) { b == 1 && c == LT }

  predicate CommandText(a: nat, b: nat) {
    || ((a == 34 || a == 42) && 42 <= b <= 49)
    || (a, b) in {(43, 42), (44, 43), (45, 43), (46, 43), (47, 45), (48, 45), (49, 45)}
  }

  const CIRCUIT := Circuit(50, Edge, Start, 42, CommandText)

  // ----- the same gates, grouped by source -----

  const LT: byte := 60
  const GT: byte := 62
  const QUOTE: byte := 34

  function InOpening(q: nat, c: byte): nat {
    match q
    case 1 => if c == 100 then 2 else 0
    case 2 => if c == 105 then 3 else 0
    case 3 => if c == 118 then 4 else 0
    case 4 => if c == 32 then 5 else 0
    case 5 => if c == 105 then 6 else 0
    case 6 => if c == 100 then 7 else 0
    case 7 => if c == 61 then 8 else 0
    case 8 => if c == 51 then 9 else 0
    case 9 => if c == 68 then 10 else 0
    case 10 => if c == QUOTE then 11 else 0
    case _ => 0
  }

  /** The matcher of `zkemail`; only `z` can begin it again. */
  function InAttributeText(q: nat, c: byte): nat {
    if c == 0 || c == QUOTE then 0
    else if c == 122 then 19
    else if q == 19 && c == 107 then 20
    else if q == 20 && c == 101 then 21
    else if q == 21 && c == 109 then 22
    else if q == 22 && c == 97 then 23
    else if q == 23 && c == 105 then 24
    else if q == 24 && c == 108 then 25
    else if c < 128 then 11
    else Lead(12, c)
  }

  function Next(q: nat, c: byte): nat {
    if q <= 10 then InOpening(q, c)
    else if InAttribute(q) then InAttributeText(q, c)
    else if q <= 18 then Continue(12, 11, q, c)
    else if q == 25 then (if c == 0 then 0 else if c == QUOTE then 26 else if c < 128 then 25 else Lead(27, c))
    else if q == 26 then (if c == 0 then 0 else if c == GT then 34 else if c < 128 then 26 else Lead(35, c))
    else if q <= 33 then Continue(27, 25, q, c)
    else if q == 34 || q == 42 then (if c in {0, 47, 60, 62} then 0 else if c < 128 then 42 else Lead(43, c))
    else if q <= 41 then Continue(35, 26, q, c)
    else if q <= 49 then Continue(43, 42, q, c)
    else 0
  }

  function Begin(c: byte): nat { if c == LT then 1 else 0 }

  const TABLE := Table(Next, Begin, 42)

  lemma EdgeIsNext(a: nat, c: byte, b: nat)
    requires Edge(a, c, b)
    ensures Next(a, c) == b
  {
  }

  lemma NextIsEdgeAttribute(a: nat, c: byte)
    requires InAttribute(a) && Next(a, c) != 0
    ensures Edge(a, c, Next(a, c)) && Next(a, c) < 50
  {
  }

  lemma NextIsEdgeLow(a: nat, c: byte)
    requires a <= 18 && a != 11 && Next(a, c) != 0
    ensures Edge(a, c, Next(a, c)) && Next(a, c) < 50
  {
  }

  lemma NextIsEdgeQuoted(a: nat, c: byte)
    requires 25 <= a <= 33 && Next(a, c) != 0
    ensures Edge(a, c, Next(a, c)) && Next(a, c) < 50
  {
  }

  lemma NextIsEdgeInTag(a: nat, c: byte)
    requires 34 <= a <= 41 && Next(a, c) != 0
    ensures Edge(a, c, Next(a, c)) && Next(a, c) < 50
  {
  }

  lemma NextIsEdgeShown(a: nat, c: byte)
    requires 42 <= a && Next(a, c) != 0
    ensures Edge(a, c, Next(a, c)) && Next(a, c) < 50
  {
  }

  lemma NextIsEdge(a: nat, c: byte)
    requires Next(a, c) != 0
    ensures Edge(a, c, Next(a, c)) && Next(a, c) < 50
  {
    if InAttribute(a) {
      NextIsEdgeAttribute(a, c);
    } else if a <= 18 {
      NextIsEdgeLow(a, c);
    } else if a <= 33 {
      NextIsEdgeQuoted(a, c);
    } else if a <= 41 {
      NextIsEdgeInTag(a, c);
    } else {
      NextIsEdgeShown(a, c);
    }
  }

  /** No byte fires two gates of one state, so at most one of states 1 to 49 is ever live. */
  lemma TableOfGates()
    ensures Implements(CIRCUIT, TABLE) && RevealInRange(CIRCUIT)
  {
    forall a: nat, c: byte, b: nat | 1 <= a < 50 && 1 <= b < 50 ensures Edge(a, c, b) <==> Next(a, c) == b {
      if Edge(a, c, b) { EdgeIsNext(a, c, b); }
      if Next(a, c) == b { NextIsEdge(a, c); }
    }
    forall a: nat, c: byte | a < 50 ensures Next(a, c) < 50 {
      if Next(a, c) != 0 { NextIsEdge(a, c); }
    }
  }

  // ----- the language -----

  const OPEN: bytes := [60, 100, 105, 118, 32, 105, 100, 61, 51, 68, 34]  // <div id=3D"
  const ZKEMAIL: bytes := [122, 107, 101, 109, 97, 105, 108]

  /** [^"]*, [^>]* and [^<>/]* over nonzero well-formed UTF-8 characters. */
  predicate Quoted(a: bytes) { Text(a, {0, 34}) }
  predicate InTag(b: bytes) { Text(b, {0, 62}) }
  predicate Shown(c: bytes) { Text(c, {0, 47, 60, 62}) }

  /** The tag up to and including its `>`. */
  function Tag(a1: bytes, a2: bytes, b: bytes): bytes {
    OPEN + (a1 + (ZKEMAIL + (a2 + ([QUOTE] + (b + [GT])))))
  }

  predicate TagParts(a1: bytes, a2: bytes, b: bytes) {
    Quoted(a1) && Quoted(a2) && InTag(b)
  }

  /** w is a match of the regular expression whose text part is c. */
  ghost predicate MatchText(w: bytes, c: bytes) {
    c != [] && Shown(c) && exists a1, a2, b :: TagParts(a1, a2, b) && w == Tag(a1, a2, b) + c
  }

  ghost predicate CommandMatch(w: bytes) {
    exists c :: MatchText(w, c)
  }

  // ----- the states read the language; stated of any table with the same local transitions -----

  const ATTRIBUTE: set<nat> := {11, 19, 20, 21, 22, 23, 24}
  const OPENING_STATES: seq<nat> := [1, 2, 3, 4, 5, 6, 7, 8, 9, 10, 11]
  const MATCHER: seq<nat> := [19, 20, 21, 22, 23, 24]
  const KEMAI: bytes := [107, 101, 109, 97, 105]

  predicate AtLeast(q: nat, low: nat) { low <= q }

  /** States low to high. */
  function Span(low: nat, high: nat): (r: set<nat>)
    ensures forall q :: q in r <==> low <= q <= high
  {
    set q: nat | q <= high && AtLeast(q, low)
  }

  ghost predicate AttributeStates(tb: Table) {
    && TextLoop(tb, ATTRIBUTE, 12, 11, {0} + Span(25, 49), {0, 34})
    && (forall q, c: byte :: q in ATTRIBUTE && c < 128 && c !in {0, 34} ==> tb.next(q, c) in ATTRIBUTE + {25})
    && (forall q, c: byte :: 11 <= q <= 24 ==> tb.next(q, c) in Span(11, 25) + {0})
  }

  /** The single way into each of states 20 to 24, and the ways into state 19. */
  predicate EnteredOnlyBy(p: nat, c: byte, q: nat) {
    && (q == 19 ==> InAttribute(p) && c == 122)
    && (20 <= q <= 24 ==> p == q - 1 && c == KEMAI[q-20])
  }

  ghost predicate MatcherStates(tb: Table) {
    && (forall q :: q in ATTRIBUTE ==> tb.next(q, 122) == 19)
    && tb.next(19, 107) == 20 && tb.next(20, 101) == 21 && tb.next(21, 109) == 22
    && tb.next(22, 97) == 23 && tb.next(23, 105) == 24 && tb.next(24, 108) == 25
    && (forall p: nat, c: byte :: 11 <= p <= 24 && tb.next(p, c) == 25 ==> p == 24 && c == 108)
    && MatcherEntries(tb)
  }

  ghost predicate QuotedStates(tb: Table) {
    && ExactLoop(tb, {25}, 27, 25, {0, 26} + Span(34, 49), {0, 34})
    && tb.next(25, QUOTE) == 26
    && (forall q: nat, c: byte :: q in {25} + Span(27, 33) ==>
        tb.next(q, c) in {0, 25, 26} + Span(27, 33) && (tb.next(q, c) == 26 ==> q == 25 && c == QUOTE))
  }

  ghost predicate InTagStates(tb: Table) {
    && ExactLoop(tb, {26}, 35, 26, {0, 34} + Span(42, 49), {0, 62})
    && tb.next(26, GT) == 34
    && (forall q: nat, c: byte :: q in {26} + Span(35, 41) ==>
        tb.next(q, c) in {0, 26, 34} + Span(35, 41) && (tb.next(q, c) == 34 ==> q == 26 && c == GT))
  }

  ghost predicate ShownStates(tb: Table) {
    && ExactLoop(tb, {34, 42}, 43, 42, {0}, {0, 47, 60, 62})
    && (forall q: nat, c: byte :: q in {34} + Span(42, 49) ==> tb.next(q, c) in {0} + Span(42, 49))
  }

  lemma TableAttribute()
    ensures TextLoop(TABLE, ATTRIBUTE, 12, 11, {0} + Span(25, 49), {0, 34})
  {
  }

  lemma AttributeAscii(q: nat, c: byte)
    requires InAttribute(q) && c < 128 && c !in {0, 34}
    ensures InAttribute(Next(q, c)) || Next(q, c) == 25
  {
  }

  lemma AttributeRange(q: nat, c: byte)
    requires 11 <= q <= 24
    ensures 11 <= Next(q, c) <= 25 || Next(q, c) == 0
  {
  }

  lemma AttributeMembers(q: nat)
    ensures q in ATTRIBUTE <==> InAttribute(q)
  {
  }

  lemma TableAttributeStates()
    ensures AttributeStates(TABLE)
  {
    TableAttribute();
    forall q: nat, c: byte | q in ATTRIBUTE && c < 128 && c !in {0, 34} ensures TABLE.next(q, c) in ATTRIBUTE + {25} {
      AttributeMembers(q);
      AttributeAscii(q, c);
      AttributeMembers(Next(q, c));
    }
    forall q: nat, c: byte | 11 <= q <= 24 ensures TABLE.next(q, c) in Span(11, 25) + {0} { AttributeRange(q, c); }
  }

  lemma NextEntered(p: nat, c: byte)
    ensures EnteredOnlyBy(p, c, Next(p, c))
  {
  }

  lemma TableMatcher()
    ensures MatcherStates(TABLE)
  {
    forall p: nat, c: byte ensures EnteredOnlyBy(p, c, Next(p, c)) { NextEntered(p, c); }
  }

  lemma TableQuotedLoop()
    ensures ExactLoop(TABLE, {25}, 27, 25, {0, 26} + Span(34, 49), {0, 34})
  {
  }

  lemma TableQuoted()
    ensures QuotedStates(TABLE)
  {
    TableQuotedLoop();
  }

  lemma TableInTagLoop()
    ensures ExactLoop(TABLE, {26}, 35, 26, {0, 34} + Span(42, 49), {0, 62})
  {
  }

  lemma TableInTag()
    ensures InTagStates(TABLE)
  {
    TableInTagLoop();
  }

  lemma TableShownLoop()
    ensures ExactLoop(TABLE, {34, 42}, 43, 42, {0}, {0, 47, 60, 62})
  {
  }

  lemma TableShown()
    ensures ShownStates(TABLE)
  {
    TableShownLoop();
  }

  lemma TableOpening()
    ensures Chain(TABLE, OPENING_STATES, OPEN[1..])
  {
    assert OPEN[1..] == [100, 105, 118, 32, 105, 100, 61, 51, 68, 34];
  }

  // ----- each part of the match -----

  lemma AttributeChar(tb: Table, q: nat, u: bytes)
    requires AttributeStates(tb) && QuotedStates(tb) && q in ATTRIBUTE + {25}
    requires Char(u) && (|u| == 1 ==> u[0] !in {0, 34})
    ensures Eval(tb, q, u) in ATTRIBUTE + {25}
  {
    if |u| == 1 {
      assert u == [u[0]];
      EvalOne(tb, q, u[0]);
    } else if q == 25 {
      CharEval(tb, q, 27, 25, u);
    } else {
      CharEval(tb, q, 12, 11, u);
    }
  }

  /** Attribute text never loses the scan, whatever part of `zkemail` it has just read. */
  lemma AttributeStays(tb: Table, q: nat, a: bytes)
    requires AttributeStates(tb) && QuotedStates(tb) && q in ATTRIBUTE + {25} && Quoted(a)
    ensures Eval(tb, q, a) in ATTRIBUTE + {25}
  {
    forall p, u | p in ATTRIBUTE + {25} && Char(u) && (|u| == 1 ==> u[0] !in {0, 34})
      ensures Eval(tb, p, u) in ATTRIBUTE + {25}
    {
      AttributeChar(tb, p, u);
    }
    TextStays(tb, q, ATTRIBUTE + {25}, a, {0, 34});
  }

  lemma QuotedIff(tb: Table, a: bytes)
    requires QuotedStates(tb)
    ensures Eval(tb, 25, a) == 25 <==> Quoted(a)
  {
    LoopExact(tb, 25, {25}, 27, 25, {0, 26} + Span(34, 49), {0, 34}, a);
  }

  lemma InTagIff(tb: Table, b: bytes)
    requires InTagStates(tb)
    ensures Eval(tb, 26, b) == 26 <==> InTag(b)
  {
    LoopExact(tb, 26, {26}, 35, 26, {0, 34} + Span(42, 49), {0, 62}, b);
  }

  /** The text after the tag. */
  lemma ShownIff(tb: Table, c: bytes)
    requires ShownStates(tb) && c != []
    ensures Eval(tb, 34, c) == 42 <==> Shown(c)
    ensures Eval(tb, 34, c) in {0} + Span(42, 49)
  {
    ShownRegion(tb, c);
    LoopExact(tb, 34, {34, 42}, 43, 42, {0}, {0, 47, 60, 62}, c);
  }

  lemma {:induction false} ShownRegion(tb: Table, c: bytes)
    requires ShownStates(tb) && c != []
    ensures Eval(tb, 34, c) in {0} + Span(42, 49)
    decreases |c|
  {
    var d := c[..|c|-1];
    if d == [] { assert Eval(tb, 34, d) == 34; } else { ShownRegion(tb, d); }
  }

  lemma MatcherThrough(tb: Table, q: nat)
    requires MatcherStates(tb) && QuotedStates(tb) && q in ATTRIBUTE + {25}
    ensures Eval(tb, q, ZKEMAIL) == 25
  {
    if q == 25 {
      ZkemailQuoted();
      QuotedIff(tb, ZKEMAIL);
    } else {
      var z := ZKEMAIL;
      assert z[1..][1..][1..][1..][1..][1..][1..] == [];
      EvalCons(tb, q, z);
      EvalCons(tb, 19, z[1..]);
      EvalCons(tb, 20, z[1..][1..]);
      EvalCons(tb, 21, z[1..][1..][1..]);
      EvalCons(tb, 22, z[1..][1..][1..][1..]);
      EvalCons(tb, 23, z[1..][1..][1..][1..][1..]);
      EvalCons(tb, 24, z[1..][1..][1..][1..][1..][1..]);
    }
  }

  lemma {:induction false} AsciiQuoted(w: bytes)
    requires forall i :: 0 <= i < |w| ==> 0 < w[i] < 128 && w[i] != QUOTE
    ensures Quoted(w)
    decreases |w|
  {
    if w != [] { AsciiQuoted(w[1..]); }
  }

  lemma ZkemailQuoted()
    ensures Quoted(ZKEMAIL)
  {
    AsciiQuoted(ZKEMAIL);
  }

  // ----- taking a scan apart -----

  ghost predicate OpenStates(tb: Table) {
    && ZeroIsDead(tb) && Chain(tb, OPENING_STATES, OPEN[1..])
    && (forall c: byte :: tb.begin(c) == if c == LT then 1 else 0)
  }

  ghost predicate CommandStates(tb: Table) {
    && OpenStates(tb) && AttributeStates(tb) && MatcherStates(tb)
    && QuotedStates(tb) && InTagStates(tb) && ShownStates(tb)
  }

  ghost predicate MatcherEntries(tb: Table) {
    forall p: nat, c: byte :: EnteredOnlyBy(p, c, tb.next(p, c))
  }

  lemma KemaiBack(tb: Table, x: bytes)
    requires MatcherEntries(tb) && Eval(tb, 11, x) == 24
    ensures |x| >= 5 && x[|x|-5..] == KEMAI && Eval(tb, 11, x[..|x|-5]) == 19
  {
    forall p: nat, i: nat, c: byte | i < 5 && tb.next(p, c) == MATCHER[i+1] ensures p == MATCHER[i] && c == KEMAI[i] {
      MatcherEntry(tb, p, c, i);
    }
    assert 11 !in MATCHER[1..];
    BackChain(tb, 11, MATCHER, KEMAI, x);
  }

  lemma MatcherEntry(tb: Table, p: nat, c: byte, i: nat)
    requires MatcherEntries(tb) && i < 5 && tb.next(p, c) == MATCHER[i+1]
    ensures p == MATCHER[i] && c == KEMAI[i]
  {
    assert EnteredOnlyBy(p, c, tb.next(p, c));
  }

  lemma ZBack(tb: Table, y: bytes)
    requires MatcherEntries(tb) && Eval(tb, 11, y) == 19
    ensures y != [] && y[|y|-1] == 122 && InAttribute(Eval(tb, 11, y[..|y|-1]))
  {
    assert y != [];
    assert EnteredOnlyBy(Eval(tb, 11, y[..|y|-1]), y[|y|-1], tb.next(Eval(tb, 11, y[..|y|-1]), y[|y|-1]));
  }

  /** Text read up to state 24 ends in `zkemai`, and what is before it is attribute text. */
  lemma MatcherBack(tb: Table, x: bytes) returns (a1: bytes)
    requires AttributeStates(tb) && MatcherEntries(tb) && Eval(tb, 11, x) == 24
    ensures Quoted(a1) && x == a1 + ZKEMAIL[..6]
  {
    KemaiBack(tb, x);
    var y := x[..|x|-5];
    ZBack(tb, y);
    a1 := y[..|y|-1];
    TextSound(tb, 11, ATTRIBUTE, 12, 11, {0} + Span(25, 49), {0, 34}, a1);
    assert x == y + x[|x|-5..] && y == a1 + [y[|y|-1]];
    assert ZKEMAIL[..6] == [122] + KEMAI;
  }

  /** The scan leaves the attribute states for state 25 only, and only by the last byte of `zkemail`. */
  lemma LeaveAttribute(tb: Table, x: bytes) returns (n: nat)
    requires AttributeStates(tb) && MatcherStates(tb) && Eval(tb, 11, x) in Span(25, 49)
    ensures n < |x| && x[n] == 108 && Eval(tb, 11, x[..n]) == 24 && Eval(tb, 25, x[n+1..]) == Eval(tb, 11, x)
  {
    n := Crossing(tb, 11, x, Span(11, 24));
    if tb.next(Eval(tb, 11, x[..n]), x[n]) == 0 { EvalDead(tb, x[n+1..]); }
  }

  lemma FindZkemail(tb: Table, x: bytes) returns (a1: bytes, y: bytes)
    requires AttributeStates(tb) && MatcherStates(tb) && Eval(tb, 11, x) in Span(25, 49)
    ensures Quoted(a1) && x == a1 + (ZKEMAIL + y) && Eval(tb, 25, y) == Eval(tb, 11, x)
  {
    var n := LeaveAttribute(tb, x);
    a1 := MatcherBack(tb, x[..n]);
    y := x[n+1..];
    ZkemailJoin(x, n, a1);
  }

  lemma ZkemailJoin(x: bytes, n: nat, a1: bytes)
    requires n < |x| && x[n] == 108 && x[..n] == a1 + ZKEMAIL[..6]
    ensures x == a1 + (ZKEMAIL + x[n+1..])
  {
    assert x == x[..n] + ([x[n]] + x[n+1..]);
    assert ZKEMAIL == ZKEMAIL[..6] + [108];
  }

  lemma FindQuote(tb: Table, y: bytes) returns (a2: bytes, z: bytes)
    requires QuotedStates(tb) && Eval(tb, 25, y) in {26, 34} + Span(35, 49)
    ensures Quoted(a2) && y == a2 + ([QUOTE] + z) && Eval(tb, 26, z) == Eval(tb, 25, y)
  {
    var n := Crossing(tb, 25, y, {25} + Span(27, 33));
    if tb.next(Eval(tb, 25, y[..n]), y[n]) == 0 { EvalDead(tb, y[n+1..]); }
    a2, z := y[..n], y[n+1..];
    QuotedIff(tb, a2);
    assert y == a2 + ([y[n]] + z);
  }

  lemma FindGt(tb: Table, z: bytes) returns (b: bytes, c: bytes)
    requires InTagStates(tb) && Eval(tb, 26, z) in {34} + Span(42, 49)
    ensures InTag(b) && z == b + ([GT] + c) && Eval(tb, 34, c) == Eval(tb, 26, z)
  {
    var n := Crossing(tb, 26, z, {26} + Span(35, 41));
    if tb.next(Eval(tb, 26, z[..n]), z[n]) == 0 { EvalDead(tb, z[n+1..]); }
    b, c := z[..n], z[n+1..];
    InTagIff(tb, b);
    assert z == b + ([z[n]] + c);
  }

  lemma OpenEval(tb: Table, w: bytes)
    requires OpenStates(tb) && w != []
    ensures |w| >= 11 && w[..11] == OPEN ==> Word(tb, w) == Eval(tb, 11, w[11..])
    ensures !(|w| >= 11 && w[..11] == OPEN) ==> Word(tb, w) <= 10
  {
    var v := w[1..];
    if w[0] == LT {
      ChainEval(tb, OPENING_STATES, OPEN[1..], v);
      if |w| >= 11 {
        assert v[..10] == w[..11][1..] && v[10..] == w[11..];
        assert w[..11] == [w[0]] + v[..10] && OPEN == [LT] + OPEN[1..];
      }
    } else {
      EvalDead(tb, v);
      if |w| >= 11 { assert w[..11][0] == w[0]; }
    }
  }

  const HOLD: set<nat> := {11, 19, 20, 21, 22, 23, 24, 25, 26}

  /** `<` goes on exactly from the states of an open tag. */
  ghost predicate LtStates(tb: Table) {
    && CommandStates(tb) && tb.accept == 42
    && (forall q: nat :: tb.next(q, LT) != 0 <==> q in HOLD)
    && TextListed(tb)
  }

  /** Every edge within the text states is on the circuit's reveal list. */
  ghost predicate TextListed(tb: Table) {
    forall p: nat, c: byte :: p in {34} + Span(42, 49) && tb.next(p, c) != 0 ==> CommandText(p, tb.next(p, c))
  }

  /** All of the above; `Unseal` gives it out where a lemma needs the single transitions. */
  ghost predicate Sealed(tb: Table) {
    ZeroIsDead(tb) && tb.accept == 42 && forall k: nat :: SealedAt(tb, k)
  }

  ghost predicate SealedAt(tb: Table, k: nat) {
    k == 0 ==> LtStates(tb)
  }

  lemma Unseal(tb: Table)
    requires Sealed(tb)
    ensures LtStates(tb)
  {
    assert SealedAt(tb, 0);
  }

  /** Everything after `<div id=3D"`, up to and including the closing quote. */
  lemma AfterQuote(tb: Table, a1: bytes, a2: bytes, z: bytes)
    requires AttributeStates(tb) && MatcherStates(tb) && QuotedStates(tb) && Quoted(a1) && Quoted(a2)
    ensures Eval(tb, 11, a1 + (ZKEMAIL + (a2 + ([QUOTE] + z)))) == Eval(tb, 26, z)
  {
    var z1 := [QUOTE] + z;
    var z2 := a2 + z1;
    EvalConcat(tb, 11, a1, ZKEMAIL + z2);
    AttributeStays(tb, 11, a1);
    var q := Eval(tb, 11, a1);
    EvalConcat(tb, q, ZKEMAIL, z2);
    MatcherThrough(tb, q);
    EvalConcat(tb, 25, a2, z1);
    QuotedIff(tb, a2);
    EvalConcat(tb, 25, [QUOTE], z);
    EvalOne(tb, 25, QUOTE);
  }

  lemma AfterGt(tb: Table, b: bytes, c: bytes)
    requires InTagStates(tb) && InTag(b)
    ensures Eval(tb, 26, b + ([GT] + c)) == Eval(tb, 34, c)
  {
    EvalConcat(tb, 26, b, [GT] + c);
    InTagIff(tb, b);
    EvalConcat(tb, 26, [GT], c);
    EvalOne(tb, 26, GT);
  }

  lemma TagRegroup(a1: bytes, a2: bytes, b: bytes, c: bytes)
    ensures Tag(a1, a2, b) + c == OPEN + (a1 + (ZKEMAIL + (a2 + ([QUOTE] + (b + ([GT] + c))))))
  {
    assert (b + [GT]) + c == b + ([GT] + c);
    assert ([QUOTE] + (b + [GT])) + c == [QUOTE] + (b + ([GT] + c));
    assert (a2 + ([QUOTE] + (b + [GT]))) + c == a2 + ([QUOTE] + (b + ([GT] + c)));
    assert (ZKEMAIL + (a2 + ([QUOTE] + (b + [GT])))) + c == ZKEMAIL + (a2 + ([QUOTE] + (b + ([GT] + c))));
    assert (a1 + (ZKEMAIL + (a2 + ([QUOTE] + (b + [GT]))))) + c == a1 + (ZKEMAIL + (a2 + ([QUOTE] + (b + ([GT] + c)))));
  }

  lemma AfterOpen(tb: Table, x: bytes)
    requires OpenStates(tb)
    ensures Word(tb, OPEN + x) == Eval(tb, 11, x)
  {
    assert (OPEN + x)[..11] == OPEN && (OPEN + x)[11..] == x;
    OpenEval(tb, OPEN + x);
  }

  /** A well-formed tag leads to state 34, where the text begins. */
  lemma TagEval(tb: Table, a1: bytes, a2: bytes, b: bytes, c: bytes)
    requires Sealed(tb) && TagParts(a1, a2, b)
    ensures Word(tb, Tag(a1, a2, b) + c) == Eval(tb, 34, c)
  {
    Unseal(tb);
    TagRegroup(a1, a2, b, c);
    AfterOpen(tb, a1 + (ZKEMAIL + (a2 + ([QUOTE] + (b + ([GT] + c))))));
    AfterQuote(tb, a1, a2, b + ([GT] + c));
    AfterGt(tb, b, c);
  }

  lemma TagSplitAfterOpen(tb: Table, x: bytes) returns (a1: bytes, a2: bytes, b: bytes, c: bytes)
    requires Sealed(tb) && Eval(tb, 11, x) in {34} + Span(42, 49)
    ensures TagParts(a1, a2, b) && x == a1 + (ZKEMAIL + (a2 + ([QUOTE] + (b + ([GT] + c)))))
    ensures Eval(tb, 11, x) == Eval(tb, 34, c)
  {
    Unseal(tb);
    var y, z;
    a1, y := FindZkemail(tb, x);
    a2, z := FindQuote(tb, y);
    b, c := FindGt(tb, z);
  }

  /** Where the scan has passed the tag, the word splits as the regular expression says. */
  lemma TagSplit(tb: Table, w: bytes) returns (a1: bytes, a2: bytes, b: bytes, c: bytes)
    requires Sealed(tb) && w != [] && Word(tb, w) in {34} + Span(42, 49)
    ensures TagParts(a1, a2, b) && w == Tag(a1, a2, b) + c && Word(tb, w) == Eval(tb, 34, c)
  {
    OpenSplit(tb, w);
    a1, a2, b, c := TagSplitAfterOpen(tb, w[11..]);
    TagRegroup(a1, a2, b, c);
  }

  lemma ShownText(tb: Table, c: bytes)
    requires Sealed(tb)
    ensures Eval(tb, 34, c) == 42 <==> c != [] && Shown(c)
  {
    if c != [] { Unseal(tb); ShownIff(tb, c); }
  }

  /** The accept state is reached by exactly the matches. */
  lemma MatchState(tb: Table, w: bytes)
    requires Sealed(tb) && w != []
    ensures Word(tb, w) == 42 <==> CommandMatch(w)
  {
    if Word(tb, w) == 42 {
      var a1, a2, b, c := TagSplit(tb, w);
      ShownText(tb, c);
      assert MatchText(w, c);
    }
    if CommandMatch(w) {
      var c :| MatchText(w, c);
      var a1, a2, b :| TagParts(a1, a2, b) && w == Tag(a1, a2, b) + c;
      TagEval(tb, a1, a2, b, c);
      ShownText(tb, c);
    }
  }

  // ----- tags left open -----

  ghost predicate InAttributeOf(w: bytes, a: bytes) {
    Quoted(a) && w == OPEN + a
  }

  ghost predicate InTagOf(w: bytes, a1: bytes, a2: bytes, b: bytes) {
    TagParts(a1, a2, b) && w == OPEN + (a1 + (ZKEMAIL + (a2 + ([QUOTE] + b))))
  }

  /** w opens `<div id=3D"` and is still inside the attribute, or inside the tag of an attribute with `zkemail`. */
  ghost predicate UnclosedTag(w: bytes) {
    (exists a :: InAttributeOf(w, a)) || (exists a1, a2, b :: InTagOf(w, a1, a2, b))
  }

  lemma AttributeHold(tb: Table, x: bytes)
    requires Sealed(tb) && Eval(tb, 11, x) in ATTRIBUTE + {25}
    ensures Quoted(x)
  {
    Unseal(tb);
    if Eval(tb, 11, x) == 25 {
      var a1, y := FindZkemail(tb, x);
      QuotedIff(tb, y);
      ZkemailQuoted();
      TextConcat(ZKEMAIL, y, {0, 34});
      TextConcat(a1, ZKEMAIL + y, {0, 34});
    } else {
      TextSound(tb, 11, ATTRIBUTE, 12, 11, {0} + Span(25, 49), {0, 34}, x);
    }
  }

  lemma TagHold(tb: Table, x: bytes) returns (a1: bytes, a2: bytes, b: bytes)
    requires Sealed(tb) && Eval(tb, 11, x) == 26
    ensures TagParts(a1, a2, b) && x == a1 + (ZKEMAIL + (a2 + ([QUOTE] + b)))
  {
    Unseal(tb);
    var y;
    a1, y := FindZkemail(tb, x);
    a2, b := FindQuote(tb, y);
    InTagIff(tb, b);
  }

  lemma OpenSplit(tb: Table, w: bytes)
    requires Sealed(tb) && w != [] && Word(tb, w) >= 11
    ensures |w| >= 11 && w == OPEN + w[11..] && Word(tb, w) == Eval(tb, 11, w[11..])
  {
    Unseal(tb);
    OpenEval(tb, w);
    if |w| >= 11 { assert w == w[..11] + w[11..]; }
  }

  lemma HoldIsUnclosed(tb: Table, w: bytes)
    requires Sealed(tb) && w != [] && Word(tb, w) in HOLD
    ensures UnclosedTag(w)
  {
    OpenSplit(tb, w);
    var x := w[11..];
    if Word(tb, w) == 26 {
      var a1, a2, b := TagHold(tb, x);
      assert InTagOf(w, a1, a2, b);
    } else {
      AttributeHold(tb, x);
      assert InAttributeOf(w, x);
    }
  }

  lemma UnclosedIsHold(tb: Table, w: bytes)
    requires Sealed(tb) && UnclosedTag(w)
    ensures w != [] && w[0] == LT && Word(tb, w) in HOLD
  {
    Unseal(tb);
    if a :| InAttributeOf(w, a) {
      AfterOpen(tb, a);
      AttributeStays(tb, 11, a);
    } else {
      var a1, a2, b :| InTagOf(w, a1, a2, b);
      AfterOpen(tb, a1 + (ZKEMAIL + (a2 + ([QUOTE] + b))));
      AfterQuote(tb, a1, a2, b);
      InTagIff(tb, b);
    }
  }

  /** Byte p is still inside a tag that some earlier, unswallowed `<div id=3D"` opened. */
  ghost predicate Inside(msg: bytes, p: nat)
    requires p <= |msg|
    decreases p
  {
    exists r: nat :: r < p && UnclosedTag(msg[r..p]) && !Inside(msg, r)
  }

  lemma InsideElim(msg: bytes, p: nat) returns (r: nat)
    requires p <= |msg| && Inside(msg, p)
    ensures r < p && UnclosedTag(msg[r..p]) && !Inside(msg, r)
  {
    r :| r < p && UnclosedTag(msg[r..p]) && !Inside(msg, r);
  }

  lemma InsideIntro(msg: bytes, r: nat, p: nat)
    requires r < p <= |msg| && UnclosedTag(msg[r..p]) && !Inside(msg, r)
    ensures Inside(msg, p)
  {
  }

  lemma TableLt()
    ensures forall q: nat :: Next(q, LT) != 0 <==> q in HOLD
  {
  }

  lemma TableListed()
    ensures TextListed(TABLE)
  {
  }

  lemma TableStates()
    ensures CommandStates(TABLE)
  {
    TableOpening();
    TableAttributeStates();
    TableMatcher();
    TableQuoted();
    TableInTag();
    TableShown();
  }

  lemma TableSealed()
    ensures Sealed(TABLE)
  {
    TableStates();
    TableLt();
    TableListed();
  }

  lemma RestartOnLt(tb: Table, inp: bytes, p: nat)
    requires Sealed(tb) && p < |inp| && inp[p] == LT
    ensures Restart(tb, inp, p) <==> At(tb, inp, p) !in HOLD
  {
    Unseal(tb);
  }

  lemma HoldStart(tb: Table, inp: bytes, p: nat) returns (s: nat)
    requires Sealed(tb) && p <= |inp| && At(tb, inp, p) in HOLD
    ensures s < p && UnclosedTag(inp[s..p]) && At(tb, inp, s) !in HOLD
  {
    s := RunStart(tb, inp, p);
    HoldIsUnclosed(tb, inp[s..p]);
    UnclosedIsHold(tb, inp[s..p]);
    assert inp[s..p][0] == inp[s];
    RestartOnLt(tb, inp, s);
  }

  lemma UnclosedHolds(tb: Table, inp: bytes, r: nat, p: nat)
    requires Sealed(tb) && r < p <= |inp| && UnclosedTag(inp[r..p]) && At(tb, inp, r) !in HOLD
    ensures At(tb, inp, p) in HOLD
  {
    UnclosedIsHold(tb, inp[r..p]);
    assert inp[r..p][0] == inp[r];
    RestartOnLt(tb, inp, r);
    Follows(tb, inp, r, p);
  }

  lemma {:induction false} InsideIff(tb: Table, inp: bytes, p: nat)
    requires Sealed(tb) && p <= |inp|
    ensures Inside(inp, p) <==> At(tb, inp, p) in HOLD
    decreases p
  {
    if At(tb, inp, p) in HOLD {
      var s := HoldStart(tb, inp, p);
      InsideIff(tb, inp, s);
      InsideIntro(inp, s, p);
    } else if Inside(inp, p) {
      var r := InsideElim(inp, p);
      InsideIff(tb, inp, r);
      UnclosedHolds(tb, inp, r, p);
    }
  }

  /** A match, with shown text c, that no open tag swallows. */
  ghost predicate LiveCommand(msg: bytes, p: nat, t: nat, c: bytes) {
    p < t <= |msg| && MatchText(msg[p..t], c) && !Inside(msg, p)
  }

  lemma MatchStarts(w: bytes, c: bytes)
    requires MatchText(w, c)
    ensures w != [] && w[0] == LT
  {
  }

  lemma RunHasCommand(tb: Table, inp: bytes, s: nat, t: nat) returns (c: bytes)
    requires Sealed(tb) && AcceptedRun(tb, inp, s, t)
    ensures LiveCommand(inp, s, t, c)
  {
    MatchState(tb, inp[s..t]);
    c :| MatchText(inp[s..t], c);
    MatchStarts(inp[s..t], c);
    assert inp[s..t][0] == inp[s];
    RestartOnLt(tb, inp, s);
    InsideIff(tb, inp, s);
  }

  lemma CommandIsRun(tb: Table, inp: bytes, s: nat, t: nat, c: bytes)
    requires Sealed(tb) && LiveCommand(inp, s, t, c)
    ensures AcceptedRun(tb, inp, s, t)
  {
    MatchStarts(inp[s..t], c);
    assert inp[s..t][0] == inp[s];
    assert CommandMatch(inp[s..t]);
    MatchState(tb, inp[s..t]);
    RestartOnLt(tb, inp, s);
    InsideIff(tb, inp, s);
  }

  // ----- the sentinel -----

  lemma UnclosedStarts(w: bytes)
    requires UnclosedTag(w)
    ensures w != [] && w[0] == LT
  {
  }

  lemma UnclosedShift(msg: bytes, r: nat, p: nat)
    requires r < p <= |msg| + 1
    ensures UnclosedTag(Input(msg)[r..p]) <==> r >= 1 && UnclosedTag(msg[r-1..p-1])
  {
    if r == 0 {
      assert Input(msg)[0..p][0] == SENTINEL;
    } else {
      assert Input(msg)[r..p] == msg[r-1..p-1];
    }
    if UnclosedTag(Input(msg)[r..p]) { UnclosedStarts(Input(msg)[r..p]); }
  }

  lemma UnclosedDown(msg: bytes, q: nat, p: nat)
    requires q <= p <= |msg| && UnclosedTag(Input(msg)[q..p+1])
    ensures 1 <= q && UnclosedTag(msg[q-1..p])
  {
    UnclosedShift(msg, q, p + 1);
  }

  lemma InsideDown(msg: bytes, p: nat) returns (r: nat)
    requires p <= |msg| && Inside(Input(msg), p + 1)
    ensures r < p && UnclosedTag(msg[r..p]) && !Inside(Input(msg), r + 1)
  {
    var q := InsideElim(Input(msg), p + 1);
    UnclosedDown(msg, q, p);
    r := q - 1;
  }

  lemma InsideUp(msg: bytes, r: nat, p: nat)
    requires r < p <= |msg| && UnclosedTag(msg[r..p]) && !Inside(Input(msg), r + 1)
    ensures Inside(Input(msg), p + 1)
  {
    UnclosedShift(msg, r + 1, p + 1);
    InsideIntro(Input(msg), r + 1, p + 1);
  }

  lemma {:induction false} InsideShift(msg: bytes, p: nat)
    requires p <= |msg|
    ensures Inside(Input(msg), p + 1) <==> Inside(msg, p)
    decreases p
  {
    if Inside(Input(msg), p + 1) {
      var r := InsideDown(msg, p);
      InsideShift(msg, r);
      InsideIntro(msg, r, p);
    } else if Inside(msg, p) {
      var r := InsideElim(msg, p);
      InsideShift(msg, r);
      InsideUp(msg, r, p);
    }
  }

  lemma LiveShift(msg: bytes, s: nat, t: nat, c: bytes)
    ensures LiveCommand(Input(msg), s, t, c) <==> s >= 1 && t >= 1 && LiveCommand(msg, s - 1, t - 1, c)
  {
    var inp := Input(msg);
    if s < t <= |inp| {
      if s == 0 {
        assert inp[0..t][0] == SENTINEL;
        if MatchText(inp[0..t], c) { MatchStarts(inp[0..t], c); }
      } else {
        assert inp[s..t] == msg[s-1..t-1];
        InsideShift(msg, s - 1);
      }
    }
  }

  // ----- the output -----

  ghost predicate HasLiveCommand(msg: bytes) {
    exists p: nat, t: nat, c :: LiveCommand(msg, p, t, c)
  }

  lemma AcceptedIffCommand(tb: Table, inp: bytes)
    requires Sealed(tb)
    ensures (exists s, t :: AcceptedRun(tb, inp, s, t)) <==> HasLiveCommand(inp)
  {
    if s: nat, t: nat :| AcceptedRun(tb, inp, s, t) {
      var c := RunHasCommand(tb, inp, s, t);
    } else if HasLiveCommand(inp) {
      var s: nat, t: nat, c :| LiveCommand(inp, s, t, c);
      CommandIsRun(tb, inp, s, t, c);
    }
  }

  lemma HasLiveShift(msg: bytes)
    ensures HasLiveCommand(Input(msg)) <==> HasLiveCommand(msg)
  {
    if HasLiveCommand(Input(msg)) {
      var s: nat, t: nat, c :| LiveCommand(Input(msg), s, t, c);
      LiveShift(msg, s, t, c);
    } else if HasLiveCommand(msg) {
      var p: nat, t: nat, c :| LiveCommand(msg, p, t, c);
      LiveShift(msg, p + 1, t + 1, c);
    }
  }

  /** `out` is exactly "some match of the expression does not begin inside a tag that is still open". */
  lemma OutExact(msg: bytes)
    ensures Out(CIRCUIT, Input(msg)) <==> HasLiveCommand(msg)
  {
    TableOfGates();
    OutIffAcceptedRun(CIRCUIT, TABLE, Input(msg));
    TableSealed();
    AcceptedIffCommand(TABLE, Input(msg));
    HasLiveShift(msg);
  }

  // <div id=3D"zkemail">a
  const RETRIED: bytes :=
    [60, 100, 105, 118, 32, 105, 100, 61, 51, 68, 34, 122, 107, 101, 109, 97, 105, 108, 34, 62, 97]

  lemma RetriedMatches()
    ensures CommandMatch(RETRIED)
  {
    assert Text([97], {0, 47, 60, 62});
    assert TagParts([], [], []);
    assert RETRIED == Tag([], [], []) + [97];
    assert MatchText(RETRIED, [97]);
  }

  lemma OnlyZ(k: nat)
    requires k < |RETRIED| && RETRIED[k] == ZKEMAIL[0]
    ensures k == 11 && RETRIED[10] == QUOTE
  {
  }

  /** The attribute text of a match from the first opening would reach over the second opening's quote. */
  lemma FirstAttribute(a1: bytes, rest: bytes, t: nat)
    requires t <= |OPEN + RETRIED| && (OPEN + RETRIED)[0..t] == OPEN + (a1 + (ZKEMAIL + rest))
    ensures |a1| == 11 && a1[10] == QUOTE
  {
    var x := a1 + (ZKEMAIL + rest);
    assert x == (OPEN + RETRIED)[0..t][11..] == RETRIED[..t-11];
    assert x[|a1|] == ZKEMAIL[0] && x[|a1|] == RETRIED[|a1|];
    OnlyZ(|a1|);
    assert a1[10] == x[10];
  }

  lemma QuoteInside(a1: bytes)
    requires |a1| == 11 && a1[10] == QUOTE
    ensures !Quoted(a1)
  {
    if Quoted(a1) { TextAvoids(a1, {0, 34}, 10); }
  }

  lemma NotFromFirst(t: nat, c: bytes)
    requires t <= |OPEN + RETRIED|
    ensures !MatchText((OPEN + RETRIED)[0..t], c)
  {
    var w := (OPEN + RETRIED)[0..t];
    if MatchText(w, c) {
      var a1, a2, b := MatchTag(w, c);
      TagRegroup(a1, a2, b, c);
      FirstAttribute(a1, a2 + ([QUOTE] + (b + ([GT] + c))), t);
      QuoteInside(a1);
    }
  }

  /** After an opening that never closes, a complete match goes unseen. */
  lemma MissedMatch()
    ensures CommandMatch(RETRIED) && !Out(CIRCUIT, Input(OPEN + RETRIED))
  {
    var msg := OPEN + RETRIED;
    RetriedMatches();
    OutExact(msg);
    forall p: nat, t: nat, c ensures !LiveCommand(msg, p, t, c) {
      if LiveCommand(msg, p, t, c) {
        MatchStarts(msg[p..t], c);
        assert msg[p] == msg[p..t][0];
        if p == 0 {
          NotFromFirst(t, c);
        } else {
          assert p == 11;
          assert msg[0..11] == OPEN + [];
          assert InAttributeOf(msg[0..11], []);
          InsideIntro(msg, 0, 11);
        }
      }
    }
  }

  // ----- what is revealed -----

  /** Byte i is shown text of a live match. */
  ghost predicate ShownIn(msg: bytes, p: nat, t: nat, c: bytes, i: nat) {
    LiveCommand(msg, p, t, c) && t - |c| <= i < t
  }

  ghost predicate InCommand(msg: bytes, i: nat) {
    exists p: nat, t: nat, c :: ShownIn(msg, p, t, c, i)
  }

  lemma MatchTag(w: bytes, c: bytes) returns (a1: bytes, a2: bytes, b: bytes)
    requires MatchText(w, c)
    ensures TagParts(a1, a2, b) && w == Tag(a1, a2, b) + c && |c| < |w|
  {
    a1, a2, b :| TagParts(a1, a2, b) && w == Tag(a1, a2, b) + c;
  }

  /** After the tag, the scan is wherever the text read so far leads. */
  lemma TextState(tb: Table, w: bytes, c: bytes, n: nat)
    requires Sealed(tb) && MatchText(w, c) && 1 <= n <= |w| && |w| - |c| <= n
    ensures |c| < |w| && Word(tb, w[..n]) == Eval(tb, 34, c[..n-(|w|-|c|)])
  {
    var a1, a2, b := MatchTag(w, c);
    var h, k := Tag(a1, a2, b), n - (|w| - |c|);
    assert (h + c)[..n] == h + c[..k];
    TagEval(tb, a1, a2, b, c[..k]);
  }

  /** Before its end, it is not in the text states. */
  lemma TagState(tb: Table, w: bytes, c: bytes, n: nat)
    requires Sealed(tb) && MatchText(w, c) && 1 <= n < |w| - |c|
    ensures Word(tb, w[..n]) !in Span(42, 49)
  {
    var h := w[..|w|-|c|];
    TextState(tb, w, c, |h|);
    assert c[..0] == [];
    assert w[..n] == h[..n];
    if Word(tb, h[..n]) in Span(42, 49) { NoWayBack(tb, h, n); }
  }

  lemma TextClosed(tb: Table)
    requires Sealed(tb)
    ensures Closed(tb, {0} + Span(42, 49))
  {
    Unseal(tb);
  }

  /** Once in the text, the scan never comes back to the `>` state. */
  lemma NoWayBack(tb: Table, h: bytes, n: nat)
    requires Sealed(tb) && 1 <= n < |h| && Word(tb, h[..n]) in Span(42, 49)
    ensures Word(tb, h) in {0} + Span(42, 49)
  {
    assert h[1..] == h[..n][1..] + h[n..];
    EvalConcat(tb, tb.begin(h[0]), h[..n][1..], h[n..]);
    TextClosed(tb);
    ClosedEval(tb, {0} + Span(42, 49), Word(tb, h[..n]), h[n..]);
  }

  lemma TextStepListed(tb: Table, c: bytes, k: nat)
    requires Sealed(tb) && k < |c| && Eval(tb, 34, c[..k+1]) != 0
    ensures CommandText(Eval(tb, 34, c[..k]), Eval(tb, 34, c[..k+1]))
  {
    Unseal(tb);
    EvalTake(tb, 34, c, k);
    if k > 0 { ShownRegion(tb, c[..k]); }
  }

  /** The circuit lists the transition that the word w takes on its byte n. */
  predicate WordListed(tb: Table, w: bytes, n: nat)
    requires n < |w|
  {
    CommandText(if n == 0 then 0 else Word(tb, w[..n]), Word(tb, w[..n+1]))
  }

  lemma ListedIffWordListed(tb: Table, inp: bytes, s: nat, t: nat, i: nat)
    requires s <= i < t <= |inp|
    ensures Listed(CIRCUIT, tb, inp, s, i) <==> WordListed(tb, inp[s..t], i - s)
  {
    PrefixOfSlice(inp, s, t, i - s + 1);
    PrefixOfSlice(inp, s, t, i - s);
  }

  lemma ListedInText(tb: Table, w: bytes, c: bytes, n: nat)
    requires Sealed(tb) && 1 <= |w| - |c| <= n < |w| && Word(tb, w[..n+1]) != 0
    requires forall k :: |w| - |c| <= k <= |w| ==> Word(tb, w[..k]) == Eval(tb, 34, c[..k-(|w|-|c|)])
    ensures WordListed(tb, w, n)
  {
    var k := n - (|w| - |c|);
    assert Word(tb, w[..n+1]) == Eval(tb, 34, c[..k+1]);
    TextStepListed(tb, c, k);
  }

  lemma NotListedInTag(tb: Table, w: bytes, c: bytes, n: nat)
    requires Sealed(tb) && MatchText(w, c) && n < |w| - |c|
    ensures !WordListed(tb, w, n)
  {
    if n + 1 < |w| - |c| {
      TagState(tb, w, c, n + 1);
    } else {
      TextState(tb, w, c, n + 1);
      assert c[..0] == [];
    }
  }

  /** Exactly the text part of a match is on the reveal list. */
  lemma WordListedIff(tb: Table, w: bytes, c: bytes, n: nat)
    requires Sealed(tb) && MatchText(w, c) && n < |w| && Word(tb, w[..n+1]) != 0
    ensures WordListed(tb, w, n) <==> |w| - |c| <= n
  {
    var a1, a2, b := MatchTag(w, c);
    if |w| - |c| <= n {
      forall k | |w| - |c| <= k <= |w| ensures Word(tb, w[..k]) == Eval(tb, 34, c[..k-(|w|-|c|)]) {
        TextState(tb, w, c, k);
      }
      ListedInText(tb, w, c, n);
    } else {
      NotListedInTag(tb, w, c, n);
    }
  }

  lemma {:induction false} MatchPrefixLive(tb: Table, w: bytes, c: bytes, n: nat)
    requires Sealed(tb) && MatchText(w, c) && 1 <= n <= |w|
    ensures Word(tb, w[..n]) != 0
  {
    MatchState(tb, w);
    WordPrefixLive(tb, w, n);
  }

  lemma ListedIff(tb: Table, inp: bytes, s: nat, t: nat, c: bytes, i: nat)
    requires Sealed(tb) && LiveCommand(inp, s, t, c) && s <= i < t
    ensures Listed(CIRCUIT, tb, inp, s, i) <==> t - |c| <= i
  {
    ListedIffWordListed(tb, inp, s, t, i);
    MatchPrefixLive(tb, inp[s..t], c, i - s + 1);
    WordListedIff(tb, inp[s..t], c, i - s);
  }

  lemma RevealedIsInCommand(tb: Table, inp: bytes, i: nat)
    requires Sealed(tb) && RevealedIn(CIRCUIT, tb, inp, i)
    ensures InCommand(inp, i)
  {
    var s: nat, t: nat :| RevealedBy(CIRCUIT, tb, inp, s, t, i);
    var c := RunHasCommand(tb, inp, s, t);
    ListedIff(tb, inp, s, t, c, i);
    assert ShownIn(inp, s, t, c, i);
  }

  lemma InCommandIsRevealed(tb: Table, inp: bytes, i: nat)
    requires Sealed(tb) && InCommand(inp, i)
    ensures i < |inp| && RevealedIn(CIRCUIT, tb, inp, i)
  {
    var s: nat, t: nat, c :| ShownIn(inp, s, t, c, i);
    var a1, a2, b := MatchTag(inp[s..t], c);
    CommandIsRun(tb, inp, s, t, c);
    ListedIff(tb, inp, s, t, c, i);
    assert RevealedBy(CIRCUIT, tb, inp, s, t, i);
  }

  lemma InCommandShift(msg: bytes, i: nat)
    ensures InCommand(Input(msg), i + 1) <==> InCommand(msg, i)
  {
    if InCommand(Input(msg), i + 1) {
      var s: nat, t: nat, c :| ShownIn(Input(msg), s, t, c, i + 1);
      LiveShift(msg, s, t, c);
      assert ShownIn(msg, s - 1, t - 1, c, i);
    } else if InCommand(msg, i) {
      var p: nat, t: nat, c :| ShownIn(msg, p, t, c, i);
      LiveShift(msg, p + 1, t + 1, c);
      assert ShownIn(Input(msg), p + 1, t + 1, c, i + 1);
    }
  }

  lemma RevealByRuns(msg: bytes, i: nat)
    requires i < |msg|
    ensures Reveal(CIRCUIT, Input(msg), i) == if RevealedIn(CIRCUIT, TABLE, Input(msg), i + 1) then msg[i] else 0
  {
    TableOfGates();
    RevealExact(CIRCUIT, TABLE, Input(msg), i);
  }

  /** The circuit copies exactly the text after the tag of the live matches, and zeroes everything else. */
  lemma RevealText(msg: bytes, i: nat)
    requires i < |msg|
    ensures Reveal(CIRCUIT, Input(msg), i) == if InCommand(msg, i) then msg[i] else 0
  {
    RevealByRuns(msg, i);
    TableSealed();
    InCommandShift(msg, i);
    if InCommand(msg, i) {
      InCommandIsRevealed(TABLE, Input(msg), i + 1);
    } else if RevealedIn(CIRCUIT, TABLE, Input(msg), i + 1) {
      RevealedIsInCommand(TABLE, Input(msg), i + 1);
    }
  }
}
