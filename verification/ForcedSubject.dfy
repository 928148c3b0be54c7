/**
 * The forced-subject scanner:
 * (\r\n|^)subject:((re: )|(RE: )|(Re: )|(fwd: )|(FWD: )|(Fwd: ))*\[Reply Needed\][^\r\n]*\r\n
 */
module ForcedSubject {
  import opened Bytes
  import opened Scanner
  import opened Utf8

  const CR: byte := 13
  const LF: byte := 10

  /** The AND gates, grouped by the state whose OR gate they feed. */
  predicate Edge(a: nat, c: byte, b: nat) {
    match b
    case 2 => a == 1 && c == 10
    case 3 => a == 2 && c == 115
    case 4 => a == 3 && c == 117
    case 5 => a == 4 && c == 98
    case 6 => a == 5 && c == 106
    case 7 => a == 6 && c == 101
    case 8 => a == 7 && c == 99
    case 9 => a == 8 && c == 116
    case 10 =>
      || (a == 9 && c == 58)
      || (a == 20 && c == 32)
    case 11 => a == 10 && c == 70
    case 12 => a == 10 && c == 82
    case 13 => a == 10 && c == 91
    case 14 => a == 10 && c == 102
    case 15 => a == 10 && c == 114
    case 16 => a == 11 && c == 87
    case 17 => (a == 11 && c == 119) || (a == 14 && c == 119)
    case 18 =>
      || (a == 12 && (c == 69 || c == 101))
      || (a == 15 && c == 101)
      || (a == 16 && c == 68)
      || (a == 17 && c == 100)
    case 19 => a == 13 && c == 82
    case 20 => a == 18 && c == 58
    case 21 => a == 19 && c == 101
    case 22 => a == 21 && c == 112
    case 23 => a == 22 && c == 108
    case 24 => a == 23 && c == 121
    case 25 => a == 24 && c == 32
    case 26 => a == 25 && c == 78
    case 27 => a == 26 && c == 101
    case 28 => a == 27 && c == 101
    case 29 => a == 28 && c == 100
    case 30 => a == 29 && c == 101
    case 31 => a == 30 && c == 100
    case 32 =>
      || (a == 31 && c == 93)
      || (a == 32 && (1 <= c <= 9 || 11 <= c <= 12 || 14 <= c <= 127))
      || (a == 34 && (128 <= c <= 191))
    case 33 => a == 32 && c == 13
    case 34 =>
      || (a == 32 && (194 <= c <= 223))
      || (a == 35 && (160 <= c <= 191))
      || (a == 36 && (128 <= c <= 191))
      || (a == 37 && (128 <= c <= 159))
    case 35 => a == 32 && c == 224
    case 36 =>
      || (a == 32 && (225 <= c <= 236 || 238 <= c <= 239))
      || (a == 38 && (144 <= c <= 191))
      || (a == 39 && (128 <= c <= 191))
      || (a == 40 && (128 <= c <= 143))
    case 37 => a == 32 && c == 237
    case 38 => a == 32 && c == 240
    case 39 => a == 32 && (241 <= c <= 243)
    case 40 => a == 32 && c == 244
    case 41 => a == 33 && c == 10
    case _ => false
  }

  predicate Start(c: byte, b: nat) { (b == 1 && c == CR) || (b == 2 && c == SENTINEL) }

  predicate NothingListed(a: nat, b: nat) { false }

  const CIRCUIT := Circuit(42, Edge, Start, 41, NothingListed)

  // ----- the same gates, grouped by source -----

  function Next(q: nat, c: byte): nat {
    match q
    case 1 => if c == LF then 2 else 0
    case 2 => if c == 115 then 3 else 0
    case 3 => if c == 117 then 4 else 0
    case 4 => if c == 98 then 5 else 0
    case 5 => if c == 106 then 6 else 0
    case 6 => if c == 101 then 7 else 0
    case 7 => if c == 99 then 8 else 0
    case 8 => if c == 116 then 9 else 0
    case 9 => if c == 58 then 10 else 0
    case 10 => AfterColon(c)
    case 11 => if c == 87 then 16 else if c == 119 then 17 else 0
    case 12 => if c == 69 || c == 101 then 18 else 0
    case 13 => if c == 82 then 19 else 0
    case 14 => if c == 119 then 17 else 0
    case 15 => if c == 101 then 18 else 0
    case 16 => if c == 68 then 18 else 0
    case 17 => if c == 100 then 18 else 0
    case 18 => if c == 58 then 20 else 0
    case 19 => if c == 101 then 21 else 0
    case 20 => if c == 32 then 10 else 0
    case 21 => if c == 112 then 22 else 0
    case 22 => if c == 108 then 23 else 0
    case 23 => if c == 121 then 24 else 0
    case 24 => if c == 32 then 25 else 0
    case 25 => if c == 78 then 26 else 0
    case 26 => if c == 101 then 27 else 0
    case 27 => if c == 101 then 28 else 0
    case 28 => if c == 100 then 29 else 0
    case 29 => if c == 101 then 30 else 0
    case 30 => if c == 100 then 31 else 0
    case 31 => if c == 93 then 32 else 0
    case 32 => if c == CR then 33 else if c == 0 || c == LF then 0 else if c < 128 then 32 else Lead(34, c)
    case 33 => if c == LF then 41 else 0
    case _ => if 34 <= q <= 40 then Continue(34, 32, q, c) else 0
  }

  function Begin(c: byte): nat { if c == CR then 1 else if c == SENTINEL then 2 else 0 }

  const TABLE := Table(Next, Begin, 41)

  lemma EdgeIsNext(a: nat, c: byte, b: nat)
    requires Edge(a, c, b)
    ensures Next(a, c) == b
  {
  }

  lemma NextIsEdge(a: nat, c: byte)
    requires Next(a, c) != 0
    ensures Edge(a, c, Next(a, c)) && Next(a, c) < 42
  {
  }

  /** No byte fires two gates of one state, so at most one of states 1 to 41 is ever live. */
  lemma TableOfGates()
    ensures Implements(CIRCUIT, TABLE)
  {
    forall a: nat, c: byte, b: nat | 1 <= a < 42 && 1 <= b < 42 ensures Edge(a, c, b) <==> Next(a, c) == b {
      if Edge(a, c, b) { EdgeIsNext(a, c, b); }
      if Next(a, c) == b { NextIsEdge(a, c); }
    }
    forall a: nat, c: byte | a < 42 ensures Next(a, c) < 42 {
      if Next(a, c) != 0 { NextIsEdge(a, c); }
    }
  }

  // ----- the language -----

  const SUBJECT: bytes := [115, 117, 98, 106, 101, 99, 116, 58]                          // subject:
  const REPLY: bytes := [91, 82, 101, 112, 108, 121, 32, 78, 101, 101, 100, 101, 100, 93]  // [Reply Needed]
  const CRLF: bytes := [CR, LF]

  /** re: , RE: , Re: , fwd: , FWD: , Fwd: (each with its trailing space). */
  predicate IsPrefix(u: bytes) {
    || u == [114, 101, 58, 32] || u == [82, 69, 58, 32] || u == [82, 101, 58, 32]
    || u == [102, 119, 100, 58, 32] || u == [70, 87, 68, 58, 32] || u == [70, 119, 100, 58, 32]
  }

  function Flatten(ps: seq<bytes>): bytes {
    if ps == [] then [] else ps[0] + Flatten(ps[1..])
  }

  /** [^\r\n]*: nonzero well-formed UTF-8 characters other than CR and LF. */
  predicate Body(b: bytes) { Text(b, {0, 10, 13}) }

  ghost predicate LineOf(v: bytes, ps: seq<bytes>, body: bytes) {
    && (forall i :: 0 <= i < |ps| ==> IsPrefix(ps[i])) && Body(body)
    && v == SUBJECT + (Flatten(ps) + (REPLY + (body + CRLF)))
  }

  /** A subject line without the start anchor. */
  ghost predicate Line(v: bytes) {
    exists ps: seq<bytes>, body: bytes :: LineOf(v, ps, body)
  }

  // ----- the states read the language; stated of any table with the same local transitions -----

  function AfterColon(c: byte): nat {
    if c == 70 then 11 else if c == 82 then 12 else if c == 91 then 13
    else if c == 102 then 14 else if c == 114 then 15 else 0
  }

  /** The reply/forward loop through states 10 to 20, and the step into the bracketed text. */
  ghost predicate PrefixStates(tb: Table) {
    && ZeroIsDead(tb)
    && (forall c: byte :: tb.next(10, c) == AfterColon(c))
    && (forall c: byte :: tb.next(11, c) == if c == 87 then 16 else if c == 119 then 17 else 0)
    && (forall c: byte :: tb.next(12, c) == if c == 69 || c == 101 then 18 else 0)
    && (forall c: byte :: tb.next(14, c) == if c == 119 then 17 else 0)
    && (forall c: byte :: tb.next(15, c) == if c == 101 then 18 else 0)
    && (forall c: byte :: tb.next(16, c) == if c == 68 then 18 else 0)
    && (forall c: byte :: tb.next(17, c) == if c == 100 then 18 else 0)
    && (forall c: byte :: tb.next(18, c) == if c == 58 then 20 else 0)
    && (forall c: byte :: tb.next(20, c) == if c == 32 then 10 else 0)
  }

  const SUBJECT_STATES: seq<nat> := [2, 3, 4, 5, 6, 7, 8, 9, 10]
  const REPLY_STATES: seq<nat> := [13, 19, 21, 22, 23, 24, 25]
  const NEEDED_STATES: seq<nat> := [25, 26, 27, 28, 29, 30, 31, 32]
  const REPLY_WORD: bytes := [82, 101, 112, 108, 121, 32]        // Reply and a space
  const NEEDED_WORD: bytes := [78, 101, 101, 100, 101, 100, 93]  // Needed]

  ghost predicate LiteralStates(tb: Table) {
    && ZeroIsDead(tb)
    && Chain(tb, SUBJECT_STATES, SUBJECT)
    && Chain(tb, REPLY_STATES, REPLY_WORD) && Chain(tb, NEEDED_STATES, NEEDED_WORD)
  }

  ghost predicate BodyStates(tb: Table) {
    && ExactLoop(tb, {32}, 34, 32, {0, 33, 41}, {0, 10, 13})
    && (forall c: byte :: tb.next(32, c) == 33 <==> c == CR)
    && (forall c: byte :: tb.next(33, c) == 41 <==> c == LF)
    && (forall q: nat, c: byte :: tb.next(q, c) == 41 ==> q == 33)
    && (forall q: nat, c: byte :: tb.next(q, c) == 33 ==> q == 32)
  }

  lemma TablePrefixes()
    ensures PrefixStates(TABLE)
  {
  }

  lemma TableBodyLoop()
    ensures ExactLoop(TABLE, {32}, 34, 32, {0, 33, 41}, {0, 10, 13})
  {
  }

  lemma TableBody()
    ensures BodyStates(TABLE)
  {
    TableBodyLoop();
  }

  lemma TableSubject()
    ensures Chain(TABLE, SUBJECT_STATES, SUBJECT)
  {
  }

  lemma TableReply()
    ensures Chain(TABLE, REPLY_STATES, REPLY_WORD)
  {
  }

  lemma TableNeeded()
    ensures Chain(TABLE, NEEDED_STATES, NEEDED_WORD)
  {
  }

  /** How many bytes a prefix that starts with c has. */
  function PrefixLen(c: byte): nat {
    if c == 82 || c == 114 then 4 else if c == 70 || c == 102 then 5 else 0
  }

  lemma PrefixTail(tb: Table, u: bytes)
    requires PrefixStates(tb) && |u| <= 2
    ensures |u| == 2 ==> Eval(tb, 18, u) == if u[0] == 58 && u[1] == 32 then 10 else 0
    ensures |u| < 2 ==> Eval(tb, 18, u) <= 20
  {
    if u != [] {
      EvalCons(tb, 18, u);
      if |u| == 2 { EvalCons(tb, tb.next(18, u[0]), u[1..]); }
    }
  }

  lemma PrefixMiddle(tb: Table, q: nat, u: bytes)
    requires PrefixStates(tb) && (q == 16 || q == 17) && |u| <= 3
    ensures |u| == 3 ==>
      Eval(tb, q, u) == if u[0] == (if q == 16 then 68 else 100) && u[1] == 58 && u[2] == 32 then 10 else 0
    ensures |u| < 3 ==> Eval(tb, q, u) <= 20
  {
    if u != [] {
      EvalCons(tb, q, u);
      if tb.next(q, u[0]) == 18 { PrefixTail(tb, u[1..]); } else { EvalDead(tb, u[1..]); }
    }
  }

  lemma ReEval(tb: Table, u: bytes)
    requires PrefixStates(tb) && u != [] && (u[0] == 82 || u[0] == 114) && |u| <= 4
    ensures |u| == 4 ==> Eval(tb, 10, u) == if IsPrefix(u) then 10 else 0
    ensures |u| < 4 ==> Eval(tb, 10, u) <= 20
  {
    EvalCons(tb, 10, u);
    var v := u[1..];
    if v != [] {
      EvalCons(tb, tb.next(10, u[0]), v);
      if tb.next(tb.next(10, u[0]), v[0]) == 18 { PrefixTail(tb, v[1..]); } else { EvalDead(tb, v[1..]); }
    }
  }

  lemma FwdEval(tb: Table, u: bytes)
    requires PrefixStates(tb) && u != [] && (u[0] == 70 || u[0] == 102) && |u| <= 5
    ensures |u| == 5 ==> Eval(tb, 10, u) == if IsPrefix(u) then 10 else 0
    ensures |u| < 5 ==> Eval(tb, 10, u) <= 20
  {
    EvalCons(tb, 10, u);
    var v := u[1..];
    if v != [] {
      var q := tb.next(tb.next(10, u[0]), v[0]);
      EvalCons(tb, tb.next(10, u[0]), v);
      if q == 0 { EvalDead(tb, v[1..]); } else { PrefixMiddle(tb, q, v[1..]); }
    }
  }

  /** From state 10, a reply or forward prefix leads back to state 10 and nothing else of its length does. */
  lemma PrefixEval(tb: Table, u: bytes)
    requires PrefixStates(tb) && u != [] && PrefixLen(u[0]) > 0 && |u| <= PrefixLen(u[0])
    ensures |u| == PrefixLen(u[0]) ==> Eval(tb, 10, u) == if IsPrefix(u) then 10 else 0
    ensures |u| < PrefixLen(u[0]) ==> Eval(tb, 10, u) <= 20
  {
    if PrefixLen(u[0]) == 4 { ReEval(tb, u); } else { FwdEval(tb, u); }
  }

  lemma NeededEval(tb: Table, z: bytes)
    requires LiteralStates(tb)
    ensures |z| >= 7 ==> Eval(tb, 25, z) == if z[..7] == NEEDED_WORD then Eval(tb, 32, z[7..]) else 0
    ensures |z| < 7 ==> Eval(tb, 25, z) <= 31
  {
    ChainEval(tb, NEEDED_STATES, NEEDED_WORD, z);
  }

  lemma ReplyWordEval(tb: Table, y: bytes)
    requires LiteralStates(tb)
    ensures |y| >= 6 ==> Eval(tb, 13, y) == if y[..6] == REPLY_WORD then Eval(tb, 25, y[6..]) else 0
    ensures |y| < 6 ==> Eval(tb, 13, y) <= 31
  {
    ChainEval(tb, REPLY_STATES, REPLY_WORD, y);
  }

  lemma ReplySplit(x: bytes)
    requires |x| >= 14 && x[0] == REPLY[0]
    ensures x[..14] == REPLY <==> x[1..][..6] == REPLY_WORD && x[1..][6..][..7] == NEEDED_WORD
    ensures x[1..][6..][7..] == x[14..]
  {
    assert x[1..][..6] == x[1..7] && x[1..][6..][..7] == x[7..14];
    assert x[..14] == [x[0]] + x[1..7] + x[7..14];
    assert REPLY == [REPLY[0]] + REPLY_WORD + NEEDED_WORD;
    if x[..14] == REPLY {
      assert x[1..7] == x[..14][1..7] && x[7..14] == x[..14][7..14];
      assert REPLY[1..7] == REPLY_WORD && REPLY[7..14] == NEEDED_WORD;
    }
  }

  /** [Reply Needed] leads from state 10 to state 32. */
  lemma ReplyEval(tb: Table, x: bytes)
    requires LiteralStates(tb) && PrefixStates(tb) && x != [] && x[0] == REPLY[0]
    ensures |x| >= 14 && x[..14] == REPLY ==> Eval(tb, 10, x) == Eval(tb, 32, x[14..])
    ensures !(|x| >= 14 && x[..14] == REPLY) ==> Eval(tb, 10, x) <= 31
  {
    EvalCons(tb, 10, x);
    var y := x[1..];
    ReplyWordEval(tb, y);
    if |y| >= 6 { NeededEval(tb, y[6..]); }
    if |x| >= 14 { ReplySplit(x); }
  }

  ghost predicate Ended(y: bytes) {
    |y| >= 2 && y[|y|-2] == CR && y[|y|-1] == LF && Body(y[..|y|-2])
  }

  /** State 32 accepts exactly a body followed by CRLF. */
  lemma BodyEval(tb: Table, y: bytes)
    requires BodyStates(tb)
    ensures Eval(tb, 32, y) == 41 <==> Ended(y)
  {
    if |y| >= 2 {
      var z := y[..|y|-1];
      assert z[..|z|-1] == y[..|y|-2];
      LoopExact(tb, 32, {32}, 34, 32, {0, 33, 41}, {0, 10, 13}, y[..|y|-2]);
      assert Eval(tb, 32, z) == tb.next(Eval(tb, 32, y[..|y|-2]), y[|y|-2]);
    } else if |y| == 1 {
      assert Eval(tb, 32, y[..0]) == 32;
    }
  }

  ghost predicate RestOf(x: bytes, ps: seq<bytes>, body: bytes) {
    && (forall i :: 0 <= i < |ps| ==> IsPrefix(ps[i])) && Body(body)
    && x == Flatten(ps) + (REPLY + (body + CRLF))
  }

  ghost predicate SubjectStates(tb: Table) {
    PrefixStates(tb) && LiteralStates(tb) && BodyStates(tb)
  }

  lemma RestBase(y: bytes) returns (body: bytes)
    requires Ended(y)
    ensures RestOf(REPLY + y, [], body)
  {
    body := y[..|y|-2];
    assert y == body + CRLF;
  }

  lemma RestCons(u: bytes, z: bytes, qs: seq<bytes>, body: bytes)
    requires IsPrefix(u) && RestOf(z, qs, body)
    ensures RestOf(u + z, [u] + qs, body)
  {
    assert ([u] + qs)[1..] == qs;
    assert u + z == Flatten([u] + qs) + (REPLY + (body + CRLF));
  }

  /** What state 10 accepts is prefixes, the bracketed text, a body and CRLF. */
  lemma {:induction false} RestSound(tb: Table, x: bytes) returns (ps: seq<bytes>, body: bytes)
    requires SubjectStates(tb) && Eval(tb, 10, x) == 41
    ensures RestOf(x, ps, body)
    decreases |x|
  {
    if x == [] {
      assert false;
    } else if x[0] == REPLY[0] {
      ReplyEval(tb, x);
      BodyEval(tb, x[14..]);
      body := RestBase(x[14..]);
      ps := [];
      assert x == x[..14] + x[14..];
    } else {
      var n := PrefixRead(tb, x);
      var qs;
      qs, body := RestSound(tb, x[n..]);
      ps := [x[..n]] + qs;
      RestCons(x[..n], x[n..], qs, body);
      assert x == x[..n] + x[n..];
    }
  }

  lemma PrefixRead(tb: Table, x: bytes) returns (n: nat)
    requires SubjectStates(tb) && x != [] && x[0] != REPLY[0] && Eval(tb, 10, x) == 41
    ensures 0 < n <= |x| && IsPrefix(x[..n]) && Eval(tb, 10, x[n..]) == 41
  {
    n := PrefixLen(x[0]);
    if n == 0 {
      EvalCons(tb, 10, x);
      EvalDead(tb, x[1..]);
    } else if |x| < n {
      PrefixEval(tb, x);
    } else {
      PrefixEval(tb, x[..n]);
      EvalConcat(tb, 10, x[..n], x[n..]);
      assert x[..n] + x[n..] == x;
      if !IsPrefix(x[..n]) { EvalDead(tb, x[n..]); }
    }
  }

  lemma {:induction false} RestComplete(tb: Table, ps: seq<bytes>, body: bytes)
    requires SubjectStates(tb) && (forall i :: 0 <= i < |ps| ==> IsPrefix(ps[i])) && Body(body)
    ensures Eval(tb, 10, Flatten(ps) + (REPLY + (body + CRLF))) == 41
    decreases |ps|
  {
    var t := REPLY + (body + CRLF);
    if ps == [] {
      assert Flatten(ps) + t == t;
      var y := body + CRLF;
      assert t[..14] == REPLY && t[14..] == y;
      ReplyEval(tb, t);
      assert y[..|y|-2] == body;
      BodyEval(tb, y);
    } else {
      RestComplete(tb, ps[1..], body);
      PrefixEval(tb, ps[0]);
      EvalConcat(tb, 10, ps[0], Flatten(ps[1..]) + t);
      assert Flatten(ps) + t == ps[0] + (Flatten(ps[1..]) + t);
    }
  }

  lemma SubjectEval(tb: Table, v: bytes)
    requires LiteralStates(tb)
    ensures |v| >= 8 ==> Eval(tb, 2, v) == if v[..8] == SUBJECT then Eval(tb, 10, v[8..]) else 0
    ensures |v| < 8 ==> Eval(tb, 2, v) <= 10
  {
    ChainEval(tb, SUBJECT_STATES, SUBJECT, v);
  }

  /** State 2, which both anchors lead to, accepts exactly a subject line. */
  lemma LineEval(tb: Table, v: bytes)
    requires SubjectStates(tb)
    ensures Eval(tb, 2, v) == 41 <==> Line(v)
  {
    SubjectEval(tb, v);
    if Eval(tb, 2, v) == 41 {
      var ps, body := RestSound(tb, v[8..]);
      assert v == v[..8] + v[8..];
      assert LineOf(v, ps, body);
    }
    if Line(v) {
      var ps, body :| LineOf(v, ps, body);
      RestComplete(tb, ps, body);
      assert v[..8] == SUBJECT && v[8..] == Flatten(ps) + (REPLY + (body + CRLF));
    }
  }

  // ----- runs -----

  ghost predicate AnchorStates(tb: Table) {
    && SubjectStates(tb) && tb.accept == 41
    && (forall c: byte :: tb.begin(c) == if c == CR then 1 else if c == SENTINEL then 2 else 0)
    && (forall c: byte :: tb.next(1, c) == if c == LF then 2 else 0)
    && (forall q: nat :: tb.next(q, CR) != 0 ==> q == 32)
  }

  lemma TableAnchors()
    ensures AnchorStates(TABLE)
  {
    TablePrefixes();
    TableBody();
    TableSubject();
    TableReply();
    TableNeeded();
  }

  /** The match starts at byte s: at the sentinel for `^`, at the CR for `\r\n`. */
  ghost predicate Anchored(inp: bytes, s: nat, t: nat) {
    s < t <= |inp| &&
    (|| (inp[s] == SENTINEL && Line(inp[s+1..t]))
     || (inp[s] == CR && s + 1 < t && inp[s+1] == LF && Line(inp[s+2..t])))
  }

  lemma WordAnchored(tb: Table, inp: bytes, s: nat, t: nat)
    requires AnchorStates(tb) && s < t <= |inp|
    ensures Word(tb, inp[s..t]) == 41 <==> Anchored(inp, s, t)
  {
    var v := inp[s..t][1..];
    assert v == inp[s+1..t];
    if inp[s] == SENTINEL {
      LineEval(tb, v);
    } else if inp[s] == CR {
      if v != [] {
        EvalCons(tb, 1, v);
        assert v[1..] == inp[s+2..t];
        if v[0] == LF { LineEval(tb, v[1..]); } else { EvalDead(tb, v[1..]); }
      }
    } else {
      EvalDead(tb, v);
    }
  }

  /** A match whose CR ends an earlier body is accepted there, one byte later. */
  lemma OverlapAccepted(tb: Table, inp: bytes, s: nat) returns (r: nat)
    requires AnchorStates(tb) && s + 1 < |inp| && inp[s] == CR && inp[s+1] == LF && !Restart(tb, inp, s)
    ensures AcceptedRun(tb, inp, r, s + 2)
  {
    assert At(tb, inp, s) == 32;
    assert At(tb, inp, s + 1) == tb.next(32, CR) == 33;
    assert At(tb, inp, s + 2) == 41;
    r := RunStart(tb, inp, s + 2);
  }

  ghost predicate HasAnchored(inp: bytes) {
    exists s: nat, t: nat :: Anchored(inp, s, t)
  }

  lemma AcceptedIffAnchored(tb: Table, msg: bytes)
    requires AnchorStates(tb) && Message(msg)
    ensures (exists s, t :: AcceptedRun(tb, Input(msg), s, t)) <==> HasAnchored(Input(msg))
  {
    var inp := Input(msg);
    if s: nat, t: nat :| AcceptedRun(tb, inp, s, t) {
      WordAnchored(tb, inp, s, t);
    }
    if s: nat, t: nat :| Anchored(inp, s, t) {
      WordAnchored(tb, inp, s, t);
      if Restart(tb, inp, s) {
        assert AcceptedRun(tb, inp, s, t);
      } else {
        assert s > 0 && inp[s] == msg[s-1];
        var r := OverlapAccepted(tb, inp, s);
      }
    }
  }

  ghost predicate FirstLine(msg: bytes, t: nat) {
    t <= |msg| && Line(msg[..t])
  }

  ghost predicate LaterLine(msg: bytes, p: nat, t: nat) {
    p + 2 <= t <= |msg| && msg[p] == CR && msg[p+1] == LF && Line(msg[p+2..t])
  }

  /** Some line of the header (at its start, or after a CRLF) is a forced subject line. */
  ghost predicate HasSubjectLine(msg: bytes) {
    (exists t: nat :: FirstLine(msg, t)) || (exists p: nat, t: nat :: LaterLine(msg, p, t))
  }

  lemma AnchoredShift(msg: bytes, s: nat, t: nat)
    requires Message(msg) && t >= 1
    ensures Anchored(Input(msg), s, t) <==> if s == 0 then FirstLine(msg, t - 1) else LaterLine(msg, s - 1, t - 1)
  {
    var inp := Input(msg);
    if s < t <= |inp| {
      if s == 0 {
        assert inp[1..t] == msg[..t-1];
      } else {
        assert inp[s] == msg[s-1];
        if s + 1 < t { assert inp[s+1] == msg[s] && inp[s+2..t] == msg[s+1..t-1]; }
      }
    }
  }

  lemma AnchoredHasLine(msg: bytes)
    requires Message(msg) && HasAnchored(Input(msg))
    ensures HasSubjectLine(msg)
  {
    var s: nat, t: nat :| Anchored(Input(msg), s, t);
    AnchoredShift(msg, s, t);
  }

  lemma LineIsAnchored(msg: bytes)
    requires Message(msg) && HasSubjectLine(msg)
    ensures HasAnchored(Input(msg))
  {
    if t: nat :| FirstLine(msg, t) {
      AnchoredShift(msg, 0, t + 1);
      assert Anchored(Input(msg), 0, t + 1);
    } else {
      var p: nat, t: nat :| LaterLine(msg, p, t);
      AnchoredShift(msg, p + 1, t + 1);
      assert Anchored(Input(msg), p + 1, t + 1);
    }
  }

  /** The circuit decides its regular expression exactly. */
  lemma OutExact(msg: bytes)
    requires Message(msg)
    ensures Out(CIRCUIT, Input(msg)) <==> HasSubjectLine(msg)
  {
    TableOfGates();
    OutIffAcceptedRun(CIRCUIT, TABLE, Input(msg));
    TableAnchors();
    AcceptedIffAnchored(TABLE, msg);
    if HasSubjectLine(msg) { LineIsAnchored(msg); } else if HasAnchored(Input(msg)) { AnchoredHasLine(msg); }
  }
}
