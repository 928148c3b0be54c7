/** The two invitation-code scanners: one reveals the whole match (to mask it), the other only its hex digits. */
module InvitationCode {
  import opened Bytes
  import opened Scanner

  /** The AND gates, grouped by the state whose OR gate they feed. */
  predicate Edge(a: nat, c: byte, b: nat) {
    match b
    case 2 => a == 1 && (c == 67 || c == 99)
    case 3 => a == 2 && c == 111
    case 4 => a == 3 && c == 100
    case 5 => a == 4 && c == 101
    case 6 => a == 5 && c == SPACE
    case 7 => (a == 5 && IsHex(c)) || (a == 6 && IsHex(c)) || (a == 7 && IsHex(c))
    case _ => false
  }

  predicate Start(c: byte, b: nat) { b == 1 && c == SPACE }

  predicate WholeMatch(a: nat, b: nat) {
    (a, b) in {(0, 1), (1, 2), (2, 3), (3, 4), (4, 5), (5, 6), (5, 7), (6, 7), (7, 7)}
  }

  predicate DigitsOnly(a: nat, b: nat) {
    (a, b) in {(5, 7), (6, 7), (7, 7)}
  }

  const WITH_PREFIX := Circuit(8, Edge, Start, 7, WholeMatch)
  const PLAIN := Circuit(8, Edge, Start, 7, DigitsOnly)

  // ----- the same gates, grouped by source -----

  function Next(q: nat, c: byte): nat {
    match q
    case 1 => if c == 67 || c == 99 then 2 else 0
    case 2 => if c == 111 then 3 else 0
    case 3 => if c == 100 then 4 else 0
    case 4 => if c == 101 then 5 else 0
    case 5 => if c == SPACE then 6 else if IsHex(c) then 7 else 0
    case 6 => if IsHex(c) then 7 else 0
    case 7 => if IsHex(c) then 7 else 0
    case _ => 0
  }

  function Begin(c: byte): nat { if c == SPACE then 1 else 0 }

  const TABLE := Table(Next, Begin, 7)

  /** No byte fires two gates of one state, so at most one of states 1 to 7 is ever live. */
  lemma TableOfGates()
    ensures Implements(WITH_PREFIX, TABLE) && Implements(PLAIN, TABLE)
    ensures RevealInRange(WITH_PREFIX) && RevealInRange(PLAIN)
  {
  }

  // ----- the language -----

  /** A prefix of ( )(c|C)ode. */
  predicate Opening(w: bytes) {
    && |w| <= 5
    && (|w| > 0 ==> w[0] == SPACE) && (|w| > 1 ==> w[1] == 67 || w[1] == 99)
    && (|w| > 2 ==> w[2] == 111) && (|w| > 3 ==> w[3] == 100) && (|w| > 4 ==> w[4] == 101)
  }

  /** Where the hex digits of a match begin: after the optional second space. */
  function DigitsFrom(w: bytes): nat
    requires |w| >= 6
  {
    if w[5] == SPACE then 6 else 5
  }

  /** ( )(c|C)ode( )?(0|1|2|3|4|5|6|7|8|9|a|b|c|d|e|f)+ */
  predicate CodeMatch(w: bytes) {
    && |w| >= 6 && Opening(w[..5])
    && DigitsFrom(w) < |w| && forall i :: DigitsFrom(w) <= i < |w| ==> IsHex(w[i])
  }

  /** A match, byte by byte. */
  lemma MatchBytes(msg: bytes, p: nat, t: nat)
    requires p < t <= |msg| && CodeMatch(msg[p..t])
    ensures p + 6 <= t && msg[p] == SPACE && (msg[p+1] == 67 || msg[p+1] == 99)
    ensures msg[p+2] == 111 && msg[p+3] == 100 && msg[p+4] == 101
    ensures if msg[p+5] == SPACE then p + 6 < t else IsHex(msg[p+5])
    ensures forall k :: p + 6 <= k < t ==> IsHex(msg[k])
  {
    var w := msg[p..t];
    assert w[..5][0] == msg[p] && w[..5][1] == msg[p+1] && w[..5][2] == msg[p+2];
    assert w[..5][3] == msg[p+3] && w[..5][4] == msg[p+4];
    assert w[5] == msg[p+5];
    forall k | p + 6 <= k < t ensures IsHex(msg[k]) { assert IsHex(w[k-p]); }
  }

  function StateOf(w: bytes): nat
    requires w != []
  {
    if |w| <= 5 then (if Opening(w) then |w| else 0)
    else if |w| == 6 && Opening(w[..5]) && w[5] == SPACE then 6
    else if CodeMatch(w) then 7 else 0
  }

  lemma StateOfSnoc(w: bytes)
    requires |w| >= 2
    ensures StateOf(w) == Next(StateOf(w[..|w|-1]), w[|w|-1])
  {
    var v := w[..|w|-1];
    if |w| == 6 {
      assert v == w[..5];
    } else if |w| > 6 {
      assert v[..5] == w[..5];
      if CodeMatch(v) {
        assert forall i :: DigitsFrom(w) <= i < |w| - 1 ==> IsHex(w[i]) by {
          assert forall i :: 0 <= i < |v| ==> v[i] == w[i];
        }
      }
    }
  }

  /** A word is in state 7 exactly when it is a match; the other states are its proper prefixes. */
  lemma {:induction false} WordState(w: bytes)
    requires w != []
    ensures Word(TABLE, w) == StateOf(w)
    decreases |w|
  {
    if |w| == 1 {
      assert w[1..] == [];
    } else {
      WordState(w[..|w|-1]);
      WordSnoc(TABLE, w);
      StateOfSnoc(w);
    }
  }

  // ----- where a match can start -----

  /**
   * The bytes before p end in a ` code` or ` Code` that is still waiting for its digits, so a space at p is read as its
   * optional second space and cannot start a match.
   */
  predicate Absorbed(msg: bytes, p: nat)
    requires p <= |msg|
  {
    p >= 5 && Opening(msg[p-5..p]) && !Absorbed(msg, p - 5)
  }

  /** A match that the scanner sees. */
  predicate LiveMatch(msg: bytes, p: nat, t: nat) {
    p < t <= |msg| && CodeMatch(msg[p..t]) && !Absorbed(msg, p)
  }

  lemma State5Word(inp: bytes, p: nat)
    requires p <= |inp| && At(TABLE, inp, p) == 5
    ensures p >= 5 && Opening(inp[p-5..p]) && Restart(TABLE, inp, p - 5)
  {
    var s := RunStart(TABLE, inp, p);
    WordState(inp[s..p]);
  }

  lemma OpeningReachesState5(inp: bytes, p: nat)
    requires 5 <= p <= |inp| && Opening(inp[p-5..p]) && Restart(TABLE, inp, p - 5)
    ensures At(TABLE, inp, p) == 5
  {
    WordState(inp[p-5..p]);
    Follows(TABLE, inp, p - 5, p);
  }

  /** On a space, only state 5 goes on. */
  lemma RestartOnSpace(inp: bytes, p: nat)
    requires p < |inp| && inp[p] == SPACE
    ensures Restart(TABLE, inp, p) <==> At(TABLE, inp, p) != 5
  {
  }

  lemma {:induction false} AbsorbedIffState5(inp: bytes, p: nat)
    requires p <= |inp|
    ensures Absorbed(inp, p) <==> At(TABLE, inp, p) == 5
    decreases p
  {
    if p >= 5 && Opening(inp[p-5..p]) {
      AbsorbedIffState5(inp, p - 5);
      assert inp[p-5..p][0] == SPACE;
      RestartOnSpace(inp, p - 5);
      if At(TABLE, inp, p - 5) != 5 { OpeningReachesState5(inp, p); }
    }
    if At(TABLE, inp, p) == 5 { State5Word(inp, p); }
  }

  /** The accepted runs are the live matches. */
  lemma RunIffLiveMatch(inp: bytes, s: nat, t: nat)
    ensures AcceptedRun(TABLE, inp, s, t) <==> LiveMatch(inp, s, t)
  {
    if s < t <= |inp| {
      WordState(inp[s..t]);
      AbsorbedIffState5(inp, s);
      if CodeMatch(inp[s..t]) {
        assert inp[s..t][..5][0] == inp[s];
        RestartOnSpace(inp, s);
      }
    }
  }

  lemma ListedIff(inp: bytes, s: nat, t: nat, i: nat)
    requires s <= i < t && LiveMatch(inp, s, t)
    ensures Listed(WITH_PREFIX, TABLE, inp, s, i)
    ensures Listed(PLAIN, TABLE, inp, s, i) <==> s + DigitsFrom(inp[s..t]) <= i
  {
    var w, n := inp[s..t], i - s;
    PrefixOfSlice(inp, s, t, n + 1);
    MatchPrefixState(w, n + 1);
    if n > 0 {
      PrefixOfSlice(inp, s, t, n);
      MatchPrefixState(w, n);
    }
  }

  lemma MatchPrefixState(w: bytes, n: nat)
    requires CodeMatch(w) && 1 <= n <= |w|
    ensures Word(TABLE, w[..n]) == if n <= 5 then n else if n <= DigitsFrom(w) then 6 else 7
  {
    WordState(w[..n]);
    if n >= 5 { assert w[..n][..5] == w[..5]; }
    if n < 5 { assert w[..n] == w[..5][..n]; }
  }

  // ----- the sentinel -----

  lemma {:induction false} AbsorbedShift(msg: bytes, p: nat)
    requires p <= |msg|
    ensures Absorbed(Input(msg), p + 1) <==> Absorbed(msg, p)
    decreases p
  {
    var inp := Input(msg);
    if p >= 5 {
      assert inp[p-4..p+1] == msg[p-5..p];
      AbsorbedShift(msg, p - 5);
    } else if p == 4 {
      assert inp[0..5][0] == SENTINEL;
    }
  }

  lemma LiveMatchShift(msg: bytes, s: nat, t: nat)
    ensures LiveMatch(Input(msg), s, t) <==> s >= 1 && t >= 1 && LiveMatch(msg, s - 1, t - 1)
  {
    var inp := Input(msg);
    if s < t <= |inp| {
      if s == 0 {
        if t >= 6 { assert inp[0..t][..5][0] == SENTINEL; }
      } else {
        assert inp[s..t] == msg[s-1..t-1];
        AbsorbedShift(msg, s - 1);
      }
    }
  }

  // ----- the output -----

  ghost predicate HasLiveMatch(msg: bytes) {
    exists p: nat, t: nat :: LiveMatch(msg, p, t)
  }

  lemma HasLiveMatchShift(msg: bytes)
    ensures HasLiveMatch(Input(msg)) <==> HasLiveMatch(msg)
  {
    if HasLiveMatch(Input(msg)) {
      var s: nat, t: nat :| LiveMatch(Input(msg), s, t);
      LiveMatchShift(msg, s, t);
    }
    if HasLiveMatch(msg) {
      var p: nat, t: nat :| LiveMatch(msg, p, t);
      LiveMatchShift(msg, p + 1, t + 1);
    }
  }

  /** `out` is exactly "some match does not start right after an unfinished ` code`". */
  lemma OutExact(m: Circuit, msg: bytes)
    requires m == PLAIN || m == WITH_PREFIX
    ensures Out(m, Input(msg)) <==> HasLiveMatch(msg)
  {
    TableOfGates();
    var inp := Input(msg);
    OutIffAcceptedRun(m, TABLE, inp);
    HasLiveMatchShift(msg);
    forall s: nat, t: nat ensures AcceptedRun(TABLE, inp, s, t) <==> LiveMatch(inp, s, t) {
      RunIffLiveMatch(inp, s, t);
    }
  }

  /** A match is found whenever the five bytes before it are not ` code` or ` Code`. */
  lemma MatchFound(msg: bytes, p: nat, t: nat)
    requires p < t <= |msg| && CodeMatch(msg[p..t])
    requires p >= 5 ==> !Opening(msg[p-5..p])
    ensures Out(PLAIN, Input(msg)) && Out(WITH_PREFIX, Input(msg))
  {
    assert LiveMatch(msg, p, t);
    OutExact(PLAIN, msg);
    OutExact(WITH_PREFIX, msg);
  }

  const CODE_CODE: bytes := [32, 99, 111, 100, 101, 32, 67, 111, 100, 101, 32, 49, 50]  // ` code Code 12`

  lemma CodeCodeBytes(p: nat)
    requires p + 6 <= |CODE_CODE| && CODE_CODE[p] == SPACE
    ensures p == 5 || (p == 0 && CODE_CODE[p+5] == SPACE && !IsHex(CODE_CODE[p+6]))
  {
  }

  lemma OnlyAtFive(p: nat, t: nat)
    requires p < t <= |CODE_CODE| && CodeMatch(CODE_CODE[p..t])
    ensures p == 5
  {
    MatchBytes(CODE_CODE, p, t);
    CodeCodeBytes(p);
  }

  lemma FiveAbsorbed()
    ensures Absorbed(CODE_CODE, 5)
  {
    assert Opening(CODE_CODE[0..5]) && !Absorbed(CODE_CODE, 0);
  }

  /** Plain regex search would find ` Code 12` here; the circuit does not. */
  lemma MissedMatch()
    ensures CodeMatch(CODE_CODE[5..]) && !Out(PLAIN, Input(CODE_CODE)) && !Out(WITH_PREFIX, Input(CODE_CODE))
  {
    assert CODE_CODE[5..][..5] == CODE_CODE[5..10];
    OutExact(PLAIN, CODE_CODE);
    OutExact(WITH_PREFIX, CODE_CODE);
    FiveAbsorbed();
    forall p: nat, t: nat ensures !LiveMatch(CODE_CODE, p, t) {
      if p < t <= |CODE_CODE| && CodeMatch(CODE_CODE[p..t]) { OnlyAtFive(p, t); }
    }
  }

  // ----- what is revealed -----

  /** Byte i lies in a live match. */
  ghost predicate InCode(msg: bytes, i: nat) {
    exists p: nat, t: nat :: p <= i < t && LiveMatch(msg, p, t)
  }

  predicate DigitOf(msg: bytes, p: nat, t: nat, i: nat) {
    p <= i < t && LiveMatch(msg, p, t) && p + DigitsFrom(msg[p..t]) <= i
  }

  /** Byte i is a hex digit of a live match. */
  ghost predicate InDigits(msg: bytes, i: nat) {
    exists p: nat, t: nat :: DigitOf(msg, p, t, i)
  }

  lemma RevealedIffInCode(inp: bytes, i: nat)
    requires i < |inp|
    ensures RevealedIn(WITH_PREFIX, TABLE, inp, i) <==> InCode(inp, i)
  {
    forall s: nat, t: nat | s <= i < t
      ensures RevealedBy(WITH_PREFIX, TABLE, inp, s, t, i) <==> LiveMatch(inp, s, t)
    {
      RunIffLiveMatch(inp, s, t);
      if LiveMatch(inp, s, t) { ListedIff(inp, s, t, i); }
    }
  }

  lemma RevealedIffInDigits(inp: bytes, i: nat)
    requires i < |inp|
    ensures RevealedIn(PLAIN, TABLE, inp, i) <==> InDigits(inp, i)
  {
    forall s: nat, t: nat
      ensures RevealedBy(PLAIN, TABLE, inp, s, t, i) <==> DigitOf(inp, s, t, i)
    {
      RunIffLiveMatch(inp, s, t);
      if s <= i < t && LiveMatch(inp, s, t) { ListedIff(inp, s, t, i); }
    }
  }

  lemma InCodeShift(msg: bytes, i: nat)
    ensures InCode(Input(msg), i + 1) <==> InCode(msg, i)
  {
    if InCode(Input(msg), i + 1) {
      var s: nat, t: nat :| s <= i + 1 < t && LiveMatch(Input(msg), s, t);
      LiveMatchShift(msg, s, t);
    }
    if InCode(msg, i) {
      var p: nat, t: nat :| p <= i < t && LiveMatch(msg, p, t);
      LiveMatchShift(msg, p + 1, t + 1);
    }
  }

  lemma DigitOfShift(msg: bytes, s: nat, t: nat, i: nat)
    ensures DigitOf(Input(msg), s, t, i + 1) <==> s >= 1 && t >= 1 && DigitOf(msg, s - 1, t - 1, i)
  {
    LiveMatchShift(msg, s, t);
    if 1 <= s < t <= |Input(msg)| { assert Input(msg)[s..t] == msg[s-1..t-1]; }
  }

  lemma InDigitsShift(msg: bytes, i: nat)
    ensures InDigits(Input(msg), i + 1) <==> InDigits(msg, i)
  {
    if InDigits(Input(msg), i + 1) {
      var s: nat, t: nat :| DigitOf(Input(msg), s, t, i + 1);
      DigitOfShift(msg, s, t, i);
    }
    if InDigits(msg, i) {
      var p: nat, t: nat :| DigitOf(msg, p, t, i);
      DigitOfShift(msg, p + 1, t + 1, i);
    }
  }

  lemma RevealByRuns(m: Circuit, msg: bytes, i: nat)
    requires i < |msg| && (m == WITH_PREFIX || m == PLAIN)
    ensures Reveal(m, Input(msg), i) == if RevealedIn(m, TABLE, Input(msg), i + 1) then msg[i] else 0
  {
    TableOfGates();
    RevealExact(m, TABLE, Input(msg), i);
  }

  /** The prefixed circuit copies exactly the bytes of the live matches. */
  lemma RevealWhole(msg: bytes, i: nat)
    requires i < |msg|
    ensures Reveal(WITH_PREFIX, Input(msg), i) == if InCode(msg, i) then msg[i] else 0
  {
    RevealByRuns(WITH_PREFIX, msg, i);
    RevealedIffInCode(Input(msg), i + 1);
    InCodeShift(msg, i);
  }

  /** The plain circuit copies exactly their hex digits. */
  lemma RevealDigits(msg: bytes, i: nat)
    requires i < |msg|
    ensures Reveal(PLAIN, Input(msg), i) == if InDigits(msg, i) then msg[i] else 0
  {
    RevealByRuns(PLAIN, msg, i);
    RevealedIffInDigits(Input(msg), i + 1);
    InDigitsShift(msg, i);
  }
}
