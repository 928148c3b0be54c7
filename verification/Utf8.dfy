/**
 * UTF-8 as section 4 of RFC 3629 defines it, and the seven-state sub-automaton by which the regex templates read one
 * multi-byte character.
 */
module Utf8 {
  import opened Bytes
  import opened Scanner

  // ----- the grammar -----

  predicate IsTail(c: byte) { 0x80 <= c <= 0xBF }

  /** One well-formed character: UTF8-1 to UTF8-4. */
  predicate Char(u: bytes) {
    match |u|
    case 1 => u[0] <= 0x7F
    case 2 => 0xC2 <= u[0] <= 0xDF && IsTail(u[1])
    case 3 =>
      && IsTail(u[2])
      && (|| (u[0] == 0xE0 && 0xA0 <= u[1] <= 0xBF)
          || (0xE1 <= u[0] <= 0xEC && IsTail(u[1]))
          || (u[0] == 0xED && 0x80 <= u[1] <= 0x9F)
          || (0xEE <= u[0] <= 0xEF && IsTail(u[1])))
    case 4 =>
      && IsTail(u[2]) && IsTail(u[3])
      && (|| (u[0] == 0xF0 && 0x90 <= u[1] <= 0xBF)
          || (0xF1 <= u[0] <= 0xF3 && IsTail(u[1]))
          || (u[0] == 0xF4 && 0x80 <= u[1] <= 0x8F))
    case _ => false
  }

  function CharLen(lead: byte): nat {
    if lead <= 0x7F then 1
    else if 0xC2 <= lead <= 0xDF then 2
    else if 0xE0 <= lead <= 0xEF then 3
    else if 0xF0 <= lead <= 0xF4 then 4
    else 0
  }

  /** Well-formed text whose one-byte characters avoid `excluded`. */
  predicate Text(w: bytes, excluded: set<int>)
    decreases |w|
  {
    w == [] ||
    var n := CharLen(w[0]);
    1 <= n <= |w| && Char(w[..n]) && (n == 1 ==> w[0] !in excluded) && Text(w[n..], excluded)
  }

  lemma {:induction false} TextConcat(u: bytes, v: bytes, excluded: set<int>)
    requires Text(u, excluded) && Text(v, excluded)
    ensures Text(u + v, excluded)
    decreases |u|
  {
    if u == [] {
      assert u + v == v;
    } else {
      var n := CharLen(u[0]);
      assert (u + v)[..n] == u[..n] && (u + v)[n..] == u[n..] + v;
      TextConcat(u[n..], v, excluded);
    }
  }

  /** Text avoiding more bytes is text avoiding fewer. */
  lemma {:induction false} TextWeaken(w: bytes, excluded: set<int>, fewer: set<int>)
    requires Text(w, excluded) && fewer <= excluded
    ensures Text(w, fewer)
    decreases |w|
  {
    if w != [] { TextWeaken(w[CharLen(w[0])..], excluded, fewer); }
  }

  /** ASCII bytes that are not excluded are text. */
  lemma {:induction false} AsciiText(w: bytes, excluded: set<int>)
    requires forall i :: 0 <= i < |w| ==> w[i] < 0x80 && w[i] !in excluded
    ensures Text(w, excluded)
    decreases |w|
  {
    if w != [] { AsciiText(w[1..], excluded); }
  }

  /** An ASCII byte never stands inside a character, so the text before it is text. */
  lemma {:induction false} TextCut(w: bytes, excluded: set<int>, n: nat)
    requires Text(w, excluded) && n < |w| && w[n] < 0x80
    ensures Text(w[..n], excluded)
    decreases n
  {
    if n > 0 {
      var k := CharLen(w[0]);
      CharTails(w[..k]);
      assert k <= n;
      TextCut(w[k..], excluded, n - k);
      assert w[k..][..n-k] == w[..n][k..];
      assert w[..n][..k] == w[..k];
    }
  }

  lemma CharTails(u: bytes)
    requires Char(u)
    ensures forall i :: 1 <= i < |u| ==> u[i] >= 0x80
  {
  }

  /** An excluded ASCII byte occurs nowhere in the text. */
  lemma {:induction false} TextAvoids(w: bytes, excluded: set<int>, i: nat)
    requires Text(w, excluded) && i < |w|
    ensures w[i] !in excluded || w[i] >= 0x80
    decreases |w|
  {
    var n := CharLen(w[0]);
    if i < n {
      assert w[..n][i] == w[i];
    } else {
      assert w[n..][i-n] == w[i];
      TextAvoids(w[n..], excluded, i - n);
    }
  }

  // ----- the sub-automaton: states first .. first+6, coming back to `home` -----

  function Lead(first: nat, c: byte): nat {
    if 0xC2 <= c <= 0xDF then first
    else if c == 0xE0 then first + 1
    else if 0xE1 <= c <= 0xEC || 0xEE <= c <= 0xEF then first + 2
    else if c == 0xED then first + 3
    else if c == 0xF0 then first + 4
    else if 0xF1 <= c <= 0xF3 then first + 5
    else if c == 0xF4 then first + 6
    else 0
  }

  function Continue(first: nat, home: nat, q: nat, c: byte): nat {
    if q == first then (if IsTail(c) then home else 0)
    else if q == first + 1 then (if 0xA0 <= c <= 0xBF then first else 0)
    else if q == first + 2 then (if IsTail(c) then first else 0)
    else if q == first + 3 then (if 0x80 <= c <= 0x9F then first else 0)
    else if q == first + 4 then (if 0x90 <= c <= 0xBF then first + 2 else 0)
    else if q == first + 5 then (if IsTail(c) then first + 2 else 0)
    else if q == first + 6 then (if 0x80 <= c <= 0x8F then first + 2 else 0)
    else 0
  }

  ghost predicate Decoder(tb: Table, first: nat, home: nat) {
    && first > 0 && ZeroIsDead(tb)
    && forall q: nat, c: byte :: first <= q <= first + 6 ==> tb.next(q, c) == Continue(first, home, q, c)
  }

  ghost predicate Leads(tb: Table, q: nat, first: nat) {
    forall c: byte :: c >= 0x80 ==> tb.next(q, c) == Lead(first, c)
  }

  /** A cut multi-byte character stays among the seven states. */
  lemma CutCharEval(tb: Table, q: nat, first: nat, home: nat, u: bytes)
    requires Decoder(tb, first, home) && Leads(tb, q, first)
    requires u != [] && u[0] >= 0x80 && |u| < CharLen(u[0])
    ensures Eval(tb, q, u) == 0 || first <= Eval(tb, q, u) <= first + 6
  {
    EvalTake(tb, q, u, 0);
    assert u[..|u|] == u;
    if |u| > 1 { EvalTake(tb, q, u, 1); }
    if |u| > 2 { EvalTake(tb, q, u, 2); }
  }

  /** A whole one leads home exactly when it is well-formed. */
  lemma CharEval(tb: Table, q: nat, first: nat, home: nat, u: bytes)
    requires Decoder(tb, first, home) && Leads(tb, q, first)
    requires u != [] && u[0] >= 0x80 && |u| == CharLen(u[0])
    ensures Eval(tb, q, u) == if Char(u) then home else 0
  {
    EvalTake(tb, q, u, 0);
    assert u[..|u|] == u;
    EvalTake(tb, q, u, 1);
    if |u| > 2 { EvalTake(tb, q, u, 2); }
    if |u| > 3 { EvalTake(tb, q, u, 3); }
  }

  /** If every allowed character keeps the scan in S, so does every allowed text. */
  lemma {:induction false} TextStays(tb: Table, q: nat, S: set<nat>, w: bytes, excluded: set<int>)
    requires Text(w, excluded) && q in S
    requires forall p, u :: p in S && Char(u) && (|u| == 1 ==> u[0] !in excluded) ==> Eval(tb, p, u) in S
    ensures Eval(tb, q, w) in S
    decreases |w|
  {
    if w != [] {
      var n := CharLen(w[0]);
      EvalConcat(tb, q, w[..n], w[n..]);
      assert w[..n] + w[n..] == w;
      TextStays(tb, Eval(tb, q, w[..n]), S, w[n..], excluded);
    }
  }

  /** A region that no edge leaves. */
  ghost predicate Closed(tb: Table, S: set<nat>) {
    0 in S && forall q, c: byte :: q in S ==> tb.next(q, c) in S
  }

  lemma {:induction false} ClosedEval(tb: Table, S: set<nat>, q: nat, w: bytes)
    requires Closed(tb, S) && q in S
    ensures Eval(tb, q, w) in S
    decreases |w|
  {
    if w != [] { ClosedEval(tb, S, q, w[..|w|-1]); }
  }

  /** `homes` read text: ASCII bytes outside `excluded` stay, everything else leaves for good into `gone`. */
  ghost predicate TextLoop(tb: Table, homes: set<nat>, first: nat, home: nat, gone: set<nat>, excluded: set<int>) {
    && Decoder(tb, first, home) && Closed(tb, gone) && homes !! gone
    && (forall q :: q in homes ==> Leads(tb, q, first) && !(first <= q <= first + 6))
    && (forall q, c: byte :: q in homes && c < 0x80 ==> tb.next(q, c) in homes + gone)
    && (forall q, c: byte :: q in homes && c < 0x80 && c in excluded ==> tb.next(q, c) in gone)
  }

  /** What a text loop has read, when it is home again, is well-formed text. */
  lemma {:induction false} TextSound(tb: Table, q: nat, homes: set<nat>, first: nat, home: nat, gone: set<nat>,
                                     excluded: set<int>, w: bytes)
    requires TextLoop(tb, homes, first, home, gone, excluded) && home in homes
    requires q in homes && Eval(tb, q, w) in homes
    ensures Text(w, excluded)
    decreases |w|
  {
    if w != [] {
      var n := CharLen(w[0]);
      var m := if n == 0 || n > |w| then |w| else n;
      EvalConcat(tb, q, w[..m], w[m..]);
      assert w[..m] + w[m..] == w;
      var p := Eval(tb, q, w[..m]);
      if w[0] < 0x80 {
        assert w[..1] == [w[0]];
        EvalOne(tb, q, w[0]);
        if p in gone { ClosedEval(tb, gone, p, w[m..]); }
        TextSound(tb, p, homes, first, home, gone, excluded, w[1..]);
      } else if n == 0 {
        EvalCons(tb, q, w);
        ClosedEval(tb, gone, 0, w[1..]);
      } else {
        if m == n { CharEval(tb, q, first, home, w[..m]); } else { CutCharEval(tb, q, first, home, w[..m]); }
        if p != home {
          ClosedEval(tb, gone, 0, w[m..]);
          assert false;
        } else {
          assert m == n;
          TextSound(tb, p, homes, first, home, gone, excluded, w[n..]);
        }
      }
    }
  }

  /** A text loop that also keeps every allowed ASCII byte. */
  ghost predicate ExactLoop(tb: Table, homes: set<nat>, first: nat, home: nat, gone: set<nat>, excluded: set<int>) {
    && TextLoop(tb, homes, first, home, gone, excluded) && home in homes
    && forall q, c: byte :: q in homes && c < 0x80 && c !in excluded ==> tb.next(q, c) in homes
  }

  lemma LoopChar(tb: Table, q: nat, homes: set<nat>, first: nat, home: nat, gone: set<nat>, excluded: set<int>,
                 u: bytes)
    requires ExactLoop(tb, homes, first, home, gone, excluded)
    requires q in homes && Char(u) && (|u| == 1 ==> u[0] !in excluded)
    ensures Eval(tb, q, u) in homes
  {
    if |u| == 1 {
      assert u == [u[0]];
      EvalOne(tb, q, u[0]);
    } else {
      CharEval(tb, q, first, home, u);
    }
  }

  /** From a home state, exactly the allowed texts lead home. */
  lemma LoopExact(tb: Table, q: nat, homes: set<nat>, first: nat, home: nat, gone: set<nat>, excluded: set<int>,
                  w: bytes)
    requires ExactLoop(tb, homes, first, home, gone, excluded) && q in homes
    ensures Eval(tb, q, w) in homes <==> Text(w, excluded)
  {
    if Eval(tb, q, w) in homes { TextSound(tb, q, homes, first, home, gone, excluded, w); }
    if Text(w, excluded) {
      forall p, u | p in homes && Char(u) && (|u| == 1 ==> u[0] !in excluded) ensures Eval(tb, p, u) in homes {
        LoopChar(tb, p, homes, first, home, gone, excluded, u);
      }
      TextStays(tb, q, homes, w, excluded);
    }
  }
}
