/**
 * The circuit shape shared by all regex templates.
 *
 * `Circuit` keeps the wires as the templates draw them: one boolean `states[t][q]` per state, an AND gate per edge,
 * OR gates per target, a restart when no gate fires, and a backward pass `is_consecutive`.
 * `Table` is the one-state scanner those wires stand for.  `OneLive` proves the first refines the second, and the
 * remaining theory (runs, acceptance, the revealed bytes) is proved of the table.
 */
module Scanner {
  import opened Bytes

  const SENTINEL: byte := 255

  /** edge(a, c, b): some AND gate feeds state b from state a on byte c; start(c, b): same from the idle state 0. */
  datatype Circuit = Circuit(
    size: nat,
    edge: (nat, byte, nat) -> bool,
    start: (byte, nat) -> bool,
    accept: nat,
    listed: (nat, nat) -> bool)

  /** The one-state scanner: next(q, c) == 0 when no edge leaves q on c; begin(c) == 0 when c starts nothing. */
  datatype Table = Table(next: (nat, byte) -> nat, begin: byte -> nat, accept: nat)

  ghost predicate Implements(m: Circuit, tb: Table) {
    && 1 <= m.accept < m.size && tb.accept == m.accept
    && (forall c: byte :: tb.next(0, c) == 0 && tb.begin(c) < m.size)
    && (forall a: nat, c: byte :: a < m.size ==> tb.next(a, c) < m.size)
    && (forall a: nat, c: byte, b: nat ::
          1 <= a < m.size && 1 <= b < m.size ==> (m.edge(a, c, b) <==> tb.next(a, c) == b))
    && (forall c: byte, b: nat :: 1 <= b < m.size ==> (m.start(c, b) <==> tb.begin(c) == b))
  }

  /** Message bytes are range-checked to be below the sentinel. */
  predicate Message(msg: bytes) {
    forall i :: 0 <= i < |msg| ==> msg[i] < SENTINEL
  }

  function Input(msg: bytes): (r: bytes)
    ensures |r| == |msg| + 1
  {
    [SENTINEL] + msg
  }

  // ----- the wires -----

  function Bit(b: bool): nat { if b then 1 else 0 }

  /** The OR gate of state b: some live state feeds it. */
  ghost predicate Fires(m: Circuit, live: set<nat>, c: byte, b: nat) {
    exists a :: a in live && m.edge(a, c, b)
  }

  predicate Starts(m: Circuit, c: byte, b: nat) {
    m.start(c, b)
  }

  ghost function Started(m: Circuit, c: byte): set<nat> {
    set b: nat | b < m.size && b != 0 && Starts(m, c, b)
  }

  ghost function Advance(m: Circuit, live: set<nat>, c: byte): set<nat> {
    set b: nat | b < m.size && b != 0 && Fires(m, live, c, b)
  }

  /** The live states after the first t bytes. */
  ghost function Live(m: Circuit, inp: bytes, t: nat): set<nat>
    requires t <= |inp|
    decreases t, 0
  {
    if t == 0 then {}
    else if FromZero(m, inp, t - 1) then Started(m, inp[t-1])
    else Advance(m, Live(m, inp, t - 1), inp[t-1])
  }

  /** from_zero_enabled: no edge fires on byte t; pinned to 0 one past the end. */
  ghost predicate FromZero(m: Circuit, inp: bytes, t: nat)
    requires t <= |inp|
    decreases t, 1
  {
    t < |inp| && Advance(m, Live(m, inp, t), inp[t]) == {}
  }

  ghost predicate Out(m: Circuit, inp: bytes) {
    exists t :: 0 <= t <= |inp| && m.accept in Live(m, inp, t)
  }

  ghost function Accepting(m: Circuit, inp: bytes, t: nat): nat
    requires t <= |inp|
  {
    Bit(m.accept in Live(m, inp, t))
  }

  /** ORAnd([a, b, c]) = (a or b) and c. */
  function OrAnd(a: nat, b: nat, c: nat): nat {
    Bit((a != 0 || b != 0) && c != 0)
  }

  /** is_consecutive[k][2], computed from the last message byte backwards. */
  ghost function Consecutive(m: Circuit, inp: bytes, k: nat): int
    requires k < |inp|
    decreases |inp| - k
  {
    if k == |inp| - 1 then 0
    else
      var later := Consecutive(m, inp, k + 1);
      var c0 := Accepting(m, inp, k + 2) * (1 - later) + later;
      var c1 := Bit(Live(m, inp, k + 2) != {}) * c0;
      OrAnd(1 - Bit(FromZero(m, inp, k + 2)), Accepting(m, inp, k + 2), if c1 == 0 then 0 else 1)
  }

  /** is_substr0[i]: byte i moved along one of the listed transitions (0 as source means a restart). */
  ghost predicate Substring(m: Circuit, inp: bytes, i: nat)
    requires i + 1 < |inp|
  {
    exists a: nat, b: nat :: m.listed(a, b) && b in Live(m, inp, i + 2) &&
      if a == 0 then FromZero(m, inp, i + 1) else !FromZero(m, inp, i + 1) && a in Live(m, inp, i + 1)
  }

  /** is_reveal0[i]: MultiAND of the output, the listed transition and the backward pass. */
  ghost function IsReveal(m: Circuit, inp: bytes, i: nat): nat
    requires i + 1 < |inp|
  {
    Bit(Out(m, inp) && Substring(m, inp, i) && Consecutive(m, inp, i) == 1)
  }

  /** reveal0[i]. */
  ghost function Reveal(m: Circuit, inp: bytes, i: nat): int
    requires i + 1 < |inp|
  {
    inp[i+1] * IsReveal(m, inp, i)
  }

  // ----- the one-state scanner -----

  function At(tb: Table, inp: bytes, t: nat): nat
    requires t <= |inp|
  {
    if t == 0 then 0
    else
      var q := tb.next(At(tb, inp, t - 1), inp[t-1]);
      if q != 0 then q else tb.begin(inp[t-1])
  }

  /** No edge leaves the current state on byte t, so the scan restarts there. */
  predicate Restart(tb: Table, inp: bytes, t: nat)
    requires t < |inp|
  {
    tb.next(At(tb, inp, t), inp[t]) == 0
  }

  /** The state reached from q by reading w with no restart; 0 once an edge is missing. */
  function Eval(tb: Table, q: nat, w: bytes): nat
    decreases |w|
  {
    if w == [] then q else tb.next(Eval(tb, q, w[..|w|-1]), w[|w|-1])
  }

  /** The state reached by a word that starts a run. */
  function Word(tb: Table, w: bytes): nat
    requires w != []
  {
    Eval(tb, tb.begin(w[0]), w[1..])
  }

  /** A run from byte s to byte t that ends in the accept state. */
  ghost predicate AcceptedRun(tb: Table, inp: bytes, s: nat, t: nat) {
    s < t <= |inp| && Restart(tb, inp, s) && Word(tb, inp[s..t]) == tb.accept
  }

  ghost predicate ZeroIsDead(tb: Table) {
    forall c: byte :: tb.next(0, c) == 0
  }

  // ----- the wires compute the table -----

  /** At most one state is live at every step, and it is the state of the table. */
  lemma {:induction false} OneLive(m: Circuit, tb: Table, inp: bytes, t: nat)
    requires Implements(m, tb) && t <= |inp|
    ensures Live(m, inp, t) == if At(tb, inp, t) == 0 then {} else {At(tb, inp, t)}
    ensures At(tb, inp, t) < m.size
    ensures t < |inp| ==> (FromZero(m, inp, t) <==> Restart(tb, inp, t))
    decreases t
  {
    if t > 0 {
      OneLive(m, tb, inp, t - 1);
      var c, p, q := inp[t-1], At(tb, inp, t - 1), At(tb, inp, t);
      if Restart(tb, inp, t - 1) {
        assert forall b: nat :: 1 <= b < m.size ==> (Starts(m, c, b) <==> b == q);
      } else {
        OneStep(m, tb, p, c);
      }
    }
    if t < |inp| { OneStep(m, tb, At(tb, inp, t), inp[t]); }
  }

  lemma OneStep(m: Circuit, tb: Table, p: nat, c: byte)
    requires Implements(m, tb) && p < m.size
    ensures tb.next(p, c) < m.size
    ensures Advance(m, if p == 0 then {} else {p}, c) == if tb.next(p, c) == 0 then {} else {tb.next(p, c)}
  {
    var live: set<nat> := if p == 0 then {} else {p};
    var q := tb.next(p, c);
    if p == 0 {
      assert Advance(m, live, c) == {};
    } else {
      assert forall b: nat :: 1 <= b < m.size ==> (Fires(m, live, c, b) <==> q == b);
    }
  }

  // ----- runs -----

  lemma {:induction false} EvalDead(tb: Table, w: bytes)
    requires ZeroIsDead(tb)
    ensures Eval(tb, 0, w) == 0
    decreases |w|
  {
    if w != [] { EvalDead(tb, w[..|w|-1]); }
  }

  lemma {:induction false} EvalConcat(tb: Table, q: nat, u: bytes, v: bytes)
    ensures Eval(tb, q, u + v) == Eval(tb, Eval(tb, q, u), v)
    decreases |v|
  {
    if v == [] {
      assert u + v == u;
    } else {
      assert (u + v)[..|u + v|-1] == u + v[..|v|-1];
      EvalConcat(tb, q, u, v[..|v|-1]);
    }
  }

  lemma EvalOne(tb: Table, q: nat, c: byte)
    ensures Eval(tb, q, [c]) == tb.next(q, c)
  {
    assert [c][..0] == [];
    assert Eval(tb, q, []) == q;
  }

  lemma EvalTake(tb: Table, q: nat, u: bytes, n: nat)
    requires n < |u|
    ensures Eval(tb, q, u[..n+1]) == tb.next(Eval(tb, q, u[..n]), u[n])
    ensures Eval(tb, q, u[..0]) == q
  {
    assert u[..n+1][..n] == u[..n];
  }

  /** Reading one byte first. */
  lemma EvalCons(tb: Table, q: nat, w: bytes)
    requires w != []
    ensures Eval(tb, q, w) == Eval(tb, tb.next(q, w[0]), w[1..])
  {
    EvalOne(tb, q, w[0]);
    EvalConcat(tb, q, [w[0]], w[1..]);
    assert [w[0]] + w[1..] == w;
  }

  /** States qs read the literal s byte by byte and nothing else. */
  ghost predicate Chain(tb: Table, qs: seq<nat>, s: bytes) {
    |qs| == |s| + 1 && forall i, c: byte :: 0 <= i < |s| ==> tb.next(qs[i], c) == if c == s[i] then qs[i+1] else 0
  }

  /** A chain accepts the literal and hands the rest over; a cut literal leaves the scan inside the chain. */
  lemma {:induction false} ChainEval(tb: Table, qs: seq<nat>, s: bytes, w: bytes)
    requires Chain(tb, qs, s) && ZeroIsDead(tb)
    ensures |w| >= |s| ==> Eval(tb, qs[0], w) == if w[..|s|] == s then Eval(tb, qs[|s|], w[|s|..]) else 0
    ensures |w| < |s| ==> Eval(tb, qs[0], w) == if w == s[..|w|] then qs[|w|] else 0
    decreases |s|
  {
    if s == [] {
      assert w[0..] == w;
    } else if w != [] {
      EvalCons(tb, qs[0], w);
      ChainEval(tb, qs[1..], s[1..], w[1..]);
      if w[0] != s[0] {
        EvalDead(tb, w[1..]);
      } else if |w| >= |s| {
        assert w[1..][..|s|-1] == w[..|s|][1..];
        assert w[1..][|s|-1..] == w[|s|..];
        assert w[..|s|] == s <==> w[..|s|][1..] == s[1..];
      } else {
        assert s[..|w|][1..] == s[1..][..|w|-1];
        assert w == s[..|w|] <==> w[1..] == s[..|w|][1..];
      }
    }
  }

  /** Where the scan leaves a region. */
  lemma {:induction false} Crossing(tb: Table, q: nat, x: bytes, R: set<nat>) returns (n: nat)
    requires q in R && Eval(tb, q, x) !in R
    ensures n < |x| && Eval(tb, q, x[..n]) in R && tb.next(Eval(tb, q, x[..n]), x[n]) !in R
    ensures Eval(tb, q, x) == Eval(tb, tb.next(Eval(tb, q, x[..n]), x[n]), x[n+1..])
    decreases |x|
  {
    var v := x[..|x|-1];
    if Eval(tb, q, v) in R {
      n := |x| - 1;
      assert x[n+1..] == [];
    } else {
      n := Crossing(tb, q, v, R);
      assert v[..n] == x[..n];
      EvalConcat(tb, tb.next(Eval(tb, q, x[..n]), x[n]), v[n+1..], [x[|x|-1]]);
      assert x[n+1..] == v[n+1..] + [x[|x|-1]];
      EvalOne(tb, Eval(tb, tb.next(Eval(tb, q, x[..n]), x[n]), v[n+1..]), x[|x|-1]);
    }
  }

  /** If each state of a chain has a single way in, being at its end means having just read the literal. */
  lemma {:induction false} BackChain(tb: Table, q: nat, qs: seq<nat>, s: bytes, x: bytes)
    requires |qs| == |s| + 1 && q !in qs[1..] && Eval(tb, q, x) == qs[|s|]
    requires forall p: nat, i: nat, c: byte :: i < |s| && tb.next(p, c) == qs[i+1] ==> p == qs[i] && c == s[i]
    ensures |x| >= |s| && x[|x|-|s|..] == s && Eval(tb, q, x[..|x|-|s|]) == qs[0]
    decreases |s|
  {
    if s == [] {
      assert x[..|x|] == x;
    } else {
      assert qs[1..][|s|-1] == qs[|s|];
      assert qs[..|s|][1..] == qs[1..][..|s|-1];
      var v := x[..|x|-1];
      BackChain(tb, q, qs[..|s|], s[..|s|-1], v);
      var m := |x| - |s|;
      assert v[..m] == x[..m] && v[m..] == x[m..|x|-1];
      assert x[m..] == x[m..|x|-1] + [x[|x|-1]] && s == s[..|s|-1] + [s[|s|-1]];
    }
  }

  lemma PrefixOfSlice(w: bytes, s: nat, t: nat, n: nat)
    requires s <= t <= |w| && n <= t - s
    ensures w[s..t][..n] == w[s..s+n]
  {
  }

  /** A live word extended by one byte. */
  lemma WordSnoc(tb: Table, w: bytes)
    requires ZeroIsDead(tb) && |w| >= 2
    ensures Word(tb, w) == tb.next(Word(tb, w[..|w|-1]), w[|w|-1])
  {
    assert w[1..][..|w|-2] == w[..|w|-1][1..];
  }

  /** Every nonempty prefix of a live word is live. */
  lemma {:induction false} WordPrefixLive(tb: Table, w: bytes, n: nat)
    requires ZeroIsDead(tb) && 1 <= n <= |w| && Word(tb, w) != 0
    ensures Word(tb, w[..n]) != 0
    decreases |w| - n
  {
    if n < |w| {
      WordPrefixLive(tb, w, n + 1);
      WordSnoc(tb, w[..n+1]);
      assert w[..n+1][..n] == w[..n];
    } else {
      assert w[..n] == w;
    }
  }

  /** The scan follows a live word from every restart: it cannot lose a run that it has begun. */
  lemma {:induction false} Follows(tb: Table, inp: bytes, s: nat, t: nat)
    requires ZeroIsDead(tb) && s < t <= |inp| && Restart(tb, inp, s) && Word(tb, inp[s..t]) != 0
    ensures At(tb, inp, t) == Word(tb, inp[s..t])
    ensures forall u :: s < u < t ==> !Restart(tb, inp, u)
    decreases t
  {
    var w := inp[s..t];
    if t > s + 1 {
      assert w[..|w|-1] == inp[s..t-1] && w[|w|-1] == inp[t-1];
      WordSnoc(tb, w);
      WordPrefixLive(tb, w, |w| - 1);
      Follows(tb, inp, s, t - 1);
    } else {
      assert w == [inp[s]] && w[1..] == [];
    }
  }

  /** Where the live run at t began. */
  lemma {:induction false} RunStart(tb: Table, inp: bytes, t: nat) returns (s: nat)
    requires ZeroIsDead(tb) && t <= |inp| && At(tb, inp, t) != 0
    ensures s < t && Restart(tb, inp, s) && Word(tb, inp[s..t]) == At(tb, inp, t)
    ensures forall u :: s < u < t ==> !Restart(tb, inp, u)
    decreases t
  {
    if Restart(tb, inp, t - 1) {
      s := t - 1;
      assert inp[s..t] == [inp[s]] && inp[s..t][1..] == [];
    } else {
      s := RunStart(tb, inp, t - 1);
      var w := inp[s..t];
      assert w[..|w|-1] == inp[s..t-1];
      WordSnoc(tb, w);
    }
  }

  /** The circuit output says exactly whether some run is accepted. */
  lemma OutIffAcceptedRun(m: Circuit, tb: Table, inp: bytes)
    requires Implements(m, tb)
    ensures Out(m, inp) <==> exists s, t :: AcceptedRun(tb, inp, s, t)
  {
    if Out(m, inp) {
      var t :| 0 <= t <= |inp| && m.accept in Live(m, inp, t);
      OneLive(m, tb, inp, t);
      var s := RunStart(tb, inp, t);
      assert AcceptedRun(tb, inp, s, t);
    }
    if s, t :| AcceptedRun(tb, inp, s, t) {
      Follows(tb, inp, s, t);
      OneLive(m, tb, inp, t);
      assert m.accept in Live(m, inp, t);
    }
  }

  /** Byte t is swallowed by an earlier run, and cannot start its own, exactly when some earlier run reads it. */
  lemma RestartIff(tb: Table, inp: bytes, t: nat)
    requires ZeroIsDead(tb) && t < |inp|
    ensures !Restart(tb, inp, t) <==> exists s: nat :: s < t && Restart(tb, inp, s) && Word(tb, inp[s..t+1]) != 0
  {
    if !Restart(tb, inp, t) {
      var s := RunStart(tb, inp, t);
      var w := inp[s..t+1];
      assert w[..|w|-1] == inp[s..t];
      WordSnoc(tb, w);
      assert s < t && Restart(tb, inp, s) && Word(tb, inp[s..t+1]) != 0;
    }
    if s: nat :| s < t && Restart(tb, inp, s) && Word(tb, inp[s..t+1]) != 0 {
      Follows(tb, inp, s, t + 1);
    }
  }

  // ----- the backward pass -----

  /** The run alive after message byte k goes on, with no restart, to the accept state at t. */
  ghost predicate AcceptsAt(tb: Table, inp: bytes, k: nat, t: nat) {
    && k + 2 <= t <= |inp| && At(tb, inp, t) == tb.accept && At(tb, inp, k + 2) != 0
    && forall u :: k + 2 <= u < t ==> !Restart(tb, inp, u)
  }

  ghost predicate ReachesAccept(tb: Table, inp: bytes, k: nat) {
    exists t: nat :: AcceptsAt(tb, inp, k, t)
  }

  lemma ReachesAcceptStep(tb: Table, inp: bytes, k: nat)
    requires k + 2 <= |inp| && tb.accept != 0
    ensures ReachesAccept(tb, inp, k) <==>
      At(tb, inp, k + 2) != 0 &&
      (At(tb, inp, k + 2) == tb.accept ||
       (k + 2 < |inp| && !Restart(tb, inp, k + 2) && ReachesAccept(tb, inp, k + 1)))
  {
    if t: nat :| AcceptsAt(tb, inp, k, t) {
      if t > k + 2 {
        assert !Restart(tb, inp, k + 2);
        assert AcceptsAt(tb, inp, k + 1, t);
      }
    }
    if At(tb, inp, k + 2) == tb.accept {
      assert AcceptsAt(tb, inp, k, k + 2);
    } else if At(tb, inp, k + 2) != 0 && k + 2 < |inp| && !Restart(tb, inp, k + 2) && ReachesAccept(tb, inp, k + 1) {
      var t: nat :| AcceptsAt(tb, inp, k + 1, t);
      assert AcceptsAt(tb, inp, k, t);
    }
  }

  /** is_consecutive[k] is a bit, set exactly when the run alive after byte k still reaches the accept state. */
  lemma {:induction false} ConsecutiveIff(m: Circuit, tb: Table, inp: bytes, k: nat)
    requires Implements(m, tb) && k < |inp|
    ensures Consecutive(m, inp, k) == Bit(ReachesAccept(tb, inp, k))
    decreases |inp| - k
  {
    if k == |inp| - 1 {
      assert !ReachesAccept(tb, inp, k);
    } else {
      ConsecutiveIff(m, tb, inp, k + 1);
      OneLive(m, tb, inp, k + 2);
      ReachesAcceptStep(tb, inp, k);
      if k + 2 == |inp| { assert !ReachesAccept(tb, inp, k + 1); }
      ConsecutiveStep(Accepting(m, inp, k + 2), Bit(Live(m, inp, k + 2) != {}), Bit(FromZero(m, inp, k + 2)),
        Consecutive(m, inp, k + 1));
    }
  }

  /** The gates of one backward step, on bits. */
  lemma ConsecutiveStep(acc: nat, changed: nat, zero: nat, later: int)
    requires acc <= 1 && changed <= 1 && zero <= 1 && 0 <= later <= 1
    ensures changed * (acc * (1 - later) + later) == if changed == 1 && (acc == 1 || later == 1) then 1 else 0
  {
  }

  /** Message byte k lies in an accepted run. */
  ghost predicate InAcceptedRun(tb: Table, inp: bytes, i: nat) {
    exists s: nat, t: nat :: s <= i < t && AcceptedRun(tb, inp, s, t)
  }

  /** is_consecutive[k] is set exactly when message byte k lies in an accepted run. */
  lemma ConsecutiveIffInRun(m: Circuit, tb: Table, inp: bytes, k: nat)
    requires Implements(m, tb) && k + 1 < |inp|
    ensures Consecutive(m, inp, k) == Bit(InAcceptedRun(tb, inp, k + 1))
  {
    ConsecutiveIff(m, tb, inp, k);
    if t: nat :| AcceptsAt(tb, inp, k, t) {
      var s := RunStart(tb, inp, t);
      if s > k + 1 { assert false; }
      assert s <= k + 1 < t && AcceptedRun(tb, inp, s, t);
    }
    if s: nat, t: nat :| s <= k + 1 < t && AcceptedRun(tb, inp, s, t) {
      Follows(tb, inp, s, t);
      RunPrefix(tb, inp, s, t, k + 2);
      assert AcceptsAt(tb, inp, k, t);
    }
  }

  /** Inside an accepted run the scan is in the state of the word read so far. */
  lemma RunPrefix(tb: Table, inp: bytes, s: nat, t: nat, u: nat)
    requires ZeroIsDead(tb) && tb.accept != 0 && AcceptedRun(tb, inp, s, t) && s < u <= t
    ensures At(tb, inp, u) == Word(tb, inp[s..u]) != 0
    ensures u < t ==> !Restart(tb, inp, u)
  {
    WordPrefixLive(tb, inp[s..t], u - s);
    assert inp[s..t][..u-s] == inp[s..u];
    Follows(tb, inp, s, u);
    Follows(tb, inp, s, t);
  }

  /** The transition that a run takes on its byte i is listed; its source is 0 where the run begins. */
  ghost predicate Listed(m: Circuit, tb: Table, inp: bytes, s: nat, i: nat)
    requires s <= i < |inp|
  {
    m.listed(if i == s then 0 else Word(tb, inp[s..i]), Word(tb, inp[s..i+1]))
  }

  ghost predicate RevealedBy(m: Circuit, tb: Table, inp: bytes, s: nat, t: nat, i: nat) {
    s <= i < t && AcceptedRun(tb, inp, s, t) && Listed(m, tb, inp, s, i)
  }

  ghost predicate RevealedIn(m: Circuit, tb: Table, inp: bytes, i: nat) {
    exists s: nat, t: nat :: RevealedBy(m, tb, inp, s, t, i)
  }

  /** Every listed transition enters a real state. */
  ghost predicate RevealInRange(m: Circuit) {
    forall a: nat, b: nat :: m.listed(a, b) ==> a < m.size && 1 <= b < m.size
  }

  /** In terms of the table: the state before byte i (0 at a restart) and the state after it. */
  lemma SubstringByStates(m: Circuit, tb: Table, inp: bytes, i: nat)
    requires Implements(m, tb) && RevealInRange(m) && i + 1 < |inp| && At(tb, inp, i + 2) != 0
    ensures Substring(m, inp, i) <==>
      m.listed(if Restart(tb, inp, i + 1) then 0 else At(tb, inp, i + 1), At(tb, inp, i + 2))
  {
    OneLive(m, tb, inp, i + 1);
    OneLive(m, tb, inp, i + 2);
    var a := if Restart(tb, inp, i + 1) then 0 else At(tb, inp, i + 1);
    var b := At(tb, inp, i + 2);
    assert b in Live(m, inp, i + 2);
    if m.listed(a, b) { assert Substring(m, inp, i); }
  }

  lemma SubstringIff(m: Circuit, tb: Table, inp: bytes, s: nat, t: nat, i: nat)
    requires Implements(m, tb) && RevealInRange(m) && s <= i + 1 < t && AcceptedRun(tb, inp, s, t)
    ensures Substring(m, inp, i) <==> Listed(m, tb, inp, s, i + 1)
  {
    RunPrefix(tb, inp, s, t, i + 2);
    SubstringByStates(m, tb, inp, i);
    if s < i + 1 { RunPrefix(tb, inp, s, t, i + 1); }
  }

  /**
   * Exact reveal: byte i of the message is copied to the output exactly when it lies in an accepted run and the run's
   * transition on it is listed; otherwise the output is 0.
   */
  lemma RevealExact(m: Circuit, tb: Table, inp: bytes, i: nat)
    requires Implements(m, tb) && RevealInRange(m) && i + 1 < |inp|
    ensures Reveal(m, inp, i) == if RevealedIn(m, tb, inp, i + 1) then inp[i+1] else 0
  {
    ConsecutiveIffInRun(m, tb, inp, i);
    if InAcceptedRun(tb, inp, i + 1) {
      OutIffAcceptedRun(m, tb, inp);
      forall s: nat, t: nat | s <= i + 1 < t && AcceptedRun(tb, inp, s, t)
        ensures Substring(m, inp, i) <==> RevealedBy(m, tb, inp, s, t, i + 1)
      {
        SubstringIff(m, tb, inp, s, t, i);
      }
    }
    assert IsReveal(m, inp, i) == Bit(RevealedIn(m, tb, inp, i + 1));
  }
}
