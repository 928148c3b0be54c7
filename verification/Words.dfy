/** Splitting a string at a delimiter and joining words with it. */
module Words {
  import opened Bytes

  predicate Free(s: bytes, d: byte) { d !in s }

  predicate AllFree(ws: seq<bytes>, d: byte) {
    forall i :: 0 <= i < |ws| ==> Free(ws[i], d)
  }

  function Join(ws: seq<bytes>, d: byte): bytes {
    if ws == [] then []
    else if |ws| == 1 then ws[0]
    else Join(ws[..|ws|-1], d) + [d] + ws[|ws|-1]
  }

  /** The parts between delimiters, empty ones included. */
  function Split(s: bytes, d: byte): (ps: seq<bytes>)
    ensures ps != []
  {
    if s == [] then [[]]
    else
      var ps, c := Split(s[..|s|-1], d), s[|s|-1];
      if c == d then ps + [[]] else ps[|ps|-1 := ps[|ps|-1] + [c]]
  }

  function Count(s: bytes, d: byte): nat {
    if s == [] then 0 else Count(s[..|s|-1], d) + if s[|s|-1] == d then 1 else 0
  }

  /** No part contains the delimiter, and there is one more part than there are delimiters. */
  lemma {:induction false} SplitFree(s: bytes, d: byte)
    ensures AllFree(Split(s, d), d) && |Split(s, d)| == Count(s, d) + 1
    decreases |s|
  {
    if s != [] { SplitFree(s[..|s|-1], d); }
  }

  lemma JoinGrow(ws: seq<bytes>, c: byte, d: byte)
    requires ws != []
    ensures Join(ws[|ws|-1 := ws[|ws|-1] + [c]], d) == Join(ws, d) + [c]
  {
    var vs := ws[|ws|-1 := ws[|ws|-1] + [c]];
    assert vs[..|vs|-1] == ws[..|ws|-1];
  }

  /** Joining the parts again gives the string back. */
  lemma {:induction false} JoinSplit(s: bytes, d: byte)
    ensures Join(Split(s, d), d) == s
    decreases |s|
  {
    if s != [] {
      var t, c := s[..|s|-1], s[|s|-1];
      JoinSplit(t, d);
      var ps := Split(t, d);
      if c == d {
        assert (ps + [[]])[..|ps|] == ps;
      } else {
        JoinGrow(ps, c, d);
      }
    }
  }

  lemma {:induction false} SplitAppend(u: bytes, w: bytes, d: byte)
    requires Free(w, d)
    ensures Split(u + [d] + w, d) == Split(u, d) + [w]
    decreases |w|
  {
    var s := u + [d] + w;
    if w == [] {
      assert s[..|s|-1] == u;
    } else {
      var v := w[..|w|-1];
      assert s[..|s|-1] == u + [d] + v;
      SplitAppend(u, v, d);
      assert w == v + [w[|w|-1]];
    }
  }

  lemma {:induction false} SplitWord(w: bytes, d: byte)
    requires Free(w, d)
    ensures Split(w, d) == [w]
    decreases |w|
  {
    if w != [] {
      SplitWord(w[..|w|-1], d);
      assert w == w[..|w|-1] + [w[|w|-1]];
    }
  }

  /** Splitting a join of delimiter-free words, empty ones included, gives the words back. */
  lemma {:induction false} SplitJoin(ws: seq<bytes>, d: byte)
    requires ws != [] && AllFree(ws, d)
    ensures Split(Join(ws, d), d) == ws
    decreases |ws|
  {
    if |ws| == 1 {
      SplitWord(ws[0], d);
    } else {
      var vs := ws[..|ws|-1];
      assert ws == vs + [ws[|ws|-1]] && AllFree(vs, d);
      SplitJoin(vs, d);
      SplitAppend(Join(vs, d), ws[|ws|-1], d);
    }
  }

  /** Two lists of delimiter-free words that join alike are the same list, unless one is empty. */
  lemma JoinInjective(us: seq<bytes>, ws: seq<bytes>, d: byte)
    requires us != [] && ws != [] && AllFree(us, d) && AllFree(ws, d) && Join(us, d) == Join(ws, d)
    ensures us == ws
  {
    SplitJoin(us, d);
    SplitJoin(ws, d);
  }

  lemma {:induction false} JoinCons(w: bytes, ws: seq<bytes>, d: byte)
    requires ws != []
    ensures Join([w] + ws, d) == w + [d] + Join(ws, d)
    decreases |ws|
  {
    var vs := [w] + ws;
    if |ws| > 1 {
      JoinCons(w, ws[..|ws|-1], d);
      assert vs[..|vs|-1] == [w] + ws[..|ws|-1];
      assert w + [d] + (Join(ws[..|ws|-1], d) + [d] + ws[|ws|-1]) ==
        (w + [d] + Join(ws[..|ws|-1], d)) + [d] + ws[|ws|-1];
    } else {
      assert vs[..1] == [w];
    }
  }

  /** The text of some words and the delimiter after them. */
  function Before(ws: seq<bytes>, d: byte): bytes { if ws == [] then [] else Join(ws, d) + [d] }

  lemma BeforeCons(ws: seq<bytes>, d: byte)
    requires ws != []
    ensures Before(ws, d) == ws[0] + [d] + Before(ws[1..], d)
  {
    if |ws| > 1 {
      assert ws == [ws[0]] + ws[1..];
      JoinCons(ws[0], ws[1..], d);
    }
  }

  lemma {:induction false} JoinAppend(us: seq<bytes>, ws: seq<bytes>, d: byte)
    requires ws != []
    ensures Join(us + ws, d) == Before(us, d) + Join(ws, d)
    decreases |us|
  {
    if us == [] {
      assert us + ws == ws;
    } else {
      assert us + ws == [us[0]] + (us[1..] + ws);
      JoinCons(us[0], us[1..] + ws, d);
      JoinAppend(us[1..], ws, d);
      BeforeCons(us, d);
    }
  }

  /** Splitting a join: each word contributes its own parts, in order. */
  lemma {:induction false} SplitJoinPrefix(ws: seq<bytes>, d: byte, n: nat)
    requires n < |ws| && AllFree(ws[..n], d)
    ensures n < |Split(Join(ws, d), d)| && Split(Join(ws, d), d)[..n] == ws[..n]
    ensures Free(ws[n], d) ==> Split(Join(ws, d), d)[n] == ws[n]
  {
    if n == 0 {
      FirstPart(ws, d);
    } else {
      var rest := ws[1..];
      assert ws == [ws[0]] + rest && Free(ws[..n][0], d);
      JoinCons(ws[0], rest, d);
      SplitFirst(ws[0], Join(rest, d), d);
      assert AllFree(rest[..n-1], d) by { assert rest[..n-1] == ws[..n][1..]; }
      SplitJoinPrefix(rest, d, n - 1);
      assert ([ws[0]] + Split(Join(rest, d), d))[..n] == [ws[0]] + Split(Join(rest, d), d)[..n-1];
    }
  }

  lemma {:induction false} SplitFirst(w: bytes, t: bytes, d: byte)
    requires Free(w, d)
    ensures Split(w + [d] + t, d) == [w] + Split(t, d)
    decreases |t|
  {
    var s := w + [d] + t;
    if t == [] {
      SplitAppend(w, [], d);
      SplitWord(w, d);
    } else {
      assert s[..|s|-1] == w + [d] + t[..|t|-1];
      SplitFirst(w, t[..|t|-1], d);
    }
  }

  lemma FirstPart(ws: seq<bytes>, d: byte)
    requires ws != []
    ensures Free(ws[0], d) ==> Split(Join(ws, d), d)[0] == ws[0]
  {
    if Free(ws[0], d) {
      if |ws| == 1 {
        SplitWord(ws[0], d);
      } else {
        assert ws == [ws[0]] + ws[1..];
        JoinCons(ws[0], ws[1..], d);
        SplitFirst(ws[0], Join(ws[1..], d), d);
      }
    }
  }

  // ----- StringUtils.splitString -----

  /** After i bytes: the parts cut so far, and where the part being read begins. */
  ghost predicate Cut(s: bytes, d: byte, i: nat, done: seq<bytes>, last: nat) {
    last <= i <= |s| && |done| == Count(s[..i], d) <= Count(s, d) && Split(s[..i], d) == done + [s[last..i]]
  }

  lemma CutStart(s: bytes, d: byte)
    ensures Cut(s, d, 0, [], 0)
  {
    assert s[..0] == [];
  }

  lemma CutStep(s: bytes, d: byte, i: nat, done: seq<bytes>, last: nat)
    requires Cut(s, d, i, done, last) && i < |s|
    ensures if s[i] == d then Cut(s, d, i + 1, done + [s[last..i]], i + 1) else Cut(s, d, i + 1, done, last)
    ensures s[i] == d ==> |done| < Count(s, d)
  {
    assert s[..i+1][..i] == s[..i];
    assert s[last..i+1] == s[last..i] + [s[i]];
    assert s[i+1..i+1] == [];
    CountPrefix(s, d, i + 1);
  }

  lemma CutEnd(s: bytes, d: byte, done: seq<bytes>, last: nat)
    requires Cut(s, d, |s|, done, last)
    ensures |done| == Count(s, d) && Split(s, d) == done + [s[last..]]
  {
    assert s[..|s|] == s && s[last..|s|] == s[last..];
  }

  method CountParts(str: bytes, delimiter: byte) returns (count: nat)
    ensures count == Count(str, delimiter) + 1
  {
    count := 1;
    var i := 0;
    while i < |str|
      invariant i <= |str| && count == Count(str[..i], delimiter) + 1
    {
      assert str[..i+1][..i] == str[..i];
      if str[i] == delimiter { count := count + 1; }
      i := i + 1;
    }
    assert str[..i] == str;
  }

  lemma FilledSoFar(filled: seq<bytes>, done: seq<bytes>, last: bytes)
    requires |filled| == |done| + 1 && filled[|done|] == last && forall j :: 0 <= j < |done| ==> filled[j] == done[j]
    ensures filled == done + [last]
  {
  }

  /** StringUtils.splitString: one pass to size the array, one to cut the parts. */
  method SplitString(str: bytes, delimiter: byte) returns (parts: seq<bytes>)
    ensures parts == Split(str, delimiter)
  {
    var count := CountParts(str, delimiter);
    var filled := new bytes[count](_ => []);
    var lastIndex, partIndex := 0, 0;
    ghost var done: seq<bytes> := [];
    CutStart(str, delimiter);
    var i := 0;
    while i < |str|
      invariant i <= |str| && partIndex == |done| && Cut(str, delimiter, i, done, lastIndex)
      invariant forall j :: 0 <= j < partIndex < count ==> filled[j] == done[j]
    {
      CutStep(str, delimiter, i, done, lastIndex);
      if str[i] == delimiter {
        filled[partIndex] := str[lastIndex..i];
        done := done + [str[lastIndex..i]];
        lastIndex := i + 1;
        partIndex := partIndex + 1;
      }
      i := i + 1;
    }
    CutEnd(str, delimiter, done, lastIndex);
    filled[partIndex] := str[lastIndex..];
    FilledSoFar(filled[..], done, str[lastIndex..]);
    parts := filled[..];
  }

  lemma {:induction false} CountPrefix(s: bytes, d: byte, n: nat)
    requires n <= |s|
    ensures Count(s[..n], d) <= Count(s, d)
    decreases |s| - n
  {
    if n < |s| {
      assert s[..n+1][..n] == s[..n];
      CountPrefix(s, d, n + 1);
    } else {
      assert s[..n] == s;
    }
  }
}
