/** DecimalUtils: amounts printed with a fixed number of decimal places. */
module Decimal {
  import opened Bytes
  import opened Numerals

  const DOT: byte := 46
  const DEFAULT_DECIMALS: nat := 18

  /** Trailing zeros removed. */
  function Strip(s: bytes): (r: bytes)
    ensures r <= s
  {
    if s != [] && s[|s|-1] == ZERO then Strip(s[..|s|-1]) else s
  }

  /** The integer part, then a dot and the fraction without trailing zeros, unless the fraction is zero. */
  function AmountText(v: nat, d: nat): bytes {
    var fraction := Strip(Fixed(v, d));
    Dec(Quotient(v, d)) + if fraction == [] then [] else [DOT] + fraction
  }

  /** What zero prints as with two or more places: the second byte is never written. */
  function ZeroText(d: nat): bytes
    requires d >= 2
  {
    [ZERO, 0] + Repeat(ZERO, d - 2)
  }

  /** What the printer returns on every input: more than 253 places do not fit its 8-bit indices. */
  function Printed(v: word, d: word): Outcome<bytes> {
    if d >= 254 then Revert
    else if v == 0 && d >= 2 then Ok(ZeroText(d))
    else Ok(AmountText(v, d))
  }

  lemma {:induction false} StripIs(s: bytes, k: nat)
    requires k <= |s| && (k > 0 ==> s[k-1] != ZERO) && forall j :: k <= j < |s| ==> s[j] == ZERO
    ensures Strip(s) == s[..k]
    decreases |s|
  {
    if k < |s| {
      StripIs(s[..|s|-1], k);
      assert s[..|s|-1][..k] == s[..k];
    } else {
      assert s[..k] == s;
    }
  }

  lemma {:induction false} StripEnds(s: bytes)
    ensures var k := |Strip(s)|; (k > 0 ==> s[k-1] != ZERO) && forall j :: k <= j < |s| ==> s[j] == ZERO
    decreases |s|
  {
    if s != [] && s[|s|-1] == ZERO { StripEnds(s[..|s|-1]); }
  }

  // ----- the printer's buffer -----

  /** The digits of v, padded to at least one integer digit. */
  function PaddedDigits(v: nat, d: nat): (p: bytes)
    ensures |p| > d && |p| >= |Dec(v)| && Digits(p)
  {
    if |Dec(v)| > d then Dec(v) else Repeat(ZERO, d + 1 - |Dec(v)|) + Dec(v)
  }

  lemma OneMoreZero(n: nat)
    ensures Repeat(ZERO, n + 1) == [ZERO] + Repeat(ZERO, n)
  {
  }

  lemma PaddedShort(v: nat, d: nat)
    requires |Dec(v)| <= d
    ensures Repeat(ZERO, d + 1 - |Dec(v)|) + Dec(v) == [ZERO] + Fixed(v, d)
  {
    DecPad(v, d);
    OneMoreZero(d - |Dec(v)|);
    assert [ZERO] + Repeat(ZERO, d - |Dec(v)|) + Dec(v) == [ZERO] + (Repeat(ZERO, d - |Dec(v)|) + Dec(v));
  }

  lemma ShortQuotient(v: nat, d: nat)
    requires |Dec(v)| <= d
    ensures Dec(Quotient(v, d)) == [ZERO]
  {
    DecPad(v, d);
    DivModUnique(v, Pow10(d), 0, v);
  }

  lemma PaddedCut(v: nat, d: nat)
    ensures PaddedDigits(v, d) == Dec(Quotient(v, d)) + Fixed(v, d)
  {
    if |Dec(v)| > d {
      DecCut(v, d);
    } else {
      PaddedShort(v, d);
      ShortQuotient(v, d);
    }
  }

  /** The full buffer: padded digits with a dot before the last d. */
  function Buffer(v: nat, d: nat): (b: bytes)
    ensures |b| == |PaddedDigits(v, d)| + 1
  {
    var p := PaddedDigits(v, d);
    p[..|p|-d] + [DOT] + p[|p|-d..]
  }

  /** How much of the buffer is kept. */
  function Keep(v: nat, d: nat): (k: nat)
    ensures k <= |Buffer(v, d)|
  {
    var f := |Strip(Fixed(v, d))|;
    var dot := |PaddedDigits(v, d)| - d;
    if f == 0 then dot else dot + 1 + f
  }

  lemma PrefixWithDot(whole: bytes, fixed: bytes, f: bytes)
    requires f <= fixed
    ensures var b := whole + [DOT] + fixed;
      b[..if f == [] then |whole| else |whole| + 1 + |f|] == whole + if f == [] then [] else [DOT] + f
  {
    var b := whole + [DOT] + fixed;
    if f == [] {
      assert b[..|whole|] == whole;
    } else {
      assert b[..|whole|+1+|f|] == whole + ([DOT] + fixed[..|f|]);
    }
  }

  lemma KeptIsText(v: nat, d: nat)
    ensures Buffer(v, d)[..Keep(v, d)] == AmountText(v, d)
  {
    PaddedCut(v, d);
    var p, whole, fixed := PaddedDigits(v, d), Dec(Quotient(v, d)), Fixed(v, d);
    assert p[..|p|-d] == whole && p[|p|-d..] == fixed;
    PrefixWithDot(whole, fixed, Strip(fixed));
  }

  // ----- the loop -----

  /** The index of the dot. */
  function Dot(v: nat, d: nat): (i: nat)
    ensures 1 <= i && i + d + 1 == |Buffer(v, d)|
  {
    |PaddedDigits(v, d)| - d
  }

  /** Whether the loop writes buffer index i. */
  predicate Written(v: nat, d: nat, i: nat) {
    if v == 0 && d >= 2 then i <= d && i != 1 else i < Keep(v, d)
  }

  /** How many indices from i on it writes. */
  function WrittenFrom(v: nat, d: nat, i: nat): nat {
    if v == 0 && d >= 2 then (if i > d then 0 else if i >= 2 then d + 1 - i else d - i)
    else if i < Keep(v, d) then Keep(v, d) - i else 0
  }

  /** Whether a nonzero digit lies right of index i in the fraction. */
  predicate FoundAfter(v: nat, d: nat, i: int) {
    Keep(v, d) > Dot(v, d) && i + 1 < Keep(v, d)
  }

  lemma BufferAt(v: nat, d: nat, i: nat)
    requires i < |Buffer(v, d)|
    ensures Buffer(v, d)[i] ==
      if i == Dot(v, d) then DOT else if i < Dot(v, d) then PaddedDigits(v, d)[i] else PaddedDigits(v, d)[i-1]
  {
  }

  /** The zero amount pads to d + 1 zeros, and keeps only the first. */
  lemma ZeroCase(d: nat)
    ensures PaddedDigits(0, d) == Repeat(ZERO, d + 1) && Keep(0, d) == 1 == Dot(0, d)
  {
    assert Dec(0) == [ZERO];
    assert PaddedDigits(0, d) == Repeat(ZERO, d + 1);
    FixedZero(d);
    StripIs(Fixed(0, d), 0);
  }

  lemma FractionDigit(v: nat, d: nat, i: nat)
    requires Dot(v, d) < i < |Buffer(v, d)|
    ensures Buffer(v, d)[i] == Fixed(v, d)[i-1-Dot(v, d)]
  {
    PaddedCut(v, d);
    BufferAt(v, d, i);
    assert PaddedDigits(v, d)[i-1] == Fixed(v, d)[i-1-Dot(v, d)];
  }

  /** Left of the last kept digit everything is kept; right of it the fraction is zeros. */
  lemma FractionAt(v: nat, d: nat, i: nat)
    requires Dot(v, d) < i < |Buffer(v, d)|
    ensures Keep(v, d) > Dot(v, d) && i + 1 == Keep(v, d) ==> Buffer(v, d)[i] != ZERO
    ensures i >= Keep(v, d) ==> Buffer(v, d)[i] == ZERO
  {
    FractionDigit(v, d, i);
    StripEnds(Fixed(v, d));
  }

  /** Zeros filled in left of the digits of a nonzero amount are kept, as a digit follows them. */
  lemma FillKept(v: nat, d: nat, i: nat)
    requires v > 0 && |Dec(v)| <= d && i < d + 2 - |Dec(v)|
    ensures i < Keep(v, d)
  {
    var f, n := Fixed(v, d), |Dec(v)|;
    DecPad(v, d);
    DecLeading(v);
    StripEnds(f);
    assert f[d-n] == Dec(v)[0];
  }

  /** The filling branch. */
  lemma FillStep(v: nat, d: nat, i: nat)
    requires |Dec(v)| <= d && i < d + 2 - |Dec(v)| && i != Dot(v, d)
    ensures Dot(v, d) == 1 && i < |Buffer(v, d)| && Written(v, d, i) && Buffer(v, d)[i] == ZERO
    ensures FoundAfter(v, d, i - 1) == FoundAfter(v, d, i)
  {
    BufferAt(v, d, i);
    if v == 0 {
      ZeroCase(d);
    } else {
      FillKept(v, d, i);
      DecPad(v, d);
      DecLeading(v);
      StripEnds(Fixed(v, d));
      assert Fixed(v, d)[d-|Dec(v)|] == Dec(v)[0];
    }
  }

  /** Where the copying branches read: from the dot on, the buffer is ahead of the n digits. */
  function Delta(size: nat, d: nat, n: nat, i: nat): int {
    if i < size - d - 1 then 0 else size - n
  }

  /** The copying branches read the buffer's byte. */
  lemma CopyByte(v: nat, d: nat, digits: bytes, full: bytes, i: nat)
    requires digits == Dec(v) && full == Buffer(v, d)
    requires i < |full| && i != Dot(v, d) && !(|digits| <= d && i < |full| - |digits|)
    ensures 0 <= i - Delta(|full|, d, |digits|, i) < |digits| && digits[i-Delta(|full|, d, |digits|, i)] == full[i]
  {
    BufferAt(v, d, i);
    var p := PaddedDigits(v, d);
    if |digits| <= d { assert p[|p|-|digits|..] == digits; }
  }

  lemma CopyKept(v: nat, d: nat, i: nat)
    requires i < |Buffer(v, d)| && i != Dot(v, d) && !(|Dec(v)| <= d && i < d + 2 - |Dec(v)|)
    ensures FoundAfter(v, d, i) || i < Dot(v, d) ==> Written(v, d, i) && FoundAfter(v, d, i - 1) == FoundAfter(v, d, i)
    ensures !FoundAfter(v, d, i) && i > Dot(v, d) ==>
      (Buffer(v, d)[i] != ZERO <==> Written(v, d, i)) && (FoundAfter(v, d, i - 1) <==> Written(v, d, i))
  {
    if v == 0 { ZeroCase(d); BufferAt(v, d, i); }
    if i > Dot(v, d) { FractionAt(v, d, i); }
  }

  /** The dot. */
  lemma DotStep(v: nat, d: nat)
    ensures var i := Dot(v, d);
      && Buffer(v, d)[i] == DOT
      && (Written(v, d, i) <==> FoundAfter(v, d, i)) && FoundAfter(v, d, i - 1) == FoundAfter(v, d, i)
  {
    if v == 0 { ZeroCase(d); }
  }

  /** The written bytes are the text, and they fill a prefix unless the amount is zero. */
  lemma WrittenIsPrinted(v: word, d: word, result: bytes)
    requires d <= 253 && |result| == |Buffer(v, d)|
    requires forall j :: 0 <= j < |result| ==> result[j] == if Written(v, d, j) then Buffer(v, d)[j] else 0
    ensures WrittenFrom(v, d, 0) <= |result| && Printed(v, d) == Ok(result[..WrittenFrom(v, d, 0)])
  {
    if v == 0 && d >= 2 {
      ZeroCase(d);
      forall j | 0 <= j < d ensures result[j] == ZeroText(d)[j] {
        BufferAt(v, d, j);
      }
      assert result[..d] == ZeroText(d);
    } else {
      KeptIsText(v, d);
      assert result[..Keep(v, d)] == Buffer(v, d)[..Keep(v, d)];
    }
  }

  // ----- the plan the loop follows -----

  /** How many indices from i on are kept. */
  function Count(kept: seq<bool>, i: nat): nat
    requires i <= |kept|
    decreases |kept| - i
  {
    if i == |kept| then 0 else Count(kept, i + 1) + if kept[i] then 1 else 0
  }

  /**
   * One iteration, on index i: what each branch finds, whether it keeps the byte, and whether a nonzero fraction digit
   * has been found afterwards (found[i] before index i, found[i-1] after it).
   */
  ghost predicate Iteration(digits: bytes, d: nat, full: bytes, kept: seq<bool>, found: seq<bool>, i: nat)
    requires i < |full| == |kept| == |found|
  {
    var dot, n := |full| - d - 1, |digits|;
    var delta := Delta(|full|, d, n, i);
    var after := i > 0 ==> found[i-1] == found[i];
    if i == dot then full[i] == DOT && kept[i] == found[i] && after
    else if n <= d && i < |full| - n then full[i] == ZERO && kept[i] && after
    else
      && 0 <= i - delta < n && digits[i-delta] == full[i]
      && (found[i] || i < dot ==> kept[i] && after)
      && (!found[i] && i > dot ==> (full[i] != ZERO <==> kept[i]) && (i > 0 ==> found[i-1] == kept[i]))
  }

  ghost predicate Plan(digits: bytes, d: nat, full: bytes, kept: seq<bool>, found: seq<bool>) {
    && |full| == |kept| == |found| > d + 1 && !found[|full|-1]
    && |full| == (if |digits| > d then |digits| + 1 else d + 2)
    && forall i: nat {:trigger Iteration(digits, d, full, kept, found, i)} ::
        i < |full| ==> Iteration(digits, d, full, kept, found, i)
  }

  /** Keeping what the plan keeps prints the amount. */
  ghost predicate Prints(v: word, d: word, full: bytes, kept: seq<bool>)
    requires |full| == |kept|
  {
    forall result: bytes ::
      |result| == |full| && (forall j :: 0 <= j < |full| ==> result[j] == if kept[j] then full[j] else 0)
      ==> Count(kept, 0) <= |full| && Printed(v, d) == Ok(result[..Count(kept, 0)])
  }

  lemma {:induction false} CountIs(v: nat, d: nat, kept: seq<bool>, i: nat)
    requires |kept| == |Buffer(v, d)| && i <= |kept| && forall j :: 0 <= j < |kept| ==> kept[j] == Written(v, d, j)
    ensures Count(kept, i) == WrittenFrom(v, d, i)
    decreases |kept| - i
  {
    if i < |kept| { CountIs(v, d, kept, i + 1); }
    if v == 0 { ZeroCase(d); }
  }

  lemma UsePrints(v: word, d: word, full: bytes, kept: seq<bool>, result: bytes)
    requires |full| == |kept| == |result| && Prints(v, d, full, kept)
    requires forall j :: 0 <= j < |full| ==> result[j] == if kept[j] then full[j] else 0
    ensures Count(kept, 0) <= |full| && Printed(v, d) == Ok(result[..Count(kept, 0)])
  {
  }

  lemma CountStep(kept: seq<bool>, i: nat)
    requires i < |kept|
    ensures Count(kept, i) == Count(kept, i + 1) + if kept[i] then 1 else 0
  {
  }

  /** What the loop keeps and finds, index by index. */
  function KeptOf(v: nat, d: nat): (kept: seq<bool>)
    ensures |kept| == |Buffer(v, d)| && forall i :: 0 <= i < |kept| ==> kept[i] == Written(v, d, i)
  {
    seq(|Buffer(v, d)|, i requires 0 <= i => Written(v, d, i))
  }

  function FoundOf(v: nat, d: nat): (found: seq<bool>)
    ensures |found| == |Buffer(v, d)| && forall i :: 0 <= i < |found| ==> found[i] == FoundAfter(v, d, i)
  {
    seq(|Buffer(v, d)|, i => FoundAfter(v, d, i))
  }

  lemma BufferSize(v: nat, d: nat)
    ensures |Buffer(v, d)| == if |Dec(v)| > d then |Dec(v)| + 1 else d + 2
    ensures Dot(v, d) == |Buffer(v, d)| - d - 1
  {
  }

  /** Index i is filled with a zero left of the digits. */
  predicate Filled(v: nat, d: nat, i: nat) { |Dec(v)| <= d && i < |Buffer(v, d)| - |Dec(v)| }

  ghost predicate IterationOf(v: nat, d: nat, i: nat) {
    i < |Buffer(v, d)| ==> Iteration(Dec(v), d, Buffer(v, d), KeptOf(v, d), FoundOf(v, d), i)
  }

  lemma PlanDot(v: nat, d: nat)
    ensures IterationOf(v, d, Dot(v, d))
  {
    BufferSize(v, d);
    DotStep(v, d);
  }

  lemma PlanFill(v: nat, d: nat, i: nat)
    requires i != Dot(v, d) && Filled(v, d, i)
    ensures IterationOf(v, d, i)
  {
    BufferSize(v, d);
    FillStep(v, d, i);
  }

  /** What the copying branches read, keep and find on index i, in the plan's own terms. */
  ghost predicate Copying(digits: bytes, d: nat, full: bytes, kept: seq<bool>, found: seq<bool>, i: nat) {
    var k := i - Delta(|full|, d, |digits|, i);
    && |kept| == |found| == |full| && i < |full| && i != |full| - d - 1 && !(|digits| <= d && i < |full| - |digits|)
    && 0 <= k < |digits| && digits[k] == full[i]
    && (found[i] || i < |full| - d - 1 ==> kept[i] && (i > 0 ==> found[i-1] == found[i]))
    && (!found[i] && i > |full| - d - 1 ==> (full[i] != ZERO <==> kept[i]) && (i > 0 ==> found[i-1] == kept[i]))
  }

  lemma CopyIteration(digits: bytes, d: nat, full: bytes, kept: seq<bool>, found: seq<bool>, i: nat)
    requires Copying(digits, d, full, kept, found, i)
    ensures i < |full| == |kept| == |found| && Iteration(digits, d, full, kept, found, i)
  {
  }

  lemma PlanCopying(v: nat, d: nat, i: nat)
    requires i < |Buffer(v, d)| && i != Dot(v, d) && !Filled(v, d, i)
    ensures Copying(Dec(v), d, Buffer(v, d), KeptOf(v, d), FoundOf(v, d), i)
  {
    BufferSize(v, d);
    CopyByte(v, d, Dec(v), Buffer(v, d), i);
    CopyKept(v, d, i);
  }

  lemma PlanStep(v: nat, d: nat, i: nat)
    ensures IterationOf(v, d, i)
  {
    if i == Dot(v, d) {
      PlanDot(v, d);
    } else if Filled(v, d, i) {
      PlanFill(v, d, i);
    } else if i < |Buffer(v, d)| {
      PlanCopying(v, d, i);
      CopyIteration(Dec(v), d, Buffer(v, d), KeptOf(v, d), FoundOf(v, d), i);
    }
  }

  lemma StartState(v: nat, d: nat)
    ensures !FoundAfter(v, d, |Buffer(v, d)| - 1)
  {
    if v == 0 { ZeroCase(d); }
  }

  lemma PlanPrints(v: word, d: word)
    requires d <= 253
    ensures Prints(v, d, Buffer(v, d), KeptOf(v, d))
  {
    var full, kept := Buffer(v, d), KeptOf(v, d);
    forall result: bytes |
      |result| == |full| && (forall j :: 0 <= j < |full| ==> result[j] == if kept[j] then full[j] else 0)
      ensures Count(kept, 0) <= |full| && Printed(v, d) == Ok(result[..Count(kept, 0)])
    {
      CountIs(v, d, kept, 0);
      WrittenIsPrinted(v, d, result);
    }
  }

  lemma MakePlan(v: word, d: word) returns (full: bytes, kept: seq<bool>, found: seq<bool>)
    requires d <= 253
    ensures Plan(Dec(v), d, full, kept, found) && Prints(v, d, full, kept)
  {
    full, kept, found := Buffer(v, d), KeptOf(v, d), FoundOf(v, d);
    StartState(v, d);
    BufferSize(v, d);
    forall i: nat | i < |full| ensures Iteration(Dec(v), d, full, kept, found, i) {
      PlanStep(v, d, i);
      assert IterationOf(v, d, i);
    }
    PlanPrints(v, d);
  }

  /** The filling loop of uintToDecimalString (DecimalUtils.sol:41-73), from the last index of the buffer down to 0. */
  method FillFromRight(valueBytes: bytes, decimal: nat, result: array<byte>,
                       ghost full: bytes, ghost kept: seq<bool>, ghost found: seq<bool>)
    returns (actualResultLen: nat)
    requires Plan(valueBytes, decimal, full, kept, found) && result.Length == |full|
    requires forall j :: 0 <= j < result.Length ==> result[j] == 0
    modifies result
    ensures actualResultLen == Count(kept, 0)
    ensures forall j :: 0 <= j < |full| ==> result[j] == if kept[j] then full[j] else 0
  {
    var valueLength, resultLength := |valueBytes|, result.Length;
    var delta := if valueLength > decimal then 1 else resultLength - valueLength;
    var foundNonZeroDecimal := false;
    actualResultLen := 0;
    var i := resultLength - 1;
    while true
      invariant 0 <= i < |full|
      invariant delta == Delta(resultLength, decimal, valueLength, i)
      invariant foundNonZeroDecimal == found[i]
      invariant actualResultLen == Count(kept, i + 1)
      invariant forall j :: 0 <= j < |full| ==> result[j] == if j > i && kept[j] then full[j] else 0
      decreases i
    {
      assert Iteration(valueBytes, decimal, full, kept, found, i);
      CountStep(kept, i);
      if i == resultLength - decimal - 1 {
        if foundNonZeroDecimal {
          result[i] := DOT;
          actualResultLen := actualResultLen + 1;
        }
        delta := 0;
      } else if valueLength <= decimal && i < resultLength - valueLength {
        result[i] := ZERO;
        actualResultLen := actualResultLen + 1;
      } else if foundNonZeroDecimal || delta == 0 {
        result[i] := valueBytes[i - delta];
        actualResultLen := actualResultLen + 1;
      } else if valueBytes[i - delta] != ZERO {
        result[i] := valueBytes[i - delta];
        actualResultLen := actualResultLen + 1;
        foundNonZeroDecimal := true;
      }
      if i == 0 { break; }
      i := i - 1;
    }
  }

  /** The copy into an array of the right length (DecimalUtils.sol:76-79). */
  method Compact(result: array<byte>, actualResultLen: nat) returns (compactResult: bytes)
    requires actualResultLen <= result.Length
    ensures compactResult == result[..actualResultLen]
  {
    var compact := new byte[actualResultLen](_ => 0);
    var i := 0;
    while i < actualResultLen
      invariant i <= actualResultLen && compact[..i] == result[..i]
    {
      compact[i] := result[i];
      i := i + 1;
    }
    compactResult := compact[..];
  }

  /** The buffer, from its allocation to the compact copy. */
  method PrintThrough(value: word, decimal: word, valueBytes: bytes, size: nat) returns (compactResult: bytes)
    requires decimal <= 253 && valueBytes == Dec(value)
    requires size == if |valueBytes| > decimal then |valueBytes| + 1 else decimal + 2
    ensures Printed(value, decimal) == Ok(compactResult)
  {
    var result := new byte[size](_ => 0);
    ghost var full, kept, found := MakePlan(value, decimal);
    var actualResultLen := FillFromRight(valueBytes, decimal, result, full, kept, found);
    UsePrints(value, decimal, full, kept, result[..]);
    compactResult := Compact(result, actualResultLen);
    assert result[..][..actualResultLen] == result[..actualResultLen];
  }

  lemma EightBits(n: nat)
    requires n < 256
    ensures n % 256 == n
  {
  }

  /** From 254 places on, the 8-bit length of the buffer is too small for the loop's first subtraction. */
  lemma TooManyPlaces(d: nat)
    requires d >= 254
    ensures (d + 2) % 256 == 0 || (d + 2) % 256 < d + 1
  {
    if d == 254 { assert (d + 2) % 256 == 0; }
  }

  /** The lengths, in 8 bits and with checked subtractions: the size of the buffer, or a revert. */
  method BufferLength(digitCount: nat, decimal: word) returns (r: Outcome<nat>)
    requires digitCount <= 78
    ensures r == if decimal >= 254 then Revert else Ok(if digitCount > decimal then digitCount + 1 else decimal + 2)
  {
    EightBits(digitCount);
    if decimal >= 254 { TooManyPlaces(decimal); } else { EightBits(decimal + 2); }
    EightBits(digitCount + 1);
    var valueLength := digitCount % 256;
    if valueLength <= decimal && decimal + 2 >= TWO_256 { return Revert; }
    var size := if valueLength > decimal then valueLength + 1 else decimal + 2;
    var resultLength := size % 256;
    if valueLength <= decimal && resultLength < valueLength { return Revert; }
    if resultLength == 0 || resultLength - decimal - 1 < 0 { return Revert; }
    r := Ok(size);
  }

  /** DecimalUtils.uintToDecimalString. */
  method UintToDecimalString(value: word, decimal: word) returns (r: Outcome<bytes>)
    ensures r == Printed(value, decimal)
  {
    WordDigits(value);
    var valueBytes := Dec(value);
    var size := BufferLength(|valueBytes|, decimal);
    if size.Revert? { return Revert; }
    var compactResult := PrintThrough(value, decimal, valueBytes, size.value);
    r := Ok(compactResult);
  }

  // ----- reading an amount back -----

  function DotAt(t: bytes): (i: nat)
    ensures i <= |t| && (i < |t| ==> t[i] == DOT) && forall j :: 0 <= j < i ==> t[j] != DOT
  {
    if t == [] || t[0] == DOT then 0 else 1 + DotAt(t[1..])
  }

  function Whole(t: bytes): bytes { t[..DotAt(t)] }

  function Fraction(t: bytes): bytes { if DotAt(t) < |t| then t[DotAt(t)+1..] else [] }

  predicate Readable(t: bytes, d: nat) {
    Digits(Whole(t)) && Digits(Fraction(t)) && |Fraction(t)| <= d
  }

  function Read(t: bytes, d: nat): nat
    requires Readable(t, d)
  {
    Value(Whole(t)) * Pow10(d) + Value(Fraction(t) + Repeat(ZERO, d - |Fraction(t)|))
  }

  lemma TextParts(v: nat, d: nat)
    ensures Whole(AmountText(v, d)) == Dec(Quotient(v, d)) && Fraction(AmountText(v, d)) == Strip(Fixed(v, d))
  {
    var t, whole, f := AmountText(v, d), Dec(Quotient(v, d)), Strip(Fixed(v, d));
    assert forall j :: 0 <= j < |whole| ==> t[j] == whole[j];
    if f != [] { assert t[|whole|] == DOT && t[|whole|+1..] == f; } else { assert t == whole; }
    assert DotAt(t) == |whole|;
    assert t[..|whole|] == whole;
  }

  lemma StripPad(s: bytes)
    ensures Strip(s) + Repeat(ZERO, |s| - |Strip(s)|) == s
  {
    StripEnds(s);
  }

  /** The printed text denotes the amount: v = whole * 10^d + fraction padded on the right to d digits. */
  lemma ReadText(v: nat, d: nat)
    ensures Readable(AmountText(v, d), d) && Read(AmountText(v, d), d) == v
  {
    TextParts(v, d);
    StripPad(Fixed(v, d));
    FixedValue(v, d);
    DecValue(Quotient(v, d));
    QuotientRemainder(v, d);
  }

  /** Different amounts never print alike, zero included. */
  lemma PrintedInjective(v: word, w: word, d: word)
    requires d <= 253 && Printed(v, d) == Printed(w, d)
    ensures v == w
  {
    if v > 0 || d < 2 { ReadText(v, d); }
    if w > 0 || d < 2 { ReadText(w, d); }
    if d >= 2 && (v == 0 || w == 0) { ZeroUnreadable(d); }
  }

  /** What zero prints as is no readable amount: its second byte is 0. */
  lemma ZeroUnreadable(d: nat)
    requires d >= 2
    ensures !Readable(ZeroText(d), d)
  {
    assert !Digits(Whole(ZeroText(d))) by { assert DotAt(ZeroText(d)) == |ZeroText(d)|; }
  }

  /**
   * The printer gives the documented text exactly when the places fit and the amount is not zero with two or more
   * places.
   */
  lemma PrintedIsTextIff(v: word, d: word)
    ensures Printed(v, d) == Ok(AmountText(v, d)) <==> d <= 253 && (v > 0 || d < 2)
  {
    if d <= 253 && v == 0 && d >= 2 {
      ZeroUnreadable(d);
      ReadText(0, d);
    }
  }

  /** Only digits, dots and zero bytes are printed. */
  lemma PrintedBytes(v: word, d: word, c: byte)
    requires d <= 253 && c in Printed(v, d).value
    ensures IsDigit(c) || c == DOT || c == 0
  {
  }
}
