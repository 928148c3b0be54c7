/** Byte strings, 256-bit words, and calls that may revert. */
module Bytes {
  type byte = b: int | 0 <= b < 256
  type bytes = seq<byte>

  const TWO_256: nat := 0x1_0000000000000000_0000000000000000_0000000000000000_0000000000000000
  type word = w: nat | w < TWO_256

  /** The result of a Solidity call: a value, or a revert that undoes every effect. */
  datatype Outcome<+T> = Ok(value: T) | Revert {
    predicate IsFailure() { Revert? }
    function PropagateFailure<U>(): Outcome<U> requires Revert? { Revert }
    function Extract(): T requires Ok? { value }
  }

  const SPACE: byte := 32

  /** A digit or a lowercase letter from a to f. */
  predicate IsHex(c: byte) { 48 <= c <= 57 || 97 <= c <= 102 }

  datatype Option<+T> = None | Some(value: T)

  /** The bytes of an ASCII literal. */
  function Ascii(s: string): (r: bytes)
    requires forall i :: 0 <= i < |s| ==> s[i] < 128 as char
    ensures |r| == |s| && forall i :: 0 <= i < |s| ==> r[i] == s[i] as int
  {
    seq(|s|, i requires 0 <= i < |s| => s[i] as int)
  }

  /** `n` copies of one byte. */
  function Repeat(b: byte, n: nat): (r: bytes)
    ensures |r| == n && forall i :: 0 <= i < n ==> r[i] == b
  {
    seq(n, _ => b)
  }
}
