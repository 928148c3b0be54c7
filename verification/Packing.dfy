/** Byte strings packed into field elements, 31 to a field, and unpacked again. */
module Packing {
  import opened Bytes
  import opened Abi

  function LittleEndian(b: bytes): nat {
    if b == [] then 0 else b[0] + 256 * LittleEndian(b[1..])
  }

  /** u256_to_bytes32_little, at any length. */
  function ToLittleEndian(n: nat, k: nat): (b: bytes)
    ensures |b| == k
  {
    if k == 0 then [] else [n % 256] + ToLittleEndian(n / 256, k - 1)
  }

  /** Adding a top byte is adding it shifted by its position. */
  lemma {:induction false} TopByte(b: bytes, x: byte)
    ensures LittleEndian(b + [x]) == LittleEndian(b) + x * Pow256(|b|)
    decreases |b|
  {
    if b == [] {
      assert ([x])[1..] == [];
      assert b + [x] == [x];
    } else {
      assert (b + [x])[1..] == b[1..] + [x];
      TopByte(b[1..], x);
      assert 256 * (x * Pow256(|b| - 1)) == x * (256 * Pow256(|b| - 1));
    }
  }

  lemma {:induction false} LittleEndianBound(b: bytes)
    ensures LittleEndian(b) < Pow256(|b|)
    decreases |b|
  {
    if b != [] { LittleEndianBound(b[1..]); }
  }

  lemma {:induction false} LittleEndianZero(b: bytes)
    ensures LittleEndian(b) == 0 <==> b == Repeat(0, |b|)
    decreases |b|
  {
    if b == [] {
      assert b == Repeat(0, 0);
    } else {
      LittleEndianZero(b[1..]);
      assert Repeat(0, |b|)[1..] == Repeat(0, |b| - 1);
      assert b == [b[0]] + b[1..] && Repeat(0, |b|) == [0] + Repeat(0, |b| - 1);
    }
  }

  lemma {:induction false} ZeroBytes(k: nat)
    ensures ToLittleEndian(0, k) == Repeat(0, k)
    decreases k
  {
    if k > 0 {
      ZeroBytes(k - 1);
      assert Repeat(0, k) == [0] + Repeat(0, k - 1);
    }
  }

  lemma LowByte(b: bytes)
    requires b != []
    ensures LittleEndian(b) % 256 == b[0] && LittleEndian(b) / 256 == LittleEndian(b[1..])
  {
  }

  lemma PaddedCons(b: bytes, n: nat)
    requires b != []
    ensures b + Repeat(0, n) == [b[0]] + (b[1..] + Repeat(0, n))
  {
  }

  /** Unpacking a packed chunk gives the chunk and the unused high bytes. */
  lemma {:induction false} UnpackChunk(b: bytes, k: nat)
    requires |b| <= k
    ensures ToLittleEndian(LittleEndian(b), k) == b + Repeat(0, k - |b|)
    decreases |b|
  {
    if b == [] {
      ZeroBytes(k);
      assert b + Repeat(0, k) == Repeat(0, k);
    } else {
      LowByte(b);
      UnpackChunk(b[1..], k - 1);
      PaddedCons(b, k - |b|);
    }
  }

  lemma LittleEndianInjective(a: bytes, b: bytes)
    requires |a| == |b| && LittleEndian(a) == LittleEndian(b)
    ensures a == b
  {
    UnpackChunk(a, |a|);
    UnpackChunk(b, |b|);
    assert a + Repeat(0, 0) == a && b + Repeat(0, 0) == b;
  }

  // ----- the packer -----

  /** The string at the padded size: cut, or filled with zeros. */
  function Padded(b: bytes, size: nat): (r: bytes)
    ensures |r| == size
  {
    seq<byte>(size, k requires 0 <= k < size => if k < |b| then b[k] else 0)
  }

  function FieldCount(size: nat): nat { (size + 30) / 31 }

  function Least(a: nat, b: nat): nat { if a < b then a else b }

  /** The 31 bytes, or fewer at the end, that field i packs. */
  function Chunk(b: bytes, size: nat, i: nat): (r: bytes)
    requires i < FieldCount(size)
    ensures |r| == Least(31, size - 31 * i)
  {
    Padded(b, size)[31*i..Least(31*i+31, size)]
  }

  function Pack(b: bytes, size: nat): (r: seq<nat>)
    ensures |r| == FieldCount(size)
  {
    seq(FieldCount(size), i requires 0 <= i < FieldCount(size) => LittleEndian(Chunk(b, size, i)))
  }

  lemma PartialChunk(b: bytes, size: nat, i: nat, j: nat)
    requires 31 * i + j < size && j < 31
    ensures LittleEndian(Padded(b, size)[31*i..31*i+j+1]) ==
      LittleEndian(Padded(b, size)[31*i..31*i+j]) + Padded(b, size)[31*i+j] * Pow256(j)
  {
    var p := Padded(b, size);
    TopByte(p[31*i..31*i+j], p[31*i+j]);
    assert p[31*i..31*i+j+1] == p[31*i..31*i+j] + [p[31*i+j]];
  }

  /** byteVal << (8 * j). */
  function ShiftedLeft(byteVal: nat, j: nat): nat { byteVal * Pow256(j) }

  /** The inner loop of Verifier._packBytes2Fields, for one field. */
  method PackField(data: bytes, paddedSize: nat, i: nat, fields: array<nat>)
    requires i < FieldCount(paddedSize) == fields.Length
    modifies fields
    ensures fields[i] == LittleEndian(Chunk(data, paddedSize, i))
    ensures forall k :: 0 <= k < fields.Length && k != i ==> fields[k] == old(fields[k])
  {
    var j := 0;
    while j < 31
      invariant j <= 31 && 31 * i < paddedSize && 31 * i + j <= Least(31 * i + 31, paddedSize)
      invariant j > 0 ==> fields[i] == LittleEndian(Padded(data, paddedSize)[31*i..31*i+j])
      invariant forall k :: 0 <= k < fields.Length && k != i ==> fields[k] == old(fields[k])
    {
      var idx := i * 31 + j;
      if idx >= paddedSize { break; }
      var byteVal := if idx >= |data| then 0 else data[idx];
      PartialChunk(data, paddedSize, i, j);
      if j == 0 {
        fields[i] := byteVal;
      } else {
        fields[i] := fields[i] + ShiftedLeft(byteVal, j);
      }
      j := j + 1;
    }
  }

  /** Verifier._packBytes2Fields. */
  method PackBytes2Fields(data: bytes, paddedSize: nat) returns (fields: array<nat>)
    ensures fresh(fields) && fields[..] == Pack(data, paddedSize)
  {
    var remain := paddedSize % 31;
    var numFields := (paddedSize - remain) / 31;
    if remain > 0 { numFields := numFields + 1; }
    fields := new nat[numFields](_ => 0);
    var i := 0;
    while i < numFields
      invariant i <= numFields == FieldCount(paddedSize)
      invariant forall k :: 0 <= k < i ==> fields[k] == LittleEndian(Chunk(data, paddedSize, k))
    {
      PackField(data, paddedSize, i, fields);
      i := i + 1;
    }
  }

  /** The order of the field that circuits compute in. */
  const SCALAR_FIELD: nat := 21888242871839275222246405745257275088548364400416034343698204186575808495617
  const TWO_248: nat := 0x1_00000000000000_0000000000000000_0000000000000000_0000000000000000

  lemma FieldSize()
    ensures Pow256(31) == TWO_248
  {
    WordSize();
  }

  lemma {:induction false} Pow256Monotone(a: nat, b: nat)
    requires a <= b
    ensures Pow256(a) <= Pow256(b)
    decreases b
  {
    if a < b { Pow256Monotone(a, b - 1); }
  }

  /** There are ceil(size / 31) fields, each below 2^248 and so below the scalar field's order: none is reduced. */
  lemma PackBound(b: bytes, size: nat, i: nat)
    ensures 31 * |Pack(b, size)| - 31 < size <= 31 * |Pack(b, size)| || size == |Pack(b, size)| == 0
    ensures i < |Pack(b, size)| ==> Pack(b, size)[i] < TWO_248 < SCALAR_FIELD
  {
    if i < |Pack(b, size)| {
      LittleEndianBound(Chunk(b, size, i));
      Pow256Monotone(|Chunk(b, size, i)|, 31);
      FieldSize();
    }
  }

  // ----- what packing keeps -----

  /** The string without what packing forgets: bytes past the size, and trailing zeros. */
  function Canon(b: bytes, size: nat): bytes { Trim(if |b| <= size then b else b[..size]) }

  function Trim(b: bytes): (r: bytes)
    ensures r <= b && (r == [] || r[|r|-1] != 0)
    ensures forall k :: |r| <= k < |b| ==> b[k] == 0
  {
    if b != [] && b[|b|-1] == 0 then Trim(b[..|b|-1]) else b
  }

  lemma PaddedAt(a: bytes, size: nat, k: nat)
    requires k < size
    ensures 31 * (k / 31) <= k < 31 * (k / 31) + 31 && k / 31 < FieldCount(size)
    ensures Chunk(a, size, k / 31)[k%31] == Padded(a, size)[k]
  {
  }

  lemma SamePackSamePadded(a: bytes, b: bytes, size: nat)
    requires Pack(a, size) == Pack(b, size)
    ensures Padded(a, size) == Padded(b, size)
  {
    forall k | 0 <= k < size ensures Padded(a, size)[k] == Padded(b, size)[k] {
      PaddedAt(a, size, k);
      PaddedAt(b, size, k);
      assert Pack(a, size)[k/31] == Pack(b, size)[k/31];
      LittleEndianInjective(Chunk(a, size, k / 31), Chunk(b, size, k / 31));
    }
  }

  lemma PaddedCanon(a: bytes, size: nat)
    ensures |Canon(a, size)| <= size && Padded(a, size) == Canon(a, size) + Repeat(0, size - |Canon(a, size)|)
  {
  }

  lemma EndsInZero(u: bytes, v: bytes, m: nat, n: nat)
    requires u + Repeat(0, m) == v + Repeat(0, n) && |u| < |v|
    ensures v[|v|-1] == 0
  {
    assert v[|v|-1] == (v + Repeat(0, n))[|v|-1] == (u + Repeat(0, m))[|v|-1];
  }

  lemma TrimUnique(u: bytes, v: bytes, m: nat, n: nat)
    requires u + Repeat(0, m) == v + Repeat(0, n) && |u| <= |v| && (v == [] || v[|v|-1] != 0)
    ensures u == v
  {
    if |u| < |v| { EndsInZero(u, v, m, n); }
    assert u == (u + Repeat(0, m))[..|u|] && v == (v + Repeat(0, n))[..|v|];
  }

  /** Packing forgets nothing but bytes past the size and trailing zeros. */
  lemma PackIff(a: bytes, b: bytes, size: nat)
    ensures Pack(a, size) == Pack(b, size) <==> Canon(a, size) == Canon(b, size)
  {
    PaddedCanon(a, size);
    PaddedCanon(b, size);
    var u, v := Canon(a, size), Canon(b, size);
    if Pack(a, size) == Pack(b, size) {
      SamePackSamePadded(a, b, size);
      if |u| <= |v| {
        TrimUnique(u, v, size - |u|, size - |v|);
      } else {
        TrimUnique(v, u, size - |v|, size - |u|);
      }
    }
    if u == v {
      forall i | 0 <= i < FieldCount(size) ensures Pack(a, size)[i] == Pack(b, size)[i] {
        assert Chunk(a, size, i) == Chunk(b, size, i);
      }
    }
  }
}
