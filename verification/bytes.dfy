/**
  Little-endian byte primitives of the RMesh stream: bytes, signed 32-bit
  integers and single-precision floats kept as their storage bytes.
 */
module Bytes {

  newtype byte = x: int | 0 <= x < 0x100

  /** The range of the stream's `int32` fields. */
  predicate IsInt32(x: int) {
    -0x8000_0000 <= x < 0x8000_0000
  }

  /** The two's-complement integer stored little-endian in four bytes. */
  function Int32Of(b0: byte, b1: byte, b2: byte, b3: byte): (x: int)
    ensures IsInt32(x)
    ensures 0 <= x <==> b3 < 0x80
  {
    var u := b0 as int + 0x100 * (b1 as int + 0x100 * (b2 as int + 0x100 * b3 as int));
    if u < 0x8000_0000 then u else u - 0x1_0000_0000
  }

  /** The four little-endian bytes a writer emits for an `int32`. */
  function Int32Bytes(x: int): (r: seq<byte>)
    requires IsInt32(x)
    ensures |r| == 4
    ensures Int32Of(r[0], r[1], r[2], r[3]) == x
  {
    var u := if x < 0 then x + 0x1_0000_0000 else x;
    var q1 := u / 0x100;
    var q2 := q1 / 0x100;
    var q3 := q2 / 0x100;
    [(u % 0x100) as byte, (q1 % 0x100) as byte, (q2 % 0x100) as byte, q3 as byte]
  }

  lemma SplitLowByte(a: int, k: int)
    requires 0 <= a < 0x100 && 0 <= k
    ensures (a + 0x100 * k) / 0x100 == k && (a + 0x100 * k) % 0x100 == a
  {
  }

  /** Every four bytes are the encoding of the integer they hold. */
  lemma Int32BytesOf(b0: byte, b1: byte, b2: byte, b3: byte)
    ensures Int32Bytes(Int32Of(b0, b1, b2, b3)) == [b0, b1, b2, b3]
  {
    var k2 := b2 as int + 0x100 * b3 as int;
    var k1 := b1 as int + 0x100 * k2;
    var u := b0 as int + 0x100 * k1;
    SplitLowByte(b0 as int, k1);
    SplitLowByte(b1 as int, k2);
    SplitLowByte(b2 as int, b3 as int);
    var x := Int32Of(b0, b1, b2, b3);
    assert (if x < 0 then x + 0x1_0000_0000 else x) == u;
  }

  /**
    A single-precision float as its four storage bytes, least significant
    first. The decoder never does arithmetic on floats other than negation.
   */
  datatype F32 = F32(b0: byte, b1: byte, b2: byte, b3: byte)

  const Zero: F32 := F32(0, 0, 0, 0)
  /** 1.0f, bit pattern 0x3F800000. */
  const One: F32 := F32(0, 0, 0x80, 0x3F)

  function F32Bytes(f: F32): seq<byte> {
    [f.b0, f.b1, f.b2, f.b3]
  }

  /** The IEEE 754 sign bit: bit 7 of the most significant byte. */
  predicate SignBit(f: F32) {
    f.b3 >= 0x80
  }

  /** Float negation: the sign bit flips, every other bit is kept. */
  function Neg(f: F32): (r: F32)
    ensures SignBit(r) <==> !SignBit(f)
    ensures r.b0 == f.b0 && r.b1 == f.b1 && r.b2 == f.b2 && r.b3 % 0x80 == f.b3 % 0x80
  {
    if SignBit(f) then f.(b3 := f.b3 - 0x80) else f.(b3 := f.b3 + 0x80)
  }

  lemma NegInvolution(f: F32)
    ensures Neg(Neg(f)) == f
  {
  }

  /**
    `e` occurs in `b` starting at offset `pos`, stated byte by byte so that a
    fact about a long run only unfolds as far as a proof asks.
   */
  predicate At(b: seq<byte>, pos: nat, e: seq<byte>)
    decreases |e|
  {
    if |e| == 0 then pos <= |b| else pos < |b| && b[pos] == e[0] && At(b, pos + 1, e[1..])
  }

  /** Byte `pos + k` of `b` is byte `k` of `e`. */
  lemma {:induction false} AtSpec(b: seq<byte>, pos: nat, e: seq<byte>)
    ensures At(b, pos, e) <==> pos + |e| <= |b| && forall k :: 0 <= k < |e| ==> b[pos + k] == e[k]
    decreases |e|
  {
    if |e| > 0 {
      AtSpec(b, pos + 1, e[1..]);
      if pos + |e| <= |b| && forall k :: 0 <= k < |e| ==> b[pos + k] == e[k] {
        forall k | 0 <= k < |e| - 1
          ensures b[pos + 1 + k] == e[1..][k]
        {
          assert b[pos + (k + 1)] == e[k + 1];
        }
      }
      if At(b, pos, e) {
        forall k | 0 <= k < |e|
          ensures b[pos + k] == e[k]
        {
          if k > 0 {
            assert b[pos + 1 + (k - 1)] == e[1..][k - 1];
          }
        }
      }
    }
  }

  lemma AtLength(b: seq<byte>, pos: nat, e: seq<byte>)
    requires At(b, pos, e)
    ensures pos + |e| <= |b|
  {
    AtSpec(b, pos, e);
  }

  lemma AtConcat(b: seq<byte>, pos: nat, e1: seq<byte>, e2: seq<byte>)
    requires At(b, pos, e1 + e2)
    ensures At(b, pos, e1) && At(b, pos + |e1|, e2)
  {
    AtSpec(b, pos, e1 + e2);
    AtSpec(b, pos, e1);
    AtSpec(b, pos + |e1|, e2);
    forall k | 0 <= k < |e1|
      ensures b[pos + k] == e1[k]
    {
      assert (e1 + e2)[k] == e1[k];
    }
    forall k | 0 <= k < |e2|
      ensures b[pos + |e1| + k] == e2[k]
    {
      assert (e1 + e2)[|e1| + k] == e2[k];
    }
  }

  /** The converse of `AtConcat`: two runs that follow each other form their concatenation. */
  lemma AtJoin(b: seq<byte>, pos: nat, e1: seq<byte>, e2: seq<byte>)
    requires At(b, pos, e1) && At(b, pos + |e1|, e2)
    ensures At(b, pos, e1 + e2)
  {
    AtSpec(b, pos, e1);
    AtSpec(b, pos + |e1|, e2);
    AtSpec(b, pos, e1 + e2);
    forall k | 0 <= k < |e1 + e2|
      ensures b[pos + k] == (e1 + e2)[k]
    {
      if k >= |e1| {
        assert b[pos + |e1| + (k - |e1|)] == e2[k - |e1|];
      }
    }
  }

  /** The parts laid out one after another. */
  function Flatten(parts: seq<seq<byte>>): seq<byte>
    decreases |parts|
  {
    if |parts| == 0 then [] else parts[0] + Flatten(parts[1..])
  }

  /** Where each part of a flattened run starts: each ends where the next begins. */
  lemma {:induction false} FlattenAt(b: seq<byte>, pos: nat, parts: seq<seq<byte>>) returns (off: seq<nat>)
    requires At(b, pos, Flatten(parts))
    ensures |off| == |parts| + 1 && off[0] == pos && off[|parts|] == pos + |Flatten(parts)|
    ensures forall k :: 0 <= k < |parts| ==> At(b, off[k], parts[k]) && off[k + 1] == off[k] + |parts[k]|
    decreases |parts|
  {
    if |parts| == 0 {
      off := [pos];
    } else {
      AtConcat(b, pos, parts[0], Flatten(parts[1..]));
      var rest := FlattenAt(b, pos + |parts[0]|, parts[1..]);
      off := [pos] + rest;
      forall k | 1 <= k < |parts|
        ensures At(b, off[k], parts[k]) && off[k + 1] == off[k] + |parts[k]|
      {
        assert parts[k] == parts[1..][k - 1] && off[k] == rest[k - 1] && off[k + 1] == rest[k];
      }
    }
  }

  /** The `n` bytes of `b` from offset `pos`, in order. */
  function Slice(b: seq<byte>, pos: nat, n: nat): (r: seq<byte>)
    requires pos + n <= |b|
    ensures |r| == n && forall k :: 0 <= k < n ==> r[k] == b[pos + k]
  {
    seq(n, k requires 0 <= k < n => b[pos + k])
  }

  /** Bytes at a position are the slice of `b` there. */
  lemma AtSlice(b: seq<byte>, pos: nat, e: seq<byte>)
    requires At(b, pos, e)
    ensures pos + |e| <= |b| && Slice(b, pos, |e|) == e
  {
    AtSpec(b, pos, e);
  }

  /** The `int32` field stored at offset `p`. */
  function Int32At(b: seq<byte>, p: nat): int
    requires p + 4 <= |b|
  {
    Int32Of(b[p], b[p + 1], b[p + 2], b[p + 3])
  }

  /** The float field stored at offset `p`. */
  function FloatAt(b: seq<byte>, p: nat): F32
    requires p + 4 <= |b|
  {
    F32(b[p], b[p + 1], b[p + 2], b[p + 3])
  }

  /** Any `n` bytes that are there are the slice there. */
  lemma SliceAt(b: seq<byte>, pos: nat, n: nat)
    requires pos + n <= |b|
    ensures At(b, pos, Slice(b, pos, n))
  {
    AtSpec(b, pos, Slice(b, pos, n));
  }

  lemma Int32AtEncoded(b: seq<byte>, p: nat, x: int)
    requires IsInt32(x) && At(b, p, Int32Bytes(x))
    ensures p + 4 <= |b| && Int32At(b, p) == x
  {
    var e := Int32Bytes(x);
    AtSpec(b, p, e);
    assert b[p] == e[0] && b[p + 1] == e[1] && b[p + 2] == e[2] && b[p + 3] == e[3];
  }

  lemma FloatAtEncoded(b: seq<byte>, p: nat, f: F32)
    requires At(b, p, F32Bytes(f))
    ensures p + 4 <= |b| && FloatAt(b, p) == f
  {
    var e := F32Bytes(f);
    AtSpec(b, p, e);
    assert b[p] == e[0] && b[p + 1] == e[1] && b[p + 2] == e[2] && b[p + 3] == e[3];
  }

  /** The four bytes of an `int32` field are what a writer emits for the integer they hold. */
  lemma Int32AtWritten(b: seq<byte>, p: nat)
    requires p + 4 <= |b|
    ensures At(b, p, Int32Bytes(Int32At(b, p)))
  {
    Int32BytesOf(b[p], b[p + 1], b[p + 2], b[p + 3]);
    AtSpec(b, p, Int32Bytes(Int32At(b, p)));
  }

  lemma FloatAtWritten(b: seq<byte>, p: nat)
    requires p + 4 <= |b|
    ensures At(b, p, F32Bytes(FloatAt(b, p)))
  {
    AtSpec(b, p, F32Bytes(FloatAt(b, p)));
  }
}
