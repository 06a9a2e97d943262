/**
  The RMesh decoder: a pure reader over the file's bytes with an explicit
  cursor. Every field is little-endian. Where the engine's reader would go on
  with garbage (a truncated stream), allocate a negative length, or index a
  vertex that does not exist, the model stops with a `DecodeError` instead.
 */
module Decoder {
  import opened Results
  import opened Bytes
  import opened Text
  import opened MeshData
  import opened Format
  import opened Surfaces

  datatype DecodeError =
    | Truncated(offset: nat)        // the field starting here runs past the end of the stream
    | NegativeLength(offset: nat)   // a string length field, read just before this offset, is negative
    | UnknownHeader(header: string) // the header string is neither of the two accepted ones
    | IndexOutOfRange               // a triangle record names no vertex decoded so far

  /** A decoded value and the offset of the first byte after it. */
  datatype Read<+T> = Read(value: T, next: nat)

  type Parse<T> = Result<Read<T>, DecodeError>

  /** A `for (j = 0; j < count; j++)` loop runs `Clamp(count)` times. */
  function Clamp(count: int): nat {
    if count < 0 then 0 else count
  }

  // ---------------------------------------------------------------- fields

  function ReadByte(b: seq<byte>, pos: nat): (r: Parse<byte>)
    ensures r.Success? <==> pos < |b|
    ensures r.Success? ==> r.value == Read(b[pos], pos + 1)
  {
    if pos < |b| then Success(Read(b[pos], pos + 1)) else Failure(Truncated(pos))
  }

  function ReadInt32(b: seq<byte>, pos: nat): (r: Parse<int>)
    ensures r.Success? <==> pos + 4 <= |b|
    ensures r.Success? ==> r.value == Read(Int32At(b, pos), pos + 4) && IsInt32(r.value.value)
  {
    if pos + 4 <= |b| then Success(Read(Int32At(b, pos), pos + 4)) else Failure(Truncated(pos))
  }

  function ReadFloat(b: seq<byte>, pos: nat): (r: Parse<F32>)
    ensures r.Success? <==> pos + 4 <= |b|
    ensures r.Success? ==> r.value == Read(FloatAt(b, pos), pos + 4)
  {
    if pos + 4 <= |b| then Success(Read(FloatAt(b, pos), pos + 4)) else Failure(Truncated(pos))
  }

  function ReadBytes(b: seq<byte>, pos: nat, n: int): (r: Parse<seq<byte>>)
    ensures r.Success? <==> 0 <= n && pos + n <= |b|
    ensures r.Success? ==> r.value == Read(Slice(b, pos, n), pos + n)
    ensures n < 0 ==> r == Failure(NegativeLength(pos))
  {
    if n < 0 then Failure(NegativeLength(pos))
    else if pos + n > |b| then Failure(Truncated(pos))
    else Success(Read(Slice(b, pos, n), pos + n))
  }

  /** A length-prefixed string fits at `pos`: a non-negative length and that many bytes after it. */
  predicate StringFits(b: seq<byte>, pos: nat) {
    pos + 4 <= |b| && 0 <= Int32At(b, pos) && pos + 4 + Int32At(b, pos) <= |b|
  }

  /** The bytes of the length-prefixed string stored at `pos`. */
  function StringAt(b: seq<byte>, pos: nat): (s: seq<byte>)
    requires StringFits(b, pos)
    ensures |s| == Int32At(b, pos)
  {
    Slice(b, pos + 4, Int32At(b, pos))
  }

  /** An int32 length, then that many bytes. */
  function ReadString(b: seq<byte>, pos: nat): (r: Parse<seq<byte>>)
    ensures r.Success? <==> StringFits(b, pos)
    ensures r.Success? ==> r.value == Read(StringAt(b, pos), pos + 4 + |StringAt(b, pos)|)
    ensures pos + 4 <= |b| && Int32At(b, pos) < 0 ==> r == Failure(NegativeLength(pos + 4))
  {
    var length :- ReadInt32(b, pos);
    ReadBytes(b, length.next, length.value)
  }

  // ---------------------------------------------------------------- records

  /**
    The header check is the engine's comparison of a string with a `TEXT` literal:
    it ignores ASCII case and stops at the string's first zero character.
   */
  predicate IsKnownHeader(s: string) {
    EqualsIgnoreCase(BeforeNul(s), "RoomMesh") || EqualsIgnoreCase(BeforeNul(s), "RoomMesh.HasTriggerBox")
  }

  /** A header without a zero character is compared whole. */
  lemma KnownHeaderWhole(s: string)
    requires forall k :: 0 <= k < |s| ==> s[k] != 0 as char
    ensures IsKnownHeader(s) <==> EqualsIgnoreCase(s, "RoomMesh") || EqualsIgnoreCase(s, "RoomMesh.HasTriggerBox")
  {
    BeforeNulAt(s, |s|);
  }

  /** Whatever follows a zero character is not compared: `RoomMesh`, a zero character, then anything, is accepted. */
  lemma KnownHeaderStopsAtNul(rest: string)
    ensures IsKnownHeader("RoomMesh" + [0 as char] + rest)
  {
    var s := "RoomMesh" + [0 as char] + rest;
    assert s[..8] == "RoomMesh";
    BeforeNulAt(s, 8);
  }

  /** A blend byte, and only when it is non-zero a length-prefixed path. */
  function ReadSlot(b: seq<byte>, pos: nat): (r: Parse<Slot>)
    ensures r.Success? <==> pos < |b| && (b[pos] != 0 ==> StringFits(b, pos + 1))
    ensures r.Success? && b[pos] == 0 ==> r.value == Read(Slot(0, []), pos + 1)
    ensures r.Success? && b[pos] != 0 ==>
      r.value == Read(Slot(b[pos], StringAt(b, pos + 1)), pos + 5 + |StringAt(b, pos + 1)|)
  {
    var blend :- ReadByte(b, pos);
    if blend.value == 0 then Success(Read(Slot(0, []), blend.next))
    else
      var path :- ReadString(b, blend.next);
      Success(Read(Slot(blend.value, path.value), path.next))
  }

  /** The 31-byte renderable vertex record at `p`. */
  function RawVertexAt(b: seq<byte>, p: nat): RawVertex
    requires p + 31 <= |b|
  {
    RawVertex(FloatAt(b, p), FloatAt(b, p + 4), FloatAt(b, p + 8), FloatAt(b, p + 12), FloatAt(b, p + 16),
              FloatAt(b, p + 20), FloatAt(b, p + 24), b[p + 28], b[p + 29], b[p + 30])
  }

  /** `n` consecutive renderable vertex records. */
  function ReadVertices(b: seq<byte>, pos: nat, n: nat): (r: Parse<seq<RawVertex>>)
    requires pos <= |b|
    ensures r.Success? <==> pos + 31 * n <= |b|
    ensures r.Success? ==> r.value.next == pos + 31 * n && |r.value.value| == n
    decreases n
  {
    if n == 0 then Success(Read([], pos))
    else if pos + 31 > |b| then Failure(Truncated(pos))
    else
      var rest :- ReadVertices(b, pos + 31, n - 1);
      Success(Read([RawVertexAt(b, pos)] + rest.value, rest.next))
  }

  /** Vertex k is the record at `pos + 31 * k`. */
  lemma {:induction false} ReadVerticesSpec(b: seq<byte>, pos: nat, n: nat)
    requires pos <= |b| && ReadVertices(b, pos, n).Success?
    ensures var vs := ReadVertices(b, pos, n).value.value;
      forall k :: 0 <= k < n ==> vs[k] == RawVertexAt(b, pos + 31 * k)
    decreases n
  {
    if n > 0 {
      var vs := ReadVertices(b, pos, n).value.value;
      var rest := ReadVertices(b, pos + 31, n - 1).value.value;
      ReadVerticesSpec(b, pos + 31, n - 1);
      assert vs == [RawVertexAt(b, pos)] + rest;
      forall k | 1 <= k < n
        ensures vs[k] == RawVertexAt(b, pos + 31 * k)
      {
        assert vs[k] == rest[k - 1];
        assert pos + 31 * k == pos + 31 + 31 * (k - 1);
      }
    }
  }

  /** The 12-byte collision vertex record at `p`. */
  function RawPointAt(b: seq<byte>, p: nat): RawPoint
    requires p + 12 <= |b|
  {
    RawPoint(FloatAt(b, p), FloatAt(b, p + 4), FloatAt(b, p + 8))
  }

  /** `n` consecutive collision vertex records. */
  function ReadPoints(b: seq<byte>, pos: nat, n: nat): (r: Parse<seq<RawPoint>>)
    requires pos <= |b|
    ensures r.Success? <==> pos + 12 * n <= |b|
    ensures r.Success? ==> r.value.next == pos + 12 * n && |r.value.value| == n
    decreases n
  {
    if n == 0 then Success(Read([], pos))
    else if pos + 12 > |b| then Failure(Truncated(pos))
    else
      var rest :- ReadPoints(b, pos + 12, n - 1);
      Success(Read([RawPointAt(b, pos)] + rest.value, rest.next))
  }

  /** Collision vertex k is the record at `pos + 12 * k`. */
  lemma {:induction false} ReadPointsSpec(b: seq<byte>, pos: nat, n: nat)
    requires pos <= |b| && ReadPoints(b, pos, n).Success?
    ensures var ps := ReadPoints(b, pos, n).value.value;
      forall k :: 0 <= k < n ==> ps[k] == RawPointAt(b, pos + 12 * k)
    decreases n
  {
    if n > 0 {
      var ps := ReadPoints(b, pos, n).value.value;
      var rest := ReadPoints(b, pos + 12, n - 1).value.value;
      ReadPointsSpec(b, pos + 12, n - 1);
      assert ps == [RawPointAt(b, pos)] + rest;
      forall k | 1 <= k < n
        ensures ps[k] == RawPointAt(b, pos + 12 * k)
      {
        assert ps[k] == rest[k - 1];
        assert pos + 12 * k == pos + 12 + 12 * (k - 1);
      }
    }
  }

  /** The triangle record at `p`: three int32 indices. */
  function RawTriangleAt(b: seq<byte>, p: nat): RawTriangle
    requires p + 12 <= |b|
  {
    RawTriangle(Int32At(b, p), Int32At(b, p + 4), Int32At(b, p + 8))
  }

  /** `n` consecutive triangle records. */
  function ReadTriangles(b: seq<byte>, pos: nat, n: nat): (r: Parse<seq<RawTriangle>>)
    requires pos <= |b|
    ensures r.Success? <==> pos + 12 * n <= |b|
    ensures r.Success? ==> r.value.next == pos + 12 * n && |r.value.value| == n
    decreases n
  {
    if n == 0 then Success(Read([], pos))
    else if pos + 12 > |b| then Failure(Truncated(pos))
    else
      var rest :- ReadTriangles(b, pos + 12, n - 1);
      Success(Read([RawTriangleAt(b, pos)] + rest.value, rest.next))
  }

  /** Triangle k is the record at `pos + 12 * k`. */
  lemma {:induction false} ReadTrianglesSpec(b: seq<byte>, pos: nat, n: nat)
    requires pos <= |b| && ReadTriangles(b, pos, n).Success?
    ensures var ts := ReadTriangles(b, pos, n).value.value;
      forall k :: 0 <= k < n ==> ts[k] == RawTriangleAt(b, pos + 12 * k)
    decreases n
  {
    if n > 0 {
      var ts := ReadTriangles(b, pos, n).value.value;
      var rest := ReadTriangles(b, pos + 12, n - 1).value.value;
      ReadTrianglesSpec(b, pos + 12, n - 1);
      assert ts == [RawTriangleAt(b, pos)] + rest;
      forall k | 1 <= k < n
        ensures ts[k] == RawTriangleAt(b, pos + 12 * k)
      {
        assert ts[k] == rest[k - 1];
        assert pos + 12 * k == pos + 12 + 12 * (k - 1);
      }
    }
  }

  // ---------------------------------------------------------------- surfaces

  /** A vertex count followed by that many 31-byte vertex records. */
  function ReadCountedVertices(b: seq<byte>, pos: nat): (r: Parse<seq<RawVertex>>)
    requires pos <= |b|
    ensures r.Success? ==> pos + 4 <= r.value.next <= |b|
  {
    var count :- ReadInt32(b, pos);
    ReadVertices(b, count.next, Clamp(count.value))
  }

  /** A collision vertex count followed by that many 12-byte records. */
  function ReadCountedPoints(b: seq<byte>, pos: nat): (r: Parse<seq<RawPoint>>)
    requires pos <= |b|
    ensures r.Success? ==> pos + 4 <= r.value.next <= |b|
  {
    var count :- ReadInt32(b, pos);
    ReadPoints(b, count.next, Clamp(count.value))
  }

  /** A triangle count followed by that many 12-byte triangle records. */
  function ReadCountedTriangles(b: seq<byte>, pos: nat): (r: Parse<seq<RawTriangle>>)
    requires pos <= |b|
    ensures r.Success? ==> pos + 4 <= r.value.next <= |b|
  {
    var count :- ReadInt32(b, pos);
    ReadTriangles(b, count.next, Clamp(count.value))
  }

  /** A renderable surface's records: two texture slots, then its counted vertices and counted triangles. */
  function ReadSurface(b: seq<byte>, pos: nat): (r: Parse<RawSurface>)
    requires pos <= |b|
    ensures r.Success? ==> pos < r.value.next <= |b|
  {
    var slot0 :- ReadSlot(b, pos);
    var slot1 :- ReadSlot(b, slot0.next);
    var vertices :- ReadCountedVertices(b, slot1.next);
    var triangles :- ReadCountedTriangles(b, vertices.next);
    Success(Read(RawSurface(slot0.value, slot1.value, vertices.value, triangles.value), triangles.next))
  }

  /** A collision surface's records: its counted vertices, then its counted triangles. */
  function ReadCollisionSurface(b: seq<byte>, pos: nat): (r: Parse<RawCollisionSurface>)
    requires pos <= |b|
    ensures r.Success? ==> pos < r.value.next <= |b|
  {
    var points :- ReadCountedPoints(b, pos);
    var triangles :- ReadCountedTriangles(b, points.next);
    Success(Read(RawCollisionSurface(points.value, triangles.value), triangles.next))
  }

  /** `n` renderable surfaces in stream order. */
  function ReadSurfaces(b: seq<byte>, pos: nat, n: nat): (r: Parse<seq<RawSurface>>)
    requires pos <= |b|
    ensures r.Success? ==> pos <= r.value.next <= |b| && |r.value.value| == n
    decreases n
  {
    if n == 0 then Success(Read([], pos))
    else
      var s :- ReadSurface(b, pos);
      var rest :- ReadSurfaces(b, s.next, n - 1);
      Success(Read([s.value] + rest.value, rest.next))
  }

  /** `n` collision surfaces in stream order. */
  function ReadCollisionSurfaces(b: seq<byte>, pos: nat, n: nat): (r: Parse<seq<RawCollisionSurface>>)
    requires pos <= |b|
    ensures r.Success? ==> pos <= r.value.next <= |b| && |r.value.value| == n
    decreases n
  {
    if n == 0 then Success(Read([], pos))
    else
      var c :- ReadCollisionSurface(b, pos);
      var rest :- ReadCollisionSurfaces(b, c.next, n - 1);
      Success(Read([c.value] + rest.value, rest.next))
  }

  // ---------------------------------------------------------------- file

  /** Offset of the renderable surface count: just after the header string. */
  function SurfaceCountOffset(b: seq<byte>): nat
    requires StringFits(b, 0)
  {
    4 + |StringAt(b, 0)|
  }

  /** The header, read as single-byte characters. */
  function Header(b: seq<byte>): string
    requires StringFits(b, 0)
  {
    AnsiString(StringAt(b, 0))
  }

  /**
    The file's records: the header, which must be one of the two accepted
    ones, the renderable surfaces, and, unless `ignoreCollision`, the
    collision surfaces. Bytes after the last block read are never looked at;
    `next` is where reading stopped.
   */
  function ReadFile(b: seq<byte>, ignoreCollision: bool): (r: Parse<RawFile>)
    ensures r.Success? ==> StringFits(b, 0) && IsKnownHeader(Header(b)) && r.value.value.header == StringAt(b, 0)
    ensures StringFits(b, 0) && !IsKnownHeader(Header(b)) ==> r == Failure(UnknownHeader(Header(b)))
    ensures r.Success? ==> SurfaceCountOffset(b) + 4 <= r.value.next <= |b|
    ensures r.Success? && ignoreCollision ==> r.value.value.collision == []
  {
    var header :- ReadString(b, 0);
    if !IsKnownHeader(AnsiString(header.value)) then Failure(UnknownHeader(AnsiString(header.value)))
    else
      var surfaceCount :- ReadInt32(b, header.next);
      var surfaces :- ReadSurfaces(b, surfaceCount.next, Clamp(surfaceCount.value));
      if ignoreCollision then Success(Read(RawFile(header.value, surfaces.value, []), surfaces.next))
      else
        var collisionCount :- ReadInt32(b, surfaces.next);
        var collision :- ReadCollisionSurfaces(b, collisionCount.next, Clamp(collisionCount.value));
        Success(Read(RawFile(header.value, surfaces.value, collision.value), collision.next))
  }

  /**
    The import: the file's records, appended surface by surface to fresh
    import data. Reading and appending are separate steps here because an
    append cannot fail once its indices have been checked.
   */
  function Decode(b: seq<byte>, ignoreCollision: bool, geo: Geometry): (r: Parse<ImportData>)
    ensures r.Success? <==> ReadFile(b, ignoreCollision).Success? && Fits(ReadFile(b, ignoreCollision).value.value)
    ensures ReadFile(b, ignoreCollision).Failure? ==> r.error == ReadFile(b, ignoreCollision).error
    ensures ReadFile(b, ignoreCollision).Success? && !Fits(ReadFile(b, ignoreCollision).value.value) ==>
      r == Failure(IndexOutOfRange)
  {
    var f :- ReadFile(b, ignoreCollision);
    if !Fits(f.value) then Failure(IndexOutOfRange)
    else Success(Read(Interpret(f.value, geo), f.next))
  }

  // ---------------------------------------------------------------- what decoding builds

  /** A file read holds as many renderable surfaces as its count field declares, negative counting as none. */
  lemma ReadFileSurfaceCount(b: seq<byte>, ignoreCollision: bool)
    requires ReadFile(b, ignoreCollision).Success?
    ensures StringFits(b, 0) && SurfaceCountOffset(b) + 4 <= |b|
    ensures |ReadFile(b, ignoreCollision).value.value.surfaces| == Clamp(Int32At(b, SurfaceCountOffset(b)))
  {
    var p, n := SurfaceCountOffset(b) + 4, Clamp(Int32At(b, SurfaceCountOffset(b)));
    assert ReadFile(b, ignoreCollision).value.value.surfaces == ReadSurfaces(b, p, n).value.value;
  }

  /** A successful decode is the interpretation of the records read. */
  lemma DecodeStep(b: seq<byte>, ignoreCollision: bool, geo: Geometry)
    requires Decode(b, ignoreCollision, geo).Success?
    ensures var f := ReadFile(b, ignoreCollision);
      && f.Success? && Fits(f.value.value)
      && Decode(b, ignoreCollision, geo).value.value == Interpret(f.value.value, geo)
  {
  }

  /** A successful decode is well formed: triangles name existing vertices and materials, and every normal is up. */
  lemma DecodeValid(b: seq<byte>, ignoreCollision: bool, geo: Geometry)
    requires Decode(b, ignoreCollision, geo).Success?
    ensures Valid(Decode(b, ignoreCollision, geo).value.value)
  {
    DecodeStep(b, ignoreCollision, geo);
    InterpretValid(ReadFile(b, ignoreCollision).value.value, geo);
  }

  /**
    A successful decode names its materials `drawnmesh0`.. then
    `collisionmesh0`.., one per surface in stream order; with the collision
    block ignored only the renderable materials are present.
   */
  lemma DecodeMaterials(b: seq<byte>, ignoreCollision: bool, geo: Geometry)
    requires Decode(b, ignoreCollision, geo).Success?
    ensures StringFits(b, 0) && SurfaceCountOffset(b) + 4 <= |b|
    ensures var d, n := Decode(b, ignoreCollision, geo).value.value, Clamp(Int32At(b, SurfaceCountOffset(b)));
      NamedBySurface(d.materials, n) && (ignoreCollision ==> |d.materials| == n)
  {
    DecodeStep(b, ignoreCollision, geo);
    ReadFileSurfaceCount(b, ignoreCollision);
    InterpretNames(ReadFile(b, ignoreCollision).value.value, geo);
  }
}
