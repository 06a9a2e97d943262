/**
  The RMesh file's records as they are stored, before any interpretation,
  and the writer that lays them out. A file is a length-prefixed header,
  the renderable surfaces, then the collision surfaces; every count and
  index is a little-endian `int32`, every coordinate a 4-byte float.
 */
module Format {
  import opened Bytes

  /**
    A texture slot: a blend byte and, only when that byte is non-zero, a
    length-prefixed path. A slot with blend 0 stores no path.
   */
  datatype Slot = Slot(blend: byte, path: seq<byte>)

  /** A renderable vertex record: position, UV, two unused floats, then an RGB colour. */
  datatype RawVertex = RawVertex(x: F32, y: F32, z: F32, u: F32, v: F32, unknown1: F32, unknown2: F32,
                                 red: byte, green: byte, blue: byte)

  /** A collision vertex record: a position only. */
  datatype RawPoint = RawPoint(x: F32, y: F32, z: F32)

  /** A triangle record: three vertex indices relative to the surface's first vertex. */
  datatype RawTriangle = RawTriangle(i0: int, i1: int, i2: int)

  datatype RawSurface = RawSurface(slot0: Slot, slot1: Slot, vertices: seq<RawVertex>, triangles: seq<RawTriangle>)

  datatype RawCollisionSurface = RawCollisionSurface(points: seq<RawPoint>, triangles: seq<RawTriangle>)

  datatype RawFile = RawFile(header: seq<byte>, surfaces: seq<RawSurface>, collision: seq<RawCollisionSurface>)

  // ---------------------------------------------------------------- index ranges

  /** The triangle's indices, shifted by `start`, all name one of `count` vertices. */
  predicate TriangleIn(t: RawTriangle, start: int, count: int) {
    0 <= t.i0 + start < count && 0 <= t.i1 + start < count && 0 <= t.i2 + start < count
  }

  predicate TrianglesIn(ts: seq<RawTriangle>, start: int, count: int)
    decreases |ts|
  {
    |ts| == 0 || (TriangleIn(ts[0], start, count) && TrianglesIn(ts[1..], start, count))
  }

  lemma {:induction false} TrianglesInSpec(ts: seq<RawTriangle>, start: int, count: int)
    ensures TrianglesIn(ts, start, count) <==> forall k :: 0 <= k < |ts| ==> TriangleIn(ts[k], start, count)
    decreases |ts|
  {
    if |ts| > 0 {
      TrianglesInSpec(ts[1..], start, count);
      assert forall k :: 1 <= k < |ts| ==> ts[k] == ts[1..][k - 1];
    }
  }

  /** Surface k's triangle indices, rebased by the `start` vertices of the surfaces before it, name a vertex decoded so far: one of the earlier surfaces' or its own. */
  predicate SurfacesFit(ss: seq<RawSurface>, start: nat)
    decreases |ss|
  {
    |ss| == 0 ||
      (TrianglesIn(ss[0].triangles, start, start + |ss[0].vertices|) && SurfacesFit(ss[1..], start + |ss[0].vertices|))
  }

  predicate CollisionSurfacesFit(cs: seq<RawCollisionSurface>, start: nat)
    decreases |cs|
  {
    |cs| == 0 ||
      (TrianglesIn(cs[0].triangles, start, start + |cs[0].points|) && CollisionSurfacesFit(cs[1..], start + |cs[0].points|))
  }

  lemma SurfacesFitCons(s: RawSurface, ss: seq<RawSurface>, start: nat)
    requires TrianglesIn(s.triangles, start, start + |s.vertices|) && SurfacesFit(ss, start + |s.vertices|)
    ensures SurfacesFit([s] + ss, start)
  {
    assert ([s] + ss)[1..] == ss;
  }

  lemma CollisionSurfacesFitCons(c: RawCollisionSurface, cs: seq<RawCollisionSurface>, start: nat)
    requires TrianglesIn(c.triangles, start, start + |c.points|) && CollisionSurfacesFit(cs, start + |c.points|)
    ensures CollisionSurfacesFit([c] + cs, start)
  {
    assert ([c] + cs)[1..] == cs;
  }

  /** The number of vertices the surfaces hold together. */
  function VertexTotal(ss: seq<RawSurface>): nat
    decreases |ss|
  {
    if |ss| == 0 then 0 else |ss[0].vertices| + VertexTotal(ss[1..])
  }

  /** The number of vertices the collision surfaces hold together. */
  function PointTotal(cs: seq<RawCollisionSurface>): nat
    decreases |cs|
  {
    if |cs| == 0 then 0 else |cs[0].points| + PointTotal(cs[1..])
  }

  /** Every triangle of the file names a vertex decoded by the end of its surface; collision vertices follow all renderable ones. */
  predicate Fits(f: RawFile) {
    SurfacesFit(f.surfaces, 0) && CollisionSurfacesFit(f.collision, VertexTotal(f.surfaces))
  }

  // ---------------------------------------------------------------- writer

  /** Every length and index fits its `int32` field, and a blend-0 slot carries no path. */
  predicate SlotEncodable(s: Slot) {
    IsInt32(|s.path|) && (s.blend == 0 ==> s.path == [])
  }

  predicate TrianglesEncodable(ts: seq<RawTriangle>) {
    IsInt32(|ts|) && forall k :: 0 <= k < |ts| ==> IsInt32(ts[k].i0) && IsInt32(ts[k].i1) && IsInt32(ts[k].i2)
  }

  predicate SurfaceEncodable(s: RawSurface) {
    SlotEncodable(s.slot0) && SlotEncodable(s.slot1) && IsInt32(|s.vertices|) && TrianglesEncodable(s.triangles)
  }

  predicate CollisionSurfaceEncodable(c: RawCollisionSurface) {
    IsInt32(|c.points|) && TrianglesEncodable(c.triangles)
  }

  predicate Encodable(f: RawFile) {
    && IsInt32(|f.header|) && IsInt32(|f.surfaces|) && IsInt32(|f.collision|)
    && (forall k :: 0 <= k < |f.surfaces| ==> SurfaceEncodable(f.surfaces[k]))
    && (forall k :: 0 <= k < |f.collision| ==> CollisionSurfaceEncodable(f.collision[k]))
  }

  function EncodeSlot(s: Slot): (r: seq<byte>)
    requires SlotEncodable(s)
    ensures |r| == if s.blend == 0 then 1 else 5 + |s.path|
  {
    if s.blend == 0 then [s.blend] else [s.blend] + Int32Bytes(|s.path|) + s.path
  }

  function EncodeVertex(v: RawVertex): (r: seq<byte>)
    ensures |r| == 31
  {
    F32Bytes(v.x) + F32Bytes(v.y) + F32Bytes(v.z) + F32Bytes(v.u) + F32Bytes(v.v)
      + F32Bytes(v.unknown1) + F32Bytes(v.unknown2) + [v.red, v.green, v.blue]
  }

  function EncodeVertices(vs: seq<RawVertex>): (r: seq<byte>)
    ensures |r| == 31 * |vs|
  {
    if |vs| == 0 then [] else EncodeVertex(vs[0]) + EncodeVertices(vs[1..])
  }

  function EncodePoint(p: RawPoint): (r: seq<byte>)
    ensures |r| == 12
  {
    F32Bytes(p.x) + F32Bytes(p.y) + F32Bytes(p.z)
  }

  function EncodePoints(ps: seq<RawPoint>): (r: seq<byte>)
    ensures |r| == 12 * |ps|
  {
    if |ps| == 0 then [] else EncodePoint(ps[0]) + EncodePoints(ps[1..])
  }

  function EncodeTriangle(t: RawTriangle): (r: seq<byte>)
    requires IsInt32(t.i0) && IsInt32(t.i1) && IsInt32(t.i2)
    ensures |r| == 12
  {
    Int32Bytes(t.i0) + Int32Bytes(t.i1) + Int32Bytes(t.i2)
  }

  function EncodeTriangles(ts: seq<RawTriangle>): (r: seq<byte>)
    requires forall k :: 0 <= k < |ts| ==> IsInt32(ts[k].i0) && IsInt32(ts[k].i1) && IsInt32(ts[k].i2)
    ensures |r| == 12 * |ts|
  {
    if |ts| == 0 then [] else EncodeTriangle(ts[0]) + EncodeTriangles(ts[1..])
  }

  /** A count, then that many records. */
  function EncodeCountedVertices(vs: seq<RawVertex>): (r: seq<byte>)
    requires IsInt32(|vs|)
    ensures |r| == 4 + 31 * |vs|
  {
    Int32Bytes(|vs|) + EncodeVertices(vs)
  }

  function EncodeCountedPoints(ps: seq<RawPoint>): (r: seq<byte>)
    requires IsInt32(|ps|)
    ensures |r| == 4 + 12 * |ps|
  {
    Int32Bytes(|ps|) + EncodePoints(ps)
  }

  function EncodeCountedTriangles(ts: seq<RawTriangle>): (r: seq<byte>)
    requires TrianglesEncodable(ts)
    ensures |r| == 4 + 12 * |ts|
  {
    Int32Bytes(|ts|) + EncodeTriangles(ts)
  }

  function EncodeSurface(s: RawSurface): seq<byte>
    requires SurfaceEncodable(s)
  {
    EncodeSlot(s.slot0) + EncodeSlot(s.slot1) + EncodeCountedVertices(s.vertices) + EncodeCountedTriangles(s.triangles)
  }

  /** Each surface's bytes, in order. */
  function SurfaceParts(ss: seq<RawSurface>): (r: seq<seq<byte>>)
    requires forall k :: 0 <= k < |ss| ==> SurfaceEncodable(ss[k])
    ensures |r| == |ss| && forall k :: 0 <= k < |ss| ==> r[k] == EncodeSurface(ss[k])
  {
    seq(|ss|, k requires 0 <= k < |ss| => EncodeSurface(ss[k]))
  }

  function EncodeSurfaces(ss: seq<RawSurface>): seq<byte>
    requires forall k :: 0 <= k < |ss| ==> SurfaceEncodable(ss[k])
  {
    Flatten(SurfaceParts(ss))
  }

  function EncodeCollisionSurface(c: RawCollisionSurface): seq<byte>
    requires CollisionSurfaceEncodable(c)
  {
    EncodeCountedPoints(c.points) + EncodeCountedTriangles(c.triangles)
  }

  function CollisionSurfaceParts(cs: seq<RawCollisionSurface>): (r: seq<seq<byte>>)
    requires forall k :: 0 <= k < |cs| ==> CollisionSurfaceEncodable(cs[k])
    ensures |r| == |cs| && forall k :: 0 <= k < |cs| ==> r[k] == EncodeCollisionSurface(cs[k])
  {
    seq(|cs|, k requires 0 <= k < |cs| => EncodeCollisionSurface(cs[k]))
  }

  function EncodeCollisionSurfaces(cs: seq<RawCollisionSurface>): seq<byte>
    requires forall k :: 0 <= k < |cs| ==> CollisionSurfaceEncodable(cs[k])
  {
    Flatten(CollisionSurfaceParts(cs))
  }

  /** The header and the renderable surfaces: everything a reader that skips collision data looks at. */
  function EncodeRender(f: RawFile): seq<byte>
    requires Encodable(f)
  {
    Int32Bytes(|f.header|) + f.header + Int32Bytes(|f.surfaces|) + EncodeSurfaces(f.surfaces)
  }

  /** The collision block: its count, then its surfaces. */
  function EncodeCollision(f: RawFile): seq<byte>
    requires Encodable(f)
  {
    Int32Bytes(|f.collision|) + EncodeCollisionSurfaces(f.collision)
  }

  function Encode(f: RawFile): seq<byte>
    requires Encodable(f)
  {
    EncodeRender(f) + EncodeCollision(f)
  }
}
