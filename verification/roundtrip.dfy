/**
  The reader against the writer: records laid out by `Format.Encode` are read
  back as exactly those records, wherever the bytes continue afterwards.
 */
module RoundTrip {
  import opened Results
  import opened Bytes
  import opened Format
  import opened Text
  import opened Surfaces
  import opened Decoder

  lemma RawVertexAtEncoded(b: seq<byte>, p: nat, v: RawVertex)
    requires At(b, p, EncodeVertex(v))
    ensures p + 31 <= |b| && RawVertexAt(b, p) == v
  {
    var e1 := F32Bytes(v.x) + F32Bytes(v.y) + F32Bytes(v.z);
    var e2 := e1 + F32Bytes(v.u) + F32Bytes(v.v);
    var e3 := e2 + F32Bytes(v.unknown1) + F32Bytes(v.unknown2);
    AtConcat(b, p, e3, [v.red, v.green, v.blue]);
    AtConcat(b, p, e2 + F32Bytes(v.unknown1), F32Bytes(v.unknown2));
    AtConcat(b, p, e2, F32Bytes(v.unknown1));
    AtConcat(b, p, e1 + F32Bytes(v.u), F32Bytes(v.v));
    AtConcat(b, p, e1, F32Bytes(v.u));
    AtConcat(b, p, F32Bytes(v.x) + F32Bytes(v.y), F32Bytes(v.z));
    AtConcat(b, p, F32Bytes(v.x), F32Bytes(v.y));
    FloatAtEncoded(b, p, v.x);
    FloatAtEncoded(b, p + 4, v.y);
    FloatAtEncoded(b, p + 8, v.z);
    FloatAtEncoded(b, p + 12, v.u);
    FloatAtEncoded(b, p + 16, v.v);
    FloatAtEncoded(b, p + 20, v.unknown1);
    FloatAtEncoded(b, p + 24, v.unknown2);
    assert b[p + 28] == v.red && b[p + 29] == v.green && b[p + 30] == v.blue by {
      var e := [v.red, v.green, v.blue];
      AtSpec(b, p + 28, e);
      assert b[p + 28 + 0] == e[0] && b[p + 28 + 1] == e[1] && b[p + 28 + 2] == e[2];
    }
  }

  lemma RawPointAtEncoded(b: seq<byte>, p: nat, q: RawPoint)
    requires At(b, p, EncodePoint(q))
    ensures p + 12 <= |b| && RawPointAt(b, p) == q
  {
    AtConcat(b, p, F32Bytes(q.x) + F32Bytes(q.y), F32Bytes(q.z));
    AtConcat(b, p, F32Bytes(q.x), F32Bytes(q.y));
    FloatAtEncoded(b, p, q.x);
    FloatAtEncoded(b, p + 4, q.y);
    FloatAtEncoded(b, p + 8, q.z);
  }

  lemma RawTriangleAtEncoded(b: seq<byte>, p: nat, t: RawTriangle)
    requires IsInt32(t.i0) && IsInt32(t.i1) && IsInt32(t.i2)
    requires At(b, p, EncodeTriangle(t))
    ensures p + 12 <= |b| && RawTriangleAt(b, p) == t
  {
    AtConcat(b, p, Int32Bytes(t.i0) + Int32Bytes(t.i1), Int32Bytes(t.i2));
    AtConcat(b, p, Int32Bytes(t.i0), Int32Bytes(t.i1));
    Int32AtEncoded(b, p, t.i0);
    Int32AtEncoded(b, p + 4, t.i1);
    Int32AtEncoded(b, p + 8, t.i2);
  }

  /** Vertex k of an encoded run sits 31 bytes after vertex k - 1. */
  lemma {:induction false} EncodeVerticesAt(b: seq<byte>, pos: nat, vs: seq<RawVertex>)
    requires At(b, pos, EncodeVertices(vs))
    ensures forall k :: 0 <= k < |vs| ==> At(b, pos + 31 * k, EncodeVertex(vs[k]))
    decreases |vs|
  {
    if |vs| > 0 {
      AtConcat(b, pos, EncodeVertex(vs[0]), EncodeVertices(vs[1..]));
      EncodeVerticesAt(b, pos + 31, vs[1..]);
      forall k | 1 <= k < |vs|
        ensures At(b, pos + 31 * k, EncodeVertex(vs[k]))
      {
        assert vs[k] == vs[1..][k - 1];
        assert pos + 31 * k == pos + 31 + 31 * (k - 1);
      }
    }
  }

  /** The vertices read are `vs` as soon as every record position holds the matching vertex. */
  lemma ReadVerticesEach(b: seq<byte>, pos: nat, vs: seq<RawVertex>)
    requires pos + 31 * |vs| <= |b|
    requires forall k :: 0 <= k < |vs| ==> pos + 31 * k + 31 <= |b| && RawVertexAt(b, pos + 31 * k) == vs[k]
    ensures ReadVertices(b, pos, |vs|) == Success(Read(vs, pos + 31 * |vs|))
  {
    ReadVerticesSpec(b, pos, |vs|);
    assert ReadVertices(b, pos, |vs|).value.value == vs;
  }

  lemma ReadVerticesEncoded(b: seq<byte>, pos: nat, vs: seq<RawVertex>)
    requires At(b, pos, EncodeVertices(vs))
    ensures ReadVertices(b, pos, |vs|) == Success(Read(vs, pos + 31 * |vs|))
  {
    EncodeVerticesAt(b, pos, vs);
    AtLength(b, pos, EncodeVertices(vs));
    forall k | 0 <= k < |vs|
      ensures pos + 31 * k + 31 <= |b| && RawVertexAt(b, pos + 31 * k) == vs[k]
    {
      RawVertexAtEncoded(b, pos + 31 * k, vs[k]);
    }
    ReadVerticesEach(b, pos, vs);
  }

  lemma {:induction false} EncodePointsAt(b: seq<byte>, pos: nat, ps: seq<RawPoint>)
    requires At(b, pos, EncodePoints(ps))
    ensures forall k :: 0 <= k < |ps| ==> At(b, pos + 12 * k, EncodePoint(ps[k]))
    decreases |ps|
  {
    if |ps| > 0 {
      AtConcat(b, pos, EncodePoint(ps[0]), EncodePoints(ps[1..]));
      EncodePointsAt(b, pos + 12, ps[1..]);
      forall k | 1 <= k < |ps|
        ensures At(b, pos + 12 * k, EncodePoint(ps[k]))
      {
        assert ps[k] == ps[1..][k - 1];
        assert pos + 12 * k == pos + 12 + 12 * (k - 1);
      }
    }
  }

  lemma ReadPointsEach(b: seq<byte>, pos: nat, ps: seq<RawPoint>)
    requires pos + 12 * |ps| <= |b|
    requires forall k :: 0 <= k < |ps| ==> pos + 12 * k + 12 <= |b| && RawPointAt(b, pos + 12 * k) == ps[k]
    ensures ReadPoints(b, pos, |ps|) == Success(Read(ps, pos + 12 * |ps|))
  {
    ReadPointsSpec(b, pos, |ps|);
    assert ReadPoints(b, pos, |ps|).value.value == ps;
  }

  lemma ReadPointsEncoded(b: seq<byte>, pos: nat, ps: seq<RawPoint>)
    requires At(b, pos, EncodePoints(ps))
    ensures ReadPoints(b, pos, |ps|) == Success(Read(ps, pos + 12 * |ps|))
  {
    EncodePointsAt(b, pos, ps);
    AtLength(b, pos, EncodePoints(ps));
    forall k | 0 <= k < |ps|
      ensures pos + 12 * k + 12 <= |b| && RawPointAt(b, pos + 12 * k) == ps[k]
    {
      RawPointAtEncoded(b, pos + 12 * k, ps[k]);
    }
    ReadPointsEach(b, pos, ps);
  }

  lemma {:induction false} EncodeTrianglesAt(b: seq<byte>, pos: nat, ts: seq<RawTriangle>)
    requires forall k :: 0 <= k < |ts| ==> IsInt32(ts[k].i0) && IsInt32(ts[k].i1) && IsInt32(ts[k].i2)
    requires At(b, pos, EncodeTriangles(ts))
    ensures forall k :: 0 <= k < |ts| ==> At(b, pos + 12 * k, EncodeTriangle(ts[k]))
    decreases |ts|
  {
    if |ts| > 0 {
      AtConcat(b, pos, EncodeTriangle(ts[0]), EncodeTriangles(ts[1..]));
      EncodeTrianglesAt(b, pos + 12, ts[1..]);
      forall k | 1 <= k < |ts|
        ensures At(b, pos + 12 * k, EncodeTriangle(ts[k]))
      {
        assert ts[k] == ts[1..][k - 1];
        assert pos + 12 * k == pos + 12 + 12 * (k - 1);
      }
    }
  }

  lemma ReadTrianglesEach(b: seq<byte>, pos: nat, ts: seq<RawTriangle>)
    requires pos + 12 * |ts| <= |b|
    requires forall k :: 0 <= k < |ts| ==> pos + 12 * k + 12 <= |b| && RawTriangleAt(b, pos + 12 * k) == ts[k]
    ensures ReadTriangles(b, pos, |ts|) == Success(Read(ts, pos + 12 * |ts|))
  {
    ReadTrianglesSpec(b, pos, |ts|);
    assert ReadTriangles(b, pos, |ts|).value.value == ts;
  }

  lemma ReadTrianglesEncoded(b: seq<byte>, pos: nat, ts: seq<RawTriangle>)
    requires forall k :: 0 <= k < |ts| ==> IsInt32(ts[k].i0) && IsInt32(ts[k].i1) && IsInt32(ts[k].i2)
    requires At(b, pos, EncodeTriangles(ts))
    ensures ReadTriangles(b, pos, |ts|) == Success(Read(ts, pos + 12 * |ts|))
  {
    EncodeTrianglesAt(b, pos, ts);
    AtLength(b, pos, EncodeTriangles(ts));
    forall k | 0 <= k < |ts|
      ensures pos + 12 * k + 12 <= |b| && RawTriangleAt(b, pos + 12 * k) == ts[k]
    {
      RawTriangleAtEncoded(b, pos + 12 * k, ts[k]);
    }
    ReadTrianglesEach(b, pos, ts);
  }

  lemma ReadSlotEncoded(b: seq<byte>, pos: nat, s: Slot, next: nat)
    requires SlotEncodable(s) && At(b, pos, EncodeSlot(s)) && next == pos + |EncodeSlot(s)|
    ensures ReadSlot(b, pos) == Success(Read(s, next))
  {
    AtSpec(b, pos, EncodeSlot(s));
    assert b[pos + 0] == EncodeSlot(s)[0];
    if s.blend != 0 {
      AtConcat(b, pos, [s.blend] + Int32Bytes(|s.path|), s.path);
      AtConcat(b, pos, [s.blend], Int32Bytes(|s.path|));
      Int32AtEncoded(b, pos + 1, |s.path|);
      AtSlice(b, pos + 5, s.path);
    }
  }

  /** A count field written from a length reads back as that length. */
  lemma CountAtEncoded(b: seq<byte>, p: nat, n: nat)
    requires IsInt32(n) && At(b, p, Int32Bytes(n))
    ensures p + 4 <= |b| && Clamp(Int32At(b, p)) == n
  {
    Int32AtEncoded(b, p, n);
  }

  lemma ReadCountedVerticesFields(b: seq<byte>, pos: nat, vs: seq<RawVertex>, q: nat)
    requires pos + 4 <= |b| && Clamp(Int32At(b, pos)) == |vs|
    requires ReadVertices(b, pos + 4, |vs|) == Success(Read(vs, q))
    ensures ReadCountedVertices(b, pos) == Success(Read(vs, q))
  {
  }

  /** A vertex count followed by the vertices it counts reads back as those vertices. */
  lemma ReadCountedVerticesEncoded(b: seq<byte>, pos: nat, vs: seq<RawVertex>)
    requires IsInt32(|vs|) && At(b, pos, EncodeCountedVertices(vs))
    ensures ReadCountedVertices(b, pos) == Success(Read(vs, pos + 4 + 31 * |vs|))
  {
    AtConcat(b, pos, Int32Bytes(|vs|), EncodeVertices(vs));
    assert pos + 4 <= |b| && Clamp(Int32At(b, pos)) == |vs| by {
      CountAtEncoded(b, pos, |vs|);
    }
    assert ReadVertices(b, pos + 4, |vs|) == Success(Read(vs, pos + 4 + 31 * |vs|)) by {
      ReadVerticesEncoded(b, pos + 4, vs);
    }
    ReadCountedVerticesFields(b, pos, vs, pos + 4 + 31 * |vs|);
  }

  lemma ReadCountedPointsFields(b: seq<byte>, pos: nat, ps: seq<RawPoint>, q: nat)
    requires pos + 4 <= |b| && Clamp(Int32At(b, pos)) == |ps|
    requires ReadPoints(b, pos + 4, |ps|) == Success(Read(ps, q))
    ensures ReadCountedPoints(b, pos) == Success(Read(ps, q))
  {
  }

  lemma ReadCountedPointsEncoded(b: seq<byte>, pos: nat, ps: seq<RawPoint>)
    requires IsInt32(|ps|) && At(b, pos, EncodeCountedPoints(ps))
    ensures ReadCountedPoints(b, pos) == Success(Read(ps, pos + 4 + 12 * |ps|))
  {
    AtConcat(b, pos, Int32Bytes(|ps|), EncodePoints(ps));
    assert pos + 4 <= |b| && Clamp(Int32At(b, pos)) == |ps| by {
      CountAtEncoded(b, pos, |ps|);
    }
    assert ReadPoints(b, pos + 4, |ps|) == Success(Read(ps, pos + 4 + 12 * |ps|)) by {
      ReadPointsEncoded(b, pos + 4, ps);
    }
    ReadCountedPointsFields(b, pos, ps, pos + 4 + 12 * |ps|);
  }

  lemma ReadCountedTrianglesFields(b: seq<byte>, pos: nat, ts: seq<RawTriangle>, q: nat)
    requires pos + 4 <= |b| && Clamp(Int32At(b, pos)) == |ts|
    requires ReadTriangles(b, pos + 4, |ts|) == Success(Read(ts, q))
    ensures ReadCountedTriangles(b, pos) == Success(Read(ts, q))
  {
  }

  lemma ReadCountedTrianglesEncoded(b: seq<byte>, pos: nat, ts: seq<RawTriangle>)
    requires TrianglesEncodable(ts) && At(b, pos, EncodeCountedTriangles(ts))
    ensures ReadCountedTriangles(b, pos) == Success(Read(ts, pos + 4 + 12 * |ts|))
  {
    AtConcat(b, pos, Int32Bytes(|ts|), EncodeTriangles(ts));
    assert ReadTriangles(b, pos + 4, |ts|) == Success(Read(ts, pos + 4 + 12 * |ts|)) by {
      ReadTrianglesEncoded(b, pos + 4, ts);
    }
    assert pos + 4 <= |b| && Clamp(Int32At(b, pos)) == |ts| by {
      CountAtEncoded(b, pos, |ts|);
    }
    ReadCountedTrianglesFields(b, pos, ts, pos + 4 + 12 * |ts|);
  }

  /** The writer's side of a surface: where each of its fields sits. */
  lemma EncodeSurfaceAt(b: seq<byte>, pos: nat, s: RawSurface) returns (p1: nat, p2: nat, p3: nat, p4: nat)
    requires SurfaceEncodable(s) && At(b, pos, EncodeSurface(s))
    ensures At(b, pos, EncodeSlot(s.slot0)) && p1 == pos + |EncodeSlot(s.slot0)|
    ensures At(b, p1, EncodeSlot(s.slot1)) && p2 == p1 + |EncodeSlot(s.slot1)|
    ensures At(b, p2, EncodeCountedVertices(s.vertices)) && p3 == p2 + 4 + 31 * |s.vertices|
    ensures At(b, p3, EncodeCountedTriangles(s.triangles)) && p4 == p3 + 4 + 12 * |s.triangles|
    ensures p4 == pos + |EncodeSurface(s)|
  {
    var e0, e1 := EncodeSlot(s.slot0), EncodeSlot(s.slot1);
    var v, t := EncodeCountedVertices(s.vertices), EncodeCountedTriangles(s.triangles);
    AtConcat(b, pos, e0 + e1 + v, t);
    AtConcat(b, pos, e0 + e1, v);
    AtConcat(b, pos, e0, e1);
    p1 := pos + |e0|;
    p2 := p1 + |e1|;
    p3 := p2 + |v|;
    p4 := p3 + |t|;
  }

  /** The reader's side of a surface: its fields read one after another. */
  lemma ReadSurfaceFields(b: seq<byte>, pos: nat, s: RawSurface, p1: nat, p2: nat, p3: nat, p4: nat)
    requires ReadSlot(b, pos) == Success(Read(s.slot0, p1))
    requires ReadSlot(b, p1) == Success(Read(s.slot1, p2))
    requires p2 <= |b| && ReadCountedVertices(b, p2) == Success(Read(s.vertices, p3))
    requires p3 <= |b| && ReadCountedTriangles(b, p3) == Success(Read(s.triangles, p4))
    ensures ReadSurface(b, pos) == Success(Read(s, p4))
  {
  }

  /** The two texture slots of an encoded surface read back, ending at the returned offsets. */
  lemma ReadSlotsEncoded(b: seq<byte>, pos: nat, s: RawSurface) returns (p1: nat, p2: nat)
    requires SurfaceEncodable(s) && At(b, pos, EncodeSurface(s))
    ensures ReadSlot(b, pos) == Success(Read(s.slot0, p1))
    ensures ReadSlot(b, p1) == Success(Read(s.slot1, p2))
    ensures p2 == pos + |EncodeSlot(s.slot0)| + |EncodeSlot(s.slot1)|
  {
    var q3, q4;
    p1, p2, q3, q4 := EncodeSurfaceAt(b, pos, s);
    ReadSlotEncoded(b, pos, s.slot0, p1);
    ReadSlotEncoded(b, p1, s.slot1, p2);
  }

  /** The counted vertices and triangles of an encoded surface read back from just after its slots. */
  lemma ReadGeometryEncoded(b: seq<byte>, pos: nat, s: RawSurface, p2: nat) returns (p3: nat, p4: nat)
    requires SurfaceEncodable(s) && At(b, pos, EncodeSurface(s))
    requires p2 == pos + |EncodeSlot(s.slot0)| + |EncodeSlot(s.slot1)|
    ensures p2 <= |b| && ReadCountedVertices(b, p2) == Success(Read(s.vertices, p3))
    ensures p3 <= |b| && ReadCountedTriangles(b, p3) == Success(Read(s.triangles, p4))
    ensures p4 == pos + |EncodeSurface(s)|
  {
    var q1, q2;
    q1, q2, p3, p4 := EncodeSurfaceAt(b, pos, s);
    ReadCountedVerticesEncoded(b, p2, s.vertices);
    ReadCountedTrianglesEncoded(b, p3, s.triangles);
  }

  /** An encoded surface reads back, ending at `next`, wherever the bytes continue. */
  lemma ReadSurfaceEncoded(b: seq<byte>, pos: nat, s: RawSurface, next: nat)
    requires SurfaceEncodable(s) && At(b, pos, EncodeSurface(s)) && next == pos + |EncodeSurface(s)|
    ensures pos <= |b| && ReadSurface(b, pos) == Success(Read(s, next))
  {
    var p1, p2 := ReadSlotsEncoded(b, pos, s);
    var p3, p4 := ReadGeometryEncoded(b, pos, s, p2);
    ReadSurfaceFields(b, pos, s, p1, p2, p3, p4);
  }

  lemma EncodeCollisionSurfaceAt(b: seq<byte>, pos: nat, c: RawCollisionSurface)
    requires CollisionSurfaceEncodable(c) && At(b, pos, EncodeCollisionSurface(c))
    ensures var p1 := pos + 4 + 12 * |c.points|;
      && At(b, pos, EncodeCountedPoints(c.points)) && At(b, p1, EncodeCountedTriangles(c.triangles))
      && p1 + 4 + 12 * |c.triangles| == pos + |EncodeCollisionSurface(c)|
  {
    AtConcat(b, pos, EncodeCountedPoints(c.points), EncodeCountedTriangles(c.triangles));
  }

  lemma ReadCollisionSurfaceFields(b: seq<byte>, pos: nat, c: RawCollisionSurface, p1: nat, p2: nat)
    requires pos <= |b| && ReadCountedPoints(b, pos) == Success(Read(c.points, p1))
    requires p1 <= |b| && ReadCountedTriangles(b, p1) == Success(Read(c.triangles, p2))
    ensures ReadCollisionSurface(b, pos) == Success(Read(c, p2))
  {
  }

  /** An encoded collision surface reads back, ending at `next`, wherever the bytes continue. */
  lemma ReadCollisionSurfaceEncoded(b: seq<byte>, pos: nat, c: RawCollisionSurface, next: nat)
    requires CollisionSurfaceEncodable(c) && At(b, pos, EncodeCollisionSurface(c))
    requires next == pos + |EncodeCollisionSurface(c)|
    ensures pos <= |b| && ReadCollisionSurface(b, pos) == Success(Read(c, next))
  {
    EncodeCollisionSurfaceAt(b, pos, c);
    var p1 := pos + 4 + 12 * |c.points|;
    assert pos <= |b| && ReadCountedPoints(b, pos) == Success(Read(c.points, p1)) by {
      ReadCountedPointsEncoded(b, pos, c.points);
    }
    assert p1 <= |b| && ReadCountedTriangles(b, p1) == Success(Read(c.triangles, next)) by {
      ReadCountedTrianglesEncoded(b, p1, c.triangles);
    }
    ReadCollisionSurfaceFields(b, pos, c, p1, next);
  }

  /** The surface at offset k reads as `ss[k]` and ends at offset k + 1. */
  predicate ReadSurfaceAt(b: seq<byte>, off: seq<nat>, ss: seq<RawSurface>, k: nat)
    requires |off| == |ss| + 1 && k < |ss|
  {
    off[k] <= |b| && ReadSurface(b, off[k]) == Success(Read(ss[k], off[k + 1]))
  }

  /** Surfaces read one after another, each ending where the next begins, read back as a run from any of them on. */
  lemma {:induction false} ReadSurfacesChain(b: seq<byte>, off: seq<nat>, ss: seq<RawSurface>, j: nat)
    requires |off| == |ss| + 1 && j <= |ss| && off[j] <= |b|
    requires forall k :: 0 <= k < |ss| ==> ReadSurfaceAt(b, off, ss, k)
    ensures ReadSurfaces(b, off[j], |ss| - j) == Success(Read(ss[j..], off[|ss|]))
    decreases |ss| - j
  {
    if j < |ss| {
      assert ReadSurfaceAt(b, off, ss, j);
      ReadSurfacesChain(b, off, ss, j + 1);
      ReadSurfacesStep(b, off, ss, j);
    } else {
      assert ss[j..] == [];
    }
  }

  /** Surface j followed by the run after it reads as the run from surface j. */
  lemma ReadSurfacesStep(b: seq<byte>, off: seq<nat>, ss: seq<RawSurface>, j: nat)
    requires |off| == |ss| + 1 && j < |ss| && off[j] <= |b| && off[j + 1] <= |b|
    requires ReadSurface(b, off[j]) == Success(Read(ss[j], off[j + 1]))
    requires ReadSurfaces(b, off[j + 1], |ss| - (j + 1)) == Success(Read(ss[j + 1..], off[|ss|]))
    ensures ReadSurfaces(b, off[j], |ss| - j) == Success(Read(ss[j..], off[|ss|]))
  {
    assert [ss[j]] + ss[j + 1..] == ss[j..];
  }

  /** Where each surface of an encoded run starts, and that each reads back from there. */
  lemma SurfaceOffsets(b: seq<byte>, pos: nat, ss: seq<RawSurface>) returns (off: seq<nat>)
    requires forall k :: 0 <= k < |ss| ==> SurfaceEncodable(ss[k])
    requires At(b, pos, EncodeSurfaces(ss))
    ensures |off| == |ss| + 1 && off[0] == pos && off[0] <= |b| && off[|ss|] == pos + |EncodeSurfaces(ss)|
    ensures forall k :: 0 <= k < |ss| ==> ReadSurfaceAt(b, off, ss, k)
  {
    AtLength(b, pos, EncodeSurfaces(ss));
    off := FlattenAt(b, pos, SurfaceParts(ss));
    forall k | 0 <= k < |ss|
      ensures ReadSurfaceAt(b, off, ss, k)
    {
      ReadSurfaceEncoded(b, off[k], ss[k], off[k + 1]);
    }
  }

  /** The whole run, read from the first offset. */
  lemma ReadSurfacesRun(b: seq<byte>, pos: nat, off: seq<nat>, ss: seq<RawSurface>)
    requires |off| == |ss| + 1 && off[0] == pos && pos <= |b|
    requires forall k :: 0 <= k < |ss| ==> ReadSurfaceAt(b, off, ss, k)
    ensures ReadSurfaces(b, pos, |ss|) == Success(Read(ss, off[|ss|]))
  {
    ReadSurfacesChain(b, off, ss, 0);
    assert ss[0..] == ss;
  }

  lemma ReadSurfacesEncoded(b: seq<byte>, pos: nat, ss: seq<RawSurface>) returns (next: nat)
    requires forall k :: 0 <= k < |ss| ==> SurfaceEncodable(ss[k])
    requires At(b, pos, EncodeSurfaces(ss))
    ensures ReadSurfaces(b, pos, |ss|) == Success(Read(ss, next))
    ensures next == pos + |EncodeSurfaces(ss)|
  {
    var off := SurfaceOffsets(b, pos, ss);
    ReadSurfacesRun(b, pos, off, ss);
    next := off[|ss|];
  }

  /** The collision surface at offset k reads as `cs[k]` and ends at offset k + 1. */
  predicate ReadCollisionSurfaceAt(b: seq<byte>, off: seq<nat>, cs: seq<RawCollisionSurface>, k: nat)
    requires |off| == |cs| + 1 && k < |cs|
  {
    off[k] <= |b| && ReadCollisionSurface(b, off[k]) == Success(Read(cs[k], off[k + 1]))
  }

  /** Collision surfaces read one after another, read back as a run from any of them on. */
  lemma {:induction false} ReadCollisionSurfacesChain(b: seq<byte>, off: seq<nat>, cs: seq<RawCollisionSurface>, j: nat)
    requires |off| == |cs| + 1 && j <= |cs| && off[j] <= |b|
    requires forall k :: 0 <= k < |cs| ==> ReadCollisionSurfaceAt(b, off, cs, k)
    ensures ReadCollisionSurfaces(b, off[j], |cs| - j) == Success(Read(cs[j..], off[|cs|]))
    decreases |cs| - j
  {
    if j < |cs| {
      assert ReadCollisionSurfaceAt(b, off, cs, j);
      ReadCollisionSurfacesChain(b, off, cs, j + 1);
      ReadCollisionSurfacesStep(b, off, cs, j);
    } else {
      assert cs[j..] == [];
    }
  }

  /** Collision surface j followed by the run after it reads as the run from surface j. */
  lemma ReadCollisionSurfacesStep(b: seq<byte>, off: seq<nat>, cs: seq<RawCollisionSurface>, j: nat)
    requires |off| == |cs| + 1 && j < |cs| && off[j] <= |b| && off[j + 1] <= |b|
    requires ReadCollisionSurface(b, off[j]) == Success(Read(cs[j], off[j + 1]))
    requires ReadCollisionSurfaces(b, off[j + 1], |cs| - (j + 1)) == Success(Read(cs[j + 1..], off[|cs|]))
    ensures ReadCollisionSurfaces(b, off[j], |cs| - j) == Success(Read(cs[j..], off[|cs|]))
  {
    assert [cs[j]] + cs[j + 1..] == cs[j..];
  }

  /** Where each collision surface of an encoded run starts, and that each reads back from there. */
  lemma CollisionSurfaceOffsets(b: seq<byte>, pos: nat, cs: seq<RawCollisionSurface>) returns (off: seq<nat>)
    requires forall k :: 0 <= k < |cs| ==> CollisionSurfaceEncodable(cs[k])
    requires At(b, pos, EncodeCollisionSurfaces(cs))
    ensures |off| == |cs| + 1 && off[0] == pos && off[0] <= |b| && off[|cs|] == pos + |EncodeCollisionSurfaces(cs)|
    ensures forall k :: 0 <= k < |cs| ==> ReadCollisionSurfaceAt(b, off, cs, k)
  {
    AtLength(b, pos, EncodeCollisionSurfaces(cs));
    off := FlattenAt(b, pos, CollisionSurfaceParts(cs));
    forall k | 0 <= k < |cs|
      ensures ReadCollisionSurfaceAt(b, off, cs, k)
    {
      ReadCollisionSurfaceEncoded(b, off[k], cs[k], off[k + 1]);
    }
  }

  /** The whole run, read from the first offset. */
  lemma ReadCollisionSurfacesRun(b: seq<byte>, pos: nat, off: seq<nat>, cs: seq<RawCollisionSurface>)
    requires |off| == |cs| + 1 && off[0] == pos && pos <= |b|
    requires forall k :: 0 <= k < |cs| ==> ReadCollisionSurfaceAt(b, off, cs, k)
    ensures ReadCollisionSurfaces(b, pos, |cs|) == Success(Read(cs, off[|cs|]))
  {
    ReadCollisionSurfacesChain(b, off, cs, 0);
    assert cs[0..] == cs;
  }

  lemma ReadCollisionSurfacesEncoded(b: seq<byte>, pos: nat, cs: seq<RawCollisionSurface>) returns (next: nat)
    requires forall k :: 0 <= k < |cs| ==> CollisionSurfaceEncodable(cs[k])
    requires At(b, pos, EncodeCollisionSurfaces(cs))
    ensures ReadCollisionSurfaces(b, pos, |cs|) == Success(Read(cs, next))
    ensures next == pos + |EncodeCollisionSurfaces(cs)|
  {
    var off := CollisionSurfaceOffsets(b, pos, cs);
    ReadCollisionSurfacesRun(b, pos, off, cs);
    next := off[|cs|];
  }

  // ---------------------------------------------------------------- file

  lemma ReadStringEncoded(b: seq<byte>, pos: nat, h: seq<byte>) returns (next: nat)
    requires IsInt32(|h|) && At(b, pos, Int32Bytes(|h|) + h)
    ensures StringFits(b, pos) && StringAt(b, pos) == h
    ensures ReadString(b, pos) == Success(Read(h, next)) && next == pos + 4 + |h|
  {
    AtConcat(b, pos, Int32Bytes(|h|), h);
    Int32AtEncoded(b, pos, |h|);
    AtSlice(b, pos + 4, h);
    next := pos + 4 + |h|;
  }

  /** Where each block of an encoded file starts. */
  lemma EncodeRenderAt(b: seq<byte>, f: RawFile) returns (p1: nat, p2: nat, p3: nat)
    requires Encodable(f) && At(b, 0, EncodeRender(f))
    ensures At(b, 0, Int32Bytes(|f.header|) + f.header) && p1 == 4 + |f.header|
    ensures At(b, p1, Int32Bytes(|f.surfaces|)) && p2 == p1 + 4
    ensures At(b, p2, EncodeSurfaces(f.surfaces)) && p3 == p2 + |EncodeSurfaces(f.surfaces)|
    ensures p3 == |EncodeRender(f)|
  {
    var h := Int32Bytes(|f.header|) + f.header;
    AtConcat(b, 0, h + Int32Bytes(|f.surfaces|), EncodeSurfaces(f.surfaces));
    AtConcat(b, 0, h, Int32Bytes(|f.surfaces|));
    p1 := 4 + |f.header|;
    p2 := p1 + 4;
    p3 := p2 + |EncodeSurfaces(f.surfaces)|;
  }

  lemma EncodeCollisionAt(b: seq<byte>, f: RawFile) returns (p3: nat, p4: nat, p5: nat)
    requires Encodable(f) && At(b, 0, Encode(f))
    ensures At(b, 0, EncodeRender(f)) && p3 == |EncodeRender(f)|
    ensures At(b, p3, Int32Bytes(|f.collision|)) && p4 == p3 + 4
    ensures At(b, p4, EncodeCollisionSurfaces(f.collision)) && p5 == p4 + |EncodeCollisionSurfaces(f.collision)|
    ensures p5 == |Encode(f)|
  {
    AtConcat(b, 0, EncodeRender(f), EncodeCollision(f));
    p3 := |EncodeRender(f)|;
    AtConcat(b, p3, Int32Bytes(|f.collision|), EncodeCollisionSurfaces(f.collision));
    p4 := p3 + 4;
    p5 := p4 + |EncodeCollisionSurfaces(f.collision)|;
  }

  /** The header and renderable surfaces read field by field give the render-only file. */
  lemma ReadRenderFields(b: seq<byte>, f: RawFile, p1: nat, p2: nat, p3: nat)
    requires IsKnownHeader(AnsiString(f.header))
    requires ReadString(b, 0) == Success(Read(f.header, p1))
    requires ReadInt32(b, p1).Success? && Clamp(ReadInt32(b, p1).value.value) == |f.surfaces|
    requires ReadInt32(b, p1).value.next == p2 && p2 <= |b|
    requires ReadSurfaces(b, p2, |f.surfaces|) == Success(Read(f.surfaces, p3))
    ensures ReadFile(b, true) == Success(Read(f.(collision := []), p3))
  {
  }

  lemma ReadFileFields(b: seq<byte>, f: RawFile, p1: nat, p2: nat, p3: nat, p4: nat, p5: nat)
    requires IsKnownHeader(AnsiString(f.header))
    requires ReadString(b, 0) == Success(Read(f.header, p1))
    requires ReadInt32(b, p1).Success? && Clamp(ReadInt32(b, p1).value.value) == |f.surfaces|
    requires ReadInt32(b, p1).value.next == p2 && p2 <= |b|
    requires ReadSurfaces(b, p2, |f.surfaces|) == Success(Read(f.surfaces, p3))
    requires ReadInt32(b, p3).Success? && Clamp(ReadInt32(b, p3).value.value) == |f.collision|
    requires ReadInt32(b, p3).value.next == p4 && p4 <= |b|
    requires ReadCollisionSurfaces(b, p4, |f.collision|) == Success(Read(f.collision, p5))
    ensures ReadFile(b, false) == Success(Read(f, p5))
  {
  }

  /** The blocks before the collision data, each read back from its own encoding. */
  lemma ReadRenderBlocks(b: seq<byte>, f: RawFile) returns (p1: nat, p2: nat, p3: nat)
    requires Encodable(f) && At(b, 0, EncodeRender(f))
    ensures ReadString(b, 0) == Success(Read(f.header, p1))
    ensures ReadInt32(b, p1).Success? && Clamp(ReadInt32(b, p1).value.value) == |f.surfaces|
    ensures ReadInt32(b, p1).value.next == p2 && p2 <= |b|
    ensures ReadSurfaces(b, p2, |f.surfaces|) == Success(Read(f.surfaces, p3))
    ensures p3 == |EncodeRender(f)|
  {
    var q1, q2, q3 := EncodeRenderAt(b, f);
    p1 := ReadStringEncoded(b, 0, f.header);
    CountAtEncoded(b, q1, |f.surfaces|);
    AtLength(b, q2, EncodeSurfaces(f.surfaces));
    p2 := q2;
    p3 := ReadSurfacesEncoded(b, q2, f.surfaces);
  }

  /** The header and the renderable surfaces read back from their own encoding, whatever follows them. */
  lemma ReadRenderEncoded(b: seq<byte>, f: RawFile) returns (next: nat)
    requires Encodable(f) && IsKnownHeader(AnsiString(f.header)) && At(b, 0, EncodeRender(f))
    ensures ReadFile(b, true) == Success(Read(f.(collision := []), next))
    ensures next == |EncodeRender(f)|
  {
    var p1, p2, p3 := ReadRenderBlocks(b, f);
    ReadRenderFields(b, f, p1, p2, p3);
    next := p3;
  }

  /** A whole file read back from its own encoding, whatever follows it. */
  lemma ReadFileEncoded(b: seq<byte>, f: RawFile) returns (next: nat)
    requires Encodable(f) && IsKnownHeader(AnsiString(f.header)) && At(b, 0, Encode(f))
    ensures ReadFile(b, false) == Success(Read(f, next))
    ensures next == |Encode(f)|
  {
    var p3, p4, p5 := EncodeCollisionAt(b, f);
    var q1, q2, q3 := ReadRenderBlocks(b, f);
    CountAtEncoded(b, p3, |f.collision|);
    AtLength(b, p4, EncodeCollisionSurfaces(f.collision));
    var q5 := ReadCollisionSurfacesEncoded(b, p4, f.collision);
    ReadFileFields(b, f, q1, q2, q3, p4, q5);
    next := q5;
  }

  // ---------------------------------------------------------------- import

  /** A file whose triangles fit decodes to the interpretation of its records, whatever bytes follow it. */
  lemma DecodeEncoded(b: seq<byte>, f: RawFile, geo: Geometry)
    requires Encodable(f) && IsKnownHeader(AnsiString(f.header)) && Fits(f) && At(b, 0, Encode(f))
    ensures Decode(b, false, geo) == Success(Read(Interpret(f, geo), |Encode(f)|))
  {
    var next := ReadFileEncoded(b, f);
  }

  /** With the collision block ignored, only the header and the renderable surfaces are needed, and only they are imported. */
  lemma DecodeRenderEncoded(b: seq<byte>, f: RawFile, geo: Geometry)
    requires Encodable(f) && IsKnownHeader(AnsiString(f.header)) && SurfacesFit(f.surfaces, 0)
    requires At(b, 0, EncodeRender(f))
    ensures Decode(b, true, geo) == Success(Read(Interpret(f.(collision := []), geo), |EncodeRender(f)|))
  {
    var next := ReadRenderEncoded(b, f);
    assert Fits(f.(collision := []));
  }

  lemma AtWhole(e: seq<byte>)
    ensures At(e, 0, e)
  {
    AtSpec(e, 0, e);
  }

  /** Decoding exactly the bytes the writer produced gives the file's interpretation and consumes every byte. */
  lemma DecodeOfEncode(f: RawFile, geo: Geometry)
    requires Encodable(f) && IsKnownHeader(AnsiString(f.header)) && Fits(f)
    ensures Decode(Encode(f), false, geo) == Success(Read(Interpret(f, geo), |Encode(f)|))
  {
    AtWhole(Encode(f));
    DecodeEncoded(Encode(f), f, geo);
  }
}
