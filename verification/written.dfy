/**
  The reader's other direction: whatever a successful read returns is a
  record the writer can lay out, in exactly as many bytes as the read
  consumed, and the writer's bytes for it read back the same. Texture
  paths, record runs and the header are the very bytes the writer emits; a
  count field is too unless it holds a negative number, which the reader's
  loops treat as zero records while the writer writes 0.
 */
module Written {
  import opened Results
  import opened Bytes
  import opened Format
  import opened Text
  import opened Decoder
  import opened RoundTrip

  // ---------------------------------------------------------------- fields and records

  /** A length-prefixed string is stored exactly as the writer lays it out. */
  lemma ReadStringWritten(b: seq<byte>, pos: nat)
    requires ReadString(b, pos).Success?
    ensures var r := ReadString(b, pos).value;
      IsInt32(|r.value|) && r.next == pos + 4 + |r.value| && At(b, pos, Int32Bytes(|r.value|) + r.value)
  {
    var s := StringAt(b, pos);
    Int32AtWritten(b, pos);
    SliceAt(b, pos + 4, |s|);
    AtJoin(b, pos, Int32Bytes(|s|), s);
  }

  /** A texture slot read is a writable slot, stored exactly as the writer lays it out. */
  lemma ReadSlotWritten(b: seq<byte>, pos: nat)
    requires ReadSlot(b, pos).Success?
    ensures var r := ReadSlot(b, pos).value;
      SlotEncodable(r.value) && r.next == pos + |EncodeSlot(r.value)| && At(b, pos, EncodeSlot(r.value))
  {
    var s := ReadSlot(b, pos).value.value;
    AtSpec(b, pos, [b[pos]]);
    if b[pos] != 0 {
      ReadStringWritten(b, pos + 1);
      AtJoin(b, pos, [s.blend], Int32Bytes(|s.path|) + s.path);
      assert [s.blend] + Int32Bytes(|s.path|) + s.path == [s.blend] + (Int32Bytes(|s.path|) + s.path);
    }
  }

  lemma RawVertexWritten(b: seq<byte>, p: nat)
    requires p + 31 <= |b|
    ensures At(b, p, EncodeVertex(RawVertexAt(b, p)))
  {
    var v := RawVertexAt(b, p);
    FloatAtWritten(b, p);
    FloatAtWritten(b, p + 4);
    FloatAtWritten(b, p + 8);
    FloatAtWritten(b, p + 12);
    FloatAtWritten(b, p + 16);
    FloatAtWritten(b, p + 20);
    FloatAtWritten(b, p + 24);
    AtSpec(b, p + 28, [v.red, v.green, v.blue]);
    var e1 := F32Bytes(v.x);
    AtJoin(b, p, e1, F32Bytes(v.y));
    var e2 := e1 + F32Bytes(v.y);
    AtJoin(b, p, e2, F32Bytes(v.z));
    var e3 := e2 + F32Bytes(v.z);
    AtJoin(b, p, e3, F32Bytes(v.u));
    var e4 := e3 + F32Bytes(v.u);
    AtJoin(b, p, e4, F32Bytes(v.v));
    var e5 := e4 + F32Bytes(v.v);
    AtJoin(b, p, e5, F32Bytes(v.unknown1));
    var e6 := e5 + F32Bytes(v.unknown1);
    AtJoin(b, p, e6, F32Bytes(v.unknown2));
    var e7 := e6 + F32Bytes(v.unknown2);
    AtJoin(b, p, e7, [v.red, v.green, v.blue]);
  }

  lemma RawPointWritten(b: seq<byte>, p: nat)
    requires p + 12 <= |b|
    ensures At(b, p, EncodePoint(RawPointAt(b, p)))
  {
    var q := RawPointAt(b, p);
    FloatAtWritten(b, p);
    FloatAtWritten(b, p + 4);
    FloatAtWritten(b, p + 8);
    AtJoin(b, p, F32Bytes(q.x), F32Bytes(q.y));
    AtJoin(b, p, F32Bytes(q.x) + F32Bytes(q.y), F32Bytes(q.z));
  }

  lemma RawTriangleWritten(b: seq<byte>, p: nat)
    requires p + 12 <= |b|
    ensures var t := RawTriangleAt(b, p);
      IsInt32(t.i0) && IsInt32(t.i1) && IsInt32(t.i2) && At(b, p, EncodeTriangle(t))
  {
    var t := RawTriangleAt(b, p);
    Int32AtWritten(b, p);
    Int32AtWritten(b, p + 4);
    Int32AtWritten(b, p + 8);
    AtJoin(b, p, Int32Bytes(t.i0), Int32Bytes(t.i1));
    AtJoin(b, p, Int32Bytes(t.i0) + Int32Bytes(t.i1), Int32Bytes(t.i2));
  }

  // ---------------------------------------------------------------- runs of records

  /** A run of renderable vertices read is exactly the writer's bytes for those vertices. */
  lemma {:induction false} ReadVerticesWritten(b: seq<byte>, pos: nat, n: nat)
    requires pos <= |b| && ReadVertices(b, pos, n).Success?
    ensures At(b, pos, EncodeVertices(ReadVertices(b, pos, n).value.value))
    decreases n
  {
    var vs := ReadVertices(b, pos, n).value.value;
    if n == 0 {
      assert vs == [];
    } else {
      var rest := ReadVertices(b, pos + 31, n - 1).value.value;
      ReadVerticesWritten(b, pos + 31, n - 1);
      RawVertexWritten(b, pos);
      assert vs == [RawVertexAt(b, pos)] + rest;
      assert vs[1..] == rest;
      AtJoin(b, pos, EncodeVertex(vs[0]), EncodeVertices(rest));
    }
  }

  lemma {:induction false} ReadPointsWritten(b: seq<byte>, pos: nat, n: nat)
    requires pos <= |b| && ReadPoints(b, pos, n).Success?
    ensures At(b, pos, EncodePoints(ReadPoints(b, pos, n).value.value))
    decreases n
  {
    var ps := ReadPoints(b, pos, n).value.value;
    if n == 0 {
      assert ps == [];
    } else {
      var rest := ReadPoints(b, pos + 12, n - 1).value.value;
      ReadPointsWritten(b, pos + 12, n - 1);
      RawPointWritten(b, pos);
      assert ps == [RawPointAt(b, pos)] + rest;
      assert ps[1..] == rest;
      AtJoin(b, pos, EncodePoint(ps[0]), EncodePoints(rest));
    }
  }

  /** A run of triangles read holds `int32` indices and is exactly the writer's bytes for them. */
  lemma {:induction false} ReadTrianglesWritten(b: seq<byte>, pos: nat, n: nat)
    requires pos <= |b| && ReadTriangles(b, pos, n).Success?
    ensures var ts := ReadTriangles(b, pos, n).value.value;
      && (forall k :: 0 <= k < |ts| ==> IsInt32(ts[k].i0) && IsInt32(ts[k].i1) && IsInt32(ts[k].i2))
      && At(b, pos, EncodeTriangles(ts))
    decreases n
  {
    var ts := ReadTriangles(b, pos, n).value.value;
    if n == 0 {
      assert ts == [];
    } else {
      var rest := ReadTriangles(b, pos + 12, n - 1).value.value;
      ReadTrianglesWritten(b, pos + 12, n - 1);
      RawTriangleWritten(b, pos);
      assert ts == [RawTriangleAt(b, pos)] + rest;
      assert ts[1..] == rest;
      assert forall k :: 1 <= k < |ts| ==> ts[k] == rest[k - 1];
      AtJoin(b, pos, EncodeTriangle(ts[0]), EncodeTriangles(rest));
    }
  }

  // ---------------------------------------------------------------- counted runs

  /**
    A counted run takes the writer's number of bytes; it is the writer's bytes
    exactly when its count is not negative, and a negative count reads as no vertices.
   */
  lemma ReadCountedVerticesWritten(b: seq<byte>, pos: nat)
    requires pos <= |b| && ReadCountedVertices(b, pos).Success?
    ensures var r := ReadCountedVertices(b, pos).value;
      && IsInt32(|r.value|) && r.next == pos + |EncodeCountedVertices(r.value)|
      && (Int32At(b, pos) < 0 ==> r.value == [])
      && (0 <= Int32At(b, pos) ==> At(b, pos, EncodeCountedVertices(r.value)))
  {
    var vs := ReadCountedVertices(b, pos).value.value;
    ReadVerticesWritten(b, pos + 4, Clamp(Int32At(b, pos)));
    if 0 <= Int32At(b, pos) {
      Int32AtWritten(b, pos);
      AtJoin(b, pos, Int32Bytes(|vs|), EncodeVertices(vs));
    }
  }

  lemma ReadCountedPointsWritten(b: seq<byte>, pos: nat)
    requires pos <= |b| && ReadCountedPoints(b, pos).Success?
    ensures var r := ReadCountedPoints(b, pos).value;
      && IsInt32(|r.value|) && r.next == pos + |EncodeCountedPoints(r.value)|
      && (Int32At(b, pos) < 0 ==> r.value == [])
      && (0 <= Int32At(b, pos) ==> At(b, pos, EncodeCountedPoints(r.value)))
  {
    var ps := ReadCountedPoints(b, pos).value.value;
    ReadPointsWritten(b, pos + 4, Clamp(Int32At(b, pos)));
    if 0 <= Int32At(b, pos) {
      Int32AtWritten(b, pos);
      AtJoin(b, pos, Int32Bytes(|ps|), EncodePoints(ps));
    }
  }

  lemma ReadCountedTrianglesWritten(b: seq<byte>, pos: nat)
    requires pos <= |b| && ReadCountedTriangles(b, pos).Success?
    ensures var r := ReadCountedTriangles(b, pos).value;
      && TrianglesEncodable(r.value) && r.next == pos + |EncodeCountedTriangles(r.value)|
      && (Int32At(b, pos) < 0 ==> r.value == [])
      && (0 <= Int32At(b, pos) ==> At(b, pos, EncodeCountedTriangles(r.value)))
  {
    var ts := ReadCountedTriangles(b, pos).value.value;
    ReadTrianglesWritten(b, pos + 4, Clamp(Int32At(b, pos)));
    if 0 <= Int32At(b, pos) {
      Int32AtWritten(b, pos);
      AtJoin(b, pos, Int32Bytes(|ts|), EncodeTriangles(ts));
    }
  }

  // ---------------------------------------------------------------- surfaces

  /**
    A writable surface stored at `pos`: its two slots are the writer's bytes,
    and so is the whole surface when its vertex and triangle count fields
    hold numbers that are not negative.
   */
  predicate SurfaceStored(b: seq<byte>, pos: nat, v: RawSurface) {
    && SurfaceEncodable(v) && pos + |EncodeSurface(v)| <= |b|
    && At(b, pos, EncodeSlot(v.slot0) + EncodeSlot(v.slot1))
    && var q := pos + |EncodeSlot(v.slot0)| + |EncodeSlot(v.slot1)|;
       0 <= Int32At(b, q) && 0 <= Int32At(b, q + 4 + 31 * |v.vertices|) ==> At(b, pos, EncodeSurface(v))
  }

  /** A surface read is stored as described by `SurfaceStored` and takes the writer's number of bytes. */
  lemma ReadSurfaceWritten(b: seq<byte>, pos: nat)
    requires pos <= |b| && ReadSurface(b, pos).Success?
    ensures var r := ReadSurface(b, pos).value;
      SurfaceStored(b, pos, r.value) && r.next == pos + |EncodeSurface(r.value)|
  {
    ReadSurfaceSize(b, pos);
    var s0, s1, vs, ts := ReadSurfaceSteps(b, pos);
    ReadSlotWritten(b, pos);
    ReadSlotWritten(b, s0.next);
    ReadCountedVerticesWritten(b, s1.next);
    ReadCountedTrianglesWritten(b, vs.next);
    SurfaceAt(b, pos, s1.next, s0.value, s1.value, vs.value, ts.value);
  }

  /** The runs of a surface, each where the reader found it, make the surface stored. */
  lemma SurfaceAt(b: seq<byte>, pos: nat, p2: nat, s0: Slot, s1: Slot, vs: seq<RawVertex>, ts: seq<RawTriangle>)
    requires SurfaceEncodable(RawSurface(s0, s1, vs, ts))
    requires p2 == pos + |EncodeSlot(s0)| + |EncodeSlot(s1)|
    requires p2 + |EncodeCountedVertices(vs)| + |EncodeCountedTriangles(ts)| <= |b|
    requires At(b, pos, EncodeSlot(s0)) && At(b, pos + |EncodeSlot(s0)|, EncodeSlot(s1))
    requires 0 <= Int32At(b, p2) ==> At(b, p2, EncodeCountedVertices(vs))
    requires 0 <= Int32At(b, p2 + 4 + 31 * |vs|) ==> At(b, p2 + 4 + 31 * |vs|, EncodeCountedTriangles(ts))
    ensures SurfaceStored(b, pos, RawSurface(s0, s1, vs, ts))
  {
    var e0, e1, e2, e3 := EncodeSlot(s0), EncodeSlot(s1), EncodeCountedVertices(vs), EncodeCountedTriangles(ts);
    AtJoin(b, pos, e0, e1);
    if 0 <= Int32At(b, p2) && 0 <= Int32At(b, p2 + 4 + 31 * |vs|) {
      assert At(b, pos + |e0| + |e1|, e2) && At(b, pos + |e0| + |e1| + |e2|, e3) by {
        assert pos + |e0| + |e1| == p2 && pos + |e0| + |e1| + |e2| == p2 + 4 + 31 * |vs|;
      }
      AtJoinFour(b, pos, e0, e1, e2, e3);
    }
  }

  /** A surface read is writable and takes the writer's number of bytes. */
  lemma ReadSurfaceSize(b: seq<byte>, pos: nat)
    requires pos <= |b| && ReadSurface(b, pos).Success?
    ensures var r := ReadSurface(b, pos).value;
      SurfaceEncodable(r.value) && r.next == pos + |EncodeSurface(r.value)|
  {
    var s0, s1, vs, ts := ReadSurfaceSteps(b, pos);
    ReadSlotWritten(b, pos);
    ReadSlotWritten(b, s0.next);
    ReadCountedVerticesWritten(b, s1.next);
    ReadCountedTrianglesWritten(b, vs.next);
  }

  /** The four reads a surface is made of, each starting where the previous one stopped. */
  lemma ReadSurfaceSteps(b: seq<byte>, pos: nat) returns (s0: Read<Slot>, s1: Read<Slot>, vs: Read<seq<RawVertex>>, ts: Read<seq<RawTriangle>>)
    requires pos <= |b| && ReadSurface(b, pos).Success?
    ensures ReadSlot(b, pos) == Success(s0) && ReadSlot(b, s0.next) == Success(s1) && s1.next <= |b|
    ensures ReadCountedVertices(b, s1.next) == Success(vs) && vs.next <= |b|
    ensures ReadCountedTriangles(b, vs.next) == Success(ts)
    ensures ReadSurface(b, pos).value == Read(RawSurface(s0.value, s1.value, vs.value, ts.value), ts.next)
  {
    s0 := ReadSlot(b, pos).value;
    s1 := ReadSlot(b, s0.next).value;
    vs := ReadCountedVertices(b, s1.next).value;
    ts := ReadCountedTriangles(b, vs.next).value;
  }

  /** Four runs laid end to end form their concatenation, and so do the first two. */
  lemma AtJoinFour(b: seq<byte>, pos: nat, e0: seq<byte>, e1: seq<byte>, e2: seq<byte>, e3: seq<byte>)
    requires At(b, pos, e0) && At(b, pos + |e0|, e1)
    requires At(b, pos + |e0| + |e1|, e2) && At(b, pos + |e0| + |e1| + |e2|, e3)
    ensures At(b, pos, e0 + e1) && At(b, pos, e0 + e1 + e2 + e3)
  {
    AtJoin(b, pos, e0, e1);
    AtJoin(b, pos, e0 + e1, e2);
    AtJoin(b, pos, e0 + e1 + e2, e3);
  }

  lemma ReadCollisionSurfaceWritten(b: seq<byte>, pos: nat)
    requires pos <= |b| && ReadCollisionSurface(b, pos).Success?
    ensures var r := ReadCollisionSurface(b, pos).value;
      && CollisionSurfaceEncodable(r.value) && r.next == pos + |EncodeCollisionSurface(r.value)|
      && pos + 4 + 12 * |r.value.points| + 4 <= |b|
      && (0 <= Int32At(b, pos) && 0 <= Int32At(b, pos + 4 + 12 * |r.value.points|) ==>
            At(b, pos, EncodeCollisionSurface(r.value)))
  {
    var ps := ReadCountedPoints(b, pos).value;
    ReadCountedPointsWritten(b, pos);
    ReadCountedTrianglesWritten(b, ps.next);
    var ts := ReadCountedTriangles(b, ps.next).value;
    if 0 <= Int32At(b, pos) && 0 <= Int32At(b, ps.next) {
      AtJoin(b, pos, EncodeCountedPoints(ps.value), EncodeCountedTriangles(ts.value));
    }
  }

  lemma SurfacesConsEncodable(s: RawSurface, ss: seq<RawSurface>)
    requires SurfaceEncodable(s) && forall k :: 0 <= k < |ss| ==> SurfaceEncodable(ss[k])
    ensures forall k :: 0 <= k < |[s] + ss| ==> SurfaceEncodable(([s] + ss)[k])
  {
    forall k | 0 <= k < |[s] + ss|
      ensures SurfaceEncodable(([s] + ss)[k])
    {
      if k > 0 {
        assert ([s] + ss)[k] == ss[k - 1];
      }
    }
  }

  lemma SurfacePartsCons(s: RawSurface, ss: seq<RawSurface>)
    requires forall k :: 0 <= k < |[s] + ss| ==> SurfaceEncodable(([s] + ss)[k])
    requires forall k :: 0 <= k < |ss| ==> SurfaceEncodable(ss[k])
    ensures SurfaceParts([s] + ss)[1..] == SurfaceParts(ss)
  {
    var all, parts, rest := [s] + ss, SurfaceParts([s] + ss), SurfaceParts(ss);
    assert |parts[1..]| == |rest|;
    forall k | 0 <= k < |ss|
      ensures parts[1..][k] == rest[k]
    {
      assert all[k + 1] == ss[k];
      assert parts[1..][k] == parts[k + 1] == EncodeSurface(all[k + 1]);
    }
  }

  /** The bytes of a run of surfaces are its first surface's bytes, then the rest's. */
  lemma EncodeSurfacesCons(s: RawSurface, ss: seq<RawSurface>)
    requires SurfaceEncodable(s) && forall k :: 0 <= k < |ss| ==> SurfaceEncodable(ss[k])
    ensures forall k :: 0 <= k < |[s] + ss| ==> SurfaceEncodable(([s] + ss)[k])
    ensures EncodeSurfaces([s] + ss) == EncodeSurface(s) + EncodeSurfaces(ss)
  {
    SurfacesConsEncodable(s, ss);
    SurfacePartsCons(s, ss);
  }

  lemma CollisionSurfacesConsEncodable(c: RawCollisionSurface, cs: seq<RawCollisionSurface>)
    requires CollisionSurfaceEncodable(c) && forall k :: 0 <= k < |cs| ==> CollisionSurfaceEncodable(cs[k])
    ensures forall k :: 0 <= k < |[c] + cs| ==> CollisionSurfaceEncodable(([c] + cs)[k])
  {
    forall k | 0 <= k < |[c] + cs|
      ensures CollisionSurfaceEncodable(([c] + cs)[k])
    {
      if k > 0 {
        assert ([c] + cs)[k] == cs[k - 1];
      }
    }
  }

  lemma CollisionSurfacePartsCons(c: RawCollisionSurface, cs: seq<RawCollisionSurface>)
    requires forall k :: 0 <= k < |[c] + cs| ==> CollisionSurfaceEncodable(([c] + cs)[k])
    requires forall k :: 0 <= k < |cs| ==> CollisionSurfaceEncodable(cs[k])
    ensures CollisionSurfaceParts([c] + cs)[1..] == CollisionSurfaceParts(cs)
  {
    var all, parts, rest := [c] + cs, CollisionSurfaceParts([c] + cs), CollisionSurfaceParts(cs);
    assert |parts[1..]| == |rest|;
    forall k | 0 <= k < |cs|
      ensures parts[1..][k] == rest[k]
    {
      assert all[k + 1] == cs[k];
      assert parts[1..][k] == parts[k + 1] == EncodeCollisionSurface(all[k + 1]);
    }
  }

  /** The bytes of a run of surfaces are its first surface's bytes, then the rest's. */
  lemma EncodeCollisionSurfacesCons(c: RawCollisionSurface, cs: seq<RawCollisionSurface>)
    requires CollisionSurfaceEncodable(c) && forall k :: 0 <= k < |cs| ==> CollisionSurfaceEncodable(cs[k])
    ensures forall k :: 0 <= k < |[c] + cs| ==> CollisionSurfaceEncodable(([c] + cs)[k])
    ensures EncodeCollisionSurfaces([c] + cs) == EncodeCollisionSurface(c) + EncodeCollisionSurfaces(cs)
  {
    CollisionSurfacesConsEncodable(c, cs);
    CollisionSurfacePartsCons(c, cs);
  }

  /** The renderable surfaces read from `pos` on can be written, and take the writer's number of bytes. */
  predicate SurfacesWritable(r: Read<seq<RawSurface>>, pos: nat) {
    && (forall k :: 0 <= k < |r.value| ==> SurfaceEncodable(r.value[k]))
    && r.next == pos + |EncodeSurfaces(r.value)|
  }

  /** The surfaces read are writable and take the writer's number of bytes. */
  lemma {:induction false} ReadSurfacesWritten(b: seq<byte>, pos: nat, n: nat)
    requires pos <= |b| && ReadSurfaces(b, pos, n).Success?
    ensures SurfacesWritable(ReadSurfaces(b, pos, n).value, pos)
    decreases n
  {
    if n == 0 {
      assert |SurfaceParts([])| == 0;
    } else {
      ReadSurfacesWritten(b, ReadSurface(b, pos).value.next, n - 1);
      ReadSurfacesWrittenStep(b, pos, n);
    }
  }

  /** The collision surfaces read from `pos` on can be written, and take the writer's number of bytes. */
  predicate CollisionSurfacesWritable(r: Read<seq<RawCollisionSurface>>, pos: nat) {
    && (forall k :: 0 <= k < |r.value| ==> CollisionSurfaceEncodable(r.value[k]))
    && r.next == pos + |EncodeCollisionSurfaces(r.value)|
  }

  /** One more surface in front of a run the writer can lay out. */
  lemma ReadSurfacesWrittenStep(b: seq<byte>, pos: nat, n: nat)
    requires pos <= |b| && 0 < n && ReadSurfaces(b, pos, n).Success?
    requires ReadSurface(b, pos).Success? && ReadSurface(b, pos).value.next <= |b|
    requires ReadSurfaces(b, ReadSurface(b, pos).value.next, n - 1).Success?
    requires SurfacesWritable(ReadSurfaces(b, ReadSurface(b, pos).value.next, n - 1).value, ReadSurface(b, pos).value.next)
    ensures SurfacesWritable(ReadSurfaces(b, pos, n).value, pos)
  {
    var s := ReadSurface(b, pos).value;
    ReadSurfaceSize(b, pos);
    var rest := ReadSurfaces(b, s.next, n - 1).value;
    EncodeSurfacesCons(s.value, rest.value);
    assert ReadSurfaces(b, pos, n).value == Read([s.value] + rest.value, rest.next);
    assert |EncodeSurfaces([s.value] + rest.value)| == |EncodeSurface(s.value)| + |EncodeSurfaces(rest.value)|;
  }

  lemma {:induction false} ReadCollisionSurfacesWritten(b: seq<byte>, pos: nat, n: nat)
    requires pos <= |b| && ReadCollisionSurfaces(b, pos, n).Success?
    ensures CollisionSurfacesWritable(ReadCollisionSurfaces(b, pos, n).value, pos)
    decreases n
  {
    if n == 0 {
      assert |CollisionSurfaceParts([])| == 0;
    } else {
      ReadCollisionSurfacesWritten(b, ReadCollisionSurface(b, pos).value.next, n - 1);
      ReadCollisionSurfacesWrittenStep(b, pos, n);
    }
  }

  /** One more surface in front of a run the writer can lay out. */
  lemma ReadCollisionSurfacesWrittenStep(b: seq<byte>, pos: nat, n: nat)
    requires pos <= |b| && 0 < n && ReadCollisionSurfaces(b, pos, n).Success?
    requires ReadCollisionSurface(b, pos).Success? && ReadCollisionSurface(b, pos).value.next <= |b|
    requires ReadCollisionSurfaces(b, ReadCollisionSurface(b, pos).value.next, n - 1).Success?
    requires CollisionSurfacesWritable(ReadCollisionSurfaces(b, ReadCollisionSurface(b, pos).value.next, n - 1).value, ReadCollisionSurface(b, pos).value.next)
    ensures CollisionSurfacesWritable(ReadCollisionSurfaces(b, pos, n).value, pos)
  {
    var c := ReadCollisionSurface(b, pos).value;
    ReadCollisionSurfaceWritten(b, pos);
    var rest := ReadCollisionSurfaces(b, c.next, n - 1).value;
    EncodeCollisionSurfacesCons(c.value, rest.value);
    assert ReadCollisionSurfaces(b, pos, n).value == Read([c.value] + rest.value, rest.next);
    assert |EncodeCollisionSurfaces([c.value] + rest.value)| == |EncodeCollisionSurface(c.value)| + |EncodeCollisionSurfaces(rest.value)|;
  }

  // ---------------------------------------------------------------- a whole file

  /** What a reader that skips or keeps the collision block consumes of a file. */
  function Written(f: RawFile, ignoreCollision: bool): seq<byte>
    requires Encodable(f)
  {
    if ignoreCollision then EncodeRender(f) else Encode(f)
  }

  /**
    Every successful read is of writable records with a known header. It
    consumes exactly as many bytes as the writer emits for them, starting with
    the header exactly as written, and the writer's bytes read back as the
    same records.
   */
  lemma ReadFileWritten(b: seq<byte>, ignoreCollision: bool)
    requires ReadFile(b, ignoreCollision).Success?
    ensures var r := ReadFile(b, ignoreCollision).value;
      && Encodable(r.value) && IsKnownHeader(AnsiString(r.value.header))
      && r.next == |Written(r.value, ignoreCollision)|
      && At(b, 0, Int32Bytes(|r.value.header|) + r.value.header)
      && ReadFile(Written(r.value, ignoreCollision), ignoreCollision) == Success(r)
  {
    var r := ReadFile(b, ignoreCollision).value;
    var f := r.value;
    var header := ReadString(b, 0).value;
    ReadStringWritten(b, 0);
    var count := ReadInt32(b, header.next).value;
    var surfaces := ReadSurfaces(b, count.next, Clamp(count.value)).value;
    ReadSurfacesWritten(b, count.next, Clamp(count.value));
    if !ignoreCollision {
      var collisionCount := ReadInt32(b, surfaces.next).value;
      ReadCollisionSurfacesWritten(b, collisionCount.next, Clamp(collisionCount.value));
    }
    var e := Written(f, ignoreCollision);
    AtWhole(e);
    if ignoreCollision {
      var next := ReadRenderEncoded(e, f);
      assert f.(collision := []) == f;
    } else {
      var next := ReadFileEncoded(e, f);
    }
  }

  /** `RoomMesh` as stored bytes. */
  const RoomMeshBytes: seq<byte> := [0x52, 0x6F, 0x6F, 0x6D, 0x4D, 0x65, 0x73, 0x68]

  /** A render-only file whose surface count is -1. */
  const NegativeCountBytes: seq<byte> := [8, 0, 0, 0] + RoomMeshBytes + [0xFF, 0xFF, 0xFF, 0xFF]

  /** The stored `RoomMesh` bytes convert to the text `RoomMesh`. */
  lemma RoomMeshText()
    ensures AnsiString(RoomMeshBytes) == "RoomMesh"
  {
    var t := AnsiString(RoomMeshBytes);
    assert |t| == 8;
    assert forall k :: 0 <= k < 8 ==> t[k] == AnsiChar(RoomMeshBytes[k]);
  }

  lemma NegativeCountRead()
    ensures ReadFile(NegativeCountBytes, true) == Success(Read(RawFile(RoomMeshBytes, [], []), 16))
  {
    var b := NegativeCountBytes;
    assert Int32At(b, 0) == 8;
    assert forall k :: 0 <= k < 8 ==> b[4 + k] == RoomMeshBytes[k];
    assert StringAt(b, 0) == RoomMeshBytes;
    RoomMeshText();
    KnownHeaderWhole("RoomMesh");
    assert Int32At(b, 12) == -1;
  }

  /**
    The converse stops short of the bytes themselves: a negative surface count
    reads as no surfaces and the writer writes 0 for it, so these sixteen bytes
    read successfully but are not the writer's bytes for what they hold.
   */
  lemma NegativeCountNotWritten()
    ensures ReadFile(NegativeCountBytes, true) == Success(Read(RawFile(RoomMeshBytes, [], []), 16))
    ensures !At(NegativeCountBytes, 0, EncodeRender(RawFile(RoomMeshBytes, [], [])))
  {
    NegativeCountRead();
    var e := EncodeRender(RawFile(RoomMeshBytes, [], []));
    assert e[12] == Int32Bytes(0)[0] == 0;
    AtSpec(NegativeCountBytes, 0, e);
    assert NegativeCountBytes[0 + 12] != e[12];
  }
}
