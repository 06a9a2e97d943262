/**
  What one decoded surface does to the import data: it appends a material
  (`drawnmesh<i>` with its kept textures, or the texture-less
  `collisionmesh<i>`), its vertices converted to the engine's axes, and its
  triangles rebased onto the global vertex list. The reference meaning of a
  whole file, `Interpret`, is the fold of these steps over its surfaces.
 */
module Surfaces {
  import opened Bytes
  import opened Text
  import opened MeshData
  import opened Format

  /** The two face-normal computations: one for renderable, one for collision triangles. */
  datatype Geometry = Geometry(faceNormal: NormalFn, collisionNormal: NormalFn)

  // ---------------------------------------------------------------- textures

  /** The lightmap markers; a texture whose base file name contains one of them is not used. */
  const LightmapTags: seq<string> := ["_lm1", "_lm2", "_lm3", "_lm4", "_lm5", "_lm6", "_lm7"]

  /** `name` contains one of `tags`, ignoring case. */
  predicate ContainsTag(name: string, tags: seq<string>)
    decreases |tags|
  {
    |tags| > 0 && (ContainsIgnoreCase(name, tags[0]) || ContainsTag(name, tags[1..]))
  }

  lemma {:induction false} ContainsTagSpec(name: string, tags: seq<string>)
    ensures ContainsTag(name, tags) <==> exists j :: 0 <= j < |tags| && ContainsIgnoreCase(name, tags[j])
    decreases |tags|
  {
    if |tags| > 0 {
      ContainsTagSpec(name, tags[1..]);
      if j :| 0 <= j < |tags| && ContainsIgnoreCase(name, tags[j]) {
        assert j == 0 || tags[1..][j - 1] == tags[j];
      }
    }
  }

  predicate IsLightmapName(baseName: string) {
    ContainsTag(baseName, LightmapTags)
  }

  /** A texture path is recorded when it is non-empty and its base file name contains none of the lightmap tags. */
  predicate KeepTexture(name: string)
    ensures KeepTexture(name) <==>
      name != "" && forall j :: 0 <= j < |LightmapTags| ==> !ContainsIgnoreCase(BaseFilename(name), LightmapTags[j])
  {
    ContainsTagSpec(BaseFilename(name), LightmapTags);
    name != "" && !IsLightmapName(BaseFilename(name))
  }

  /** The texture path a slot records, if any: only a non-zero blend stores a path, and only a kept path counts. */
  function SlotTextures(s: Slot): seq<string> {
    if s.blend == 0 || !KeepTexture(AnsiString(s.path)) then [] else [AnsiString(s.path)]
  }

  /** A slot path whose first byte is zero converts to the empty string, so it records nothing. */
  lemma LeadingZeroPathSkipped(blend: byte, rest: seq<byte>)
    ensures SlotTextures(Slot(blend, [0] + rest)) == []
  {
    assert ([0] + rest)[0] == 0;
  }

  /** The kept paths of a renderable surface's slot 0 then slot 1. */
  function SurfaceTextures(s: RawSurface): seq<string> {
    SlotTextures(s.slot0) + SlotTextures(s.slot1)
  }

  /** The textures of each surface, in order. */
  function TexturesOf(ss: seq<RawSurface>): (r: seq<seq<string>>)
    ensures |r| == |ss|
  {
    seq(|ss|, k requires 0 <= k < |ss| => SurfaceTextures(ss[k]))
  }

  /** Renderable surface `i`'s material: `drawnmesh<i>` with the kept paths of slot 0 then slot 1. */
  function SurfaceMaterial(i: nat, s: RawSurface): Material {
    Material(DrawnMesh(i), SurfaceTextures(s))
  }

  /** Every recorded path passed the filter, slot 0's before slot 1's, and a filtered or empty slot adds nothing. */
  lemma SurfaceMaterialTextures(i: nat, s: RawSurface)
    ensures var m := SurfaceMaterial(i, s);
      && m.name == DrawnMesh(i)
      && |m.textures| <= 2
      && (forall t :: t in m.textures ==> KeepTexture(t))
      && (s.slot0.blend != 0 && KeepTexture(AnsiString(s.slot0.path)) ==> m.textures[0] == AnsiString(s.slot0.path))
      && (s.slot1.blend != 0 && KeepTexture(AnsiString(s.slot1.path)) ==>
            m.textures[|m.textures| - 1] == AnsiString(s.slot1.path))
      && (s.slot0.blend == 0 || !KeepTexture(AnsiString(s.slot0.path)) ==> m.textures == SlotTextures(s.slot1))
  {
  }

  // ---------------------------------------------------------------- vertices and triangles

  function RenderVertexOf(v: RawVertex): Vertex {
    RenderVertex(v.x, v.y, v.z, v.u, v.v, v.red, v.green, v.blue)
  }

  function CollisionVertexOf(p: RawPoint): Vertex {
    CollisionVertex(p.x, p.y, p.z)
  }

  function RenderVertices(vs: seq<RawVertex>): (r: seq<Vertex>)
    ensures |r| == |vs|
  {
    seq(|vs|, k requires 0 <= k < |vs| => RenderVertexOf(vs[k]))
  }

  function CollisionVertices(ps: seq<RawPoint>): (r: seq<Vertex>)
    ensures |r| == |ps|
  {
    seq(|ps|, k requires 0 <= k < |ps| => CollisionVertexOf(ps[k]))
  }

  /**
    A renderable vertex keeps everything of its record but the two unused
    floats: the stored axes undo to the record's X, Y, Z, and the normal is
    the default up vector.
   */
  lemma RenderVertexRecovers(v: RawVertex)
    ensures var w := RenderVertexOf(v);
      && Neg(w.position.x) == v.x && w.position.z == v.y && w.position.y == v.z
      && w.uv == Vec2(v.u, v.v) && w.color == Color(v.red, v.green, v.blue, 0xFF) && w.normal == UpVector
  {
    NegInvolution(v.x);
  }

  /** The two unused floats of a vertex record do not reach the vertex. */
  lemma RenderVertexIgnoresUnused(v: RawVertex, unknown1: F32, unknown2: F32)
    ensures RenderVertexOf(v.(unknown1 := unknown1, unknown2 := unknown2)) == RenderVertexOf(v)
  {
  }

  /** A collision vertex keeps its record's position, Z negated back, with zero UV, white colour and the up normal. */
  lemma CollisionVertexRecovers(p: RawPoint)
    ensures var w := CollisionVertexOf(p);
      && w.position.x == p.x && w.position.y == p.y && Neg(w.position.z) == p.z
      && w.uv == ZeroUV && w.color == White && w.normal == UpVector
  {
    NegInvolution(p.z);
  }

  /** Triangle records over `verts`, shifted by `start`, all given `material`. */
  function BuildTriangles(verts: seq<Vertex>, ts: seq<RawTriangle>, start: int, material: int, normal: NormalFn): (r: seq<Triangle>)
    requires TrianglesIn(ts, start, |verts|)
    ensures |r| == |ts|
    decreases |ts|
  {
    if |ts| == 0 then []
    else
      [MakeTriangle(verts, ts[0].i0 + start, ts[0].i1 + start, ts[0].i2 + start, material, normal)]
        + BuildTriangles(verts, ts[1..], start, material, normal)
  }

  /** Triangle k is record k shifted by `start`, with the given material, the corners' UVs and their face normal. */
  lemma {:induction false} BuildTrianglesSpec(verts: seq<Vertex>, ts: seq<RawTriangle>, start: int, material: int, normal: NormalFn)
    requires TrianglesIn(ts, start, |verts|)
    ensures var r := BuildTriangles(verts, ts, start, material, normal);
      forall k :: 0 <= k < |ts| ==>
        && TriangleIn(ts[k], start, |verts|)
        && r[k] == MakeTriangle(verts, ts[k].i0 + start, ts[k].i1 + start, ts[k].i2 + start, material, normal)
    decreases |ts|
  {
    if |ts| > 0 {
      var r := BuildTriangles(verts, ts, start, material, normal);
      var rest := BuildTriangles(verts, ts[1..], start, material, normal);
      BuildTrianglesSpec(verts, ts[1..], start, material, normal);
      forall k | 1 <= k < |ts|
        ensures TriangleIn(ts[k], start, |verts|)
        ensures r[k] == MakeTriangle(verts, ts[k].i0 + start, ts[k].i1 + start, ts[k].i2 + start, material, normal)
      {
        assert ts[k] == ts[1..][k - 1];
        assert r[k] == rest[k - 1];
      }
    }
  }

  // ---------------------------------------------------------------- appending a surface

  /** The vertices and triangles one surface appends. */
  datatype Block = Block(vertices: seq<Vertex>, triangles: seq<Triangle>)

  /** `d` with one surface's material and block appended. */
  function Append(d: ImportData, material: Material, block: Block): ImportData {
    ImportData(d.vertices + block.vertices, d.triangles + block.triangles, d.materials + [material])
  }

  /** A block is sound over `verts`: added vertices keep the up normal, triangles name existing vertices and `material`. */
  predicate SoundBlock(block: Block, verts: seq<Vertex>, material: nat) {
    && (forall k :: 0 <= k < |block.vertices| ==> block.vertices[k].normal == UpVector)
    && (forall k :: 0 <= k < |block.triangles| ==>
          TriangleFitsIn(block.triangles[k], |verts| + |block.vertices|, material + 1) && block.triangles[k].material == material)
  }

  /** Appending a sound block whose material is the one appended keeps the import data valid. */
  lemma AppendSound(d: ImportData, material: Material, block: Block)
    requires Valid(d) && SoundBlock(block, d.vertices, |d.materials|)
    ensures Valid(Append(d, material, block))
  {
    var e := Append(d, material, block);
    forall k | 0 <= k < |e.triangles|
      ensures TriangleFitsIn(e.triangles[k], |e.vertices|, |e.materials|)
    {
      if k >= |d.triangles| {
        assert e.triangles[k] == block.triangles[k - |d.triangles|];
      } else {
        assert e.triangles[k] == d.triangles[k];
      }
    }
    forall k | 0 <= k < |e.vertices|
      ensures e.vertices[k].normal == UpVector
    {
      if k >= |d.vertices| {
        assert e.vertices[k] == block.vertices[k - |d.vertices|];
      }
    }
  }

  /** The block a surface's records give once `verts` are the vertices already there. */
  function MakeBlock(verts: seq<Vertex>, added: seq<Vertex>, ts: seq<RawTriangle>, material: int, normal: NormalFn): Block
    requires TrianglesIn(ts, |verts|, |verts| + |added|)
  {
    Block(added, BuildTriangles(verts + added, ts, |verts|, material, normal))
  }

  lemma MakeBlockSound(verts: seq<Vertex>, added: seq<Vertex>, ts: seq<RawTriangle>, material: nat, normal: NormalFn)
    requires TrianglesIn(ts, |verts|, |verts| + |added|)
    requires forall k :: 0 <= k < |added| ==> added[k].normal == UpVector
    ensures SoundBlock(MakeBlock(verts, added, ts, material, normal), verts, material)
  {
    BuildTrianglesSpec(verts + added, ts, |verts|, material, normal);
  }

  /** The condition under which renderable surface records can be appended to `d`. */
  predicate SurfaceFits(d: ImportData, s: RawSurface) {
    TrianglesIn(s.triangles, |d.vertices|, |d.vertices| + |s.vertices|)
  }

  predicate CollisionSurfaceFits(d: ImportData, c: RawCollisionSurface) {
    TrianglesIn(c.triangles, |d.vertices|, |d.vertices| + |c.points|)
  }

  /**
    Renderable surface `i`: material `drawnmesh<i>`, its vertices, and its
    triangles rebased by the number of vertices already present, using material `i`.
   */
  function AddSurface(d: ImportData, i: nat, s: RawSurface, textures: seq<string>, geo: Geometry): (e: ImportData)
    requires SurfaceFits(d, s)
    ensures Extends(d, e)
    ensures |e.vertices| == |d.vertices| + |s.vertices| && |e.materials| == |d.materials| + 1
    ensures |e.triangles| == |d.triangles| + |s.triangles|
  {
    Append(d, Material(DrawnMesh(i), textures),
           MakeBlock(d.vertices, RenderVertices(s.vertices), s.triangles, i, geo.faceNormal))
  }

  /** Collision surface `i`: material `collisionmesh<i>`, its vertices, and triangles using that last material. */
  function AddCollisionSurface(d: ImportData, i: nat, c: RawCollisionSurface, geo: Geometry): (e: ImportData)
    requires CollisionSurfaceFits(d, c)
    ensures Extends(d, e)
    ensures |e.vertices| == |d.vertices| + |c.points| && |e.materials| == |d.materials| + 1
    ensures |e.triangles| == |d.triangles| + |c.triangles|
  {
    Append(d, Material(CollisionMesh(i), []),
           MakeBlock(d.vertices, CollisionVertices(c.points), c.triangles, |d.materials|, geo.collisionNormal))
  }

  /** A renderable surface only appends: one material, its converted vertices, and triangles rebased onto them. */
  lemma AddSurfaceAppends(d: ImportData, i: nat, s: RawSurface, textures: seq<string>, geo: Geometry)
    requires SurfaceFits(d, s)
    ensures var e := AddSurface(d, i, s, textures, geo);
      && Extends(d, e)
      && e.materials == d.materials + [Material(DrawnMesh(i), textures)]
      && |e.vertices| == |d.vertices| + |s.vertices|
      && (forall k :: 0 <= k < |s.vertices| ==> e.vertices[|d.vertices| + k] == RenderVertexOf(s.vertices[k]))
      && |e.triangles| == |d.triangles| + |s.triangles|
      && (forall k :: 0 <= k < |s.triangles| ==>
            var t := e.triangles[|d.triangles| + k];
            t.v0 == s.triangles[k].i0 + |d.vertices| && t.v1 == s.triangles[k].i1 + |d.vertices|
              && t.v2 == s.triangles[k].i2 + |d.vertices| && t.material == i)
  {
    var verts := d.vertices + RenderVertices(s.vertices);
    BuildTrianglesSpec(verts, s.triangles, |d.vertices|, i, geo.faceNormal);
  }

  /** A collision surface only appends: `collisionmesh<i>`, its converted vertices, and triangles rebased onto them. */
  lemma AddCollisionSurfaceAppends(d: ImportData, i: nat, c: RawCollisionSurface, geo: Geometry)
    requires CollisionSurfaceFits(d, c)
    ensures var e := AddCollisionSurface(d, i, c, geo);
      && Extends(d, e)
      && e.materials == d.materials + [Material(CollisionMesh(i), [])]
      && |e.vertices| == |d.vertices| + |c.points|
      && (forall k :: 0 <= k < |c.points| ==> e.vertices[|d.vertices| + k] == CollisionVertexOf(c.points[k]))
      && |e.triangles| == |d.triangles| + |c.triangles|
      && (forall k :: 0 <= k < |c.triangles| ==>
            var t := e.triangles[|d.triangles| + k];
            t.v0 == c.triangles[k].i0 + |d.vertices| && t.v1 == c.triangles[k].i1 + |d.vertices|
              && t.v2 == c.triangles[k].i2 + |d.vertices| && t.material == |d.materials|)
  {
    var verts := d.vertices + CollisionVertices(c.points);
    BuildTrianglesSpec(verts, c.triangles, |d.vertices|, |d.materials|, geo.collisionNormal);
  }

  /** A renderable surface whose index is the number of materials already present keeps the data valid. */
  lemma AddSurfaceSound(d: ImportData, i: nat, s: RawSurface, textures: seq<string>, geo: Geometry)
    requires SurfaceFits(d, s) && Valid(d) && i == |d.materials|
    ensures Valid(AddSurface(d, i, s, textures, geo))
  {
    MakeBlockSound(d.vertices, RenderVertices(s.vertices), s.triangles, i, geo.faceNormal);
    AppendSound(d, Material(DrawnMesh(i), textures),
                MakeBlock(d.vertices, RenderVertices(s.vertices), s.triangles, i, geo.faceNormal));
  }

  /** A collision surface keeps the data valid. */
  lemma AddCollisionSurfaceSound(d: ImportData, i: nat, c: RawCollisionSurface, geo: Geometry)
    requires CollisionSurfaceFits(d, c) && Valid(d)
    ensures Valid(AddCollisionSurface(d, i, c, geo))
  {
    MakeBlockSound(d.vertices, CollisionVertices(c.points), c.triangles, |d.materials|, geo.collisionNormal);
    AppendSound(d, Material(CollisionMesh(i), []),
                MakeBlock(d.vertices, CollisionVertices(c.points), c.triangles, |d.materials|, geo.collisionNormal));
  }

  // ---------------------------------------------------------------- a whole file

  /** Renderable surfaces `i`, `i + 1`, .. appended in order, surface k with textures `texs[k]`. */
  function AddSurfaces(d: ImportData, i: nat, ss: seq<RawSurface>, texs: seq<seq<string>>, geo: Geometry): (e: ImportData)
    requires SurfacesFit(ss, |d.vertices|) && |texs| == |ss|
    ensures |e.vertices| == |d.vertices| + VertexTotal(ss) && |e.materials| == |d.materials| + |ss|
    decreases |ss|
  {
    if |ss| == 0 then d else AddSurfaces(AddSurface(d, i, ss[0], texs[0], geo), i + 1, ss[1..], texs[1..], geo)
  }

  /** Collision surfaces `i`, `i + 1`, .. appended in order. */
  function AddCollisionSurfaces(d: ImportData, i: nat, cs: seq<RawCollisionSurface>, geo: Geometry): (e: ImportData)
    requires CollisionSurfacesFit(cs, |d.vertices|)
    ensures |e.vertices| == |d.vertices| + PointTotal(cs) && |e.materials| == |d.materials| + |cs|
    decreases |cs|
  {
    if |cs| == 0 then d else AddCollisionSurfaces(AddCollisionSurface(d, i, cs[0], geo), i + 1, cs[1..], geo)
  }

  /** The renderable part of a file is its surfaces appended to fresh data. */
  function RenderPart(f: RawFile, geo: Geometry): (d: ImportData)
    requires Fits(f)
    ensures |d.vertices| == VertexTotal(f.surfaces) && |d.materials| == |f.surfaces|
  {
    AddSurfaces(Fresh, 0, f.surfaces, TexturesOf(f.surfaces), geo)
  }

  /** The import data a file's records describe: its renderable, then its collision surfaces, appended to fresh data. */
  function Interpret(f: RawFile, geo: Geometry): (d: ImportData)
    requires Fits(f)
    ensures |d.vertices| == VertexTotal(f.surfaces) + PointTotal(f.collision)
    ensures |d.materials| == |f.surfaces| + |f.collision|
  {
    AddCollisionSurfaces(RenderPart(f, geo), 0, f.collision, geo)
  }

  /** Surfaces `i`.. append one material each, `drawnmesh<i + k>` with textures `texs[k]` for the k-th. */
  lemma {:induction false} AddSurfacesAppend(d: ImportData, i: nat, ss: seq<RawSurface>, texs: seq<seq<string>>, geo: Geometry)
    requires SurfacesFit(ss, |d.vertices|) && |texs| == |ss|
    ensures var e := AddSurfaces(d, i, ss, texs, geo);
      && Extends(d, e)
      && |e.materials| == |d.materials| + |ss|
      && forall k :: |d.materials| <= k < |e.materials| ==>
           e.materials[k] == Material(DrawnMesh(i + (k - |d.materials|)), texs[k - |d.materials|])
    decreases |ss|
  {
    if |ss| > 0 {
      var d' := AddSurface(d, i, ss[0], texs[0], geo);
      AddSurfaceAppends(d, i, ss[0], texs[0], geo);
      AddSurfacesAppend(d', i + 1, ss[1..], texs[1..], geo);
      var e := AddSurfaces(d', i + 1, ss[1..], texs[1..], geo);
      assert d'.materials <= e.materials;
      forall k | |d.materials| <= k < |e.materials|
        ensures e.materials[k] == Material(DrawnMesh(i + (k - |d.materials|)), texs[k - |d.materials|])
      {
        if k == |d.materials| {
          assert e.materials[k] == d'.materials[k];
        } else {
          assert texs[1..][k - |d'.materials|] == texs[k - |d.materials|];
          assert i + (k - |d.materials|) == i + 1 + (k - |d'.materials|);
        }
      }
    }
  }

  /** Collision surfaces `i`.. append one texture-less material each, `collisionmesh<i + k>` for the k-th. */
  lemma {:induction false} AddCollisionSurfacesAppend(d: ImportData, i: nat, cs: seq<RawCollisionSurface>, geo: Geometry)
    requires CollisionSurfacesFit(cs, |d.vertices|)
    ensures var e := AddCollisionSurfaces(d, i, cs, geo);
      && Extends(d, e)
      && |e.materials| == |d.materials| + |cs|
      && forall k :: |d.materials| <= k < |e.materials| ==> e.materials[k] == Material(CollisionMesh(i + (k - |d.materials|)), [])
    decreases |cs|
  {
    if |cs| > 0 {
      var d' := AddCollisionSurface(d, i, cs[0], geo);
      AddCollisionSurfaceAppends(d, i, cs[0], geo);
      AddCollisionSurfacesAppend(d', i + 1, cs[1..], geo);
      var e := AddCollisionSurfaces(d', i + 1, cs[1..], geo);
      assert d'.materials <= e.materials;
      forall k | |d.materials| <= k < |e.materials|
        ensures e.materials[k] == Material(CollisionMesh(i + (k - |d.materials|)), [])
      {
        if k == |d.materials| {
          assert e.materials[k] == d'.materials[k];
        } else {
          assert i + (k - |d.materials|) == i + 1 + (k - |d'.materials|);
        }
      }
    }
  }

  /** Renderable surfaces appended to valid data whose materials are those of the surfaces before them keep it valid. */
  lemma {:induction false} AddSurfacesSound(d: ImportData, i: nat, ss: seq<RawSurface>, texs: seq<seq<string>>, geo: Geometry)
    requires SurfacesFit(ss, |d.vertices|) && |texs| == |ss| && Valid(d) && i == |d.materials|
    ensures Valid(AddSurfaces(d, i, ss, texs, geo))
    decreases |ss|
  {
    if |ss| > 0 {
      AddSurfaceSound(d, i, ss[0], texs[0], geo);
      AddSurfacesSound(AddSurface(d, i, ss[0], texs[0], geo), i + 1, ss[1..], texs[1..], geo);
    }
  }

  lemma {:induction false} AddCollisionSurfacesSound(d: ImportData, i: nat, cs: seq<RawCollisionSurface>, geo: Geometry)
    requires CollisionSurfacesFit(cs, |d.vertices|) && Valid(d)
    ensures Valid(AddCollisionSurfaces(d, i, cs, geo))
    decreases |cs|
  {
    if |cs| > 0 {
      AddCollisionSurfaceSound(d, i, cs[0], geo);
      AddCollisionSurfacesSound(AddCollisionSurface(d, i, cs[0], geo), i + 1, cs[1..], geo);
    }
  }

  /** A file whose triangles fit builds well-formed import data with every normal up. */
  lemma InterpretValid(f: RawFile, geo: Geometry)
    requires Fits(f)
    ensures Valid(Interpret(f, geo))
  {
    AddSurfacesSound(Fresh, 0, f.surfaces, TexturesOf(f.surfaces), geo);
    AddCollisionSurfacesSound(RenderPart(f, geo), 0, f.collision, geo);
  }

  /** Renderable surface k gives material k, `drawnmesh<k>` with its kept textures. */
  lemma RenderPartMaterials(f: RawFile, geo: Geometry)
    requires Fits(f)
    ensures var d := RenderPart(f, geo);
      && |d.materials| == |f.surfaces|
      && forall k :: 0 <= k < |d.materials| ==> d.materials[k] == SurfaceMaterial(k, f.surfaces[k])
  {
    var texs := TexturesOf(f.surfaces);
    AddSurfacesAppend(Fresh, 0, f.surfaces, texs, geo);
    var d := RenderPart(f, geo);
    forall k | 0 <= k < |d.materials|
      ensures d.materials[k] == SurfaceMaterial(k, f.surfaces[k])
    {
      assert d.materials[k] == Material(DrawnMesh(0 + (k - 0)), texs[k - 0]);
    }
  }

  /** The collision surfaces add one material each after the renderable ones, which they leave in place. */
  lemma InterpretCollisionCount(f: RawFile, geo: Geometry)
    requires Fits(f)
    ensures var r, d := RenderPart(f, geo), Interpret(f, geo);
      r.materials <= d.materials && |d.materials| == |r.materials| + |f.collision|
  {
    AddCollisionSurfacesAppend(RenderPart(f, geo), 0, f.collision, geo);
  }

  /** The collision materials are `collisionmesh0`, `collisionmesh1`, .. in order, with no textures. */
  lemma InterpretCollisionNames(f: RawFile, geo: Geometry)
    requires Fits(f)
    ensures var r, d := RenderPart(f, geo), Interpret(f, geo);
      forall k :: |r.materials| <= k < |d.materials| ==> d.materials[k] == Material(CollisionMesh(k - |r.materials|), [])
  {
    AddCollisionSurfacesAppend(RenderPart(f, geo), 0, f.collision, geo);
  }

  /**
    One material per surface, in stream order: renderable surface k gives
    `SurfaceMaterial(k, ..)`, then collision surface k gives the texture-less
    `collisionmesh<k>`.
   */
  lemma InterpretMaterials(f: RawFile, geo: Geometry)
    requires Fits(f)
    ensures var d, n := Interpret(f, geo), |f.surfaces|;
      && |d.materials| == n + |f.collision|
      && (forall k :: 0 <= k < n ==> d.materials[k] == SurfaceMaterial(k, f.surfaces[k]))
      && (forall k :: n <= k < |d.materials| ==> d.materials[k] == Material(CollisionMesh(k - n), []))
  {
    RenderPartMaterials(f, geo);
    InterpretCollisionCount(f, geo);
    InterpretCollisionNames(f, geo);
    var r, d := RenderPart(f, geo), Interpret(f, geo);
    forall k | 0 <= k < |f.surfaces|
      ensures d.materials[k] == SurfaceMaterial(k, f.surfaces[k])
    {
      assert d.materials[k] == r.materials[k];
    }
  }

  /** Only the names: `drawnmesh<k>` for the renderable surfaces, then texture-less `collisionmesh<k>`. */
  lemma InterpretNames(f: RawFile, geo: Geometry)
    requires Fits(f)
    ensures var d := Interpret(f, geo);
      |d.materials| == |f.surfaces| + |f.collision| && NamedBySurface(d.materials, |f.surfaces|)
  {
    InterpretMaterials(f, geo);
  }
}
