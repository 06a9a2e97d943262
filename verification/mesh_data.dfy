/**
  The importer's intermediate mesh: vertices, triangles and materials as the
  decoder appends them, with the default values of their constructors.
 */
module MeshData {
  import opened Bytes
  import opened Text

  datatype Vec3 = Vec3(x: F32, y: F32, z: F32)
  datatype Vec2 = Vec2(u: F32, v: F32)
  datatype Color = Color(r: byte, g: byte, b: byte, a: byte)

  const ZeroVector: Vec3 := Vec3(Zero, Zero, Zero)
  const UpVector: Vec3 := Vec3(Zero, Zero, One)
  const ZeroUV: Vec2 := Vec2(Zero, Zero)
  const White: Color := Color(0xFF, 0xFF, 0xFF, 0xFF)

  datatype Vertex = Vertex(position: Vec3, uv: Vec2, normal: Vec3, color: Color)

  /** A default-constructed vertex: origin, zero UV, up-vector normal, opaque white. */
  const DefaultVertex: Vertex := Vertex(ZeroVector, ZeroUV, UpVector, White)

  /**
    A triangle: three indices into the vertex list, an index into the material
    list, a face normal and the UVs of its three corners.
   */
  datatype Triangle = Triangle(v0: int, v1: int, v2: int, material: int, faceNormal: Vec3, uv0: Vec2, uv1: Vec2, uv2: Vec2)

  /**
    A material's synthesised name, kept as the surface it was made for;
    `Text` gives the string the engine sees.
   */
  datatype MaterialName = DrawnMesh(index: nat) | CollisionMesh(index: nat)

  /** A material: a synthesised name and at most two texture paths; a default-constructed one has no textures. */
  datatype Material = Material(name: MaterialName, textures: seq<string>)

  /** The whole intermediate mesh. All three lists only ever grow while decoding. */
  datatype ImportData = ImportData(vertices: seq<Vertex>, triangles: seq<Triangle>, materials: seq<Material>)

  /** Freshly created import data: every list empty. */
  const Fresh: ImportData := ImportData([], [], [])

  /** The face-normal computation, left abstract: it is floating-point arithmetic on three corner positions. */
  type NormalFn = (Vec3, Vec3, Vec3) -> Vec3

  /** Renderable vertex positions are stored as (-X, Z, Y). */
  function RenderPosition(x: F32, y: F32, z: F32): Vec3 {
    Vec3(Neg(x), z, y)
  }

  /** Collision vertex positions are stored as (X, Y, -Z). */
  function CollisionPosition(x: F32, y: F32, z: F32): Vec3 {
    Vec3(x, y, Neg(z))
  }

  /** A renderable vertex: a default vertex given position, UV and an opaque RGB colour. */
  function RenderVertex(x: F32, y: F32, z: F32, u: F32, v: F32, r: byte, g: byte, b: byte): Vertex {
    DefaultVertex.(position := RenderPosition(x, y, z), uv := Vec2(u, v), color := Color(r, g, b, 0xFF))
  }

  /** A collision vertex: a default vertex given a position; UV zero, colour white. */
  function CollisionVertex(x: F32, y: F32, z: F32): Vertex {
    DefaultVertex.(position := CollisionPosition(x, y, z), uv := ZeroUV, color := White)
  }

  predicate InRange(i: int, n: int) {
    0 <= i < n
  }

  /**
    A triangle over already-decoded vertices: its face normal is a function of
    the three corner positions and its corner UVs are copies of the vertices' UVs.
   */
  function MakeTriangle(verts: seq<Vertex>, v0: int, v1: int, v2: int, material: int, normal: NormalFn): (t: Triangle)
    requires InRange(v0, |verts|) && InRange(v1, |verts|) && InRange(v2, |verts|)
  {
    Triangle(v0, v1, v2, material, normal(verts[v0].position, verts[v1].position, verts[v2].position),
             verts[v0].uv, verts[v1].uv, verts[v2].uv)
  }

  /** A triangle built from `verts` reads only the vertices it names, so a longer vertex list builds the same triangle. */
  lemma MakeTriangleExtends(verts: seq<Vertex>, more: seq<Vertex>, v0: int, v1: int, v2: int, material: int, normal: NormalFn)
    requires InRange(v0, |verts|) && InRange(v1, |verts|) && InRange(v2, |verts|)
    ensures MakeTriangle(verts + more, v0, v1, v2, material, normal) == MakeTriangle(verts, v0, v1, v2, material, normal)
  {
  }

  /** The triangle names one of `vertexCount` vertices and one of `materialCount` materials. */
  predicate TriangleFitsIn(t: Triangle, vertexCount: nat, materialCount: nat) {
    InRange(t.v0, vertexCount) && InRange(t.v1, vertexCount) && InRange(t.v2, vertexCount) && InRange(t.material, materialCount)
  }

  /** Every triangle names existing vertices and an existing material. */
  predicate WellFormed(d: ImportData) {
    forall k :: 0 <= k < |d.triangles| ==> TriangleFitsIn(d.triangles[k], |d.vertices|, |d.materials|)
  }

  /** Every vertex still carries the default up-vector normal. */
  predicate NormalsUp(d: ImportData) {
    forall k :: 0 <= k < |d.vertices| ==> d.vertices[k].normal == UpVector
  }

  /** The invariant every decoding step keeps. */
  predicate Valid(d: ImportData) {
    WellFormed(d) && NormalsUp(d)
  }

  /** `e` is `d` with zero or more entries appended to each list. */
  predicate Extends(d: ImportData, e: ImportData) {
    d.vertices <= e.vertices && d.triangles <= e.triangles && d.materials <= e.materials
  }

  /** `drawnmesh<i>` for renderable surface i, `collisionmesh<i>` for collision surface i. */
  function NameText(m: MaterialName): string {
    match m
    case DrawnMesh(i) => "drawnmesh" + Decimal(i)
    case CollisionMesh(i) => "collisionmesh" + Decimal(i)
  }

  /**
    The material names of a file with `n` renderable surfaces: `drawnmesh<k>`
    for the first `n`, then texture-less `collisionmesh<k>` numbered from 0.
   */
  predicate NamedBySurface(ms: seq<Material>, n: nat) {
    && n <= |ms|
    && (forall k :: 0 <= k < n ==> ms[k].name == DrawnMesh(k))
    && (forall k :: n <= k < |ms| ==> ms[k].name == CollisionMesh(k - n) && ms[k].textures == [])
  }

  /** No two surfaces share a material name: the text determines the name. */
  lemma NameTextInjective(m: MaterialName, m': MaterialName)
    ensures NameText(m) == NameText(m') <==> m == m'
  {
    DecimalInjective(m.index, m'.index);
    if m.DrawnMesh? && m'.DrawnMesh? {
      assert NameText(m)[9..] == Decimal(m.index) && NameText(m')[9..] == Decimal(m'.index);
    } else if m.CollisionMesh? && m'.CollisionMesh? {
      assert NameText(m)[13..] == Decimal(m.index) && NameText(m')[13..] == Decimal(m'.index);
    } else {
      assert NameText(m)[0] != NameText(m')[0];
    }
  }
}
