/**
  The engine-free part of building a static mesh from import data: each
  triangle that names only existing vertices becomes one polygon in the
  polygon group of its material, wound (v0, v2, v1); a material's texture
  list gives its base colour (position 0) and its normal map (position 1).
 */
module Builder {
  import opened Results
  import opened Text
  import opened MeshData

  // ---------------------------------------------------------------- polygons

  /** A vertex instance: the vertex it instantiates, its UV and its normal. */
  datatype Corner = Corner(vertex: int, uv: Vec2, normal: Vec3)

  /** A polygon of the mesh description: a polygon group and three corners in winding order. */
  datatype Polygon = Polygon(group: int, c0: Corner, c1: Corner, c2: Corner)

  /**
    The polygon a kept triangle becomes: corners v0, v2, v1 with their UVs,
    every corner given the face normal. Building loses nothing: the triangle
    is recovered from the polygon, so distinct triangles give distinct polygons.
   */
  function PolygonOf(t: Triangle): (p: Polygon)
    ensures TriangleOf(p) == t
    ensures p.c0.normal == p.c1.normal == p.c2.normal == t.faceNormal
  {
    Polygon(t.material, Corner(t.v0, t.uv0, t.faceNormal), Corner(t.v2, t.uv2, t.faceNormal), Corner(t.v1, t.uv1, t.faceNormal))
  }

  /** The triangle a polygon was built from, read back from its corners. */
  function TriangleOf(p: Polygon): Triangle {
    Triangle(p.c0.vertex, p.c2.vertex, p.c1.vertex, p.group, p.c0.normal, p.c0.uv, p.c2.uv, p.c1.uv)
  }

  /** A triangle is skipped when one of its indices is not below the vertex count. */
  predicate Skipped(t: Triangle, vertexCount: int) {
    t.v0 >= vertexCount || t.v1 >= vertexCount || t.v2 >= vertexCount
  }

  /**
    What building needs of the triangles it does not skip: non-negative
    indices (they index the vertex list) and an existing material (it
    indexes the polygon groups). A skipped triangle needs nothing.
   */
  predicate Buildable(d: ImportData) {
    forall i :: 0 <= i < |d.triangles| && !Skipped(d.triangles[i], |d.vertices|) ==>
      TriangleFitsIn(d.triangles[i], |d.vertices|, |d.materials|)
  }

  /** The polygon's corners name existing vertices and its group an existing material. */
  predicate PolygonFitsIn(p: Polygon, vertexCount: int, groupCount: int) {
    InRange(p.group, groupCount) && InRange(p.c0.vertex, vertexCount)
      && InRange(p.c1.vertex, vertexCount) && InRange(p.c2.vertex, vertexCount)
  }

  /**
    The triangle loop: one polygon per triangle not skipped, in triangle
    order; `kept` gives the index of the triangle each polygon comes from.
   */
  method BuildPolygons(d: ImportData) returns (polys: seq<Polygon>, kept: seq<nat>)
    requires Buildable(d)
    ensures |polys| == |kept|
    ensures forall k :: 0 <= k < |kept| ==>
      && kept[k] < |d.triangles|
      && !Skipped(d.triangles[kept[k]], |d.vertices|)
      && polys[k] == PolygonOf(d.triangles[kept[k]])
      && PolygonFitsIn(polys[k], |d.vertices|, |d.materials|)
    ensures forall k, l :: 0 <= k < l < |kept| ==> kept[k] < kept[l]
    ensures forall i :: 0 <= i < |d.triangles| && !Skipped(d.triangles[i], |d.vertices|) ==> i in kept
  {
    polys, kept := [], [];
    var i := 0;
    while i < |d.triangles|
      invariant 0 <= i <= |d.triangles|
      invariant |polys| == |kept|
      invariant forall k :: 0 <= k < |kept| ==>
        && kept[k] < i
        && !Skipped(d.triangles[kept[k]], |d.vertices|)
        && polys[k] == PolygonOf(d.triangles[kept[k]])
        && PolygonFitsIn(polys[k], |d.vertices|, |d.materials|)
      invariant forall k, l :: 0 <= k < l < |kept| ==> kept[k] < kept[l]
      invariant forall j :: 0 <= j < i && !Skipped(d.triangles[j], |d.vertices|) ==> j in kept
    {
      var t := d.triangles[i];
      if !Skipped(t, |d.vertices|) {
        polys := polys + [PolygonOf(t)];
        kept := kept + [i];
      }
      i := i + 1;
    }
  }

  /** Well-formed data is buildable and nothing in it is skipped. */
  lemma WellFormedNothingSkipped(d: ImportData)
    requires WellFormed(d)
    ensures Buildable(d)
    ensures forall i :: 0 <= i < |d.triangles| ==> !Skipped(d.triangles[i], |d.vertices|)
  {
  }

  /** Strictly increasing indices below `n` are at least their position, so there are at most `n` of them. */
  lemma {:induction false} IncreasingBelow(kept: seq<nat>, n: nat)
    requires forall k :: 0 <= k < |kept| ==> kept[k] < n
    requires forall k, l :: 0 <= k < l < |kept| ==> kept[k] < kept[l]
    ensures forall k :: 0 <= k < |kept| ==> k <= kept[k]
    ensures |kept| <= n
    decreases |kept|
  {
    if |kept| > 0 {
      var front := kept[..|kept| - 1];
      IncreasingBelow(front, n);
      forall k | 0 <= k < |kept|
        ensures k <= kept[k]
      {
        if k < |kept| - 1 {
          assert front[k] == kept[k];
        } else if k > 0 {
          assert front[k - 1] == kept[k - 1] < kept[k];
        }
      }
      assert |kept| - 1 <= kept[|kept| - 1] < n;
    }
  }

  /** Strictly increasing indices below `n` that include every index below `n` are exactly 0, 1, .., n - 1. */
  lemma {:induction false} IncreasingCover(kept: seq<nat>, n: nat)
    requires forall k :: 0 <= k < |kept| ==> kept[k] < n
    requires forall k, l :: 0 <= k < l < |kept| ==> kept[k] < kept[l]
    requires forall i :: 0 <= i < n ==> i in kept
    ensures |kept| == n && forall k :: 0 <= k < n ==> kept[k] == k
    decreases n
  {
    if n > 0 {
      assert n - 1 in kept;
      var last :| 0 <= last < |kept| && kept[last] == n - 1;
      assert kept[|kept| - 1] < n;
      assert forall k :: 0 <= k < |kept| - 1 ==> kept[k] < kept[|kept| - 1];
      assert last == |kept| - 1;
      var front := kept[..|kept| - 1];
      forall i | 0 <= i < n - 1
        ensures i in front
      {
        assert i in kept;
        var k :| 0 <= k < |kept| && kept[k] == i;
        assert k != |kept| - 1;
        assert front[k] == i;
      }
      IncreasingCover(front, n - 1);
      assert |kept| == n;
      forall k | 0 <= k < n
        ensures kept[k] == k
      {
        if k < n - 1 {
          assert kept[k] == front[k];
        }
      }
    } else {
      IncreasingBelow(kept, n);
    }
  }

  // ---------------------------------------------------------------- textures

  /** The material parameters a texture list sets; `useNormal` is the scalar `UseNormal` set to 1. */
  datatype TextureParams = TextureParams(baseColor: Option<string>, normal: Option<string>, useNormal: bool)

  /** A fresh material instance sets no parameter. */
  const NoParams: TextureParams := TextureParams(None, None, false)

  /**
    The texture asset for list position `j`: the base file name of a
    non-empty path, when the asset store has a texture of that name. It is
    the reference the texture loop below is proved against.
   */
  function RoleTexture(textures: seq<string>, j: nat, found: string -> bool): (r: Option<string>)
  {
    if j < |textures| && textures[j] != "" && found(BaseFilename(textures[j])) then Some(BaseFilename(textures[j])) else None
  }

  /**
    The texture loop of material creation: list position 0 becomes the base
    colour, position 1 the normal map together with `UseNormal`; empty paths
    and textures the store lacks are passed over, and later positions are ignored.
   */
  method AssignTextures(textures: seq<string>, found: string -> bool) returns (p: TextureParams)
    ensures p.baseColor == RoleTexture(textures, 0, found)
    ensures p.normal == RoleTexture(textures, 1, found)
    ensures p.useNormal <==> p.normal.Some?
  {
    p := NoParams;
    var j := 0;
    while j < |textures|
      invariant 0 <= j <= |textures|
      invariant p.baseColor == if j > 0 then RoleTexture(textures, 0, found) else None
      invariant p.normal == if j > 1 then RoleTexture(textures, 1, found) else None
      invariant p.useNormal <==> p.normal.Some?
    {
      var path := textures[j];
      if path != "" {
        var name := BaseFilename(path);
        if found(name) {
          if j == 0 {
            p := p.(baseColor := Some(name));
          } else if j == 1 {
            p := p.(useNormal := true, normal := Some(name));
          }
        }
      }
      j := j + 1;
    }
  }
}
