/**
  The import factory: which files it accepts, the decode it runs (collision
  data ignored), and the mesh it builds from the decoded data: vertex
  positions, one set of texture parameters per material, and one polygon per
  triangle that names existing vertices.
 */
module Factory {
  import opened Results
  import opened Bytes
  import opened Text
  import opened MeshData
  import opened Format
  import opened Surfaces
  import opened Decoder
  import opened Builder
  import opened RoundTrip

  /** The factory reads the collision block of no file. */
  const IgnoreCollision: bool := true

  // ---------------------------------------------------------------- file filter

  /** A file is offered to the importer when its extension is `rmesh`, in any letter case. */
  predicate CanImport(filename: string) {
    EqualsIgnoreCase(Extension(filename), "rmesh")
  }

  /** A character that lower-cases to a letter of "rmesh" is not a dot. */
  lemma LowerRmeshNoDot(e: string)
    requires Lower(e) == "rmesh"
    ensures |e| == 5 && forall j :: 0 <= j < |e| ==> !IsDot(e[j])
  {
    forall j | 0 <= j < |e|
      ensures !IsDot(e[j])
    {
      assert LowerChar(e[j]) == "rmesh"[j];
    }
  }

  /**
    The file name (directories dropped) ends in a dot followed by five
    characters that spell `rmesh` ignoring case, and in nothing else.
   */
  lemma CanImportSpec(filename: string)
    ensures var clean := CleanFilename(filename);
      CanImport(filename) <==>
        |clean| >= 6 && IsDot(clean[|clean| - 6]) && EqualsIgnoreCase(clean[|clean| - 5..], "rmesh")
  {
    var clean := CleanFilename(filename);
    var ext := Extension(filename);
    ExtensionSpec(filename);
    if CanImport(filename) {
      LowerRmeshNoDot(ext);
    }
    if |clean| >= 6 && IsDot(clean[|clean| - 6]) && EqualsIgnoreCase(clean[|clean| - 5..], "rmesh") {
      var tail := clean[|clean| - 5..];
      LowerRmeshNoDot(tail);
      LastIndexSpec(clean, IsDot);
      var dot := LastIndex(clean, IsDot);
      assert dot == |clean| - 6 by {
        assert forall j :: |clean| - 5 <= j < |clean| ==> clean[j] == tail[j - (|clean| - 5)];
      }
      assert ext == tail;
    }
  }

  /** A path's extension decides, whatever its letter case and its directories. */
  lemma CanImportMixedCase()
    ensures CanImport("Maps/room2.RMesh")
  {
    var path := "Maps/room2.RMesh";
    LastIndexAt(path, IsSeparator, 4);
    var clean := CleanFilename(path);
    assert clean == path[5..];
    CanImportSpec(path);
    assert clean[6..] == path[11..];
    assert Lower(path[11..]) == "rmesh";
  }

  /** A further extension after `.rmesh` is refused. */
  lemma CannotImportBackup()
    ensures !CanImport("maps/room2.rmesh.bak")
  {
    var path := "maps/room2.rmesh.bak";
    LastIndexAt(path, IsSeparator, 4);
    CanImportSpec(path);
    assert !IsDot(path[14]);
  }

  /** A name with no dot has no extension. */
  lemma CannotImportBareName()
    ensures !CanImport("rmesh")
  {
    CanImportSpec("rmesh");
  }

  /** A dot in a directory name gives the file no extension. */
  lemma CannotImportDirectoryExtension()
    ensures !CanImport("maps.rmesh/room2")
  {
    var path := "maps.rmesh/room2";
    LastIndexAt(path, IsSeparator, 10);
    CanImportSpec(path);
  }

  // ---------------------------------------------------------------- import

  /**
    The factory's decode of a file's bytes. It reads the header and the
    renderable surfaces and nothing after them, so every material it
    produces belongs to a renderable surface.
   */
  function Import(b: seq<byte>, geo: Geometry): (r: Parse<ImportData>)
    ensures r.Success? ==> ReadFile(b, IgnoreCollision).Success?
    ensures r.Success? ==> forall k :: 0 <= k < |r.value.value.materials| ==> r.value.value.materials[k].name.DrawnMesh?
  {
    var r := Decode(b, IgnoreCollision, geo);
    if r.Success? then DecodeMaterials(b, IgnoreCollision, geo); r else r
  }

  /** What an import produces is well formed, whatever the bytes. */
  lemma ImportValid(b: seq<byte>, geo: Geometry)
    requires Import(b, geo).Success?
    ensures Valid(Import(b, geo).value.value)
  {
    DecodeValid(b, IgnoreCollision, geo);
  }

  /**
    Importing the writer's header and renderable surfaces gives their
    interpretation whatever bytes follow them: the collision block, valid or
    not, is never looked at.
   */
  lemma ImportIgnoresCollisionBlock(f: RawFile, tail: seq<byte>, geo: Geometry)
    requires Encodable(f) && IsKnownHeader(AnsiString(f.header)) && SurfacesFit(f.surfaces, 0)
    ensures Import(EncodeRender(f) + tail, geo) == Success(Read(Interpret(f.(collision := []), geo), |EncodeRender(f)|))
  {
    var b := EncodeRender(f) + tail;
    AtWhole(b);
    AtConcat(b, 0, EncodeRender(f), tail);
    DecodeRenderEncoded(b, f, geo);
  }

  /** An import of a whole written file gives its renderable surfaces' interpretation. */
  lemma ImportOfEncode(f: RawFile, geo: Geometry)
    requires Encodable(f) && IsKnownHeader(AnsiString(f.header)) && SurfacesFit(f.surfaces, 0)
    ensures Import(Encode(f), geo) == Success(Read(Interpret(f.(collision := []), geo), |EncodeRender(f)|))
  {
    ImportIgnoresCollisionBlock(f, EncodeCollision(f), geo);
  }

  // ---------------------------------------------------------------- mesh

  /** The texture parameters a material's texture list yields; the reference the texture loop is held to. */
  function ParamsFor(textures: seq<string>, found: string -> bool): TextureParams {
    var normal := RoleTexture(textures, 1, found);
    TextureParams(RoleTexture(textures, 0, found), normal, normal.Some?)
  }

  /**
    A renderable surface's roles: with slot 0 recording nothing (no path, or
    a lightmap) slot 1's texture becomes the base colour and there is no
    normal map; otherwise slot 0 gives the base colour and slot 1 the normal map.
   */
  lemma SurfaceRoles(s: RawSurface, found: string -> bool)
    ensures var p, t0, t1 := ParamsFor(SurfaceTextures(s), found), SlotTextures(s.slot0), SlotTextures(s.slot1);
      && (t0 == [] ==> p == TextureParams(RoleTexture(t1, 0, found), None, false))
      && (t0 != [] ==> p == TextureParams(RoleTexture(t0, 0, found), RoleTexture(t1, 0, found), RoleTexture(t1, 0, found).Some?))
  {
    var t0, t1 := SlotTextures(s.slot0), SlotTextures(s.slot1);
    assert SurfaceTextures(s) == t0 + t1;
    assert |t0| <= 1 && |t1| <= 1;
  }

  /** The engine-free content of a built static mesh. */
  datatype Mesh = Mesh(positions: seq<Vec3>, materials: seq<TextureParams>, polygons: seq<Polygon>)

  /** A mesh whose description was never filled: no vertex, material or polygon. */
  const EmptyMesh: Mesh := Mesh([], [], [])

  /**
    The mesh-building step. Without the parent material nothing is built;
    otherwise every vertex position is kept, every material gets the
    parameters of its texture list, and every triangle that names existing
    vertices becomes a polygon.
   */
  method ProcessImportData(d: ImportData, parentFound: bool, found: string -> bool) returns (m: Mesh, kept: seq<nat>)
    requires Buildable(d)
    ensures !parentFound ==> m == EmptyMesh && kept == []
    ensures parentFound ==> |m.positions| == |d.vertices|
    ensures parentFound ==> forall i :: 0 <= i < |d.vertices| ==> m.positions[i] == d.vertices[i].position
    ensures parentFound ==> |m.materials| == |d.materials|
    ensures parentFound ==> forall i :: 0 <= i < |d.materials| ==> m.materials[i] == ParamsFor(d.materials[i].textures, found)
    ensures |m.polygons| == |kept|
    ensures forall k :: 0 <= k < |kept| ==>
      && kept[k] < |d.triangles|
      && !Skipped(d.triangles[kept[k]], |d.vertices|)
      && m.polygons[k] == PolygonOf(d.triangles[kept[k]])
      && PolygonFitsIn(m.polygons[k], |m.positions|, |m.materials|)
    ensures forall k, l :: 0 <= k < l < |kept| ==> kept[k] < kept[l]
    ensures parentFound ==> forall i :: 0 <= i < |d.triangles| && !Skipped(d.triangles[i], |d.vertices|) ==> i in kept
  {
    if !parentFound {
      return EmptyMesh, [];
    }
    var positions := seq(|d.vertices|, i requires 0 <= i < |d.vertices| => d.vertices[i].position);
    var materials := [];
    var i := 0;
    while i < |d.materials|
      invariant 0 <= i <= |d.materials|
      invariant |materials| == i
      invariant forall j :: 0 <= j < i ==> materials[j] == ParamsFor(d.materials[j].textures, found)
    {
      var p := AssignTextures(d.materials[i].textures, found);
      materials := materials + [p];
      i := i + 1;
    }
    var polys;
    polys, kept := BuildPolygons(d);
    m := Mesh(positions, materials, polys);
  }

  /**
    The whole factory: a file whose import fails yields no mesh; a file that
    imports yields, with the parent material present, one polygon per
    triangle in order, since a decode leaves no triangle to skip.
   */
  method CreateMesh(b: seq<byte>, geo: Geometry, parentFound: bool, found: string -> bool) returns (r: Result<Mesh, DecodeError>)
    ensures r.Failure? <==> Import(b, geo).Failure?
    ensures r.Failure? ==> r.error == Import(b, geo).error
    ensures r.Success? && !parentFound ==> r.value == EmptyMesh
    ensures r.Success? && parentFound ==>
      var d := Import(b, geo).value.value;
      && |r.value.positions| == |d.vertices|
      && |r.value.materials| == |d.materials|
      && |r.value.polygons| == |d.triangles|
      && forall k :: 0 <= k < |d.triangles| ==> r.value.polygons[k] == PolygonOf(d.triangles[k])
  {
    var imported := Import(b, geo);
    if imported.Failure? {
      return Failure(imported.error);
    }
    var d := imported.value.value;
    ImportValid(b, geo);
    WellFormedNothingSkipped(d);
    var m, kept := ProcessImportData(d, parentFound, found);
    if parentFound {
      IncreasingCover(kept, |d.triangles|);
    }
    r := Success(m);
  }
}
