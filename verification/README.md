# RMesh importer: a Dafny model

This project models the core of an Unreal Engine editor plugin that imports
RMesh room meshes as static meshes. The model has three parts:

- **The decoder** (`URMeshImporterFactory::ImportRMesh`). It reads a
  little-endian byte stream in this order:
  - a length-prefixed header, which must be `RoomMesh` or
    `RoomMesh.HasTriggerBox`;
  - a count of renderable surfaces;
  - for each renderable surface, two texture slots, its vertices and its
    triangles;
  - optionally, a block of collision surfaces.

  It appends everything to the intermediate import data: vertices, triangles
  and materials.
- **The engine-free part of `ProcessImportData`.**
  - Each triangle whose indices name existing vertices becomes one polygon.
    The polygon's corners are wound `(v0, v2, v1)`.
  - Position 0 of a material's texture list becomes its base colour.
    Position 1 becomes its normal map, and also sets `UseNormal`.
- **The factory.**
  - `FactoryCanImport` tests the file extension.
  - `IgnoreCollision` is `true`, so the collision block is never read.
  - `FactoryCreateFile` runs the import and then builds the mesh.

The model is split into these modules:

| module | file | contents |
|---|---|---|
| `Results` | `results.dfy` | `Option` and `Result` |
| `Bytes` | `bytes.dfy` | bytes, little-endian `int32`, opaque 4-byte floats with sign-flip negation, and `At` ("these bytes appear at this offset") |
| `Text` | `text.dfy` | the ANSI conversion of stored strings, ASCII case folding, C-text comparison, the engine's path helpers (`GetCleanFilename`, `GetBaseFilename`, `GetExtension`), and `%d` formatting |
| `MeshData` | `mesh_data.dfy` | the intermediate datatypes of `RMeshImportData.h` and their defaults |
| `Format` | `format.dfy` | the file's records as stored, plus a writer (`Encode`) that is the decoder's inverse |
| `Surfaces` | `surfaces.dfy` | what one surface appends to the import data, and `Interpret`, the meaning of a whole file |
| `Decoder` | `decoder.dfy` | the reader (`ReadFile`) and the import (`Decode`) |
| `RoundTrip` | `roundtrip.dfy` | decoding what the writer wrote gives back the records and their interpretation |
| `Written` | `written.dfy` | the converse: what the reader accepts is laid out as the writer writes it |
| `Builder` | `builder.dfy` | the triangle loop and the texture-role loop |
| `Factory` | `factory.dfy` | the extension filter, the import with collision data ignored, and the whole create-file pipeline |

## Modelling decisions

- **The engine's reader reports no failure**, so the model reports each one
  explicitly as a `Decoder.DecodeError`.
  - The source reads on past the end of a truncated stream; the model stops
    with `Truncated`.
  - The source passes a negative string length to `SetNum`; the model stops
    with `NegativeLength`.
  - The source indexes the vertex list (`ImportData->Vertices[..]`) with a
    triangle's rebased index; TArray's range check asserts in editor builds
    when that index names no vertex decoded so far. The model stops with
    `IndexOutOfRange` instead.
  - Negative vertex, triangle or surface counts run their loops zero times,
    as the C++ `for` loops do.
- **FString comparison ignores case.** The header test and the lightmap
  filter (`Contains("_lm1")` and the rest) use FString comparisons, and
  those ignore ASCII case by default. The model follows the code: a header
  spelled `roommesh` is accepted.
- **Stored strings are converted as ANSI text.** The header and each texture
  path go through `FString(len, ANSICHAR*)`. `Text.AnsiString` models that
  conversion: a string whose first byte is zero converts to the empty string;
  otherwise every byte becomes one character, 7-bit ASCII as itself and any
  other byte as `?`. So a texture path that starts with a zero byte is empty
  and records nothing (`Surfaces.LeadingZeroPathSkipped`).
- **The header compares as C text.** The comparison with a `TEXT("..")`
  literal stops at the first zero character. So a stored header `RoomMesh`,
  a zero byte, then anything, is accepted; `Text.BeforeNul` gives the part
  that is compared.
- **Floats are opaque.** Each float is an opaque 4-byte value. The only
  arithmetic the decoder does on floats is negation, modelled as flipping
  the sign bit. `RoomScale` is fixed at 1.0, so positions are the stored
  components permuted and negated.
- **Face normals are parameters.** They come in as two functions of a
  triangle's three corner positions, one for renderable and one for
  collision triangles, collected in `Surfaces.Geometry`.
- **The asset store is a predicate.** `LoadObject` becomes the predicate
  `found` on a texture's base file name. Whether the parent material was
  found becomes the flag `parentFound`.
- **The writer is the decoder's partner.** `Format.Encode` writes a file's
  records. `RoundTrip.DecodeOfEncode` proves that decoding those bytes gives
  the records' interpretation and consumes every byte.

## Model

| member | source | states |
|---|---|---|
| `Bytes.Int32BytesOf` | Source/RMeshImporter/Private/RMeshImporterFactory.cpp:75-80 | a little-endian int32 field is re-encoded to its own four bytes |
| `Bytes.Int32AtEncoded` | Source/RMeshImporter/Private/RMeshImporterFactory.cpp:79-80 | reading four little-endian bytes written for an int32 gives that int32 back |
| `Bytes.NegInvolution` | Source/RMeshImporter/Private/RMeshImporterFactory.cpp:155 | negating a float twice gives it back, so the stored -X determines X |
| `Decoder.ReadBytes` | Source/RMeshImporter/Private/RMeshImporterFactory.cpp:82-84 | a byte string of length n is read exactly when n bytes remain; a negative length is an error, not an allocation |
| `Decoder.ReadString` | Source/RMeshImporter/Private/RMeshImporterFactory.cpp:112-119 | a length-prefixed string consumes 4 + length bytes, and a negative length is reported at its offset |
| `Decoder.ReadSlot` | Source/RMeshImporter/Private/RMeshImporterFactory.cpp:105-119 | a slot consumes 1 byte when its blend byte is 0; otherwise it also consumes a 4-byte length and that many path bytes |
| `Decoder.ReadVerticesSpec` | Source/RMeshImporter/Private/RMeshImporterFactory.cpp:146-175 | vertex k of a surface is the 31-byte record at offset pos + 31k |
| `Decoder.ReadPointsSpec` | Source/RMeshImporter/Private/RMeshImporterFactory.cpp:237-251 | collision vertex k is the 12-byte record at offset pos + 12k |
| `Decoder.ReadTrianglesSpec` | Source/RMeshImporter/Private/RMeshImporterFactory.cpp:181-187 | triangle k is the three int32 indices at offset pos + 12k |
| `Decoder.ReadFile` | Source/RMeshImporter/Private/RMeshImporterFactory.cpp:78-92 | a read succeeds only with one of the two headers, compared ignoring case and up to the first zero character; any other header fails with that header; with collision ignored no collision surface is read |
| `Decoder.ReadFileSurfaceCount` | Source/RMeshImporter/Private/RMeshImporterFactory.cpp:94-99 | a successful read holds exactly as many renderable surfaces as the count field says, a negative count meaning none |
| `Decoder.Decode` | Source/RMeshImporter/Private/RMeshImporterFactory.cpp:66-92 | the import succeeds exactly when the records read and every triangle index names a vertex decoded so far; otherwise it fails with the read error or `IndexOutOfRange` |
| `Decoder.DecodeValid` | Source/RMeshImporter/Private/RMeshImporterFactory.cpp:189-199 | after a successful import every triangle names existing vertices and an existing material, and every vertex keeps the up-vector normal |
| `Decoder.DecodeMaterials` | Source/RMeshImporter/Private/RMeshImporterFactory.cpp:99-102 | renderable surface k yields material `drawnmesh<k>`, one per declared surface in order; collision materials follow; with collision ignored there are no others |
| `Text.ContainsIgnoreCaseSpec` | Source/RMeshImporter/Private/RMeshImporterFactory.cpp:123-129 | the substring search succeeds exactly when the tag occurs at some offset, ignoring case |
| `Text.BaseFilenameSpec` | Source/RMeshImporter/Private/RMeshImporterFactory.cpp:122 | the base file name is the name with directories dropped, cut at its last dot |
| `Text.ExtensionSpec` | Source/RMeshImporter/Private/RMeshImporterFactory.cpp:63 | the extension is the dot-free text after the last dot of the file name, or empty |
| `Text.AnsiString` | Source/RMeshImporter/Private/RMeshImporterFactory.cpp:84 | a stored string converts to the empty text exactly when it is empty or starts with a zero byte; otherwise it keeps its length, and every character is 7-bit ASCII |
| `Text.AnsiStringAscii` | Source/RMeshImporter/Private/RMeshImporterFactory.cpp:117 | 7-bit ASCII bytes not starting with zero convert code for code |
| `Text.BeforeNulSpec` | Source/RMeshImporter/Private/RMeshImporterFactory.cpp:88 | the compared part of a text is its longest prefix without a zero character |
| `Text.BeforeNulAt` | Source/RMeshImporter/Private/RMeshImporterFactory.cpp:88 | a text compares as its first n characters exactly when the n-th is the first zero character, or there is none |
| `Decoder.KnownHeaderWhole` | Source/RMeshImporter/Private/RMeshImporterFactory.cpp:85-88 | a header without zero characters is accepted exactly when the whole of it is `RoomMesh` or `RoomMesh.HasTriggerBox`, ignoring case |
| `Decoder.KnownHeaderStopsAtNul` | Source/RMeshImporter/Private/RMeshImporterFactory.cpp:85-88 | `RoomMesh`, a zero character, then anything, is an accepted header |
| `Decoder.ReadSurface` | Source/RMeshImporter/Private/RMeshImporterFactory.cpp:104-187 | a surface read consumes at least one byte and stays inside the stream |
| `Decoder.ReadCollisionSurface` | Source/RMeshImporter/Private/RMeshImporterFactory.cpp:231-251 | a collision surface read consumes at least one byte and stays inside the stream |
| `Text.DecimalInjective` | Source/RMeshImporter/Private/RMeshImporterFactory.cpp:102 | `%d` gives different numbers different texts |
| `MeshData.NameTextInjective` | Source/RMeshImporter/Private/RMeshImporterFactory.cpp:228 | no two surfaces share a material name: `drawnmesh<i>` and `collisionmesh<j>` names are all distinct |
| `MeshData.MakeTriangleExtends` | Source/RMeshImporter/Private/RMeshImporterFactory.cpp:197-214 | a triangle's normal and corner UVs depend only on the vertices it names, not on vertices appended later |
| `Surfaces.LeadingZeroPathSkipped` | Source/RMeshImporter/Private/RMeshImporterFactory.cpp:117-120 | a texture path whose first byte is zero converts to the empty string and records nothing |
| `Surfaces.KeepTexture` | Source/RMeshImporter/Private/RMeshImporterFactory.cpp:120-131 | a slot's path is kept exactly when it is not empty and its base file name contains none of `_lm1` to `_lm7`, ignoring case |
| `Surfaces.AddSurface` | Source/RMeshImporter/Private/RMeshImporterFactory.cpp:99-217 | a renderable surface keeps everything already imported and adds one material, its vertex count and its triangle count |
| `Surfaces.AddCollisionSurface` | Source/RMeshImporter/Private/RMeshImporterFactory.cpp:227-297 | a collision surface keeps everything already imported and adds one material, its vertex count and its triangle count |
| `Surfaces.Interpret` | Source/RMeshImporter/Private/RMeshImporterFactory.cpp:94-299 | a file's import holds every surface's vertices and one material per surface, renderable and collision |
| `Surfaces.ContainsTagSpec` | Source/RMeshImporter/Private/RMeshImporterFactory.cpp:123-131 | a name is a lightmap exactly when it contains one of `_lm1` to `_lm7` |
| `Surfaces.SurfaceMaterialTextures` | Source/RMeshImporter/Private/RMeshImporterFactory.cpp:101-138 | a surface's material is `drawnmesh<i>` with at most two textures; every recorded path passed the filter; slot 0's path comes before slot 1's |
| `Surfaces.RenderVertexRecovers` | Source/RMeshImporter/Private/RMeshImporterFactory.cpp:148-174 | a renderable vertex stores (-X, Z, Y), the record's UV and the colour (R, G, B, 255), and keeps the up normal |
| `Surfaces.RenderVertexIgnoresUnused` | Source/RMeshImporter/Private/RMeshImporterFactory.cpp:162-165 | the two unused floats of a vertex record do not affect the vertex |
| `Surfaces.CollisionVertexRecovers` | Source/RMeshImporter/Private/RMeshImporterFactory.cpp:239-250 | a collision vertex stores (X, Y, -Z) with zero UV, white colour and the up normal |
| `Surfaces.BuildTrianglesSpec` | Source/RMeshImporter/Private/RMeshImporterFactory.cpp:185-214 | triangle k has the record's indices plus the surface's start, the surface's material, the named vertices' UVs, and the normal of their positions |
| `Surfaces.AddSurfaceAppends` | Source/RMeshImporter/Private/RMeshImporterFactory.cpp:138-216 | a renderable surface only appends: its material, its converted vertices, and its triangles rebased by the vertex count before it, with material index i |
| `Surfaces.AddCollisionSurfaceAppends` | Source/RMeshImporter/Private/RMeshImporterFactory.cpp:227-297 | a collision surface only appends: `collisionmesh<i>` with no textures, its converted vertices, and its rebased triangles using the last material |
| `Surfaces.AddSurfaceSound` | Source/RMeshImporter/Private/RMeshImporterFactory.cpp:190-199 | appending a surface whose triangles fit keeps every index in range |
| `Surfaces.AddSurfacesAppend` | Source/RMeshImporter/Private/RMeshImporterFactory.cpp:99-138 | surfaces append one material each, in order, even a surface with no vertices or triangles |
| `Surfaces.InterpretValid` | Source/RMeshImporter/Public/RMeshImportData.h:25-31 | the interpretation of fitting records is well formed, and no vertex normal differs from the default up vector |
| `Surfaces.InterpretMaterials` | Source/RMeshImporter/Private/RMeshImporterFactory.cpp:220-229 | material k is renderable surface k's; the collision materials follow, numbered from 0, with no textures |
| `RoundTrip.ReadSlotEncoded` | Source/RMeshImporter/Private/RMeshImporterFactory.cpp:104-119 | a written slot reads back as itself and ends where it was written to end |
| `RoundTrip.ReadVerticesEncoded` | Source/RMeshImporter/Private/RMeshImporterFactory.cpp:146-175 | written vertex records read back as themselves, 31 bytes each |
| `RoundTrip.ReadPointsEncoded` | Source/RMeshImporter/Private/RMeshImporterFactory.cpp:237-251 | written collision vertex records read back as themselves, 12 bytes each |
| `RoundTrip.ReadTrianglesEncoded` | Source/RMeshImporter/Private/RMeshImporterFactory.cpp:181-187 | written triangle records read back as themselves, 12 bytes each |
| `RoundTrip.ReadSurfaceEncoded` | Source/RMeshImporter/Private/RMeshImporterFactory.cpp:104-217 | a written renderable surface reads back as itself, ending after its last triangle |
| `RoundTrip.ReadCollisionSurfaceEncoded` | Source/RMeshImporter/Private/RMeshImporterFactory.cpp:231-297 | a written collision surface reads back as itself |
| `RoundTrip.ReadSurfacesEncoded` | Source/RMeshImporter/Private/RMeshImporterFactory.cpp:99-218 | a written sequence of renderable surfaces reads back as itself and consumes exactly its bytes |
| `RoundTrip.ReadCollisionSurfacesEncoded` | Source/RMeshImporter/Private/RMeshImporterFactory.cpp:225-298 | a written sequence of collision surfaces reads back as itself and consumes exactly its bytes |
| `RoundTrip.ReadStringEncoded` | Source/RMeshImporter/Private/RMeshImporterFactory.cpp:79-85 | a written header reads back as itself |
| `RoundTrip.ReadRenderEncoded` | Source/RMeshImporter/Private/RMeshImporterFactory.cpp:78-218 | with collision ignored, a written file reads back as its header and renderable surfaces, whatever follows them |
| `RoundTrip.ReadFileEncoded` | Source/RMeshImporter/Private/RMeshImporterFactory.cpp:78-299 | a written file reads back as itself, whatever follows it |
| `RoundTrip.DecodeEncoded` | Source/RMeshImporter/Private/RMeshImporterFactory.cpp:66-301 | importing bytes that begin with a written file gives that file's interpretation |
| `RoundTrip.DecodeRenderEncoded` | Source/RMeshImporter/Private/RMeshImporterFactory.cpp:218-220 | with collision ignored, only the header and renderable surfaces must be well formed, and only they are imported |
| `RoundTrip.DecodeOfEncode` | Source/RMeshImporter/Private/RMeshImporterFactory.cpp:66-302 | decoding exactly the written bytes gives the interpretation and consumes every byte |
| `Written.ReadStringWritten` | Source/RMeshImporter/Private/RMeshImporterFactory.cpp:79-85 | a string read is stored exactly as the writer lays out its length and bytes |
| `Written.ReadSlotWritten` | Source/RMeshImporter/Private/RMeshImporterFactory.cpp:104-119 | a slot read can be written and is stored exactly as the writer lays it out |
| `Written.ReadVerticesWritten` | Source/RMeshImporter/Private/RMeshImporterFactory.cpp:146-175 | n vertex records read are stored exactly as written, 31 bytes each |
| `Written.ReadTrianglesWritten` | Source/RMeshImporter/Private/RMeshImporterFactory.cpp:181-187 | n triangle records read hold int32 indices and are stored exactly as written, 12 bytes each |
| `Written.ReadCountedVerticesWritten` | Source/RMeshImporter/Private/RMeshImporterFactory.cpp:141-175 | a counted run of vertices takes the writer's number of bytes; a negative count reads as none; a count that is not negative makes the bytes the writer's |
| `Written.ReadCountedTrianglesWritten` | Source/RMeshImporter/Private/RMeshImporterFactory.cpp:178-187 | a counted run of triangles takes the writer's number of bytes; a negative count reads as none; a count that is not negative makes the bytes the writer's |
| `Written.ReadSurfaceWritten` | Source/RMeshImporter/Private/RMeshImporterFactory.cpp:104-217 | a surface read can be written, takes the writer's number of bytes, its slots are the writer's bytes, and so is all of it when its counts are not negative |
| `Written.ReadCollisionSurfaceWritten` | Source/RMeshImporter/Private/RMeshImporterFactory.cpp:231-297 | a collision surface read can be written, takes the writer's number of bytes, and is the writer's bytes when its counts are not negative |
| `Written.ReadSurfacesWritten` | Source/RMeshImporter/Private/RMeshImporterFactory.cpp:99-217 | the renderable surfaces read can be written and take exactly the writer's number of bytes |
| `Written.ReadCollisionSurfacesWritten` | Source/RMeshImporter/Private/RMeshImporterFactory.cpp:225-298 | the collision surfaces read can be written and take exactly the writer's number of bytes |
| `Written.ReadFileWritten` | Source/RMeshImporter/Private/RMeshImporterFactory.cpp:78-299 | a successful read holds writable records under an accepted header, stored exactly as written; it consumes the writer's number of bytes, and the writer's bytes read back as the same records |
| `Written.NegativeCountNotWritten` | Source/RMeshImporter/Private/RMeshImporterFactory.cpp:94-99 | a surface count of -1 reads as no surfaces, yet those bytes are not what the writer writes for no surfaces |
| `Builder.PolygonOf` | Source/RMeshImporter/Private/RMeshImporterFactory.cpp:397-419 | the polygon's corners (v0, v2, v1) with UVs (UV0, UV2, UV1) give the triangle back, and every corner carries the face normal |
| `Builder.BuildPolygons` | Source/RMeshImporter/Private/RMeshImporterFactory.cpp:386-421 | exactly the triangles with every index below the vertex count become polygons, in triangle order, each in its material's group |
| `Builder.WellFormedNothingSkipped` | Source/RMeshImporter/Private/RMeshImporterFactory.cpp:388-393 | in well-formed data no triangle is skipped |
| `Builder.AssignTextures` | Source/RMeshImporter/Private/RMeshImporterFactory.cpp:349-371 | position 0 sets the base colour, position 1 the normal map; `UseNormal` is set exactly when a normal map is; later positions are ignored |
| `Factory.CanImportSpec` | Source/RMeshImporter/Private/RMeshImporterFactory.cpp:61-64 | a file is accepted exactly when its name, without directories, ends in a dot and `rmesh` in any case |
| `Factory.CanImportMixedCase` | Source/RMeshImporter/Private/RMeshImporterFactory.cpp:63 | `Maps/room2.RMesh` is accepted |
| `Factory.CannotImportBackup` | Source/RMeshImporter/Private/RMeshImporterFactory.cpp:63 | `maps/room2.rmesh.bak` is refused |
| `Factory.CannotImportBareName` | Source/RMeshImporter/Private/RMeshImporterFactory.cpp:63 | a file named just `rmesh` is refused |
| `Factory.CannotImportDirectoryExtension` | Source/RMeshImporter/Private/RMeshImporterFactory.cpp:63 | a dot in a directory name does not give the file an extension |
| `Factory.Import` | Source/RMeshImporter/Public/RMeshImporterFactory.h:29 | the factory's import reads no collision block, so all its materials are `drawnmesh` ones |
| `Factory.ImportValid` | Source/RMeshImporter/Private/RMeshImporterFactory.cpp:34-38 | whatever the bytes, a successful import is well formed |
| `Factory.ImportIgnoresCollisionBlock` | Source/RMeshImporter/Private/RMeshImporterFactory.cpp:220-299 | the import of a written header and renderable surfaces is the same whatever bytes follow them |
| `Factory.ImportOfEncode` | Source/RMeshImporter/Private/RMeshImporterFactory.cpp:220 | importing a whole written file gives the interpretation of its renderable part and stops before the collision block |
| `Factory.SurfaceRoles` | Source/RMeshImporter/Private/RMeshImporterFactory.cpp:349-371 | the role follows the position in the filtered list: if slot 0 records nothing, slot 1's texture becomes the base colour and no normal map is set |
| `Factory.ProcessImportData` | Source/RMeshImporter/Private/RMeshImporterFactory.cpp:305-422 | without the parent material nothing is built; otherwise positions are copied, each material gets its texture parameters, and exactly the non-skipped triangles become polygons |
| `Factory.CreateMesh` | Source/RMeshImporter/Private/RMeshImporterFactory.cpp:26-58 | a failed import yields no mesh; a successful one, with the parent material present, yields one polygon per decoded triangle, in order |

## Left out

- File loading (`LoadFileToArray`) is I/O. The model starts from the file's
  bytes.
- Engine objects are left out: packages, `UStaticMesh`, material instances,
  `UAssetImportData`, `Build`, `PostEditChange` and the asset registry.
  `Factory.Mesh` keeps only the content the code gives them: positions,
  texture parameters and polygons.
- Sanitized object and package names (`SanitizeObjectName`,
  `GetLongPackagePath`, the `<model>_<material>` names) come from engine
  libraries whose code is not part of this model.
- The face-normal arithmetic is floating point and is left abstract. This
  covers the cross product, `GetSafeNormal` and the collision normal's
  component swap. The normals enter as functions of the three corner
  positions.
- Multiplication by a general `RoomScale` is float arithmetic. The factory
  fixes the scale at 1.0.
- `BuildFromMeshDescriptions` and the build settings belong to the engine.
- Log messages (`Warn->Logf`, `UE_LOG`) are left out.
- The module boilerplate (`RMeshImporterModule`) has no behaviour.
- `Decoder.Decode`: it stops with an error where the engine would not
  produce a mesh the model can describe. A truncated stream and a negative
  string length make the engine's reader go on with unspecified data. A
  triangle index naming no vertex decoded so far fails TArray's range check
  on `ImportData->Vertices[..]`, which asserts in editor builds. No promise
  is made about what the engine does in those cases. The model reads every
  record before it checks any index, so a read error anywhere in the file is
  reported ahead of a bad index in an earlier surface, although the engine
  reaches that bad index first.
- `Builder.BuildPolygons`: its requirement `Buildable` assumes that the
  engine's unchecked `VertexIDs[..]` and `PolygonGroupIDs[..]` accesses
  (negative indices, or a material index with no polygon group) never
  happen; on those inputs the engine's array access would assert. Imports
  that come from `Decoder.Decode` always meet it (`Decoder.DecodeValid`).
- `Factory.ProcessImportData`: when the parent material is missing, the
  model returns an empty mesh. This is because the description's vertices
  are created but never committed to the static mesh. It also requires
  `Buildable`, for the reason given under `Builder.BuildPolygons`.
- `Written.ReadFileWritten`: it does not promise that the bytes read are the
  writer's bytes for the records they hold. A negative count field reads as
  zero records, but the writer writes 0 there, so the two differ
  (`Written.NegativeCountNotWritten`). The exact layout is promised for the
  header, for each slot, and for every counted run and surface whose counts
  are not negative.
- `Surfaces.AddSurface`, `Surfaces.AddCollisionSurface`, `Surfaces.Interpret`:
  their own contracts give what is kept and the sizes only; what is appended
  is stated by `Surfaces.AddSurfaceAppends`,
  `Surfaces.AddCollisionSurfaceAppends`, `Surfaces.AddSurfacesAppend`,
  `Surfaces.InterpretValid` and `Surfaces.InterpretMaterials`.
- `Decoder.ReadSurface`, `Decoder.ReadCollisionSurface`: their own contracts
  bound the bytes consumed only; the records read are stated by
  `Decoder.ReadVerticesSpec`, `Decoder.ReadTrianglesSpec`,
  `Decoder.ReadPointsSpec` and the `Written` lemmas.
- `Factory.CanImport`, `Factory.CanImportSpec`: a file name that ends in a
  path separator, such as `foo.rmesh/`, is refused by the model. The
  engine's `GetExtension` goes through `GetCleanFilename`, which strips the
  trailing separator first, so the engine accepts it. The engine's `FPaths`
  code is not part of this model (see `Surfaces.KeepTexture` below).
- `Surfaces.KeepTexture`: the ANSI conversion (`Text.AnsiString`) and the
  path helpers it uses (`Text.CleanFilename`, `Text.BaseFilename`, and
  `Text.Extension` for the factory) follow the engine's documented string
  behaviour; the engine's string and `FPaths` code is not part of this model.
  Two edge cases are not modelled: a path that ends in a separator, which
  `GetCleanFilename` strips before taking the last component, and whether
  `Contains` sees characters after a zero character inside a path.
