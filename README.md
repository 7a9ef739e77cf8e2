# manifold-rs mesh buffers, wrapper and STL writer in Dafny

manifold-rs is a Rust binding to the C++ Manifold solid-modelling library.
The geometry itself runs inside Manifold. What the binding adds, and what is
modelled here, is how meshes cross the language boundary, how the Rust
wrapper dispatches, and how the example STL writer turns the buffers into facets.

The model has four files:

- `mesh_codec.dfy`, module `MeshCodec`: the flat-buffer layout the bridge uses.
  - The vertex buffer has six floats per vertex: position x, y, z, then normal x, y, z.
  - The index buffer has three `u32` entries per triangle.
  - It defines the encoders and decoders as functions, where each element sits, and both round trips.
- `manifold_rs.dfy`, module `ManifoldRs`: the C++ bridge functions `Mesh::vertices`, `Mesh::indices` and `mesh_from_vertices`.
  - Each is a method with the source's `push_back` loops, including the `i += 6` and `i += 3` strides.
  - Each is proved equal to the matching `MeshCodec` function.
- `lib.dfy`, module `ManifoldLib`: the Rust wrapper types `Manifold` and `Mesh`.
  - The foreign C++ operations (`union_`, `intersection`, `difference`, `mesh_from_manifold`, `manifold_from_mesh`) are fields of an `Ffi` record of function values.
  - So every property holds whatever Manifold computes.
- `write_stl.dfy`, module `WriteStl`: the example program `examples/write_stl.rs`. It covers:
  - `Vertex::from_slice_and_offset`;
  - the `write_stl` loop, which writes lines to a `LineWriter` object;
  - `Triangle::write_stl`;
  - `generate_circle`;
  - the map that negates odd entries to reverse a contour's winding.

How the model treats the parts it cannot see:

- The codec only moves floats, so they are an opaque type parameter.
  - The example's float computations are function parameters: the triangle normal (`examples/write_stl.rs:29-33`), the circle's trigonometry (`examples/write_stl.rs:84-88`) and float negation (`examples/write_stl.rs:146`).
- An out-of-range slice index makes Rust panic. Here that is an explicit `Panic` outcome.
  - Once the loop panics, nothing more is written; in particular `endsolid` is not written.
- The C++ `assert`s are caller obligations, so they are `requires` clauses:
  - one normal per position in `Mesh::vertices`;
  - buffer lengths divisible by 6 and 3 in `mesh_from_vertices`.

Three facts about the code shape the model:

- The vertex buffer puts a normal after each position (`src/manifold_rs.cpp:52-60`), so a vertex takes six floats.
- `mesh_from_vertices` never compares an index with the vertex count (`src/manifold_rs.cpp:102-105`). See `MeshCodec.TrianglesIgnoreVertexCount` and `MeshCodec.TriangleKeptVerbatim`.
- `From<Mesh> for Manifold` has no failure path (`src/lib.rs:128-132`). It is a plain conversion through `manifold_from_mesh`.

`examples/write_stl.rs:120` calls `mesh.to_manifold()`. `src/lib.rs` defines that conversion under the name `manifold` (`src/lib.rs:122-125`), and the model uses that definition.

## Model

| member | source | states |
|---|---|---|
| MeshCodec.EncodeVertices | src/manifold_rs.cpp:47-62 | the vertex buffer of n vertices has exactly 6n floats |
| MeshCodec.EncodeIndices | src/manifold_rs.cpp:64-75 | the index buffer of n triangles has exactly 3n entries |
| MeshCodec.DecodePositions | src/manifold_rs.cpp:94-100 | a buffer of 6n floats yields n positions |
| MeshCodec.DecodeNormals | src/manifold_rs.cpp:94-100 | a buffer of 6n floats yields n normals |
| MeshCodec.DecodeTriangles | src/manifold_rs.cpp:101-105 | a buffer of 3n indices yields n triangles |
| MeshCodec.EncodeVerticesAt | src/manifold_rs.cpp:52-60 | entries 6i..6i+5 are vertPos[i].x, y, z then vertNormal[i].x, y, z, so vertex order is kept |
| MeshCodec.EncodeIndicesAt | src/manifold_rs.cpp:68-73 | entries 3k..3k+2 are triVerts[k].x, y, z |
| MeshCodec.DecodePositionsAt | src/manifold_rs.cpp:96-99 | position i is the floats at 6i, 6i+1, 6i+2 |
| MeshCodec.DecodeNormalsAt | src/manifold_rs.cpp:96-99 | normal i is the floats at 6i+3, 6i+4, 6i+5 |
| MeshCodec.DecodeTrianglesAt | src/manifold_rs.cpp:102-105 | triangle k is the indices at 3k, 3k+1, 3k+2 |
| MeshCodec.DecodeEncodeVertices | src/manifold_rs.cpp:47-100 | parsing the vertex buffer of given positions and normals gives back both lists |
| MeshCodec.EncodeDecodeVertices | src/manifold_rs.cpp:47-100 | serialising the positions and normals parsed from a 6n-float buffer gives back the buffer |
| MeshCodec.DecodeEncodeIndices | src/manifold_rs.cpp:64-105 | parsing the index buffer of a triangle list gives back the list |
| MeshCodec.EncodeDecodeIndices | src/manifold_rs.cpp:64-105 | serialising the triangles parsed from a 3n-entry buffer gives back the buffer |
| MeshCodec.MeshRoundTrip | src/manifold_rs.cpp:47-107 | mesh_from_vertices(m.vertices(), m.indices()) reproduces vertPos, vertNormal and triVerts |
| MeshCodec.BufferRoundTrip | src/manifold_rs.cpp:47-107 | the mesh parsed from two well-sized buffers has matching normals, and serialising it gives back both buffers |
| MeshCodec.DecodeMesh | src/manifold_rs.cpp:87-107 | the mesh two buffers describe: one normal per position, n/6 vertices, n/3 triangles; its contents are given by DecodePositionsAt, DecodeNormalsAt and DecodeTrianglesAt |
| MeshCodec.VertexFloats | src/manifold_rs.cpp:52-60 | vertex v's position is at offset 6v and its normal at offset 6v + 3 |
| MeshCodec.TriangleEntries | src/manifold_rs.cpp:68-73 | triangle k's corners are the three entries at offset 3k |
| MeshCodec.TrianglesIgnoreVertexCount | src/manifold_rs.cpp:101-105 | the parsed triangles do not depend on the vertex buffer at all |
| MeshCodec.TriangleKeptVerbatim | src/manifold_rs.cpp:102-105 | triangle k is the index triple at 3k whatever the vertex count, so out-of-range indices are kept verbatim |
| ManifoldRs.Vertices | src/manifold_rs.cpp:47-62 | requires one normal per position; returns the vertex buffer of the mesh, 6 floats per vertex, block i being vertex i's position and normal |
| ManifoldRs.Indices | src/manifold_rs.cpp:64-75 | returns the index buffer of the mesh, 3 entries per triangle, block k being triangle k |
| ManifoldRs.MeshFromVertices | src/manifold_rs.cpp:87-107 | requires lengths divisible by 6 and 3; returns the decoded mesh with n/6 positions and normals and n/3 triangles, each from consecutive slots |
| ManifoldLib.Mesh.New | src/lib.rs:105-108 | the mesh from mesh_from_vertices unchanged: one normal per position, n/6 vertices, n/3 triangles |
| ManifoldLib.Mesh.Vertices | src/lib.rs:110-114 | a copy of the C++ vertex buffer: same length, vertex i's six floats at 6i..6i+5 |
| ManifoldLib.Mesh.Indices | src/lib.rs:116-120 | a copy of the C++ index buffer: same length, triangle k's three indices at 3k..3k+2 |
| ManifoldLib.Manifold.Union | src/lib.rs:64-67 | the bridge's union_ of self and b, in that order; stated by BooleanOpDispatch |
| ManifoldLib.Manifold.Intersection | src/lib.rs:69-72 | the bridge's intersection of self and b, in that order; stated by BooleanOpDispatch |
| ManifoldLib.Manifold.Difference | src/lib.rs:74-77 | the bridge's difference of self and b, in that order; stated by BooleanOpDispatch |
| ManifoldLib.Manifold.BooleanOp | src/lib.rs:79-85 | the match on the operation; BooleanOpDispatch states where each case goes |
| ManifoldLib.Manifold.ToMesh | src/lib.rs:87-90 | the mesh the bridge's mesh_from_manifold gives; stated by ConversionsAgree |
| ManifoldLib.Manifold.FromMesh | src/lib.rs:92-94 | `mesh.into()`, that is `From<Mesh>`; stated by ConversionsAgree |
| ManifoldLib.Manifold.From | src/lib.rs:128-132 | `From<Mesh> for Manifold`, which is `mesh.manifold()`; stated by ConversionsAgree |
| ManifoldLib.Mesh.ToManifold | src/lib.rs:122-125 | Mesh::manifold, the bridge's manifold_from_mesh of the mesh; stated by ConversionsAgree |
| ManifoldLib.Mesh.From | src/lib.rs:134-138 | `From<Manifold> for Mesh`, which is `manifold.to_mesh()`; stated by ConversionsAgree |
| ManifoldLib.BooleanOpDispatch | src/lib.rs:64-85 | boolean_op sends each operation to its own method and bridge function, with self as the first operand and b as the second |
| ManifoldLib.ConversionsAgree | src/lib.rs:87-138 | from_mesh, `From<Mesh>` and `Mesh::manifold` are one conversion through manifold_from_mesh; `From<Manifold>` is to_mesh through mesh_from_manifold |
| ManifoldLib.NewFromAccessors | src/lib.rs:105-120 | Mesh::new(m.vertices(), m.indices()) has m's positions, normals and triangles |
| ManifoldLib.AccessorsOfNew | src/lib.rs:105-120 | Mesh::new(v, i).vertices() is v and Mesh::new(v, i).indices() is i |
| WriteStl.FromSliceAndOffset | examples/write_stl.rs:16-20 | succeeds exactly when offset + 2 is inside the slice, and then yields the three floats at offset, offset + 1, offset + 2 |
| WriteStl.Facet | examples/write_stl.rs:69-73 | iteration k of the loop: the corners at stride * indices[3k], stride * indices[3k+1], stride * indices[3k+2], or a panic; FacetOk states when it succeeds and what it yields |
| WriteStl.AssembleFirst | examples/write_stl.rs:68-75 | the facets of the first k iterations and whether one panicked; AssembleFirstFacets and PanicPersists state its properties |
| WriteStl.Assemble | examples/write_stl.rs:68-75 | the facets of the whole loop; AssembleSucceeds and AssembleFacets state when it completes and what it yields |
| WriteStl.FacetLines | examples/write_stl.rs:37-56 | the seven lines of one facet in their written order; FacetsTextAt places them in the output |
| WriteStl.StlText | examples/write_stl.rs:62-79 | `solid`, the facet lines, then `endsolid` unless a panic; StlTextLayout states its layout |
| WriteStl.TripleCount | examples/write_stl.rs:68 | `(0..n).step_by(3)` runs ceil(n / 3) times |
| WriteStl.FacetsText | examples/write_stl.rs:36-58 | a list of facets takes seven lines per facet |
| WriteStl.FacetsTextAt | examples/write_stl.rs:36-58 | facet k's lines are lines 7k..7k+6: normal, outer loop, three vertices in corner order, endloop, endfacet |
| WriteStl.FacetsTextNoEndSolid | examples/write_stl.rs:36-58 | no facet line is `endsolid` |
| WriteStl.LineWriter.WriteLine | examples/write_stl.rs:67 | writing appends exactly one line to the writer's output |
| WriteStl.WriteTriangle | examples/write_stl.rs:36-58 | Triangle::write_stl appends the seven lines of its facet, nothing else |
| WriteStl.FetchTriangle | examples/write_stl.rs:69-73 | the three corners fetched at 3 * indices[i], 3 * indices[i + 1] and 3 * indices[i + 2], or the panic that fetching them raises |
| WriteStl.WriteFacets | examples/write_stl.rs:68-75 | the loop's panic flag and the facets it writes are those of the assembly specification, and the writer gets exactly their lines |
| WriteStl.WriteStlFile | examples/write_stl.rs:62-79 | writes `solid`, the facet lines, and `endsolid` only when no iteration panicked; it reports the panic |
| WriteStl.PanicPersists | examples/write_stl.rs:68-75 | after a panic no further iteration changes the result |
| WriteStl.AssembleFirstFacets | examples/write_stl.rs:68-75 | the first k iterations panic exactly when one of them does; otherwise facet j comes from iteration j |
| WriteStl.FacetOk | examples/write_stl.rs:69-73 | iteration k succeeds exactly when its three indices exist and each corner offset leaves three floats in the buffer; then its corners are those floats |
| WriteStl.AssembleSucceeds | examples/write_stl.rs:68-75 | the loop completes exactly when the index count is a multiple of 3 and every stride * index + 2 is inside the vertex buffer |
| WriteStl.PartialTriplePanics | examples/write_stl.rs:68-72 | an index count not divisible by 3 makes the loop panic |
| WriteStl.AssembleFacets | examples/write_stl.rs:68-75 | a completed loop yields indices.len() / 3 facets, facet k built in corner order from offsets stride * indices[3k], stride * indices[3k+1], stride * indices[3k+2] |
| WriteStl.StlTextLayout | examples/write_stl.rs:62-79 | output starts with `solid`; it contains `endsolid` exactly when no iteration panicked; a completed run has 2 + 7 * (n / 3) lines, ends with `endsolid`, and keeps facet k at lines 7k+1..7k+7 |
| WriteStl.CompleteLayout | examples/write_stl.rs:62-79 | a completed run is `solid`, one facet per index triple, then `endsolid` |
| WriteStl.StlCornerOfEncodedBuffer | examples/write_stl.rs:70-72 | on a buffer from Mesh::vertices, reading at 3 * index succeeds exactly for index < 2 * vertex count; it yields vertex index/2's position for even index, and its normal for odd index |
| WriteStl.StrideMismatchExample | examples/write_stl.rs:70-72 | for a concrete three-vertex triangle mesh the STL facet differs from the mesh's triangle |
| WriteStl.InterleavedStrideRecoversMesh | src/manifold_rs.cpp:52-60 | reading at 6 * index never panics on a mesh with in-range indices and yields exactly the mesh's triangles |
| WriteStl.InterleavedFacetAt | src/manifold_rs.cpp:52-60 | with stride 6, facet k is triangle k of the mesh |
| WriteStl.EncodedIndexInRange | src/manifold_rs.cpp:68-73 | every entry of the index buffer of a mesh with in-range triangles is below the vertex count |
| WriteStl.CornerAtInterleavedStride | src/manifold_rs.cpp:52-60 | the three floats at 6 * index are vertex index's position |
| WriteStl.GenerateCircle | examples/write_stl.rs:81-91 | returns exactly 2 * segments numbers: point i's x then y at entries 2i and 2i + 1, in order |
| WriteStl.MirrorContour | examples/write_stl.rs:143-147 | keeps the length; keeps each even-indexed entry and negates each odd-indexed one |
| WriteStl.MirrorReflectsPoints | examples/write_stl.rs:143-147 | each x, y point keeps its x and has its y negated |
| WriteStl.MirrorContourInvolutive | examples/write_stl.rs:143-147 | when negation undoes itself, mirroring twice gives back the contour |

## Left out

- Solid geometry: `sphere`, `cube`, `cylinder` and the boolean operations are computed by the external Manifold library, whose code is not part of this model.
  - The booleans appear only as opaque `Ffi` functions.
  - The constructors are left out.
  - `revolve`, `extrude`, `hull` and `trim_by_plane` are called by `examples/write_stl.rs` but are not in the bridge.
- Floating-point arithmetic is parameters:
  - the triangle normal's cross product and normalisation;
  - the trigonometry of `generate_circle`;
  - float negation.
- Text formatting of floats: an STL line is a value (`StlLine`), not a formatted string.
- I/O:
  - `io::Result` errors from `writeln!` are not modelled, and the writer always accepts a line;
  - `File::create`, `println!`, `write_manifold_to_stl_file` and `main` are left out.
- `examples/bevy.rs`, `examples/write_ply.rs`, `build.rs` and `src/manifold_rs.h` are not part of this model: they are rendering, a PLY writer, build plumbing and declarations.
- FFI ownership is plain values here: `UniquePtr`, the `unwrap` of a null pointer, and moves.
- `reserve` calls do not change the contents and are left out.
- MeshCodec.Mesh, ManifoldLib.NewFromAccessors: only vertPos, vertNormal and triVerts are modelled; any other field of Manifold's Mesh is reset by mesh_from_vertices. `mesh_from_vertices` default-constructs the mesh and fills only those three arrays (`src/manifold_rs.cpp:93-104`), while `GetMesh` (`src/manifold_rs.cpp:78`) may fill more. So Mesh::new(m.vertices(), m.indices()) agrees with m on the three arrays, not necessarily on the rest, and the model does not capture what manifold_from_mesh does with those other fields.
- The element type of `triVerts` in Manifold's Mesh is not visible. It is modelled as `u32`, the type the index buffer carries.
- `usize` is treated as unbounded: `indices[i] as usize * 3` cannot overflow on a 64-bit target for a `u32` index.
- ManifoldRs.Vertices, ManifoldRs.MeshFromVertices, ManifoldLib.Mesh.New, ManifoldLib.Mesh.Vertices: the C++ `assert`s (`src/manifold_rs.cpp:51`, `91-92`) are `requires` clauses. The abort a debug build raises on a mismatched normal count, or on a buffer length not divisible by 6 or 3, is not modelled.
- WriteStl.WriteStlFile: a panic returns `true` instead of unwinding. The lines written before the panic stay in the writer.

## Findings

| source | as written | input that shows it | evidently intended | confidence | as-written member | corrected member |
|---|---|---|---|---|---|---|
| examples/write_stl.rs:70-72 | each corner is read at offset `indices[i] * 3`, but Mesh::vertices (src/manifold_rs.cpp:52-60) emits six floats per vertex, so odd indices land on normals and even index 2v on vertex v | positions (0,0,0), (1,0,0), (0,1,0), normals all (0,0,1), triangle (0,1,2): the facet's corners are (0,0,0), (0,0,1), (1,0,0) instead of (0,0,0), (1,0,0), (0,1,0) | either read each corner at offset `indices[i] * 6`, the start of the vertex's position, or have Mesh::vertices emit positions only (three floats per vertex) | not executed | WriteStl.StrideMismatchExample | WriteStl.InterleavedStrideRecoversMesh |

The as-written side holds in general as well: `WriteStl.StlCornerOfEncodedBuffer` states what any corner read at stride 3 yields.

The corrected side has two parts:

- `WriteStl.Assemble` takes the stride as a parameter, and at `InterleavedStride` (6) `WriteStl.InterleavedStrideRecoversMesh` proves the facets are exactly the mesh's triangles (`WriteStl.MeshFacets`).
- `WriteStl.WriteStlFile` keeps the program's stride 3.

Which side was meant to change is not clear from the code. `examples/bevy.rs:98-101` also reads `mesh.vertices()` in chunks of three floats, and `examples/write_stl.rs` calls wrapper functions that `src/lib.rs` does not define (`to_manifold` at :120, `revolve` at :131, `extrude` at :150, `hull` at :176, `trim_by_plane` at :184), so the examples may target a revision of the bridge whose vertex buffer holds positions only. Under that fix the program's stride 3 is right, and the corrected reader here is the stride-6 alternative.
