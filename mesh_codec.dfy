/** The flat-buffer layout shared by the C++ bridge and its Rust wrapper.

    A mesh holds per-vertex positions, per-vertex normals and index triples.
    Its vertex buffer interleaves each vertex's position and normal (six
    floats per vertex) and its index buffer lists the three corner indices
    of each triangle (three entries per triangle). Float values are only
    moved, never computed on, so they are an opaque element type `T`.
 */
module MeshCodec {

  /** An unsigned 32-bit index, as stored in the index buffer. */
  type u32 = x: int | 0 <= x < 0x1_0000_0000

  /** A triple with components x, y, z: a position, a normal or a triangle. */
  datatype Vec3<T> = Vec3(x: T, y: T, z: T)

  /** The vertex and triangle arrays of a mesh, in their stored order. */
  datatype Mesh<T> = Mesh(vertPos: seq<Vec3<T>>, vertNormal: seq<Vec3<T>>, triVerts: seq<Vec3<u32>>)

  /** The one precondition the vertex serialiser asserts. */
  predicate NormalsMatch<T>(m: Mesh<T>) {
    |m.vertPos| == |m.vertNormal|
  }

  /** The three consecutive entries of `s` starting at `k`, as a triple. */
  function TripleAt<T>(s: seq<T>, k: nat): Vec3<T>
    requires k + 2 < |s|
  {
    Vec3(s[k], s[k + 1], s[k + 2])
  }

  /** The six floats one vertex occupies: position x, y, z, then normal x, y, z. */
  function VertexBlock<T>(p: Vec3<T>, n: Vec3<T>): seq<T> {
    [p.x, p.y, p.z, n.x, n.y, n.z]
  }

  /** The three entries one triangle occupies. */
  function TriangleBlock(t: Vec3<u32>): seq<u32> {
    [t.x, t.y, t.z]
  }

  // ---------------------------------------------------------------------
  // Encoding: mesh arrays to flat buffers

  /** The vertex buffer: vertex blocks concatenated in vertex order. */
  function EncodeVertices<T>(pos: seq<Vec3<T>>, nrm: seq<Vec3<T>>): (r: seq<T>)
    requires |pos| == |nrm|
    ensures |r| == 6 * |pos|
  {
    if |pos| == 0 then []
    else EncodeVertices(pos[..|pos| - 1], nrm[..|nrm| - 1]) + VertexBlock(pos[|pos| - 1], nrm[|nrm| - 1])
  }

  /** The index buffer: triangle blocks concatenated in triangle order. */
  function EncodeIndices(tris: seq<Vec3<u32>>): (r: seq<u32>)
    ensures |r| == 3 * |tris|
  {
    if |tris| == 0 then []
    else EncodeIndices(tris[..|tris| - 1]) + TriangleBlock(tris[|tris| - 1])
  }

  // ---------------------------------------------------------------------
  // Decoding: flat buffers to mesh arrays

  /** The positions held in a vertex buffer: slots 0..2 of each six-float block. */
  function DecodePositions<T>(v: seq<T>): (r: seq<Vec3<T>>)
    requires |v| % 6 == 0
    ensures |r| == |v| / 6
  {
    if |v| == 0 then []
    else DecodePositions(v[..|v| - 6]) + [TripleAt(v, |v| - 6)]
  }

  /** The normals held in a vertex buffer: slots 3..5 of each six-float block. */
  function DecodeNormals<T>(v: seq<T>): (r: seq<Vec3<T>>)
    requires |v| % 6 == 0
    ensures |r| == |v| / 6
  {
    if |v| == 0 then []
    else DecodeNormals(v[..|v| - 6]) + [TripleAt(v, |v| - 3)]
  }

  /** The triangles held in an index buffer: each consecutive triple. */
  function DecodeTriangles(s: seq<u32>): (r: seq<Vec3<u32>>)
    requires |s| % 3 == 0
    ensures |r| == |s| / 3
  {
    if |s| == 0 then []
    else DecodeTriangles(s[..|s| - 3]) + [TripleAt(s, |s| - 3)]
  }

  /** The mesh a pair of flat buffers describes. No index is compared
      with the vertex count. */
  function DecodeMesh<T>(vertices: seq<T>, indices: seq<u32>): (m: Mesh<T>)
    requires |vertices| % 6 == 0 && |indices| % 3 == 0
    ensures NormalsMatch(m)
    ensures |m.vertPos| == |vertices| / 6 && |m.triVerts| == |indices| / 3
  {
    Mesh(DecodePositions(vertices), DecodeNormals(vertices), DecodeTriangles(indices))
  }

  // ---------------------------------------------------------------------
  // Layout: where each element lands

  /** Entries 6i..6i+5 of the vertex buffer are vertex i's position and normal. */
  lemma {:induction false} EncodeVerticesAt<T>(pos: seq<Vec3<T>>, nrm: seq<Vec3<T>>, i: nat)
    requires |pos| == |nrm| && i < |pos|
    ensures |EncodeVertices(pos, nrm)| == 6 * |pos|
    ensures EncodeVertices(pos, nrm)[6 * i..6 * i + 6] == VertexBlock(pos[i], nrm[i])
  {
    var n := |pos|;
    var front := EncodeVertices(pos[..n - 1], nrm[..n - 1]);
    assert EncodeVertices(pos, nrm) == front + VertexBlock(pos[n - 1], nrm[n - 1]);
    if i < n - 1 {
      EncodeVerticesAt(pos[..n - 1], nrm[..n - 1], i);
      assert (front + VertexBlock(pos[n - 1], nrm[n - 1]))[6 * i..6 * i + 6] == front[6 * i..6 * i + 6];
    } else {
      assert |front| == 6 * i;
    }
  }

  /** Entries 3k..3k+2 of the index buffer are triangle k's corners. */
  lemma {:induction false} EncodeIndicesAt(tris: seq<Vec3<u32>>, k: nat)
    requires k < |tris|
    ensures EncodeIndices(tris)[3 * k..3 * k + 3] == TriangleBlock(tris[k])
  {
    var n := |tris|;
    var front := EncodeIndices(tris[..n - 1]);
    assert EncodeIndices(tris) == front + TriangleBlock(tris[n - 1]);
    if k < n - 1 {
      EncodeIndicesAt(tris[..n - 1], k);
      assert (front + TriangleBlock(tris[n - 1]))[3 * k..3 * k + 3] == front[3 * k..3 * k + 3];
    }
  }

  /** The vertex buffer holds vertex v's position at offset 6v and its
      normal at offset 6v + 3. */
  lemma VertexFloats<T>(pos: seq<Vec3<T>>, nrm: seq<Vec3<T>>, v: nat)
    requires |pos| == |nrm| && v < |pos|
    ensures 6 * v + 5 < |EncodeVertices(pos, nrm)|
    ensures TripleAt(EncodeVertices(pos, nrm), 6 * v) == pos[v]
    ensures TripleAt(EncodeVertices(pos, nrm), 6 * v + 3) == nrm[v]
  {
    var e := EncodeVertices(pos, nrm);
    var o := 6 * v;
    EncodeVerticesAt(pos, nrm, v);
    var blk := e[o..o + 6];
    assert blk == VertexBlock(pos[v], nrm[v]);
    assert e[o] == blk[0] && e[o + 1] == blk[1] && e[o + 2] == blk[2];
    assert e[o + 3] == blk[3] && e[o + 4] == blk[4] && e[o + 5] == blk[5];
  }

  /** The index buffer holds triangle k's corners at offset 3k. */
  lemma TriangleEntries(tris: seq<Vec3<u32>>, k: nat)
    requires k < |tris|
    ensures 3 * k + 2 < |EncodeIndices(tris)|
    ensures TripleAt(EncodeIndices(tris), 3 * k) == tris[k]
  {
    var e := EncodeIndices(tris);
    var o := 3 * k;
    EncodeIndicesAt(tris, k);
    var blk := e[o..o + 3];
    assert blk == TriangleBlock(tris[k]);
    assert e[o] == blk[0] && e[o + 1] == blk[1] && e[o + 2] == blk[2];
  }

  /** Position i comes from entries 6i..6i+2 of the vertex buffer. */
  lemma {:induction false} DecodePositionsAt<T>(v: seq<T>, i: nat)
    requires |v| % 6 == 0 && i < |v| / 6
    ensures DecodePositions(v)[i] == TripleAt(v, 6 * i)
  {
    var front := v[..|v| - 6];
    if i < |v| / 6 - 1 {
      DecodePositionsAt(front, i);
      assert TripleAt(front, 6 * i) == TripleAt(v, 6 * i);
    }
  }

  /** Normal i comes from entries 6i+3..6i+5 of the vertex buffer. */
  lemma {:induction false} DecodeNormalsAt<T>(v: seq<T>, i: nat)
    requires |v| % 6 == 0 && i < |v| / 6
    ensures DecodeNormals(v)[i] == TripleAt(v, 6 * i + 3)
  {
    var front := v[..|v| - 6];
    if i < |v| / 6 - 1 {
      DecodeNormalsAt(front, i);
      assert TripleAt(front, 6 * i + 3) == TripleAt(v, 6 * i + 3);
    }
  }

  /** Triangle k comes from entries 3k..3k+2 of the index buffer. */
  lemma {:induction false} DecodeTrianglesAt(s: seq<u32>, k: nat)
    requires |s| % 3 == 0 && k < |s| / 3
    ensures DecodeTriangles(s)[k] == TripleAt(s, 3 * k)
  {
    var front := s[..|s| - 3];
    if k < |s| / 3 - 1 {
      DecodeTrianglesAt(front, k);
      assert TripleAt(front, 3 * k) == TripleAt(s, 3 * k);
    }
  }

  // ---------------------------------------------------------------------
  // Round trips

  /** Decoding the vertex buffer of (pos, nrm) gives back pos and nrm. */
  lemma {:induction false} DecodeEncodeVertices<T>(pos: seq<Vec3<T>>, nrm: seq<Vec3<T>>)
    requires |pos| == |nrm|
    ensures DecodePositions(EncodeVertices(pos, nrm)) == pos
    ensures DecodeNormals(EncodeVertices(pos, nrm)) == nrm
  {
    var e := EncodeVertices(pos, nrm);
    var dp, dn := DecodePositions(e), DecodeNormals(e);
    assert |e| / 6 == |pos|;
    forall i | 0 <= i < |pos|
      ensures dp[i] == pos[i] && dn[i] == nrm[i]
    {
      VertexFloats(pos, nrm, i);
      DecodePositionsAt(e, i);
      DecodeNormalsAt(e, i);
    }
  }

  /** Appending one vertex appends its six-float block. */
  lemma EncodeVerticesSnoc<T>(pos: seq<Vec3<T>>, nrm: seq<Vec3<T>>, p: Vec3<T>, n: Vec3<T>)
    requires |pos| == |nrm|
    ensures EncodeVertices(pos + [p], nrm + [n]) == EncodeVertices(pos, nrm) + VertexBlock(p, n)
  {
    assert (pos + [p])[..|pos|] == pos && (nrm + [n])[..|nrm|] == nrm;
  }

  /** A buffer is its front followed by the block made of its last six entries. */
  lemma LastBlock<T>(v: seq<T>, k: nat)
    requires k + 6 == |v|
    ensures v == v[..k] + VertexBlock(TripleAt(v, k), TripleAt(v, k + 3))
  {
    assert v[k..] == VertexBlock(TripleAt(v, k), TripleAt(v, k + 3));
    assert v == v[..k] + v[k..];
  }

  /** Re-encoding the arrays decoded from a vertex buffer gives back the buffer. */
  lemma {:induction false} EncodeDecodeVertices<T>(v: seq<T>)
    requires |v| % 6 == 0
    ensures EncodeVertices(DecodePositions(v), DecodeNormals(v)) == v
  {
    if |v| > 0 {
      var k := |v| - 6;
      var front := v[..k];
      var p, q := DecodePositions(front), DecodeNormals(front);
      var a, b := TripleAt(v, k), TripleAt(v, k + 3);
      EncodeDecodeVertices(front);
      EncodeVerticesSnoc(p, q, a, b);
      LastBlock(v, k);
    }
  }

  /** Decoding the index buffer of a triangle list gives back the list. */
  lemma {:induction false} DecodeEncodeIndices(tris: seq<Vec3<u32>>)
    ensures DecodeTriangles(EncodeIndices(tris)) == tris
  {
    var e := EncodeIndices(tris);
    var dt := DecodeTriangles(e);
    assert |e| / 3 == |tris|;
    forall k | 0 <= k < |tris|
      ensures dt[k] == tris[k]
    {
      TriangleEntries(tris, k);
      DecodeTrianglesAt(e, k);
    }
  }

  /** Appending one triangle appends its three-entry block. */
  lemma EncodeIndicesSnoc(tris: seq<Vec3<u32>>, t: Vec3<u32>)
    ensures EncodeIndices(tris + [t]) == EncodeIndices(tris) + TriangleBlock(t)
  {
    assert (tris + [t])[..|tris|] == tris;
  }

  /** A buffer is its front followed by the block made of its last three entries. */
  lemma LastTriple(s: seq<u32>, k: nat)
    requires k + 3 == |s|
    ensures s == s[..k] + TriangleBlock(TripleAt(s, k))
  {
    assert s[k..] == TriangleBlock(TripleAt(s, k));
    assert s == s[..k] + s[k..];
  }

  /** Re-encoding the triangles decoded from an index buffer gives back the buffer. */
  lemma {:induction false} EncodeDecodeIndices(s: seq<u32>)
    requires |s| % 3 == 0
    ensures EncodeIndices(DecodeTriangles(s)) == s
  {
    if |s| > 0 {
      var k := |s| - 3;
      var front := s[..k];
      EncodeDecodeIndices(front);
      EncodeIndicesSnoc(DecodeTriangles(front), TripleAt(s, k));
      LastTriple(s, k);
    }
  }

  /** Serialising a mesh and parsing the two buffers reproduces the mesh. */
  lemma MeshRoundTrip<T>(m: Mesh<T>)
    requires NormalsMatch(m)
    ensures DecodeMesh(EncodeVertices(m.vertPos, m.vertNormal), EncodeIndices(m.triVerts)) == m
  {
    DecodeEncodeVertices(m.vertPos, m.vertNormal);
    DecodeEncodeIndices(m.triVerts);
  }

  /** Parsing two well-sized buffers and serialising the mesh reproduces the buffers. */
  lemma BufferRoundTrip<T>(vertices: seq<T>, indices: seq<u32>)
    requires |vertices| % 6 == 0 && |indices| % 3 == 0
    ensures NormalsMatch(DecodeMesh(vertices, indices))
    ensures EncodeVertices(DecodeMesh(vertices, indices).vertPos, DecodeMesh(vertices, indices).vertNormal) == vertices
    ensures EncodeIndices(DecodeMesh(vertices, indices).triVerts) == indices
  {
    EncodeDecodeVertices(vertices);
    EncodeDecodeIndices(indices);
  }

  /** The triangles parsed from an index buffer do not depend on the vertex
      buffer at all. */
  lemma TrianglesIgnoreVertexCount<T>(v1: seq<T>, v2: seq<T>, indices: seq<u32>)
    requires |v1| % 6 == 0 && |v2| % 6 == 0 && |indices| % 3 == 0
    ensures DecodeMesh(v1, indices).triVerts == DecodeMesh(v2, indices).triVerts
  {
  }

  /** Triangle k of the parsed mesh is the index triple at 3k, whatever the
      vertex count: an index at or beyond it is kept verbatim. */
  lemma TriangleKeptVerbatim<T>(vertices: seq<T>, indices: seq<u32>, k: nat)
    requires |vertices| % 6 == 0 && |indices| % 3 == 0 && k < |indices| / 3
    ensures DecodeMesh(vertices, indices).triVerts[k] == TripleAt(indices, 3 * k)
  {
    DecodeTrianglesAt(indices, k);
  }
}
