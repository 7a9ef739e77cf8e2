/** The C++ side of the bridge: the mesh accessors that serialise a mesh to
    flat buffers, and the free function that parses flat buffers back into a
    mesh. Each push_back loop is a while loop whose invariant says which
    prefix of the result has been built. */
module ManifoldRs {
  import opened MeshCodec

  /** Mesh::vertices: six floats per vertex, position then normal, in vertex
      order. The source asserts that there is one normal per position. */
  method Vertices<T>(mesh: Mesh<T>) returns (vertices: seq<T>)
    requires NormalsMatch(mesh)
    ensures vertices == EncodeVertices(mesh.vertPos, mesh.vertNormal)
    ensures |vertices| == 6 * |mesh.vertPos|
    ensures forall i :: 0 <= i < |mesh.vertPos| ==>
      vertices[6 * i..6 * i + 6] == VertexBlock(mesh.vertPos[i], mesh.vertNormal[i])
  {
    var pos, nrm := mesh.vertPos, mesh.vertNormal;
    vertices := [];
    var i := 0;
    while i < |pos|
      invariant 0 <= i <= |pos|
      invariant vertices == EncodeVertices(pos[..i], nrm[..i])
    {
      ghost var before := vertices;
      vertices := vertices + [pos[i].x];
      vertices := vertices + [pos[i].y];
      vertices := vertices + [pos[i].z];
      vertices := vertices + [nrm[i].x];
      vertices := vertices + [nrm[i].y];
      vertices := vertices + [nrm[i].z];
      assert vertices == before + VertexBlock(pos[i], nrm[i]);
      assert pos[..i + 1] == pos[..i] + [pos[i]] && nrm[..i + 1] == nrm[..i] + [nrm[i]];
      EncodeVerticesSnoc(pos[..i], nrm[..i], pos[i], nrm[i]);
      i := i + 1;
    }
    assert pos[..i] == pos && nrm[..i] == nrm;
    forall j | 0 <= j < |pos|
      ensures vertices[6 * j..6 * j + 6] == VertexBlock(pos[j], nrm[j])
    {
      EncodeVerticesAt(pos, nrm, j);
    }
  }

  /** Mesh::indices: three entries per triangle, in triangle order. */
  method Indices<T>(mesh: Mesh<T>) returns (indices: seq<u32>)
    ensures indices == EncodeIndices(mesh.triVerts)
    ensures |indices| == 3 * |mesh.triVerts|
    ensures forall k :: 0 <= k < |mesh.triVerts| ==>
      indices[3 * k..3 * k + 3] == TriangleBlock(mesh.triVerts[k])
  {
    var tris := mesh.triVerts;
    indices := [];
    var i := 0;
    while i < |tris|
      invariant 0 <= i <= |tris|
      invariant indices == EncodeIndices(tris[..i])
    {
      indices := indices + [tris[i].x];
      indices := indices + [tris[i].y];
      indices := indices + [tris[i].z];
      assert tris[..i + 1][..i] == tris[..i];
      i := i + 1;
    }
    assert tris[..i] == tris;
    forall k | 0 <= k < |tris|
      ensures indices[3 * k..3 * k + 3] == TriangleBlock(tris[k])
    {
      EncodeIndicesAt(tris, k);
    }
  }

  /** mesh_from_vertices: one position and one normal per six floats, one
      triangle per three indices, each in buffer order. The source asserts
      both buffer lengths; it does not compare any index with the vertex
      count, so out-of-range indices are kept as given. */
  method MeshFromVertices<T>(vertices: seq<T>, indices: seq<u32>) returns (mesh: Mesh<T>)
    requires |vertices| % 6 == 0 && |indices| % 3 == 0
    ensures mesh == DecodeMesh(vertices, indices)
    ensures |mesh.vertPos| == |mesh.vertNormal| == |vertices| / 6
    ensures |mesh.triVerts| == |indices| / 3
    ensures forall i :: 0 <= i < |mesh.vertPos| ==>
      mesh.vertPos[i] == TripleAt(vertices, 6 * i) && mesh.vertNormal[i] == TripleAt(vertices, 6 * i + 3)
    ensures forall k :: 0 <= k < |mesh.triVerts| ==> mesh.triVerts[k] == TripleAt(indices, 3 * k)
  {
    var vertPos: seq<Vec3<T>> := [];
    var vertNormal: seq<Vec3<T>> := [];
    var i := 0;
    while i < |vertices|
      invariant 0 <= i <= |vertices| && i % 6 == 0
      invariant vertPos == DecodePositions(vertices[..i])
      invariant vertNormal == DecodeNormals(vertices[..i])
    {
      vertPos := vertPos + [Vec3(vertices[i], vertices[i + 1], vertices[i + 2])];
      vertNormal := vertNormal + [Vec3(vertices[i + 3], vertices[i + 4], vertices[i + 5])];
      assert vertices[..i + 6][..i] == vertices[..i];
      i := i + 6;
    }
    var triVerts: seq<Vec3<u32>> := [];
    var j := 0;
    while j < |indices|
      invariant 0 <= j <= |indices| && j % 3 == 0
      invariant triVerts == DecodeTriangles(indices[..j])
    {
      triVerts := triVerts + [Vec3(indices[j], indices[j + 1], indices[j + 2])];
      assert indices[..j + 3][..j] == indices[..j];
      j := j + 3;
    }
    assert vertices[..i] == vertices && indices[..j] == indices;
    mesh := Mesh(vertPos, vertNormal, triVerts);
    forall n | 0 <= n < |vertPos|
      ensures vertPos[n] == TripleAt(vertices, 6 * n) && vertNormal[n] == TripleAt(vertices, 6 * n + 3)
    {
      DecodePositionsAt(vertices, n);
      DecodeNormalsAt(vertices, n);
    }
    forall k | 0 <= k < |triVerts|
      ensures triVerts[k] == TripleAt(indices, 3 * k)
    {
      DecodeTrianglesAt(indices, k);
    }
  }
}
