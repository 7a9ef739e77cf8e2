/** The Rust wrapper over the C++ bridge. Each Rust type holds one C++ handle
    and each of its methods forwards to one bridge function.

    The solid-modelling operations live in the Manifold library, whose code is
    not part of this model; they are the fields of an `Ffi` record, so every
    property here holds whatever those operations compute. `M` is the type of
    a C++ Manifold handle and `T` the float type. */
module ManifoldLib {
  import C = MeshCodec

  /** The foreign bridge functions the wrapper calls. */
  datatype Ffi<!M, !T> = Ffi(
    union_: (M, M) -> M,
    intersection: (M, M) -> M,
    difference: (M, M) -> M,
    meshFromManifold: M -> C.Mesh<T>,
    manifoldFromMesh: C.Mesh<T> -> M)

  datatype BooleanOp = Union | Intersection | Difference

  /** A Rust Manifold: a wrapper around one C++ Manifold handle. */
  datatype Manifold<M> = Manifold(inner: M)
  {
    function Union<T>(ffi: Ffi<M, T>, b: Manifold<M>): Manifold<M> {
      Manifold(ffi.union_(inner, b.inner))
    }

    function Intersection<T>(ffi: Ffi<M, T>, b: Manifold<M>): Manifold<M> {
      Manifold(ffi.intersection(inner, b.inner))
    }

    function Difference<T>(ffi: Ffi<M, T>, b: Manifold<M>): Manifold<M> {
      Manifold(ffi.difference(inner, b.inner))
    }

    function BooleanOp<T>(ffi: Ffi<M, T>, b: Manifold<M>, op: BooleanOp): Manifold<M> {
      match op
      case Union => Union(ffi, b)
      case Intersection => Intersection(ffi, b)
      case Difference => Difference(ffi, b)
    }

    function ToMesh<T>(ffi: Ffi<M, T>): Mesh<T> {
      Mesh(ffi.meshFromManifold(inner))
    }

    /** Manifold::from_mesh, which is `mesh.into()`. */
    static function FromMesh<T>(ffi: Ffi<M, T>, mesh: Mesh<T>): Manifold<M> {
      From(ffi, mesh)
    }

    /** `impl From<Mesh> for Manifold`. */
    static function From<T>(ffi: Ffi<M, T>, mesh: Mesh<T>): Manifold<M> {
      mesh.ToManifold(ffi)
    }
  }

  /** A Rust Mesh: a wrapper around one C++ Mesh. */
  datatype Mesh<T> = Mesh(inner: C.Mesh<T>)
  {
    /** Mesh::new, which hands both slices to mesh_from_vertices; the C++
        side asserts the two length conditions required here. */
    static function New(vertices: seq<T>, indices: seq<C.u32>): (m: Mesh<T>)
      requires |vertices| % 6 == 0 && |indices| % 3 == 0
      ensures C.NormalsMatch(m.inner)
      ensures |m.inner.vertPos| == |vertices| / 6 && |m.inner.triVerts| == |indices| / 3
    {
      Mesh(C.DecodeMesh(vertices, indices))
    }

    /** Mesh::vertices, a copy of the C++ vertex buffer. */
    function Vertices(): (v: seq<T>)
      requires C.NormalsMatch(inner)
      ensures |v| == 6 * |inner.vertPos|
      ensures forall i :: 0 <= i < |inner.vertPos| ==>
        v[6 * i..6 * i + 6] == C.VertexBlock(inner.vertPos[i], inner.vertNormal[i])
    {
      var v := C.EncodeVertices(inner.vertPos, inner.vertNormal);
      assert forall i :: 0 <= i < |inner.vertPos| ==>
        v[6 * i..6 * i + 6] == C.VertexBlock(inner.vertPos[i], inner.vertNormal[i]) by {
        forall i | 0 <= i < |inner.vertPos|
          ensures v[6 * i..6 * i + 6] == C.VertexBlock(inner.vertPos[i], inner.vertNormal[i])
        {
          C.EncodeVerticesAt(inner.vertPos, inner.vertNormal, i);
        }
      }
      v
    }

    /** Mesh::indices, a copy of the C++ index buffer. */
    function Indices(): (s: seq<C.u32>)
      ensures |s| == 3 * |inner.triVerts|
      ensures forall k :: 0 <= k < |inner.triVerts| ==>
        s[3 * k..3 * k + 3] == C.TriangleBlock(inner.triVerts[k])
    {
      var s := C.EncodeIndices(inner.triVerts);
      assert forall k :: 0 <= k < |inner.triVerts| ==>
        s[3 * k..3 * k + 3] == C.TriangleBlock(inner.triVerts[k]) by {
        forall k | 0 <= k < |inner.triVerts|
          ensures s[3 * k..3 * k + 3] == C.TriangleBlock(inner.triVerts[k])
        {
          C.EncodeIndicesAt(inner.triVerts, k);
        }
      }
      s
    }

    /** Mesh::manifold (a Rust method named `manifold`). */
    function ToManifold<M>(ffi: Ffi<M, T>): Manifold<M> {
      Manifold(ffi.manifoldFromMesh(inner))
    }

    /** `impl From<Manifold> for Mesh`. */
    static function From<M>(ffi: Ffi<M, T>, manifold: Manifold<M>): Mesh<T> {
      manifold.ToMesh(ffi)
    }
  }

  /** The dispatch in boolean_op is exhaustive and routes each operation to
      its own bridge function with the receiver as the first operand. */
  lemma BooleanOpDispatch<M, T>(ffi: Ffi<M, T>, a: Manifold<M>, b: Manifold<M>, op: BooleanOp)
    ensures op == Union ==> a.BooleanOp(ffi, b, op) == a.Union(ffi, b) == Manifold(ffi.union_(a.inner, b.inner))
    ensures op == Intersection ==>
      a.BooleanOp(ffi, b, op) == a.Intersection(ffi, b) == Manifold(ffi.intersection(a.inner, b.inner))
    ensures op == Difference ==>
      a.BooleanOp(ffi, b, op) == a.Difference(ffi, b) == Manifold(ffi.difference(a.inner, b.inner))
  {
  }

  /** Manifold::from_mesh, `From<Mesh> for Manifold` and Mesh::manifold are
      one conversion, and `From<Manifold> for Mesh` is Manifold::to_mesh. */
  lemma ConversionsAgree<M, T>(ffi: Ffi<M, T>, mesh: Mesh<T>, manifold: Manifold<M>)
    ensures Manifold.FromMesh(ffi, mesh) == Manifold.From(ffi, mesh) == mesh.ToManifold(ffi)
    ensures mesh.ToManifold(ffi).inner == ffi.manifoldFromMesh(mesh.inner)
    ensures Mesh.From(ffi, manifold) == manifold.ToMesh(ffi) == Mesh(ffi.meshFromManifold(manifold.inner))
  {
  }

  /** Mesh::new over a mesh's own buffers rebuilds the same mesh. */
  lemma NewFromAccessors<T>(m: Mesh<T>)
    requires C.NormalsMatch(m.inner)
    ensures Mesh.New(m.Vertices(), m.Indices()) == m
  {
    C.MeshRoundTrip(m.inner);
  }

  /** The accessors of Mesh::new(v, i) give back v and i element for element. */
  lemma AccessorsOfNew<T>(vertices: seq<T>, indices: seq<C.u32>)
    requires |vertices| % 6 == 0 && |indices| % 3 == 0
    ensures Mesh.New(vertices, indices).Vertices() == vertices
    ensures Mesh.New(vertices, indices).Indices() == indices
  {
    C.BufferRoundTrip(vertices, indices);
  }
}
