/** The ASCII STL writer of the example program: it walks the index buffer
    three entries at a time, fetches each corner's position from the vertex
    buffer at offset 3 * index, and writes one seven-line facet per triangle
    between a `solid` and an `endsolid` line. It also holds the circle
    generator and the map that turns a circle into a hole contour.

    Float values are opaque: the facet normal, the circle's trigonometry and
    float negation are parameters. A slice index out of range makes Rust
    panic; that is the `Panic` outcome here. */
module WriteStl {
  import opened MeshCodec

  /** A vertex with a position. */
  datatype Vertex<T> = Vertex(pos: Vec3<T>)

  /** Three vertices, in corner order. */
  datatype Triangle<T> = Triangle(v0: Vertex<T>, v1: Vertex<T>, v2: Vertex<T>)

  /** A value, or a panic from an out-of-range slice index. */
  datatype Outcome<R> = Ok(value: R) | Panic

  /** The offset factor write_stl applies to each index. */
  const CornerStride: nat := 3

  /** The offset factor that matches the six-float vertex blocks of
      Mesh::vertices (see Findings in README.md). */
  const InterleavedStride: nat := 6

  // ---------------------------------------------------------------------
  // Corner fetch and triangle assembly

  /** Vertex::from_slice_and_offset: the three floats at offset, offset + 1
      and offset + 2; a panic unless all three are inside the slice. */
  function FromSliceAndOffset<T>(slice: seq<T>, offset: nat): (r: Outcome<Vertex<T>>)
    ensures r.Ok? <==> offset + 2 < |slice|
    ensures r.Ok? ==> r.value.pos == Vec3(slice[offset], slice[offset + 1], slice[offset + 2])
  {
    if offset + 2 < |slice| then Ok(Vertex(TripleAt(slice, offset))) else Panic
  }

  /** Iteration k of the loop over the index buffer (i = 3k): the triangle
      whose corners sit at offsets stride * indices[i], stride * indices[i + 1]
      and stride * indices[i + 2], fetched in that order. Reading
      indices[i + 1] or indices[i + 2] past the end panics. */
  function Facet<T>(vertices: seq<T>, indices: seq<u32>, stride: nat, k: nat): Outcome<Triangle<T>>
    requires 3 * k < |indices|
  {
    var i := 3 * k;
    var c0 := FromSliceAndOffset(vertices, stride * indices[i]);
    if c0.Panic? || i + 1 >= |indices| then Panic
    else
      var c1 := FromSliceAndOffset(vertices, stride * indices[i + 1]);
      if c1.Panic? || i + 2 >= |indices| then Panic
      else
        var c2 := FromSliceAndOffset(vertices, stride * indices[i + 2]);
        if c2.Panic? then Panic else Ok(Triangle(c0.value, c1.value, c2.value))
  }

  /** The facets built so far and whether the loop has panicked. */
  datatype Assembly<T> = Assembly(facets: seq<Triangle<T>>, panicked: bool)

  /** How many times `(0..n).step_by(3)` runs its body. */
  function TripleCount(n: nat): (c: nat)
    ensures n <= 3 * c <= n + 2
  {
    (n + 2) / 3
  }

  /** The loop state after its first k iterations; once it has panicked it
      stays as it was. */
  function AssembleFirst<T>(vertices: seq<T>, indices: seq<u32>, stride: nat, k: nat): Assembly<T>
    requires 3 * k <= |indices| + 2
  {
    if k == 0 then Assembly([], false)
    else
      var a := AssembleFirst(vertices, indices, stride, k - 1);
      if a.panicked then a
      else match Facet(vertices, indices, stride, k - 1)
        case Panic => Assembly(a.facets, true)
        case Ok(t) => Assembly(a.facets + [t], false)
  }

  /** The facets of the whole loop. */
  function Assemble<T>(vertices: seq<T>, indices: seq<u32>, stride: nat): Assembly<T> {
    AssembleFirst(vertices, indices, stride, TripleCount(|indices|))
  }

  // ---------------------------------------------------------------------
  // Output lines

  /** One line of ASCII STL, with its float fields left unformatted. */
  datatype StlLine<T> =
    | Solid
    | FacetNormal(normal: Vec3<T>)
    | OuterLoop
    | VertexLine(pos: Vec3<T>)
    | EndLoop
    | EndFacet
    | EndSolid

  /** The seven lines Triangle::write_stl emits for one triangle. */
  function FacetLines<T>(t: Triangle<T>, normal: Triangle<T> -> Vec3<T>): seq<StlLine<T>> {
    [FacetNormal(normal(t)), OuterLoop, VertexLine(t.v0.pos), VertexLine(t.v1.pos), VertexLine(t.v2.pos), EndLoop, EndFacet]
  }

  /** The facet lines of a triangle list, in list order. */
  function FacetsText<T>(ts: seq<Triangle<T>>, normal: Triangle<T> -> Vec3<T>): (r: seq<StlLine<T>>)
    ensures |r| == 7 * |ts|
  {
    if |ts| == 0 then []
    else FacetsText(ts[..|ts| - 1], normal) + FacetLines(ts[|ts| - 1], normal)
  }

  /** Everything write_stl writes: `solid`, the facets, and `endsolid`
      unless the loop panicked. */
  function StlText<T>(vertices: seq<T>, indices: seq<u32>, normal: Triangle<T> -> Vec3<T>): seq<StlLine<T>> {
    var a := Assemble(vertices, indices, CornerStride);
    [Solid] + FacetsText(a.facets, normal) + (if a.panicked then [] else [EndSolid])
  }

  /** The writer that receives the lines. */
  class LineWriter<T> {
    var lines: seq<StlLine<T>>

    constructor ()
      ensures lines == []
    {
      lines := [];
    }

    method WriteLine(line: StlLine<T>)
      modifies this
      ensures lines == old(lines) + [line]
    {
      lines := lines + [line];
    }
  }

  /** Triangle::write_stl: the normal line, the loop of three vertex lines,
      and the closing lines. */
  method WriteTriangle<T>(t: Triangle<T>, normal: Triangle<T> -> Vec3<T>, w: LineWriter<T>)
    modifies w
    ensures w.lines == old(w.lines) + FacetLines(t, normal)
  {
    var n := normal(t);
    w.WriteLine(FacetNormal(n));
    w.WriteLine(OuterLoop);
    w.WriteLine(VertexLine(t.v0.pos));
    w.WriteLine(VertexLine(t.v1.pos));
    w.WriteLine(VertexLine(t.v2.pos));
    w.WriteLine(EndLoop);
    w.WriteLine(EndFacet);
  }

  /** The body of write_stl's loop before it writes: the three corners of
      the triangle at index-buffer position i, or the panic that fetching
      them raises. `Facet` is the same fetch as a function, with the stride
      as a parameter. */
  method FetchTriangle<T>(vertices: seq<T>, indices: seq<u32>, i: nat, ghost k: nat) returns (r: Outcome<Triangle<T>>)
    requires i == 3 * k && i < |indices|
    ensures r == Facet(vertices, indices, CornerStride, k)
  {
    var c0 := FromSliceAndOffset(vertices, (indices[i] as nat) * 3);
    if c0.Panic? || i + 1 >= |indices| {
      return Panic;
    }
    var c1 := FromSliceAndOffset(vertices, (indices[i + 1] as nat) * 3);
    if c1.Panic? || i + 2 >= |indices| {
      return Panic;
    }
    var c2 := FromSliceAndOffset(vertices, (indices[i + 2] as nat) * 3);
    if c2.Panic? {
      return Panic;
    }
    return Ok(Triangle(c0.value, c1.value, c2.value));
  }

  /** write_stl: returns true when the loop panicked, after the lines
      written before the panic. */
  method WriteStlFile<T>(vertices: seq<T>, indices: seq<u32>, normal: Triangle<T> -> Vec3<T>, w: LineWriter<T>)
    returns (panicked: bool)
    modifies w
    ensures panicked == Assemble(vertices, indices, CornerStride).panicked
    ensures w.lines == old(w.lines) + StlText(vertices, indices, normal)
  {
    w.WriteLine(Solid);
    ghost var facets;
    panicked, facets := WriteFacets(vertices, indices, normal, w);
    if !panicked {
      w.WriteLine(EndSolid);
    }
  }

  /** The loop of write_stl: one facet per index triple, until the end of
      the buffer or the first panic. */
  method WriteFacets<T>(vertices: seq<T>, indices: seq<u32>, normal: Triangle<T> -> Vec3<T>, w: LineWriter<T>)
    returns (panicked: bool, ghost facets: seq<Triangle<T>>)
    modifies w
    ensures Assemble(vertices, indices, CornerStride) == Assembly(facets, panicked)
    ensures w.lines == old(w.lines) + FacetsText(facets, normal)
  {
    var i := 0;
    ghost var k := 0;
    facets := [];
    while i < |indices|
      invariant i == 3 * k <= |indices| + 2
      invariant AssembleFirst(vertices, indices, CornerStride, k) == Assembly(facets, false)
      invariant w.lines == old(w.lines) + FacetsText(facets, normal)
      decreases |indices| - i
    {
      var r := FetchTriangle(vertices, indices, i, k);
      if r.Panic? {
        PanicStep(vertices, indices, CornerStride, k, facets);
        PanicPersists(vertices, indices, CornerStride, k + 1, Assembly(facets, true));
        return true, facets;
      }
      WriteTriangle(r.value, normal, w);
      AssembleStep(vertices, indices, CornerStride, k, facets, r.value);
      TextStep(old(w.lines), facets, r.value, normal);
      i, k, facets := i + 3, k + 1, facets + [r.value];
    }
    assert k == TripleCount(|indices|);
    return false, facets;
  }

  // ---------------------------------------------------------------------
  // What the assembly loop produces

  /** An iteration that yields a triangle appends it. */
  lemma AssembleStep<T>(vertices: seq<T>, indices: seq<u32>, stride: nat, k: nat,
                        facets: seq<Triangle<T>>, t: Triangle<T>)
    requires 3 * k < |indices|
    requires AssembleFirst(vertices, indices, stride, k) == Assembly(facets, false)
    requires Facet(vertices, indices, stride, k) == Ok(t)
    ensures AssembleFirst(vertices, indices, stride, k + 1) == Assembly(facets + [t], false)
  {
  }

  /** Writing one more facet after the text `before + FacetsText(facets)`
      gives the text of the longer facet list. */
  lemma TextStep<T>(before: seq<StlLine<T>>, facets: seq<Triangle<T>>, t: Triangle<T>, normal: Triangle<T> -> Vec3<T>)
    ensures before + FacetsText(facets + [t], normal) == before + FacetsText(facets, normal) + FacetLines(t, normal)
  {
    assert (facets + [t])[..|facets|] == facets;
  }

  /** An iteration that panics marks the loop state as panicked and adds no facet. */
  lemma PanicStep<T>(vertices: seq<T>, indices: seq<u32>, stride: nat, k: nat, facets: seq<Triangle<T>>)
    requires 3 * k < |indices|
    requires AssembleFirst(vertices, indices, stride, k) == Assembly(facets, false)
    requires Facet(vertices, indices, stride, k).Panic?
    ensures AssembleFirst(vertices, indices, stride, k + 1) == Assembly(facets, true)
  {
  }

  /** After a panic, the remaining iterations change nothing. */
  lemma {:induction false} PanicPersists<T>(vertices: seq<T>, indices: seq<u32>, stride: nat, k: nat, a: Assembly<T>)
    requires 3 * k <= |indices| + 2
    requires AssembleFirst(vertices, indices, stride, k) == a && a.panicked
    ensures Assemble(vertices, indices, stride) == a
    decreases TripleCount(|indices|) - k
  {
    if k < TripleCount(|indices|) {
      PanicPersists(vertices, indices, stride, k + 1, a);
    }
  }

  /** The first k iterations panic exactly when one of them does; otherwise
      they yield k facets, facet j from iteration j. */
  lemma {:induction false} AssembleFirstFacets<T>(vertices: seq<T>, indices: seq<u32>, stride: nat, k: nat)
    requires 3 * k <= |indices| + 2
    ensures AssembleFirst(vertices, indices, stride, k).panicked <==>
      exists j :: 0 <= j < k && Facet(vertices, indices, stride, j).Panic?
    ensures !AssembleFirst(vertices, indices, stride, k).panicked ==>
      |AssembleFirst(vertices, indices, stride, k).facets| == k &&
      forall j :: 0 <= j < k ==> Facet(vertices, indices, stride, j) == Ok(AssembleFirst(vertices, indices, stride, k).facets[j])
  {
    if k > 0 {
      AssembleFirstFacets(vertices, indices, stride, k - 1);
      var a := AssembleFirst(vertices, indices, stride, k - 1);
      if !a.panicked && Facet(vertices, indices, stride, k - 1).Ok? {
        var t := Facet(vertices, indices, stride, k - 1).value;
        assert forall j :: 0 <= j < k - 1 ==> (a.facets + [t])[j] == a.facets[j];
      }
    }
  }

  /** Iteration k succeeds exactly when it has three indices and all three
      corners are in the vertex buffer. */
  lemma FacetOk<T>(vertices: seq<T>, indices: seq<u32>, stride: nat, k: nat)
    requires 3 * k < |indices|
    ensures Facet(vertices, indices, stride, k).Ok? <==>
      3 * k + 2 < |indices| &&
      stride * indices[3 * k] + 2 < |vertices| &&
      stride * indices[3 * k + 1] + 2 < |vertices| &&
      stride * indices[3 * k + 2] + 2 < |vertices|
    ensures Facet(vertices, indices, stride, k).Ok? ==>
      Facet(vertices, indices, stride, k).value == Triangle(
        Vertex(TripleAt(vertices, stride * indices[3 * k])),
        Vertex(TripleAt(vertices, stride * indices[3 * k + 1])),
        Vertex(TripleAt(vertices, stride * indices[3 * k + 2])))
  {
  }

  /** The loop runs to `endsolid` exactly when the index buffer holds whole
      triples and every corner offset leaves three floats in the vertex buffer. */
  lemma AssembleSucceeds<T>(vertices: seq<T>, indices: seq<u32>, stride: nat)
    ensures !Assemble(vertices, indices, stride).panicked <==>
      |indices| % 3 == 0 && forall i :: 0 <= i < |indices| ==> stride * indices[i] + 2 < |vertices|
  {
    var n := TripleCount(|indices|);
    AssembleFirstFacets(vertices, indices, stride, n);
    if |indices| % 3 != 0 {
      FacetOk(vertices, indices, stride, n - 1);
    }
    if !Assemble(vertices, indices, stride).panicked {
      forall i | 0 <= i < |indices|
        ensures stride * indices[i] + 2 < |vertices|
      {
        FacetOk(vertices, indices, stride, i / 3);
        assert i == 3 * (i / 3) || i == 3 * (i / 3) + 1 || i == 3 * (i / 3) + 2;
      }
    } else {
      var j :| 0 <= j < n && Facet(vertices, indices, stride, j).Panic?;
      FacetOk(vertices, indices, stride, j);
    }
  }

  /** A partial final triple makes the loop panic. */
  lemma PartialTriplePanics<T>(vertices: seq<T>, indices: seq<u32>, stride: nat)
    requires |indices| % 3 != 0
    ensures Assemble(vertices, indices, stride).panicked
  {
    AssembleSucceeds(vertices, indices, stride);
  }

  /** When the loop does not panic it yields one facet per index triple, in
      index-buffer order, facet k taking its corners from offsets
      stride * indices[3k], stride * indices[3k + 1], stride * indices[3k + 2]. */
  lemma AssembleFacets<T>(vertices: seq<T>, indices: seq<u32>, stride: nat, k: nat)
    requires !Assemble(vertices, indices, stride).panicked
    requires k < |indices| / 3
    ensures |Assemble(vertices, indices, stride).facets| == |indices| / 3
    ensures 3 * k + 2 < |indices|
    ensures stride * indices[3 * k] + 2 < |vertices|
    ensures stride * indices[3 * k + 1] + 2 < |vertices|
    ensures stride * indices[3 * k + 2] + 2 < |vertices|
    ensures Assemble(vertices, indices, stride).facets[k] == Triangle(
      Vertex(TripleAt(vertices, stride * indices[3 * k])),
      Vertex(TripleAt(vertices, stride * indices[3 * k + 1])),
      Vertex(TripleAt(vertices, stride * indices[3 * k + 2])))
  {
    AssembleSucceeds(vertices, indices, stride);
    AssembleFirstFacets(vertices, indices, stride, TripleCount(|indices|));
    FacetOk(vertices, indices, stride, k);
  }

  /** Facet k's seven lines sit at lines 7k..7k+6 of the facet text. */
  lemma {:induction false} FacetsTextAt<T>(ts: seq<Triangle<T>>, normal: Triangle<T> -> Vec3<T>, k: nat)
    requires k < |ts|
    ensures FacetsText(ts, normal)[7 * k..7 * k + 7] == FacetLines(ts[k], normal)
  {
    var n := |ts|;
    var front := FacetsText(ts[..n - 1], normal);
    assert FacetsText(ts, normal) == front + FacetLines(ts[n - 1], normal);
    if k < n - 1 {
      FacetsTextAt(ts[..n - 1], normal, k);
      assert (front + FacetLines(ts[n - 1], normal))[7 * k..7 * k + 7] == front[7 * k..7 * k + 7];
    }
  }

  /** A run that does not panic writes `solid`, seven lines for each index
      triple in buffer order, and `endsolid`; a run that panics never writes
      `endsolid`. */
  lemma StlTextLayout<T>(vertices: seq<T>, indices: seq<u32>, normal: Triangle<T> -> Vec3<T>, k: nat)
    ensures StlText(vertices, indices, normal)[0] == Solid
    ensures EndSolid in StlText(vertices, indices, normal) <==> !Assemble(vertices, indices, CornerStride).panicked
    ensures !Assemble(vertices, indices, CornerStride).panicked ==>
      |StlText(vertices, indices, normal)| == 2 + 7 * (|indices| / 3) &&
      StlText(vertices, indices, normal)[|StlText(vertices, indices, normal)| - 1] == EndSolid &&
      (k < |indices| / 3 ==>
        StlText(vertices, indices, normal)[1 + 7 * k..8 + 7 * k] ==
        FacetLines(Assemble(vertices, indices, CornerStride).facets[k], normal))
  {
    var a := Assemble(vertices, indices, CornerStride);
    FacetsTextNoEndSolid(a.facets, normal);
    if !a.panicked {
      CompleteLayout(vertices, indices, normal);
      if k < |indices| / 3 {
        FacetLayoutAt(a.facets, normal, k);
      }
    }
  }

  /** The text of a run that does not panic, and its facet count. */
  lemma CompleteLayout<T>(vertices: seq<T>, indices: seq<u32>, normal: Triangle<T> -> Vec3<T>)
    requires !Assemble(vertices, indices, CornerStride).panicked
    ensures |Assemble(vertices, indices, CornerStride).facets| == |indices| / 3
    ensures StlText(vertices, indices, normal) ==
      [Solid] + FacetsText(Assemble(vertices, indices, CornerStride).facets, normal) + [EndSolid]
  {
    AssembleSucceeds(vertices, indices, CornerStride);
    AssembleFirstFacets(vertices, indices, CornerStride, TripleCount(|indices|));
  }

  /** Facet k's lines sit at lines 7k + 1..7k + 7 once `solid` comes first. */
  lemma FacetLayoutAt<T>(ts: seq<Triangle<T>>, normal: Triangle<T> -> Vec3<T>, k: nat)
    requires k < |ts|
    ensures ([Solid] + FacetsText(ts, normal) + [EndSolid])[1 + 7 * k..8 + 7 * k] == FacetLines(ts[k], normal)
  {
    var body := FacetsText(ts, normal);
    var o := 7 * k;
    FacetsTextAt(ts, normal, k);
    SliceOfFront([Solid] + body, [EndSolid], 1 + o, 8 + o);
    SliceAfterHead(Solid, body, o, o + 7);
  }

  /** A slice that ends inside the front part of a concatenation. */
  lemma SliceOfFront<X>(a: seq<X>, b: seq<X>, i: nat, j: nat)
    requires i <= j <= |a|
    ensures (a + b)[i..j] == a[i..j]
  {
  }

  /** A slice behind a one-element head. */
  lemma SliceAfterHead<X>(h: X, a: seq<X>, i: nat, j: nat)
    requires i <= j <= |a|
    ensures ([h] + a)[1 + i..1 + j] == a[i..j]
  {
  }

  /** Facet lines never include `endsolid`. */
  lemma {:induction false} FacetsTextNoEndSolid<T>(ts: seq<Triangle<T>>, normal: Triangle<T> -> Vec3<T>)
    ensures EndSolid !in FacetsText(ts, normal)
  {
    if |ts| > 0 {
      FacetsTextNoEndSolid(ts[..|ts| - 1], normal);
    }
  }

  // ---------------------------------------------------------------------
  // The producer's stride against the reader's stride

  /** The triangles of a mesh, as positions looked up through its indices. */
  function MeshFacets<T>(m: Mesh<T>): seq<Triangle<T>>
    requires IndicesInRange(m)
  {
    seq(|m.triVerts|, k requires 0 <= k < |m.triVerts| =>
      Triangle(Vertex(m.vertPos[m.triVerts[k].x]), Vertex(m.vertPos[m.triVerts[k].y]), Vertex(m.vertPos[m.triVerts[k].z])))
  }

  /** Every index of every triangle names a vertex of the mesh. */
  predicate IndicesInRange<T>(m: Mesh<T>) {
    forall k :: 0 <= k < |m.triVerts| ==>
      m.triVerts[k].x < |m.vertPos| && m.triVerts[k].y < |m.vertPos| && m.triVerts[k].z < |m.vertPos|
  }

  /** As written, write_stl reads corner `index` of a buffer made by
      Mesh::vertices at offset 3 * index: an even index lands on the position
      of vertex index / 2, an odd one on the normal of vertex index / 2, and
      only indices below twice the vertex count are inside the buffer. */
  lemma StlCornerOfEncodedBuffer<T>(pos: seq<Vec3<T>>, nrm: seq<Vec3<T>>, index: u32)
    requires |pos| == |nrm|
    ensures FromSliceAndOffset(EncodeVertices(pos, nrm), CornerStride * index).Ok? <==> index < 2 * |pos|
    ensures index < 2 * |pos| ==>
      FromSliceAndOffset(EncodeVertices(pos, nrm), CornerStride * index) ==
      Ok(Vertex(if index % 2 == 0 then pos[index / 2] else nrm[index / 2]))
  {
    var v, r := index / 2, index % 2;
    assert index == 2 * v + r && (r == 0 || r == 1);
    if index < 2 * |pos| {
      VertexFloats(pos, nrm, v);
      if r == 0 {
        assert CornerStride * index == 6 * v;
      } else {
        assert CornerStride * index == 6 * v + 3;
      }
    }
  }

  /** A three-vertex mesh with one triangle (0, 1, 2): as written, the STL
      facet's second corner is vertex 0's normal and its third corner is
      vertex 1's position, not the mesh's triangle. */
  lemma StrideMismatchExample()
    ensures var m := Mesh([Vec3(0, 0, 0), Vec3(1, 0, 0), Vec3(0, 1, 0)],
                          [Vec3(0, 0, 1), Vec3(0, 0, 1), Vec3(0, 0, 1)],
                          [Vec3(0, 1, 2)]);
            var a := Assemble(EncodeVertices(m.vertPos, m.vertNormal), EncodeIndices(m.triVerts), CornerStride);
            IndicesInRange(m) && !a.panicked &&
            a.facets == [Triangle(Vertex(Vec3(0, 0, 0)), Vertex(Vec3(0, 0, 1)), Vertex(Vec3(1, 0, 0)))] &&
            a.facets != MeshFacets(m)
  {
    var m := Mesh([Vec3(0, 0, 0), Vec3(1, 0, 0), Vec3(0, 1, 0)],
                  [Vec3(0, 0, 1), Vec3(0, 0, 1), Vec3(0, 0, 1)],
                  [Vec3(0, 1, 2)]);
    var v := EncodeVertices(m.vertPos, m.vertNormal);
    var s := EncodeIndices(m.triVerts);
    EncodeIndicesAt(m.triVerts, 0);
    assert s == [0, 1, 2];
    StlCornerOfEncodedBuffer(m.vertPos, m.vertNormal, 0);
    StlCornerOfEncodedBuffer(m.vertPos, m.vertNormal, 1);
    StlCornerOfEncodedBuffer(m.vertPos, m.vertNormal, 2);
    var a := Assemble(v, s, CornerStride);
    assert Facet(v, s, CornerStride, 0) == Ok(Triangle(Vertex(Vec3(0, 0, 0)), Vertex(Vec3(0, 0, 1)), Vertex(Vec3(1, 0, 0))));
    assert a == AssembleFirst(v, s, CornerStride, 1);
    assert MeshFacets(m)[0].v1 == Vertex(Vec3(1, 0, 0));
  }

  /** With offset 6 * index, assembling the buffers of a mesh whose indices
      are in range never panics and yields exactly the mesh's triangles. */
  lemma InterleavedStrideRecoversMesh<T>(m: Mesh<T>)
    requires NormalsMatch(m) && IndicesInRange(m)
    ensures !Assemble(EncodeVertices(m.vertPos, m.vertNormal), EncodeIndices(m.triVerts), InterleavedStride).panicked
    ensures Assemble(EncodeVertices(m.vertPos, m.vertNormal), EncodeIndices(m.triVerts), InterleavedStride).facets == MeshFacets(m)
  {
    var v := EncodeVertices(m.vertPos, m.vertNormal);
    var s := EncodeIndices(m.triVerts);
    forall i | 0 <= i < |s|
      ensures InterleavedStride * s[i] + 2 < |v|
    {
      EncodedIndexInRange(m, i);
    }
    AssembleSucceeds(v, s, InterleavedStride);
    AssembleFirstFacets(v, s, InterleavedStride, TripleCount(|s|));
    var a := Assemble(v, s, InterleavedStride);
    assert |a.facets| == |m.triVerts|;
    forall k | 0 <= k < |m.triVerts|
      ensures a.facets[k] == MeshFacets(m)[k]
    {
      InterleavedFacetAt(m, k);
    }
  }

  /** Every entry of the index buffer of a mesh whose indices are in range
      names one of its vertices. */
  lemma EncodedIndexInRange<T>(m: Mesh<T>, i: nat)
    requires IndicesInRange(m) && i < |EncodeIndices(m.triVerts)|
    ensures EncodeIndices(m.triVerts)[i] < |m.vertPos|
  {
    var s := EncodeIndices(m.triVerts);
    var k := i / 3;
    EncodeIndicesAt(m.triVerts, k);
    assert i == 3 * k || i == 3 * k + 1 || i == 3 * k + 2;
  }

  /** Facet k of the stride-6 assembly is triangle k of the mesh. */
  lemma InterleavedFacetAt<T>(m: Mesh<T>, k: nat)
    requires NormalsMatch(m) && IndicesInRange(m) && k < |m.triVerts|
    requires !Assemble(EncodeVertices(m.vertPos, m.vertNormal), EncodeIndices(m.triVerts), InterleavedStride).panicked
    ensures k < |Assemble(EncodeVertices(m.vertPos, m.vertNormal), EncodeIndices(m.triVerts), InterleavedStride).facets|
    ensures Assemble(EncodeVertices(m.vertPos, m.vertNormal), EncodeIndices(m.triVerts), InterleavedStride).facets[k] ==
      MeshFacets(m)[k]
  {
    var v := EncodeVertices(m.vertPos, m.vertNormal);
    var s := EncodeIndices(m.triVerts);
    AssembleFacets(v, s, InterleavedStride, k);
    EncodeIndicesAt(m.triVerts, k);
    var t := m.triVerts[k];
    assert s[3 * k] == t.x && s[3 * k + 1] == t.y && s[3 * k + 2] == t.z;
    CornerAtInterleavedStride(m.vertPos, m.vertNormal, t.x);
    CornerAtInterleavedStride(m.vertPos, m.vertNormal, t.y);
    CornerAtInterleavedStride(m.vertPos, m.vertNormal, t.z);
  }

  /** With offset 6 * index the three floats read are vertex index's position. */
  lemma CornerAtInterleavedStride<T>(pos: seq<Vec3<T>>, nrm: seq<Vec3<T>>, index: nat)
    requires |pos| == |nrm| && index < |pos|
    ensures TripleAt(EncodeVertices(pos, nrm), InterleavedStride * index) == pos[index]
  {
    VertexFloats(pos, nrm, index);
  }

  // ---------------------------------------------------------------------
  // Contours

  /** generate_circle: for each i below `segments`, the two coordinates of
      point i, appended in order. `place(radius, offset, i, segments)` is the
      floating-point point at angle 2 * pi * i / segments. */
  method GenerateCircle<R>(radius: R, offset: (R, R), segments: nat, place: (R, (R, R), nat, nat) -> (R, R))
    returns (circle: seq<R>)
    ensures |circle| == 2 * segments
    ensures forall i :: 0 <= i < segments ==>
      circle[2 * i..2 * i + 2] == [place(radius, offset, i, segments).0, place(radius, offset, i, segments).1]
  {
    circle := [];
    var i := 0;
    while i < segments
      invariant 0 <= i <= segments
      invariant |circle| == 2 * i
      invariant forall j :: 0 <= j < i ==>
        circle[2 * j..2 * j + 2] == [place(radius, offset, j, segments).0, place(radius, offset, j, segments).1]
    {
      var p := place(radius, offset, i, segments);
      var old_circle := circle;
      circle := circle + [p.0, p.1];
      assert forall j :: 0 <= j < i ==> circle[2 * j..2 * j + 2] == old_circle[2 * j..2 * j + 2];
      i := i + 1;
    }
  }

  /** The map that turns a circle into a hole: every odd-indexed entry (each
      y coordinate) is negated, every even-indexed one kept. */
  function MirrorContour<R>(contour: seq<R>, neg: R -> R): (r: seq<R>)
    ensures |r| == |contour|
    ensures forall i :: 0 <= i < |r| ==> r[i] == if i % 2 == 0 then contour[i] else neg(contour[i])
  {
    seq(|contour|, i requires 0 <= i < |contour| => if i % 2 == 0 then contour[i] else neg(contour[i]))
  }

  /** Float negation undoes itself, so mirroring twice gives back the contour. */
  lemma MirrorContourInvolutive<R>(contour: seq<R>, neg: R -> R)
    requires forall x :: neg(neg(x)) == x
    ensures MirrorContour(MirrorContour(contour, neg), neg) == contour
  {
  }

  /** Mirroring an x, y interleaved contour reflects each point in the x axis:
      point i keeps its x and has its y negated. */
  lemma MirrorReflectsPoints<R>(contour: seq<R>, neg: R -> R, i: nat)
    requires 2 * i + 1 < |contour|
    ensures MirrorContour(contour, neg)[2 * i..2 * i + 2] == [contour[2 * i], neg(contour[2 * i + 1])]
  {
    var r := MirrorContour(contour, neg);
    assert r[2 * i] == contour[2 * i];
    assert r[2 * i + 1] == neg(contour[2 * i + 1]);
  }
}
