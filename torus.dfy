/**
 * The torus generator: a grid of `rings` rings of `slices` vertices each, and
 * two triangles per quad of the grid, wrapping around in both directions.
 */
module Torus {
  import opened MeshTopology

  // ---------------------------------------------------------------------------
  // Vertex numbering

  /** `v` is a point of the torus grid with `rings` rings of `slices` points. */
  predicate IsTorusVertex(rings: int, slices: int, v: Vertex)
  {
    v.TorusPt? && 0 <= v.ring < rings && 0 <= v.slice < slices
  }

  /** Position of a grid point in the vertex list: ring after ring, slice after slice. */
  function TorusIndex(slices: int, v: Vertex): int
  {
    match v
    case TorusPt(i, j) => i * slices + j
    case _ => -1
  }

  /** The numbering as a map from vertices to positions. */
  function TorusNumbering(slices: int): Vertex -> int
  {
    v => TorusIndex(slices, v)
  }

  /** The grid point stored at position `p` of the vertex list. */
  function TorusVertexAt(slices: int, p: int): Vertex
    requires slices > 0
  {
    TorusPt(p / slices, p % slices)
  }

  /** Every grid point has a position in the list, and that position holds it. */
  lemma TorusIndexRoundTrip(rings: int, slices: int, v: Vertex)
    requires slices >= 1 && IsTorusVertex(rings, slices, v)
    ensures 0 <= TorusIndex(slices, v) < rings * slices
    ensures TorusVertexAt(slices, TorusIndex(slices, v)) == v
  {
    DivModOf(v.ring, slices, v.slice);
    MulMonotone(0, v.ring, slices);
    MulMonotone(v.ring + 1, rings, slices);
  }

  /** Every position of the list holds a grid point whose position it is. */
  lemma TorusVertexAtRoundTrip(rings: int, slices: int, p: int)
    requires slices >= 1 && 0 <= p < rings * slices
    ensures IsTorusVertex(rings, slices, TorusVertexAt(slices, p))
    ensures TorusIndex(slices, TorusVertexAt(slices, p)) == p
  {
    var d := p / slices;
    if d >= rings {
      MulMonotone(rings, d, slices);
    }
  }

  // ---------------------------------------------------------------------------
  // Faces

  /**
   * The two triangles of quad (`q.ring`, `q.slice`), in the winding order the
   * generator pushes them; the ring after the last is ring 0 again.
   */
  function TorusFace(rings: int, slices: int, q: Quad): Triangle<Vertex>
  {
    var r, s := q.ring, q.slice;
    var r', s' := Next(r, rings), Next(s, slices);
    if q.upper then Triangle(TorusPt(r, s'), TorusPt(r', s'), TorusPt(r', s))
    else Triangle(TorusPt(r, s), TorusPt(r, s'), TorusPt(r', s))
  }

  /** All triangles of the torus, in push order. */
  function TorusFaces(rings: int, slices: int): (fs: seq<Triangle<Vertex>>)
    requires rings >= 1 && slices >= 1
    ensures |fs| == 2 * rings * slices
  {
    seq(2 * rings * slices, t requires 0 <= t < 2 * rings * slices => TorusFace(rings, slices, QuadAt(slices, t)))
  }

  /**
   * For each directed edge `x -> y` of a torus triangle, the triangle that
   * has it, found from the two grid points alone.
   */
  function TorusOwner(rings: int, slices: int, x: Vertex, y: Vertex): Option<Quad>
  {
    match (x, y)
    case (TorusPt(i, j), TorusPt(k, l)) =>
      if k == i && l == Next(j, slices) then Some(Quad(i, j, false))
      else if k == i && j == Next(l, slices) then Some(Quad(Prev(i, rings), l, true))
      else if k == Next(i, rings) && l == j then Some(Quad(i, Prev(j, slices), true))
      else if k == Next(i, rings) && j == Next(l, slices) then Some(Quad(i, l, false))
      else if i == Next(k, rings) && l == j then Some(Quad(k, j, false))
      else if i == Next(k, rings) && l == Next(j, slices) then Some(Quad(k, j, true))
      else None
    case _ => None
  }

  /** Each triangle's corners are grid points, and three distinct ones. */
  lemma TorusFaceCorners(rings: int, slices: int, q: Quad)
    requires rings >= 3 && slices >= 3 && IsQuad(rings, slices, q)
    ensures var f := TorusFace(rings, slices, q);
      IsTorusVertex(rings, slices, f.a) && IsTorusVertex(rings, slices, f.b) && IsTorusVertex(rings, slices, f.c)
    ensures NonDegenerate(TorusFace(rings, slices, q))
  {
  }

  /**
   * Every directed edge of a triangle is owned by that triangle, and its
   * reverse is an edge of the triangle that owns the reverse.
   */
  lemma TorusEdgeOwner(rings: int, slices: int, q: Quad, x: Vertex, y: Vertex)
    requires rings >= 3 && slices >= 3 && IsQuad(rings, slices, q)
    requires HasEdge(TorusFace(rings, slices, q), x, y)
    ensures TorusOwner(rings, slices, x, y) == Some(q)
    ensures var o := TorusOwner(rings, slices, y, x);
      o.Some? && IsQuad(rings, slices, o.value) && HasEdge(TorusFace(rings, slices, o.value), y, x)
  {
    NextIsMod(q.ring, rings);
    NextIsMod(q.slice, slices);
  }

  /**
   * The torus's triangles form a closed, consistently oriented surface with
   * no degenerate triangle: every directed edge lies in exactly one triangle
   * and its reverse in exactly one other.
   */
  lemma TorusFacesClosed(rings: int, slices: int)
    requires rings >= 3 && slices >= 3
    ensures ClosedOriented(TorusFaces(rings, slices))
    ensures AllNonDegenerate(TorusFaces(rings, slices))
  {
    var fs := TorusFaces(rings, slices);
    forall t, u, x, y | 0 <= t < |fs| && 0 <= u < |fs| && HasEdge(fs[t], x, y) && HasEdge(fs[u], x, y)
      ensures t == u
    {
      QuadPosAt(rings, slices, t);
      QuadPosAt(rings, slices, u);
      TorusEdgeOwner(rings, slices, QuadAt(slices, t), x, y);
      TorusEdgeOwner(rings, slices, QuadAt(slices, u), x, y);
    }
    forall t, x, y | 0 <= t < |fs| && HasEdge(fs[t], x, y)
      ensures exists u :: 0 <= u < |fs| && HasEdge(fs[u], y, x)
    {
      QuadPosAt(rings, slices, t);
      TorusEdgeOwner(rings, slices, QuadAt(slices, t), x, y);
      var q := TorusOwner(rings, slices, y, x).value;
      QuadAtPos(rings, slices, q);
      var u := QuadPos(slices, q);
      assert HasEdge(fs[u], y, x);
    }
    forall t | 0 <= t < |fs|
      ensures NonDegenerate(fs[t])
    {
      QuadPosAt(rings, slices, t);
      TorusFaceCorners(rings, slices, QuadAt(slices, t));
    }
  }

  // ---------------------------------------------------------------------------
  // The generated mesh

  /** The triangles as index triples into the vertex list. */
  function TorusIndexTriangles(rings: int, slices: int): (tris: seq<Triangle<int>>)
    requires rings >= 1 && slices >= 1
  {
    MapTriangles(TorusFaces(rings, slices), TorusNumbering(slices))
  }

  /** The vertex list, ring after ring. */
  function TorusVertices(rings: int, slices: int): (vs: seq<Vertex>)
    requires rings >= 1 && slices >= 1
    ensures |vs| == rings * slices
  {
    MulMonotone(0, rings, slices);
    seq(rings * slices, p requires 0 <= p < rings * slices => TorusVertexAt(slices, p))
  }

  /** The mesh the torus generator returns, stated declaratively. */
  function TorusMesh(rings: int, slices: int): Mesh
    requires rings >= 1 && slices >= 1
  {
    NumberedMesh(TorusFaces(rings, slices), TorusVertices(rings, slices), TorusNumbering(slices))
  }

  /** The vertex list stores every corner of every triangle at its number. */
  lemma TorusNumbersCorners(rings: int, slices: int)
    requires rings >= 3 && slices >= 3
    ensures NumbersCorners(TorusFaces(rings, slices), TorusVertices(rings, slices), TorusNumbering(slices))
  {
    var fs, vs, f := TorusFaces(rings, slices), TorusVertices(rings, slices), TorusNumbering(slices);
    forall t | 0 <= t < |fs|
      ensures Stored(vs, f, fs[t].a) && Stored(vs, f, fs[t].b) && Stored(vs, f, fs[t].c)
    {
      QuadPosAt(rings, slices, t);
      TorusFaceCorners(rings, slices, QuadAt(slices, t));
      TorusIndexRoundTrip(rings, slices, fs[t].a);
      TorusIndexRoundTrip(rings, slices, fs[t].b);
      TorusIndexRoundTrip(rings, slices, fs[t].c);
    }
  }

  /**
   * The torus has `rings * slices` vertices, one normal per vertex,
   * `6 * rings * slices` indices (`2 * rings * slices` triangles), and every
   * index names an existing vertex; its triangles connect exactly the labelled
   * faces.
   */
  lemma TorusMeshCounts(rings: int, slices: int)
    requires rings >= 3 && slices >= 3
    ensures var m := TorusMesh(rings, slices);
      && |m.vertices| == rings * slices
      && |m.normals| == |m.vertices|
      && |m.indices| == 6 * rings * slices
      && WellFormed(m)
      && Faces(m) == TorusFaces(rings, slices)
  {
    var fs, vs, f := TorusFaces(rings, slices), TorusVertices(rings, slices), TorusNumbering(slices);
    var m := TorusMesh(rings, slices);
    assert m == NumberedMesh(fs, vs, f);
    TorusNumbersCorners(rings, slices);
    NumberedMeshFaces(fs, vs, f);
    TripleCount(rings, slices);
  }

  /**
   * Position `i * slices + j` holds grid point (`i`, `j`), and each position
   * holds the grid point whose number it is, so no point is stored twice.
   */
  lemma TorusMeshLayout(rings: int, slices: int)
    requires rings >= 3 && slices >= 3
    ensures var vs := TorusMesh(rings, slices).vertices;
      && (forall v | IsTorusVertex(rings, slices, v) ::
            0 <= TorusIndex(slices, v) < |vs| && vs[TorusIndex(slices, v)] == v)
      && (forall p | 0 <= p < |vs| :: IsTorusVertex(rings, slices, vs[p]) && TorusIndex(slices, vs[p]) == p)
  {
    var vs := TorusMesh(rings, slices).vertices;
    forall v | IsTorusVertex(rings, slices, v)
      ensures 0 <= TorusIndex(slices, v) < |vs| && vs[TorusIndex(slices, v)] == v
    {
      TorusIndexRoundTrip(rings, slices, v);
    }
    forall p | 0 <= p < |vs|
      ensures IsTorusVertex(rings, slices, vs[p]) && TorusIndex(slices, vs[p]) == p
    {
      TorusVertexAtRoundTrip(rings, slices, p);
    }
  }

  /**
   * The index triples of the generated torus form a closed, consistently
   * oriented surface without degenerate triangles: every directed edge lies in
   * exactly one triangle and its reverse in exactly one other.
   */
  lemma TorusMeshClosed(rings: int, slices: int)
    requires rings >= 3 && slices >= 3
    ensures var tris := Triangles(TorusMesh(rings, slices).indices);
      ClosedOriented(tris) && AllNonDegenerate(tris)
  {
    TorusNumbersCorners(rings, slices);
    TorusFacesClosed(rings, slices);
    NumberedMeshClosed(TorusFaces(rings, slices), TorusVertices(rings, slices), TorusNumbering(slices));
  }

  // ---------------------------------------------------------------------------
  // The generator

  /** The last slice of one ring is followed by the first slice of the next, in both numberings. */
  lemma TorusNextRing(slices: int, ring: int)
    ensures TorusIndex(slices, TorusPt(ring, slices)) == TorusIndex(slices, TorusPt(ring + 1, 0))
    ensures QuadPos(slices, Quad(ring, slices, false)) == QuadPos(slices, Quad(ring + 1, 0, false))
  {
    assert ring * slices + slices == (ring + 1) * slices;
    assert 2 * slices * ring + 2 * slices == 2 * slices * (ring + 1);
  }

  /**
   * The two triangles of quad (`ring`, `slice`) are the index triples the
   * generator computes from `current`, `next`, `nextRing` and `nextRingNext`.
   */
  lemma TorusQuadIndices(rings: int, slices: int, ring: int, slice: int,
                         current: int, next: int, nextRing: int, nextRingNext: int)
    requires rings >= 1 && slices >= 1 && 0 <= ring < rings && 0 <= slice < slices
    requires current == ring * slices + slice
    requires next == ring * slices + (slice + 1) % slices
    requires nextRing == ((ring + 1) % rings) * slices + slice
    requires nextRingNext == ((ring + 1) % rings) * slices + (slice + 1) % slices
    ensures var k := QuadPos(slices, Quad(ring, slice, false));
      var tris := TorusIndexTriangles(rings, slices);
      && k + 1 < |tris|
      && tris[k] == Triangle(current, next, nextRing)
      && tris[k + 1] == Triangle(next, nextRingNext, nextRing)
  {
    QuadAtPos(rings, slices, Quad(ring, slice, false));
    QuadAtPos(rings, slices, Quad(ring, slice, true));
    NextIsMod(slice, slices);
    NextIsMod(ring, rings);
  }

  /**
   * Builds the torus as the source does, pushing vertices, normals and index
   * triples in nested loops; the result is exactly `TorusMesh`.
   */
  method GenerateTorus(rings: int, slices: int) returns (m: Mesh)
    requires rings >= 1 && slices >= 1
    ensures m == TorusMesh(rings, slices)
  {
    var vertices: seq<Vertex> := [];
    var indices: seq<int> := [];
    var normals: seq<Normal> := [];
    ghost var vs := TorusVertices(rings, slices);

    MulMonotone(1, rings, slices);
    for ring := 0 to rings
      invariant |vertices| == TorusIndex(slices, TorusPt(ring, 0)) <= |vs|
      invariant vertices == vs[..|vertices|]
      invariant normals == NormalsOf(vertices)
    {
      MulMonotone(ring + 1, rings, slices);
      for slice := 0 to slices
        invariant |vertices| == TorusIndex(slices, TorusPt(ring, slice)) <= |vs|
        invariant vertices == vs[..|vertices|]
        invariant normals == NormalsOf(vertices)
      {
        TorusIndexRoundTrip(rings, slices, TorusPt(ring, slice));
        PrefixPush(vs, |vertices|);
        NormalsOfPush(vertices, TorusPt(ring, slice));
        vertices := vertices + [TorusPt(ring, slice)];
        normals := normals + [Outward(TorusPt(ring, slice))];
      }
      TorusNextRing(slices, ring);
    }
    assert vertices == vs;

    indices := TorusQuadLoops(rings, slices);
    m := Mesh(vertices, normals, indices);
  }

  /** The quads of the first `ring` rings come before the end of the triangle list, and all of them reach it. */
  lemma TorusQuadsEnd(rings: int, slices: int, ring: int)
    requires 0 <= ring <= rings && slices >= 1
    ensures QuadPos(slices, Quad(ring, 0, false)) <= 2 * rings * slices
    ensures ring == rings ==> QuadPos(slices, Quad(ring, 0, false)) == 2 * rings * slices
  {
    MulMonotone(ring, rings, 2 * slices);
  }

  /** The nested index loops of `GenerateTorus`: two triangles per quad, wrapping in both directions. */
  method TorusQuadLoops(rings: int, slices: int) returns (indices: seq<int>)
    requires rings >= 1 && slices >= 1
    ensures indices == Flatten(TorusIndexTriangles(rings, slices))
  {
    ghost var tris := TorusIndexTriangles(rings, slices);
    indices := [];
    ghost var k := 0;  // triangles pushed so far
    for ring := 0 to rings
      invariant k == QuadPos(slices, Quad(ring, 0, false)) <= |tris|
      invariant indices == Flatten(tris[..k])
    {
      for slice := 0 to slices
        invariant k == QuadPos(slices, Quad(ring, slice, false)) <= |tris|
        invariant indices == Flatten(tris[..k])
      {
        var current := ring * slices + slice;
        var next := ring * slices + ((slice + 1) % slices);
        var nextRing := ((ring + 1) % rings) * slices + slice;
        var nextRingNext := ((ring + 1) % rings) * slices + ((slice + 1) % slices);

        TorusQuadIndices(rings, slices, ring, slice, current, next, nextRing, nextRingNext);
        PushTriangle(tris, k, indices, Triangle(current, next, nextRing));
        indices := indices + [current, next, nextRing];
        PushTriangle(tris, k + 1, indices, Triangle(next, nextRingNext, nextRing));
        indices := indices + [next, nextRingNext, nextRing];
        k := k + 2;
      }
      TorusNextRing(slices, ring);
      TorusQuadsEnd(rings, slices, ring + 1);
    }
    TorusQuadsEnd(rings, slices, rings);
    assert tris[..k] == tris;
  }

  /** Three rings of three: 9 vertices and 18 triangles; the last quad wraps to ring 0 and slice 0. */
  lemma TorusThreeByThree(rings: int, slices: int)
    requires rings == 3 && slices == 3
    ensures |TorusMesh(rings, slices).vertices| == 9
    ensures |TorusMesh(rings, slices).indices| == 54
    ensures var tris := Triangles(TorusMesh(rings, slices).indices);
      |tris| == 18 && tris[16] == Triangle(8, 6, 2) && tris[17] == Triangle(6, 0, 2)
  {
    TorusMeshCounts(rings, slices);
    TorusMeshTriangles(rings, slices);
    TorusQuadIndices(rings, slices, 2, 2, 8, 6, 2, 0);
  }

  /** The index triples of the torus mesh are the numbered faces. */
  lemma TorusMeshTriangles(rings: int, slices: int)
    requires rings >= 3 && slices >= 3
    ensures Triangles(TorusMesh(rings, slices).indices) == TorusIndexTriangles(rings, slices)
  {
    TorusNumbersCorners(rings, slices);
    NumberedMeshFaces(TorusFaces(rings, slices), TorusVertices(rings, slices), TorusNumbering(slices));
  }
}
