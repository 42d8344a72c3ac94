/**
 * The sphere generator: a north pole, `rings` latitude rings of `slices`
 * vertices each, and a south pole; a fan of triangles around each pole and two
 * triangles per quad between neighbouring rings, wrapping around in the slice
 * direction.
 */
module Sphere {
  import opened MeshTopology

  // ---------------------------------------------------------------------------
  // Vertex numbering

  /** `v` is a vertex of the sphere with `rings` rings of `slices` vertices. */
  predicate IsSphereVertex(rings: int, slices: int, v: Vertex)
  {
    match v
    case NorthPole => true
    case SouthPole => true
    case Ring(i, j) => 1 <= i <= rings && 0 <= j < slices
    case TorusPt(_, _) => false
  }

  /**
   * Position of a vertex in the vertex list: the north pole first, then ring
   * after ring, slice after slice, then the south pole.
   */
  function SphereIndex(rings: int, slices: int, v: Vertex): int
  {
    match v
    case NorthPole => 0
    case Ring(i, j) => 1 + (i - 1) * slices + j
    case SouthPole => rings * slices + 1
    case TorusPt(_, _) => -1
  }

  /** The numbering as a map from vertices to positions. */
  function SphereNumbering(rings: int, slices: int): Vertex -> int
  {
    v => SphereIndex(rings, slices, v)
  }

  /** The vertex stored at position `p` of the vertex list. */
  function SphereVertexAt(rings: int, slices: int, p: int): Vertex
    requires slices > 0
  {
    if p == 0 then NorthPole
    else if p == rings * slices + 1 then SouthPole
    else Ring(1 + (p - 1) / slices, (p - 1) % slices)
  }

  /** Every sphere vertex has a position in the list, and that position holds it. */
  lemma SphereIndexRoundTrip(rings: int, slices: int, v: Vertex)
    requires rings >= 1 && slices >= 1 && IsSphereVertex(rings, slices, v)
    ensures 0 <= SphereIndex(rings, slices, v) < rings * slices + 2
    ensures SphereVertexAt(rings, slices, SphereIndex(rings, slices, v)) == v
  {
    match v
    case Ring(i, j) =>
      DivModOf(i - 1, slices, j);
      MulMonotone(i - 1, rings - 1, slices);
    case _ =>
  }

  /** Every position of the list holds a sphere vertex whose position it is. */
  lemma SphereVertexAtRoundTrip(rings: int, slices: int, p: int)
    requires rings >= 1 && slices >= 1 && 0 <= p < rings * slices + 2
    ensures IsSphereVertex(rings, slices, SphereVertexAt(rings, slices, p))
    ensures SphereIndex(rings, slices, SphereVertexAt(rings, slices, p)) == p
  {
    if 0 < p < rings * slices + 1 {
      var d := (p - 1) / slices;
      if d >= rings {
        MulMonotone(rings, d, slices);
      }
    }
  }

  // ---------------------------------------------------------------------------
  // Triangle numbering

  /**
   * A triangle of the sphere: slice `slice` of the north fan, one triangle of a
   * quad of the band between rings `quad.ring + 1` and `quad.ring + 2`, or slice
   * `slice` of the south fan.
   */
  datatype SpherePart = NorthFan(slice: int) | Band(quad: Quad) | SouthFan(slice: int)

  predicate IsSpherePart(rings: int, slices: int, id: SpherePart)
  {
    match id
    case NorthFan(s) => 0 <= s < slices
    case Band(q) => IsQuad(rings - 1, slices, q)
    case SouthFan(s) => 0 <= s < slices
  }

  /** Position of a triangle in the order the generator pushes them. */
  function SpherePos(rings: int, slices: int, id: SpherePart): int
  {
    match id
    case NorthFan(s) => s
    case Band(q) => slices + QuadPos(slices, q)
    case SouthFan(s) => slices + 2 * (rings - 1) * slices + s
  }

  /** The triangle pushed at position `t`. */
  function SpherePartAt(rings: int, slices: int, t: int): SpherePart
    requires slices > 0
  {
    if t < slices then NorthFan(t)
    else if t < slices + 2 * (rings - 1) * slices then Band(QuadAt(slices, t - slices))
    else SouthFan(t - slices - 2 * (rings - 1) * slices)
  }

  lemma SpherePartRoundTrip(rings: int, slices: int, id: SpherePart)
    requires rings >= 1 && slices >= 1 && IsSpherePart(rings, slices, id)
    ensures 0 <= SpherePos(rings, slices, id) < 2 * rings * slices
    ensures SpherePartAt(rings, slices, SpherePos(rings, slices, id)) == id
  {
    SphereSouthFanBounds(rings, slices);
    MulMonotone(0, rings - 1, 2 * slices);
    match id
    case Band(q) =>
      QuadAtPos(rings - 1, slices, q);
      assert 2 * (rings - 1) * slices == 2 * slices * (rings - 1);
    case _ =>
  }

  lemma SpherePosRoundTrip(rings: int, slices: int, t: int)
    requires rings >= 1 && slices >= 1 && 0 <= t < 2 * rings * slices
    ensures IsSpherePart(rings, slices, SpherePartAt(rings, slices, t))
    ensures SpherePos(rings, slices, SpherePartAt(rings, slices, t)) == t
  {
    if slices <= t < slices + 2 * (rings - 1) * slices {
      QuadPosAt(rings - 1, slices, t - slices);
    }
  }

  // ---------------------------------------------------------------------------
  // Faces

  /** The corners of each triangle, in the winding order the generator pushes them. */
  function SphereFace(rings: int, slices: int, id: SpherePart): Triangle<Vertex>
  {
    match id
    case NorthFan(s) => Triangle(NorthPole, Ring(1, Next(s, slices)), Ring(1, s))
    case Band(Quad(r, s, false)) => Triangle(Ring(r + 1, s), Ring(r + 1, Next(s, slices)), Ring(r + 2, s))
    case Band(Quad(r, s, true)) =>
      Triangle(Ring(r + 1, Next(s, slices)), Ring(r + 2, Next(s, slices)), Ring(r + 2, s))
    case SouthFan(s) => Triangle(SouthPole, Ring(rings, s), Ring(rings, Next(s, slices)))
  }

  /** All triangles of the sphere, in push order. */
  function SphereFaces(rings: int, slices: int): (fs: seq<Triangle<Vertex>>)
    requires rings >= 1 && slices >= 1
    ensures |fs| == 2 * rings * slices
  {
    seq(2 * rings * slices, t requires 0 <= t < 2 * rings * slices =>
      SphereFace(rings, slices, SpherePartAt(rings, slices, t)))
  }

  /**
   * For each directed edge `x -> y` of a sphere triangle, the triangle that
   * has it, found from the two labels alone.
   */
  function SphereOwner(rings: int, slices: int, x: Vertex, y: Vertex): Option<SpherePart>
  {
    match (x, y)
    case (NorthPole, Ring(i, j)) => if i == 1 then Some(NorthFan(Prev(j, slices))) else None
    case (Ring(i, j), NorthPole) => if i == 1 then Some(NorthFan(j)) else None
    case (SouthPole, Ring(i, j)) => if i == rings then Some(SouthFan(j)) else None
    case (Ring(i, j), SouthPole) => if i == rings then Some(SouthFan(Prev(j, slices))) else None
    case (Ring(i, j), Ring(k, l)) =>
      if k == i && l == Next(j, slices) then
        Some(if i < rings then Band(Quad(i - 1, j, false)) else SouthFan(j))
      else if k == i && j == Next(l, slices) then
        Some(if i == 1 then NorthFan(l) else Band(Quad(i - 2, l, true)))
      else if k == i + 1 && l == j then Some(Band(Quad(i - 1, Prev(j, slices), true)))
      else if k == i + 1 && j == Next(l, slices) then Some(Band(Quad(i - 1, l, false)))
      else if k == i - 1 && l == j then Some(Band(Quad(i - 2, j, false)))
      else if k == i - 1 && l == Next(j, slices) then Some(Band(Quad(i - 2, j, true)))
      else None
    case _ => None
  }

  /** Each triangle's corners are sphere vertices, and three distinct ones. */
  lemma SphereFaceCorners(rings: int, slices: int, id: SpherePart)
    requires rings >= 1 && slices >= 3 && IsSpherePart(rings, slices, id)
    ensures var f := SphereFace(rings, slices, id);
      IsSphereVertex(rings, slices, f.a) && IsSphereVertex(rings, slices, f.b) && IsSphereVertex(rings, slices, f.c)
    ensures NonDegenerate(SphereFace(rings, slices, id))
  {
  }

  /**
   * Every directed edge of a triangle is owned by that triangle, and its
   * reverse is an edge of the triangle that owns the reverse.
   */
  lemma SphereEdgeOwner(rings: int, slices: int, id: SpherePart, x: Vertex, y: Vertex)
    requires rings >= 1 && slices >= 3 && IsSpherePart(rings, slices, id)
    requires HasEdge(SphereFace(rings, slices, id), x, y)
    ensures SphereOwner(rings, slices, x, y) == Some(id)
    ensures var o := SphereOwner(rings, slices, y, x);
      o.Some? && IsSpherePart(rings, slices, o.value) && HasEdge(SphereFace(rings, slices, o.value), y, x)
  {
    match id
    case NorthFan(s) => NextIsMod(s, slices);
    case Band(q) => NextIsMod(q.slice, slices);
    case SouthFan(s) => NextIsMod(s, slices);
  }

  /**
   * The sphere's triangles form a closed, consistently oriented surface with
   * no degenerate triangle: every directed edge lies in exactly one triangle
   * and its reverse in exactly one other.
   */
  lemma SphereFacesClosed(rings: int, slices: int)
    requires rings >= 1 && slices >= 3
    ensures ClosedOriented(SphereFaces(rings, slices))
    ensures AllNonDegenerate(SphereFaces(rings, slices))
  {
    var fs := SphereFaces(rings, slices);
    forall t, u, x, y | 0 <= t < |fs| && 0 <= u < |fs| && HasEdge(fs[t], x, y) && HasEdge(fs[u], x, y)
      ensures t == u
    {
      SpherePosRoundTrip(rings, slices, t);
      SpherePosRoundTrip(rings, slices, u);
      SphereEdgeOwner(rings, slices, SpherePartAt(rings, slices, t), x, y);
      SphereEdgeOwner(rings, slices, SpherePartAt(rings, slices, u), x, y);
    }
    forall t, x, y | 0 <= t < |fs| && HasEdge(fs[t], x, y)
      ensures exists u :: 0 <= u < |fs| && HasEdge(fs[u], y, x)
    {
      SpherePosRoundTrip(rings, slices, t);
      SphereEdgeOwner(rings, slices, SpherePartAt(rings, slices, t), x, y);
      var id := SphereOwner(rings, slices, y, x).value;
      SpherePartRoundTrip(rings, slices, id);
      var u := SpherePos(rings, slices, id);
      assert HasEdge(fs[u], y, x);
    }
    forall t | 0 <= t < |fs|
      ensures NonDegenerate(fs[t])
    {
      SpherePosRoundTrip(rings, slices, t);
      SphereFaceCorners(rings, slices, SpherePartAt(rings, slices, t));
    }
  }

  // ---------------------------------------------------------------------------
  // The generated mesh

  /** The triangles as index triples into the vertex list. */
  function SphereIndexTriangles(rings: int, slices: int): (tris: seq<Triangle<int>>)
    requires rings >= 1 && slices >= 1
  {
    MapTriangles(SphereFaces(rings, slices), SphereNumbering(rings, slices))
  }

  /** The vertex list, pole to pole. */
  function SphereVertices(rings: int, slices: int): (vs: seq<Vertex>)
    requires rings >= 1 && slices >= 1
    ensures |vs| == rings * slices + 2
  {
    seq(rings * slices + 2, p requires 0 <= p < rings * slices + 2 => SphereVertexAt(rings, slices, p))
  }

  /** The mesh the sphere generator returns, stated declaratively. */
  function SphereMesh(rings: int, slices: int): Mesh
    requires rings >= 1 && slices >= 1
  {
    NumberedMesh(SphereFaces(rings, slices), SphereVertices(rings, slices), SphereNumbering(rings, slices))
  }

  /** The vertex list stores every corner of every triangle at its number. */
  lemma SphereNumbersCorners(rings: int, slices: int)
    requires rings >= 1 && slices >= 3
    ensures NumbersCorners(SphereFaces(rings, slices), SphereVertices(rings, slices), SphereNumbering(rings, slices))
  {
    var fs, vs, f := SphereFaces(rings, slices), SphereVertices(rings, slices), SphereNumbering(rings, slices);
    forall t | 0 <= t < |fs|
      ensures Stored(vs, f, fs[t].a) && Stored(vs, f, fs[t].b) && Stored(vs, f, fs[t].c)
    {
      SpherePosRoundTrip(rings, slices, t);
      SphereFaceCorners(rings, slices, SpherePartAt(rings, slices, t));
      SphereIndexRoundTrip(rings, slices, fs[t].a);
      SphereIndexRoundTrip(rings, slices, fs[t].b);
      SphereIndexRoundTrip(rings, slices, fs[t].c);
    }
  }

  /**
   * The sphere has `rings * slices + 2` vertices, one normal per vertex,
   * `6 * rings * slices` indices (`2 * rings * slices` triangles), and every
   * index names an existing vertex; its triangles connect exactly the labelled
   * faces.
   */
  lemma SphereMeshCounts(rings: int, slices: int)
    requires rings >= 1 && slices >= 3
    ensures var m := SphereMesh(rings, slices);
      && |m.vertices| == rings * slices + 2
      && |m.normals| == |m.vertices|
      && |m.indices| == 6 * rings * slices
      && WellFormed(m)
      && Faces(m) == SphereFaces(rings, slices)
  {
    var fs, vs, f := SphereFaces(rings, slices), SphereVertices(rings, slices), SphereNumbering(rings, slices);
    var m := SphereMesh(rings, slices);
    assert m == NumberedMesh(fs, vs, f);
    SphereNumbersCorners(rings, slices);
    NumberedMeshFaces(fs, vs, f);
    TripleCount(rings, slices);
  }

  /**
   * Position 0 holds the north pole, position `rings * slices + 1` the south
   * pole, position `1 + (i - 1) * slices + j` ring `i`, slice `j`; each
   * position holds the sphere vertex whose number it is, so no vertex is
   * stored twice.
   */
  lemma SphereMeshLayout(rings: int, slices: int)
    requires rings >= 1 && slices >= 3
    ensures var vs := SphereMesh(rings, slices).vertices;
      && vs[0] == NorthPole
      && vs[rings * slices + 1] == SouthPole
      && (forall v | IsSphereVertex(rings, slices, v) ::
            0 <= SphereIndex(rings, slices, v) < |vs| && vs[SphereIndex(rings, slices, v)] == v)
      && (forall p | 0 <= p < |vs| :: IsSphereVertex(rings, slices, vs[p]) && SphereIndex(rings, slices, vs[p]) == p)
  {
    var vs := SphereMesh(rings, slices).vertices;
    forall v | IsSphereVertex(rings, slices, v)
      ensures 0 <= SphereIndex(rings, slices, v) < |vs| && vs[SphereIndex(rings, slices, v)] == v
    {
      SphereIndexRoundTrip(rings, slices, v);
    }
    forall p | 0 <= p < |vs|
      ensures IsSphereVertex(rings, slices, vs[p]) && SphereIndex(rings, slices, vs[p]) == p
    {
      SphereVertexAtRoundTrip(rings, slices, p);
    }
  }

  /**
   * The index triples of the generated sphere form a closed, consistently
   * oriented surface without degenerate triangles: every directed edge lies in
   * exactly one triangle and its reverse in exactly one other.
   */
  lemma SphereMeshClosed(rings: int, slices: int)
    requires rings >= 1 && slices >= 3
    ensures var tris := Triangles(SphereMesh(rings, slices).indices);
      ClosedOriented(tris) && AllNonDegenerate(tris)
  {
    SphereNumbersCorners(rings, slices);
    SphereFacesClosed(rings, slices);
    NumberedMeshClosed(SphereFaces(rings, slices), SphereVertices(rings, slices), SphereNumbering(rings, slices));
  }

  /** The last slice of one ring is followed by the first slice of the next, in both numberings. */
  lemma SphereNextRing(rings: int, slices: int, ring: int)
    ensures SphereIndex(rings, slices, Ring(ring, slices)) == SphereIndex(rings, slices, Ring(ring + 1, 0))
    ensures SpherePos(rings, slices, Band(Quad(ring, slices, false)))
         == SpherePos(rings, slices, Band(Quad(ring + 1, 0, false)))
  {
    assert (ring - 1) * slices + slices == ring * slices;
    assert 2 * slices * ring + 2 * slices == 2 * slices * (ring + 1);
  }

  /** The triangle of north-fan slice `slice`, with indices as the generator computes them. */
  lemma SphereNorthFanIndices(rings: int, slices: int, slice: int)
    requires rings >= 1 && slices >= 1 && 0 <= slice < slices
    ensures slice < |SphereIndexTriangles(rings, slices)|
    ensures SphereIndexTriangles(rings, slices)[slice] == Triangle(0, 1 + (slice + 1) % slices, 1 + slice)
  {
    SpherePartRoundTrip(rings, slices, NorthFan(slice));
    NextIsMod(slice, slices);
  }

  /**
   * The two triangles of quad (`ring`, `slice`) of the band are the index
   * triples the generator computes from `current`, `next`, `nextRing` and
   * `nextRingNext`.
   */
  lemma SphereBandIndices(rings: int, slices: int, ring: int, slice: int,
                          current: int, next: int, nextRing: int, nextRingNext: int)
    requires rings >= 1 && slices >= 1 && 0 <= ring < rings - 1 && 0 <= slice < slices
    requires current == 1 + ring * slices + slice
    requires next == 1 + ring * slices + (slice + 1) % slices
    requires nextRing == 1 + (ring + 1) * slices + slice
    requires nextRingNext == 1 + (ring + 1) * slices + (slice + 1) % slices
    ensures var k := SpherePos(rings, slices, Band(Quad(ring, slice, false)));
      var tris := SphereIndexTriangles(rings, slices);
      && k + 1 < |tris|
      && tris[k] == Triangle(current, next, nextRing)
      && tris[k + 1] == Triangle(next, nextRingNext, nextRing)
  {
    SpherePartRoundTrip(rings, slices, Band(Quad(ring, slice, false)));
    SpherePartRoundTrip(rings, slices, Band(Quad(ring, slice, true)));
    NextIsMod(slice, slices);
  }

  /** The triangle of south-fan slice `slice`, with indices as the generator computes them from the last vertex. */
  lemma SphereSouthFanIndices(rings: int, slices: int, slice: int, lastVertex: int, b: int, c: int)
    requires rings >= 1 && slices >= 1 && 0 <= slice < slices
    requires lastVertex == rings * slices + 1
    requires b == lastVertex - slices + slice && c == lastVertex - slices + (slice + 1) % slices
    ensures var k := SpherePos(rings, slices, SouthFan(slice));
      var tris := SphereIndexTriangles(rings, slices);
      k < |tris| && tris[k] == Triangle(lastVertex, b, c)
  {
    var k := SpherePos(rings, slices, SouthFan(slice));
    SpherePartRoundTrip(rings, slices, SouthFan(slice));
    NextIsMod(slice, slices);
    assert SphereIndexTriangles(rings, slices)[k]
        == MapTriangle(SphereFace(rings, slices, SouthFan(slice)), SphereNumbering(rings, slices));
    assert (rings - 1) * slices == rings * slices - slices;
  }

  /** The band loop ends where the south fan starts, and the south fan ends the list. */
  lemma SphereSouthFanBounds(rings: int, slices: int)
    ensures SpherePos(rings, slices, Band(Quad(rings - 1, 0, false))) == SpherePos(rings, slices, SouthFan(0))
    ensures SpherePos(rings, slices, SouthFan(slices)) == 2 * rings * slices
  {
    assert 2 * (rings - 1) * slices + slices + slices == 2 * rings * slices;
  }

  /**
   * Builds the sphere as the source does, pushing vertices, normals and index
   * triples in nested loops; the result is exactly `SphereMesh`.
   */
  method GenerateSphere(rings: int, slices: int) returns (m: Mesh)
    requires rings >= 1 && slices >= 1
    ensures m == SphereMesh(rings, slices)
  {
    var vertices: seq<Vertex> := [];
    var indices: seq<int> := [];
    var normals: seq<Normal> := [];
    ghost var vs := SphereVertices(rings, slices);

    PrefixPush(vs, 0);
    NormalsOfPush(vertices, NorthPole);
    vertices := vertices + [NorthPole];
    normals := normals + [Outward(NorthPole)];

    for ring := 1 to rings + 1
      invariant |vertices| == SphereIndex(rings, slices, Ring(ring, 0)) <= |vs| - 1
      invariant vertices == vs[..|vertices|]
      invariant normals == NormalsOf(vertices)
    {
      for slice := 0 to slices
        invariant |vertices| == SphereIndex(rings, slices, Ring(ring, slice)) <= |vs| - 1
        invariant vertices == vs[..|vertices|]
        invariant normals == NormalsOf(vertices)
      {
        SphereIndexRoundTrip(rings, slices, Ring(ring, slice));
        PrefixPush(vs, |vertices|);
        NormalsOfPush(vertices, Ring(ring, slice));
        vertices := vertices + [Ring(ring, slice)];
        normals := normals + [Outward(Ring(ring, slice))];
      }
      SphereNextRing(rings, slices, ring);
    }

    PrefixPush(vs, |vertices|);
    NormalsOfPush(vertices, SouthPole);
    vertices := vertices + [SouthPole];
    normals := normals + [Outward(SouthPole)];
    assert vertices == vs;

    indices := SphereNorthFanLoop(rings, slices);
    indices := SphereBandLoops(rings, slices, indices);
    var lastVertex := |vertices| - 1;
    indices := SphereSouthFanLoop(rings, slices, lastVertex, indices);
    m := Mesh(vertices, normals, indices);
  }

  /** The first index loop of `GenerateSphere`: the fan around the north pole. */
  method SphereNorthFanLoop(rings: int, slices: int) returns (indices: seq<int>)
    requires rings >= 1 && slices >= 1
    ensures indices == Flatten(SphereIndexTriangles(rings, slices)[..slices])
  {
    ghost var tris := SphereIndexTriangles(rings, slices);
    indices := [];
    ghost var k := 0;  // triangles pushed so far
    for slice := 0 to slices
      invariant k == slice && indices == Flatten(tris[..k])
    {
      SphereNorthFanIndices(rings, slices, slice);
      PushTriangle(tris, k, indices, Triangle(0, 1 + ((slice + 1) % slices), 1 + slice));
      indices := indices + [0, 1 + ((slice + 1) % slices), 1 + slice];
      k := k + 1;
    }
  }

  /** The nested index loops of `GenerateSphere`: two triangles per quad between consecutive rings. */
  method SphereBandLoops(rings: int, slices: int, done: seq<int>) returns (indices: seq<int>)
    requires rings >= 1 && slices >= 1
    requires done == Flatten(SphereIndexTriangles(rings, slices)[..slices])
    ensures indices == Flatten(SphereIndexTriangles(rings, slices)[..SpherePos(rings, slices, SouthFan(0))])
  {
    ghost var tris := SphereIndexTriangles(rings, slices);
    indices := done;
    ghost var k := slices;  // triangles pushed so far
    MulMonotone(1, rings, 2 * slices);
    for ring := 0 to rings - 1
      invariant k == SpherePos(rings, slices, Band(Quad(ring, 0, false))) <= |tris|
      invariant indices == Flatten(tris[..k])
    {
      for slice := 0 to slices
        invariant k == SpherePos(rings, slices, Band(Quad(ring, slice, false))) <= |tris|
        invariant indices == Flatten(tris[..k])
      {
        var current := 1 + ring * slices + slice;
        var next := 1 + ring * slices + ((slice + 1) % slices);
        var nextRing := 1 + (ring + 1) * slices + slice;
        var nextRingNext := 1 + (ring + 1) * slices + ((slice + 1) % slices);

        SphereBandIndices(rings, slices, ring, slice, current, next, nextRing, nextRingNext);
        PushTriangle(tris, k, indices, Triangle(current, next, nextRing));
        indices := indices + [current, next, nextRing];
        PushTriangle(tris, k + 1, indices, Triangle(next, nextRingNext, nextRing));
        indices := indices + [next, nextRingNext, nextRing];
        k := k + 2;
      }
      SphereNextRing(rings, slices, ring);
    }
    SphereSouthFanBounds(rings, slices);
  }

  /** The last index loop of `GenerateSphere`: the fan around the south pole, numbered `lastVertex`. */
  method SphereSouthFanLoop(rings: int, slices: int, lastVertex: int, done: seq<int>) returns (indices: seq<int>)
    requires rings >= 1 && slices >= 1 && lastVertex == rings * slices + 1
    requires done == Flatten(SphereIndexTriangles(rings, slices)[..SpherePos(rings, slices, SouthFan(0))])
    ensures indices == Flatten(SphereIndexTriangles(rings, slices))
  {
    ghost var tris := SphereIndexTriangles(rings, slices);
    SphereSouthFanBounds(rings, slices);
    indices := done;
    ghost var k := SpherePos(rings, slices, SouthFan(0));  // triangles pushed so far
    for slice := 0 to slices
      invariant k == SpherePos(rings, slices, SouthFan(slice)) && indices == Flatten(tris[..k])
    {
      var b := lastVertex - slices + slice;
      var c := lastVertex - slices + ((slice + 1) % slices);
      SphereSouthFanIndices(rings, slices, slice, lastVertex, b, c);
      PushTriangle(tris, k, indices, Triangle(lastVertex, b, c));
      indices := indices + [lastVertex, b, c];
      k := k + 1;
    }
    assert tris[..k] == tris;
  }

  // ---------------------------------------------------------------------------
  // Which vertices each part of the index list uses

  /** Ring vertices are numbered from 1 to `rings * slices`; ring 1 first, ring `rings` last. */
  lemma SphereRingIndexRange(rings: int, slices: int, i: int, j: int)
    requires slices >= 1 && 1 <= i <= rings && 0 <= j < slices
    ensures 1 <= SphereIndex(rings, slices, Ring(i, j)) <= rings * slices
    ensures i == 1 ==> SphereIndex(rings, slices, Ring(i, j)) <= slices
    ensures i == rings ==> rings * slices - slices < SphereIndex(rings, slices, Ring(i, j))
  {
    MulMonotone(0, i - 1, slices);
    MulMonotone(i - 1, rings - 1, slices);
    assert (rings - 1) * slices == rings * slices - slices;
  }

  /** A band triangle uses ring vertices only. */
  lemma SphereBandIndexRange(rings: int, slices: int, t: int)
    requires rings >= 1 && slices >= 3 && slices <= t < SpherePos(rings, slices, SouthFan(0))
    ensures var tri := SphereIndexTriangles(rings, slices)[t];
      1 <= tri.a <= rings * slices && 1 <= tri.b <= rings * slices && 1 <= tri.c <= rings * slices
  {
    SphereSouthFanBounds(rings, slices);
    SpherePosRoundTrip(rings, slices, t);
    var q := SpherePartAt(rings, slices, t).quad;
    NextIsMod(q.slice, slices);
    assert SphereIndexTriangles(rings, slices)[t] == MapTriangle(SphereFace(rings, slices, Band(q)), SphereNumbering(rings, slices));
    SphereRingIndexRange(rings, slices, q.ring + 1, q.slice);
    SphereRingIndexRange(rings, slices, q.ring + 1, Next(q.slice, slices));
    SphereRingIndexRange(rings, slices, q.ring + 2, q.slice);
    SphereRingIndexRange(rings, slices, q.ring + 2, Next(q.slice, slices));
  }

  /** The index triples of the sphere mesh are the numbered faces. */
  lemma SphereMeshTriangles(rings: int, slices: int)
    requires rings >= 1 && slices >= 3
    ensures Triangles(SphereMesh(rings, slices).indices) == SphereIndexTriangles(rings, slices)
  {
    SphereNumbersCorners(rings, slices);
    NumberedMeshFaces(SphereFaces(rings, slices), SphereVertices(rings, slices), SphereNumbering(rings, slices));
  }

  /**
   * The north cap (the first `slices` triangles) uses vertex 0 and ring-1
   * vertices only; the bands use ring vertices only; the south cap (the last
   * `slices` triangles) uses the last vertex and last-ring vertices only.
   */
  lemma SphereCapIndices(rings: int, slices: int)
    requires rings >= 1 && slices >= 3
    ensures var tris := Triangles(SphereMesh(rings, slices).indices);
      var last := rings * slices + 1;
      && |tris| == 2 * rings * slices
      && (forall t | 0 <= t < slices ::
            tris[t].a == 0 && 1 <= tris[t].b <= slices && 1 <= tris[t].c <= slices)
      && (forall t | slices <= t < |tris| - slices ::
            1 <= tris[t].a < last && 1 <= tris[t].b < last && 1 <= tris[t].c < last)
      && (forall t | |tris| - slices <= t < |tris| ::
            tris[t].a == last && last - slices <= tris[t].b < last && last - slices <= tris[t].c < last)
  {
    var tris := SphereIndexTriangles(rings, slices);
    SphereMeshTriangles(rings, slices);
    SphereSouthFanBounds(rings, slices);
    var southStart := SpherePos(rings, slices, SouthFan(0));
    forall t | 0 <= t < slices
      ensures tris[t].a == 0 && 1 <= tris[t].b <= slices && 1 <= tris[t].c <= slices
    {
      SphereNorthFanIndices(rings, slices, t);
    }
    forall t | slices <= t < southStart
      ensures 1 <= tris[t].a <= rings * slices && 1 <= tris[t].b <= rings * slices && 1 <= tris[t].c <= rings * slices
    {
      SphereBandIndexRange(rings, slices, t);
    }
    forall t | southStart <= t < |tris|
      ensures tris[t].a == rings * slices + 1
      ensures rings * slices + 1 - slices <= tris[t].b < rings * slices + 1
      ensures rings * slices + 1 - slices <= tris[t].c < rings * slices + 1
    {
      var s := t - southStart;
      NextIsMod(s, slices);
      SphereSouthFanIndices(rings, slices, s, rings * slices + 1,
        rings * slices + 1 - slices + s, rings * slices + 1 - slices + (s + 1) % slices);
    }
  }

  /**
   * With a single ring there are no bands: the north cap is followed at once by
   * the south cap, and the south cap's ring corners `lastVertex - slices + s`
   * are `1 + s`, the vertices of ring 1.
   */
  lemma SphereOneRing(slices: int)
    requires slices >= 3
    ensures var tris := Triangles(SphereMesh(1, slices).indices);
      && |tris| == 2 * slices
      && (forall s | 0 <= s < slices :: tris[s] == Triangle(0, 1 + (s + 1) % slices, 1 + s))
      && (forall t | slices <= t < 2 * slices ::
            tris[t] == Triangle(slices + 1, 1 + (t - slices), 1 + (t - slices + 1) % slices))
  {
    var tris := SphereIndexTriangles(1, slices);
    SphereMeshTriangles(1, slices);
    SphereSouthFanBounds(1, slices);
    forall s | 0 <= s < slices
      ensures tris[s] == Triangle(0, 1 + (s + 1) % slices, 1 + s)
    {
      SphereNorthFanIndices(1, slices, s);
    }
    forall t | slices <= t < 2 * slices
      ensures tris[t] == Triangle(slices + 1, 1 + (t - slices), 1 + (t - slices + 1) % slices)
    {
      var s := t - slices;
      SphereSouthFanIndices(1, slices, s, slices + 1, 1 + s, 1 + (s + 1) % slices);
    }
  }

  /** The vertex list of one ring of three vertices between the poles. */
  lemma OneRingOfThree(rings: int, slices: int)
    requires rings == 1 && slices == 3
    ensures SphereVertices(rings, slices) == [NorthPole, Ring(1, 0), Ring(1, 1), Ring(1, 2), SouthPole]
  {
    var vs := SphereVertices(rings, slices);
    DivModOf(0, 3, 0);
    DivModOf(0, 3, 1);
    DivModOf(0, 3, 2);
    assert vs[1] == Ring(1, 0) && vs[2] == Ring(1, 1) && vs[3] == Ring(1, 2);
  }

  /**
   * The smallest sphere the selector can ask for: one ring of three vertices
   * between the poles, and six triangles.
   */
  lemma SphereSmallest(rings: int, slices: int)
    requires rings == 1 && slices == 3
    ensures SphereMesh(rings, slices).vertices == [NorthPole, Ring(1, 0), Ring(1, 1), Ring(1, 2), SouthPole]
    ensures |SphereMesh(rings, slices).indices| == 18
  {
    OneRingOfThree(rings, slices);
    SphereMeshCounts(rings, slices);
  }

  /**
   * The smallest sphere's south cap follows the north cap at once and joins
   * the south pole (vertex 4) to ring 1 (vertices 1 to 3).
   */
  lemma SphereSmallestTriangles(rings: int, slices: int)
    requires rings == 1 && slices == 3
    ensures |SphereMesh(rings, slices).indices| == 18
    ensures var tris := Triangles(SphereMesh(rings, slices).indices);
      tris[0] == Triangle(0, 2, 1) && tris[3] == Triangle(4, 1, 2) && tris[5] == Triangle(4, 3, 1)
  {
    SphereMeshCounts(rings, slices);
    SphereOneRing(slices);
    NextIsMod(0, slices);
    NextIsMod(2, slices);
  }

  /** Three rings of four: 14 vertices and 24 triangles, the south cap starting at triangle 20. */
  lemma SphereThreeByFour()
    ensures |SphereMesh(3, 4).vertices| == 14
    ensures var tris := Triangles(SphereMesh(3, 4).indices);
      |tris| == 24 && tris[20] == Triangle(13, 9, 10) && tris[4] == Triangle(1, 2, 5)
  {
    SphereMeshTriangles(3, 4);
    SphereSouthFanIndices(3, 4, 0, 13, 9, 10);
    SphereBandIndices(3, 4, 0, 0, 1, 2, 5, 6);
  }
}
