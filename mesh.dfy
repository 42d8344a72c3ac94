/**
 * Conventions shared by the two parametric surface generators: vertices named
 * by abstract labels instead of coordinates, the mesh record, triangles and
 * their directed edges, and the wraparound and numbering arithmetic that both
 * generators rely on.
 */
module MeshTopology {

  datatype Option<T> = None | Some(value: T)

  /**
   * A vertex of a generated surface, named by where it sits on the surface.
   * `Ring(i, j)` is slice `j` of sphere latitude ring `i` (rings count from 1);
   * `TorusPt(i, j)` is slice `j` of torus ring `i` (both count from 0).
   */
  datatype Vertex =
    | NorthPole
    | Ring(ring: int, slice: int)
    | SouthPole
    | TorusPt(ring: int, slice: int)

  /** The unit outward surface normal at a vertex. */
  datatype Normal = Outward(at: Vertex)

  /** Three corners, in the winding order in which they are listed. */
  datatype Triangle<V> = Triangle(a: V, b: V, c: V)

  /**
   * The generators' output: one vertex and one normal per vertex (the
   * coordinate triple of each is abstracted to its label), and a flat index
   * list in which each consecutive triple is one triangle.
   */
  datatype Mesh = Mesh(vertices: seq<Vertex>, normals: seq<Normal>, indices: seq<int>)

  /**
   * Two triangles of the quad between slice `slice` and the next one, and
   * ring `ring` and the next one: the `upper` one is pushed second.
   */
  datatype Quad = Quad(ring: int, slice: int, upper: bool)

  // ---------------------------------------------------------------------------
  // Wraparound arithmetic

  /** The slice after `s` going around `n` slices. */
  function Next(s: int, n: int): int
  {
    if s + 1 == n then 0 else s + 1
  }

  /** The slice before `s` going around `n` slices. */
  function Prev(s: int, n: int): int
  {
    if s == 0 then n - 1 else s - 1
  }

  lemma DivModOf(q: int, m: int, r: int)
    requires 0 < m && 0 <= r < m
    ensures (q * m + r) / m == q && (q * m + r) % m == r
  {
    var x := q * m + r;
    var d, e := x / m, x % m;
    assert (q - d) * m == e - r;
    if q - d >= 1 {
      MulAtLeast(q - d, m);
    } else if q - d <= -1 {
      MulAtLeast(d - q, m);
    }
  }

  lemma MulAtLeast(k: int, m: int)
    requires k >= 1 && m > 0
    ensures k * m >= m
  {
    assert k * m == (k - 1) * m + m;
  }

  lemma MulMonotone(a: int, b: int, m: int)
    requires 0 <= a <= b && m >= 0
    ensures a * m <= b * m
  {
    assert b * m == a * m + (b - a) * m;
  }

  /** Three indices per triangle, two triangles per quad. */
  lemma TripleCount(rings: int, slices: int)
    ensures 3 * (2 * rings * slices) == 6 * rings * slices
  {
  }

  /** `(s + 1) % n`, as the source writes it, is the slice after `s`. */
  lemma NextIsMod(s: int, n: int)
    requires 0 <= s < n
    ensures (s + 1) % n == Next(s, n)
    ensures 0 <= Next(s, n) < n && Prev(Next(s, n), n) == s
  {
    if s + 1 == n {
      DivModOf(1, n, 0);
    } else {
      DivModOf(0, n, s + 1);
    }
  }

  // ---------------------------------------------------------------------------
  // Numbering of the two triangles of each quad

  /** Position of a quad triangle among those pushed ring by ring, slice by slice, two per quad. */
  function QuadPos(slices: int, q: Quad): int
  {
    2 * slices * q.ring + 2 * q.slice + (if q.upper then 1 else 0)
  }

  /** The quad triangle pushed at position `p`. */
  function QuadAt(slices: int, p: int): Quad
    requires slices > 0
  {
    var w := p % (2 * slices);
    Quad(p / (2 * slices), w / 2, w % 2 == 1)
  }

  predicate IsQuad(rings: int, slices: int, q: Quad)
  {
    0 <= q.ring < rings && 0 <= q.slice < slices
  }

  /** Decoding a quad triangle's position gives back the quad. */
  lemma QuadAtPos(rings: int, slices: int, q: Quad)
    requires slices > 0 && IsQuad(rings, slices, q)
    ensures 0 <= QuadPos(slices, q) < 2 * rings * slices
    ensures QuadAt(slices, QuadPos(slices, q)) == q
  {
    var h := if q.upper then 1 else 0;
    DivModOf(q.ring, 2 * slices, 2 * q.slice + h);
    MulMonotone(q.ring + 1, rings, 2 * slices);
  }

  /** Every position below `2 * rings * slices` is the position of exactly the quad it decodes to. */
  lemma QuadPosAt(rings: int, slices: int, p: int)
    requires slices > 0 && 0 <= p < 2 * rings * slices
    ensures IsQuad(rings, slices, QuadAt(slices, p))
    ensures QuadPos(slices, QuadAt(slices, p)) == p
  {
    var m := 2 * slices;
    var d, w := p / m, p % m;
    assert p == d * m + w && 0 <= w < m;
    assert 2 * slices * d == d * m && 2 * rings * slices == rings * m;
    assert d * m == -((-d) * m);
    if d >= rings {
      MulMonotone(rings, d, m);
    }
    if d < 0 {
      MulAtLeast(-d, m);
    }
    assert w == 2 * (w / 2) + w % 2;
  }

  // ---------------------------------------------------------------------------
  // Index list <-> triangles

  /** The index list that lists the corners of each triangle in turn. */
  function Flatten<V>(tris: seq<Triangle<V>>): (s: seq<V>)
    ensures |s| == 3 * |tris|
  {
    if tris == [] then []
    else
      var last := tris[|tris| - 1];
      Flatten(tris[..|tris| - 1]) + [last.a, last.b, last.c]
  }

  /** Triangle `t` occupies positions `3 * t` to `3 * t + 2` of the flattened list. */
  lemma {:induction false} FlattenAt<V>(tris: seq<Triangle<V>>, t: int)
    requires 0 <= t < |tris|
    ensures var s := Flatten(tris);
      s[3 * t] == tris[t].a && s[3 * t + 1] == tris[t].b && s[3 * t + 2] == tris[t].c
  {
    if t < |tris| - 1 {
      FlattenAt(tris[..|tris| - 1], t);
    }
  }

  /** The triangles named by consecutive triples of an index list. */
  function Triangles<V>(ix: seq<V>): (tris: seq<Triangle<V>>)
    requires |ix| % 3 == 0
  {
    seq(|ix| / 3, t requires 0 <= t < |ix| / 3 => Triangle(ix[3 * t], ix[3 * t + 1], ix[3 * t + 2]))
  }

  /** Grouping a flattened list back into triples gives the triangles again. */
  lemma TrianglesOfFlatten<V>(tris: seq<Triangle<V>>)
    ensures Triangles(Flatten(tris)) == tris
  {
    forall t | 0 <= t < |tris|
      ensures Triangles(Flatten(tris))[t] == tris[t]
    {
      FlattenAt(tris, t);
    }
  }

  /** Flattening the triples of an index list gives the list again. */
  lemma FlattenOfTriangles<V>(ix: seq<V>)
    requires |ix| % 3 == 0
    ensures Flatten(Triangles(ix)) == ix
  {
    var f := Flatten(Triangles(ix));
    forall i | 0 <= i < |ix|
      ensures f[i] == ix[i]
    {
      var t := i / 3;
      var tri := Triangles(ix)[t];
      assert tri == Triangle(ix[3 * t], ix[3 * t + 1], ix[3 * t + 2]);
      FlattenAt(Triangles(ix), t);
      assert f[3 * t] == tri.a && f[3 * t + 1] == tri.b && f[3 * t + 2] == tri.c;
      assert i == 3 * t || i == 3 * t + 1 || i == 3 * t + 2;
    }
  }

  lemma PrefixPush<T>(s: seq<T>, k: int)
    requires 0 <= k < |s|
    ensures s[..k + 1] == s[..k] + [s[k]]
  {
  }

  lemma FlattenPrefix<V>(tris: seq<Triangle<V>>, k: int)
    requires 0 <= k < |tris|
    ensures Flatten(tris[..k + 1]) == Flatten(tris[..k]) + [tris[k].a, tris[k].b, tris[k].c]
  {
    assert tris[..k + 1][..k] == tris[..k];
  }

  /** Appending the corners of triangle `k` to the flattened first `k` triangles flattens the first `k + 1`. */
  lemma PushTriangle(tris: seq<Triangle<int>>, k: int, done: seq<int>, tri: Triangle<int>)
    requires 0 <= k < |tris| && tris[k] == tri && done == Flatten(tris[..k])
    ensures done + [tri.a, tri.b, tri.c] == Flatten(tris[..k + 1])
  {
    FlattenPrefix(tris, k);
  }

  /** Relabels every corner of every triangle. */
  function MapTriangles<V, W>(tris: seq<Triangle<V>>, f: V -> W): (r: seq<Triangle<W>>)
    ensures |r| == |tris|
  {
    seq(|tris|, t requires 0 <= t < |tris| => Triangle(f(tris[t].a), f(tris[t].b), f(tris[t].c)))
  }

  // ---------------------------------------------------------------------------
  // The mesh record's invariant

  /** One outward normal per vertex, at the same position. */
  function NormalsOf(vs: seq<Vertex>): (ns: seq<Normal>)
  {
    seq(|vs|, p requires 0 <= p < |vs| => Outward(vs[p]))
  }

  lemma NormalsOfPush(vs: seq<Vertex>, v: Vertex)
    ensures NormalsOf(vs + [v]) == NormalsOf(vs) + [Outward(v)]
  {
  }

  /**
   * The invariant of the mesh record: as many normals as vertices, each the
   * normal at its vertex, and an index list of whole triangles that only
   * names existing vertices.
   */
  predicate WellFormed(m: Mesh)
  {
    && m.normals == NormalsOf(m.vertices)
    && |m.indices| % 3 == 0
    && forall i | 0 <= i < |m.indices| :: 0 <= m.indices[i] < |m.vertices|
  }

  /** The vertex labels the triangles of a well-formed mesh connect. */
  function Faces(m: Mesh): (fs: seq<Triangle<Vertex>>)
    requires WellFormed(m)
  {
    MapTriangles(Triangles(m.indices), Lookup(m.vertices))
  }

  /** The vertex stored at a position of `vs` (an arbitrary one outside it). */
  function Lookup(vs: seq<Vertex>): int -> Vertex
  {
    p => if 0 <= p < |vs| then vs[p] else NorthPole
  }

  // ---------------------------------------------------------------------------
  // Directed edges, closedness and orientation

  /** `x -> y` is one of the three directed edges of `f` in its winding order. */
  predicate HasEdge<V(==)>(f: Triangle<V>, x: V, y: V)
  {
    (f.a == x && f.b == y) || (f.b == x && f.c == y) || (f.c == x && f.a == y)
  }

  /** The three corners are distinct vertices. */
  predicate NonDegenerate<V(==)>(f: Triangle<V>)
  {
    f.a != f.b && f.b != f.c && f.c != f.a
  }

  predicate AllNonDegenerate<V(==)>(tris: seq<Triangle<V>>)
  {
    forall t | 0 <= t < |tris| :: NonDegenerate(tris[t])
  }

  /** No directed edge belongs to two different triangles. */
  ghost predicate EdgesUnique<V(!new)>(tris: seq<Triangle<V>>)
  {
    forall t, u, x, y | 0 <= t < |tris| && 0 <= u < |tris| && HasEdge(tris[t], x, y) && HasEdge(tris[u], x, y) ::
      t == u
  }

  /** The reverse of every directed edge of a triangle is an edge of some triangle. */
  ghost predicate EdgesPaired<V(!new)>(tris: seq<Triangle<V>>)
  {
    forall t, x, y | 0 <= t < |tris| && HasEdge(tris[t], x, y) ::
      exists u :: 0 <= u < |tris| && HasEdge(tris[u], y, x)
  }

  /**
   * A closed, consistently oriented triangle mesh: every directed edge is
   * used once, and its reverse is used once too.
   */
  ghost predicate ClosedOriented<V(!new)>(tris: seq<Triangle<V>>)
  {
    EdgesUnique(tris) && EdgesPaired(tris)
  }

  /** The triangles that have `x -> y` as a directed edge. */
  ghost function EdgeFaces<V(!new)>(tris: seq<Triangle<V>>, x: V, y: V): set<int>
  {
    set u | 0 <= u < |tris| && HasEdge(tris[u], x, y)
  }

  /** The triangles that border the undirected edge between `x` and `y`. */
  ghost function BorderFaces<V(!new)>(tris: seq<Triangle<V>>, x: V, y: V): set<int>
  {
    set u | 0 <= u < |tris| && (HasEdge(tris[u], x, y) || HasEdge(tris[u], y, x))
  }

  /**
   * In a closed, consistently oriented mesh a directed edge lies in exactly
   * one triangle, its reverse in exactly one other, and so the undirected
   * edge borders exactly two triangles.
   */
  lemma EdgeBordersTwoFaces<V(!new)>(tris: seq<Triangle<V>>, t: int, x: V, y: V)
    requires ClosedOriented(tris) && AllNonDegenerate(tris)
    requires 0 <= t < |tris| && HasEdge(tris[t], x, y)
    ensures EdgeFaces(tris, x, y) == {t}
    ensures |EdgeFaces(tris, y, x)| == 1
    ensures |BorderFaces(tris, x, y)| == 2
  {
    var u :| 0 <= u < |tris| && HasEdge(tris[u], y, x);
    assert EdgeFaces(tris, x, y) == {t};
    assert EdgeFaces(tris, y, x) == {u};
    assert NonDegenerate(tris[t]);
    assert t != u;
    assert BorderFaces(tris, x, y) == {t, u};
  }

  /** Relabels the three corners of one triangle. */
  function MapTriangle<V, W>(tri: Triangle<V>, f: V -> W): Triangle<W>
  {
    Triangle(f(tri.a), f(tri.b), f(tri.c))
  }

  /** `g` undoes `f` on the corners of `tri`. */
  predicate InvertsOn<V(==), W>(tri: Triangle<V>, f: V -> W, g: W -> V)
  {
    g(f(tri.a)) == tri.a && g(f(tri.b)) == tri.b && g(f(tri.c)) == tri.c
  }

  /** An edge of a relabelled triangle is the relabelling of an edge of the original. */
  lemma MappedEdge<V, W>(tri: Triangle<V>, f: V -> W, g: W -> V, x: W, y: W)
    requires InvertsOn(tri, f, g) && HasEdge(MapTriangle(tri, f), x, y)
    ensures HasEdge(tri, g(x), g(y)) && x == f(g(x)) && y == f(g(y))
  {
  }

  /**
   * Relabelling the corners by a map that is one-to-one on the corners in
   * use keeps a mesh closed, consistently oriented and free of degenerate
   * triangles.
   */
  lemma TransferTopology<V(!new), W(!new)>(tris: seq<Triangle<V>>, f: V -> W, g: W -> V)
    requires forall t | 0 <= t < |tris| :: InvertsOn(tris[t], f, g)
    requires ClosedOriented(tris) && AllNonDegenerate(tris)
    ensures ClosedOriented(MapTriangles(tris, f)) && AllNonDegenerate(MapTriangles(tris, f))
  {
    var r := MapTriangles(tris, f);
    assert forall t | 0 <= t < |r| :: r[t] == MapTriangle(tris[t], f);
    forall t, u, x, y | 0 <= t < |r| && 0 <= u < |r| && HasEdge(r[t], x, y) && HasEdge(r[u], x, y)
      ensures t == u
    {
      MappedEdge(tris[t], f, g, x, y);
      MappedEdge(tris[u], f, g, x, y);
    }
    forall t, x, y | 0 <= t < |r| && HasEdge(r[t], x, y)
      ensures exists u :: 0 <= u < |r| && HasEdge(r[u], y, x)
    {
      MappedEdge(tris[t], f, g, x, y);
      var u :| 0 <= u < |tris| && HasEdge(tris[u], g(y), g(x));
      assert HasEdge(r[u], f(g(y)), f(g(x)));
    }
    forall t | 0 <= t < |r|
      ensures NonDegenerate(r[t])
    {
      assert NonDegenerate(tris[t]) && InvertsOn(tris[t], f, g);
    }
  }

  // ---------------------------------------------------------------------------
  // From labelled triangles to the mesh record

  /** `f(v)` is a position of `vs`, and that position holds `v`. */
  predicate Stored(vs: seq<Vertex>, f: Vertex -> int, v: Vertex)
  {
    0 <= f(v) < |vs| && vs[f(v)] == v
  }

  /** `f` numbers every corner of every triangle of `fs` by where `vs` stores it. */
  predicate NumbersCorners(fs: seq<Triangle<Vertex>>, vs: seq<Vertex>, f: Vertex -> int)
  {
    forall t | 0 <= t < |fs| :: Stored(vs, f, fs[t].a) && Stored(vs, f, fs[t].b) && Stored(vs, f, fs[t].c)
  }

  /** The mesh record that stores `vs` and lists the corners of `fs` by their numbers under `f`. */
  function NumberedMesh(fs: seq<Triangle<Vertex>>, vs: seq<Vertex>, f: Vertex -> int): Mesh
  {
    Mesh(vs, NormalsOf(vs), Flatten(MapTriangles(fs, f)))
  }

  /**
   * Numbering the corners by their positions gives a well-formed mesh whose
   * index triples are the numbered triangles and whose faces are `fs` again.
   */
  lemma NumberedMeshFaces(fs: seq<Triangle<Vertex>>, vs: seq<Vertex>, f: Vertex -> int)
    requires NumbersCorners(fs, vs, f)
    ensures var m := NumberedMesh(fs, vs, f);
      WellFormed(m) && Triangles(m.indices) == MapTriangles(fs, f) && Faces(m) == fs
  {
    var m := NumberedMesh(fs, vs, f);
    var tris := MapTriangles(fs, f);
    assert forall t | 0 <= t < |tris| :: tris[t] == MapTriangle(fs[t], f);
    forall i | 0 <= i < |m.indices|
      ensures 0 <= m.indices[i] < |vs|
    {
      var t := i / 3;
      FlattenAt(tris, t);
      assert i == 3 * t || i == 3 * t + 1 || i == 3 * t + 2;
    }
    TrianglesOfFlatten(tris);
    var back := Faces(m);
    forall t | 0 <= t < |fs|
      ensures back[t] == fs[t]
    {
      assert back[t] == MapTriangle(tris[t], Lookup(vs));
    }
  }

  /**
   * The index triples of the numbered mesh inherit closedness, consistent
   * orientation and non-degeneracy from the labelled triangles.
   */
  lemma NumberedMeshClosed(fs: seq<Triangle<Vertex>>, vs: seq<Vertex>, f: Vertex -> int)
    requires NumbersCorners(fs, vs, f) && ClosedOriented(fs) && AllNonDegenerate(fs)
    ensures var tris := Triangles(NumberedMesh(fs, vs, f).indices);
      ClosedOriented(tris) && AllNonDegenerate(tris)
  {
    NumberedMeshFaces(fs, vs, f);
    forall t | 0 <= t < |fs|
      ensures InvertsOn(fs[t], f, Lookup(vs))
    {
      assert Stored(vs, f, fs[t].a) && Stored(vs, f, fs[t].b) && Stored(vs, f, fs[t].c);
    }
    TransferTopology(fs, f, Lookup(vs));
  }
}
