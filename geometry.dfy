/**
 * The geometry selector: the ring and slice counts read from the page are
 * raised to each shape's minimum before the chosen generator runs.
 */
module Geometry {
  import opened MeshTopology
  import opened Sphere
  import opened Torus

  /** The fewest rings a sphere is built with. */
  const MinSphereRings := 1
  /** The fewest rings a torus is built with. */
  const MinTorusRings := 3
  /** The fewest slices either shape is built with. */
  const MinSlices := 3

  /** The generator to run and the counts it is given. */
  datatype Request = Request(torus: bool, rings: int, slices: int)

  function Max(a: int, b: int): (r: int)
    ensures r >= a && r >= b && (r == a || r == b)
  {
    if a >= b then a else b
  }

  /** The least number of rings the chosen shape accepts. */
  function MinRings(isTorus: bool): int
  {
    if isTorus then MinTorusRings else MinSphereRings
  }

  /** A request the chosen generator accepts as it is. */
  predicate Admissible(r: Request)
  {
    r.rings >= MinRings(r.torus) && r.slices >= MinSlices
  }

  /**
   * The selector: each count is raised to the shape's minimum and otherwise
   * kept, so the request is the least admissible one at or above the input.
   */
  function Select(isTorus: bool, rings: int, slices: int): (r: Request)
    ensures r.torus == isTorus && Admissible(r)
    ensures r.rings >= rings && (r.rings == rings || r.rings == MinRings(isTorus))
    ensures r.slices >= slices && (r.slices == slices || r.slices == MinSlices)
  {
    if isTorus then Request(true, Max(MinTorusRings, rings), Max(MinSlices, slices))
    else Request(false, Max(MinSphereRings, rings), Max(MinSlices, slices))
  }

  /** Selecting again from a selected request changes nothing. */
  lemma SelectIdempotent(isTorus: bool, rings: int, slices: int)
    ensures var r := Select(isTorus, rings, slices);
      Select(r.torus, r.rings, r.slices) == r
  {
  }

  /** The counts pass through unchanged exactly when they already meet the shape's minimums. */
  lemma SelectPassThrough(isTorus: bool, rings: int, slices: int)
    ensures Select(isTorus, rings, slices) == Request(isTorus, rings, slices)
        <==> Admissible(Request(isTorus, rings, slices))
  {
  }

  /** Zero rings and one slice ask for the smallest sphere, one ring of three slices. */
  lemma SelectSmallestSphere()
    ensures Select(false, 0, 1) == Request(false, 1, 3)
  {
  }

  /** The mesh a request produces. */
  function RequestedMesh(r: Request): Mesh
    requires Admissible(r)
  {
    if r.torus then TorusMesh(r.rings, r.slices) else SphereMesh(r.rings, r.slices)
  }

  /** Zero rings and one slice give exactly the mesh of the sphere with one ring of three slices. */
  lemma ClampedSmallestSphere()
    ensures RequestedMesh(Select(false, 0, 1)) == SphereMesh(1, 3)
  {
    SelectSmallestSphere();
  }

  /**
   * In every mesh the selector can ask for, an edge of a triangle borders
   * exactly two triangles: the one that has it in its winding order and the
   * one that has its reverse.
   */
  lemma RequestedMeshManifold(r: Request, t: int, x: int, y: int)
    requires Admissible(r)
    requires var tris := Triangles(RequestedMesh(r).indices);
      0 <= t < |tris| && HasEdge(tris[t], x, y)
    ensures var tris := Triangles(RequestedMesh(r).indices);
      EdgeFaces(tris, x, y) == {t} && |EdgeFaces(tris, y, x)| == 1 && |BorderFaces(tris, x, y)| == 2
  {
    if r.torus {
      TorusMeshClosed(r.rings, r.slices);
    } else {
      SphereMeshClosed(r.rings, r.slices);
    }
    EdgeBordersTwoFaces(Triangles(RequestedMesh(r).indices), t, x, y);
  }

  /**
   * Raises the counts to the chosen shape's minimums and runs its generator;
   * whatever the input, the mesh is well formed, closed and consistently
   * oriented, with no degenerate triangle.
   */
  method GenerateGeometry(isTorus: bool, rings: int, slices: int) returns (m: Mesh)
    ensures m == RequestedMesh(Select(isTorus, rings, slices))
    ensures WellFormed(m)
    ensures ClosedOriented(Triangles(m.indices)) && AllNonDegenerate(Triangles(m.indices))
  {
    var r := Select(isTorus, rings, slices);
    if isTorus {
      m := GenerateTorus(r.rings, r.slices);
      TorusMeshCounts(r.rings, r.slices);
      TorusMeshClosed(r.rings, r.slices);
    } else {
      m := GenerateSphere(r.rings, r.slices);
      SphereMeshCounts(r.rings, r.slices);
      SphereMeshClosed(r.rings, r.slices);
    }
  }
}
