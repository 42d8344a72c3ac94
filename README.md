# Parametric mesh generator — a verified model

This project models the mesh topology generator of a small WebGL demo that draws
a lit, rotating sphere or torus. It covers three parts of `parametric.js`:

- `generateSphere(rings, slices)` builds a north-pole vertex, then `rings`
  latitude rings of `slices` vertices each, then a south-pole vertex. It
  triangulates them as a fan of triangles around each pole, plus two triangles
  per quad between neighbouring rings. The slice direction wraps around.
- `generateTorus(rings, slices)` builds a `rings × slices` grid of vertices. It
  triangulates every quad of the grid, wrapping around in both directions.
- The selector in `generateGeometry` raises the ring and slice counts to each
  shape's minimum before calling the chosen generator.

Each vertex is modelled by a label saying where it sits on the surface:
`NorthPole`, `Ring(i, j)`, `SouthPole` or `TorusPt(i, j)`. Its normal is the
label `Outward(v)`. The generators are methods whose loops mirror the source
loop for loop. Each pushes one vertex label and one normal per vertex, and one
index triple per triangle, computed with the same expressions as the source.
Each method is proved to return exactly a declarative mesh (`SphereMesh`,
`TorusMesh`). The properties are proved about those meshes:

- vertex, normal and index counts;
- index bounds;
- the vertex numbering;
- which vertices each part of the index list touches;
- no triangle names the same vertex twice;
- the mesh is closed and consistently oriented: every directed edge lies in
  exactly one triangle, and its reverse in exactly one other.

How closedness is proved:

- Triangles are numbered in push order. `Quad(ring, slice, upper)` names the two
  triangles of a quad, and the numbering is inverted with `/` and `%`.
- An owner function finds, from a directed edge's two endpoints alone, the one
  triangle that has that edge. This gives uniqueness and the existence of the
  reverse edge.
- The vertex numbering is one-to-one, so closedness carries over from labels to
  the integer index list.

Files:

- `mesh.dfy` (module `MeshTopology`) holds the shared vocabulary: labels,
  triangles, the mesh record, flattening into an index list, the record's
  invariant, and closedness. It also holds the generic relabelling lemmas.
- `sphere.dfy` (module `Sphere`) holds the sphere generator.
- `torus.dfy` (module `Torus`) holds the torus generator.
- `geometry.dfy` (module `Geometry`) holds the selector and the dispatch.

## Model

| member | source | states |
|---|---|---|
| MeshTopology.NextIsMod | parametric.js:140 | `(slice + 1) % slices` is the next slice: it wraps to 0 after the last slice, and the previous slice of it is `slice` again |
| MeshTopology.QuadAtPos | parametric.js:145-155 | numbering a quad's triangle in push order (two per quad, quad after quad, ring after ring) gives a position below `2 * rings * slices`, and decoding the position gives the same triangle back |
| MeshTopology.QuadPosAt | parametric.js:197-207 | every position below `2 * rings * slices` is the push position of exactly one quad triangle of the grid |
| MeshTopology.FlattenAt | parametric.js:152-153 | in the flat index list, triangle `t` occupies entries `3t`, `3t + 1` and `3t + 2`, in the order pushed |
| MeshTopology.TrianglesOfFlatten | parametric.js:152-153 | reading the flat index list back three at a time gives exactly the pushed triangles |
| MeshTopology.FlattenOfTriangles | parametric.js:152-153 | an index list whose length is a multiple of 3 is the flattening of its own triples |
| MeshTopology.PushTriangle | parametric.js:152 | pushing a triangle's three corners onto the flattened first `k` triangles gives the flattened first `k + 1` |
| MeshTopology.NormalsOfPush | parametric.js:129-130 | pushing one vertex and its normal keeps one normal per vertex, at the same position |
| MeshTopology.EdgeBordersTwoFaces | parametric.js:137-164 | in a closed, consistently oriented mesh without degenerate triangles, a directed edge lies in exactly one triangle, its reverse in exactly one, and the undirected edge borders exactly two triangles |
| MeshTopology.TransferTopology | parametric.js:117-164 | renumbering the corners one-to-one keeps a mesh closed, consistently oriented and free of degenerate triangles |
| MeshTopology.NumberedMeshFaces | parametric.js:117-166 | listing each corner by its position in the vertex list gives a well-formed record: one normal per vertex, a multiple of 3 indices, every index below the vertex count. Reading the triples back gives the labelled triangles |
| MeshTopology.NumberedMeshClosed | parametric.js:137-166 | the index triples of such a record are closed, consistently oriented and non-degenerate when the labelled triangles are |
| Sphere.SphereIndexRoundTrip | parametric.js:117-135 | every sphere vertex has a position below `rings * slices + 2`, and that position holds it: north pole 0, ring `i` slice `j` at `1 + (i - 1) * slices + j`, south pole `rings * slices + 1` |
| Sphere.SphereVertexAtRoundTrip | parametric.js:117-135 | every position below `rings * slices + 2` holds a sphere vertex whose number is that position |
| Sphere.SpherePartRoundTrip | parametric.js:137-164 | every sphere triangle (north fan, band quad half, south fan) has a push position below `2 * rings * slices`, and that position decodes back to it |
| Sphere.SpherePosRoundTrip | parametric.js:137-164 | every position below `2 * rings * slices` is the push position of exactly one sphere triangle |
| Sphere.SphereFaceCorners | parametric.js:137-164 | every sphere triangle's corners are vertices of the sphere, and three distinct ones |
| Sphere.SphereEdgeOwner | parametric.js:137-164 | the owner of each directed edge of a sphere triangle is that triangle, and the reverse edge has an owner that contains it |
| Sphere.SphereFacesClosed | parametric.js:137-164 | the sphere's labelled triangles are closed, consistently oriented and non-degenerate, seams and poles included |
| Sphere.SphereNumbersCorners | parametric.js:117-164 | every corner of every sphere triangle is stored in the vertex list at the index the generator uses for it |
| Sphere.SphereMeshCounts | parametric.js:117-164 | the sphere has `rings * slices + 2` vertices, as many normals, `6 * rings * slices` indices, every index names an existing vertex, and the triples connect exactly the labelled triangles |
| Sphere.SphereMeshLayout | parametric.js:117-135 | position 0 is the north pole, `rings * slices + 1` the south pole, `1 + (i - 1) * slices + j` ring `i` slice `j`; each position holds the vertex whose number it is, so no vertex is stored twice |
| Sphere.SphereMeshClosed | parametric.js:137-164 | the sphere's index triples are closed, consistently oriented and non-degenerate |
| Sphere.SphereMeshTriangles | parametric.js:137-164 | the sphere's index triples are the numbered labelled triangles |
| Sphere.SphereNorthFanIndices | parametric.js:137-143 | north-fan triangle `slice` is `(0, 1 + (slice + 1) % slices, 1 + slice)` |
| Sphere.SphereBandIndices | parametric.js:145-155 | the two triangles of band quad (`ring`, `slice`) are `(current, next, nextRing)` and `(next, nextRingNext, nextRing)` as the source computes them |
| Sphere.SphereSouthFanIndices | parametric.js:157-164 | south-fan triangle `slice` is `(lastVertex, lastVertex - slices + slice, lastVertex - slices + (slice + 1) % slices)` with `lastVertex = rings * slices + 1` |
| Sphere.SphereBandIndexRange | parametric.js:145-155 | band triangles use ring vertices only (indices 1 to `rings * slices`) |
| Sphere.SphereRingIndexRange | parametric.js:147-150 | ring vertices are numbered 1 to `rings * slices`; ring 1 takes the first `slices` numbers and the last ring the last `slices` |
| Sphere.SphereCapIndices | parametric.js:137-164 | the first `slices` triangles use vertex 0 and ring-1 vertices only. The last `slices` use the last vertex and last-ring vertices only. The band triangles between them never touch a pole |
| Sphere.SphereOneRing | parametric.js:145-164 | with one ring the band loop adds nothing. The south fan follows the north fan at once, and its ring corners `lastVertex - slices + s` are `1 + s`, the vertices of ring 1 |
| Sphere.GenerateSphere | parametric.js:112-167 | the method returns exactly `SphereMesh(rings, slices)` |
| Sphere.SphereNorthFanLoop | parametric.js:137-143 | the north-cap loop pushes exactly the first `slices` index triples |
| Sphere.SphereBandLoops | parametric.js:145-155 | the band loops push exactly the triples after the north cap up to the start of the south cap |
| Sphere.SphereSouthFanLoop | parametric.js:157-164 | the south-cap loop completes the index list |
| Sphere.SphereSmallest | parametric.js:112-167 | `rings = 1, slices = 3` gives the 5 vertices north pole, ring 1 slices 0 to 2, south pole, and 18 indices (6 triangles) |
| Sphere.SphereSmallestTriangles | parametric.js:137-164 | for `rings = 1, slices = 3` the first triangle is `(0, 2, 1)`. The south cap starts at triangle 3 with `(4, 1, 2)` and ends with `(4, 3, 1)` |
| Sphere.SphereThreeByFour | parametric.js:112-167 | `rings = 3, slices = 4` gives 14 vertices and 24 triangles. Triangle 4 is the first band triangle `(1, 2, 5)`, and triangle 20 the first south-cap triangle `(13, 9, 10)` |
| Torus.TorusIndexRoundTrip | parametric.js:176-195 | every grid point (`i`, `j`) is numbered `i * slices + j`, below `rings * slices`, and that position holds it |
| Torus.TorusVertexAtRoundTrip | parametric.js:176-195 | every position below `rings * slices` holds a grid point whose number is that position |
| Torus.TorusFaceCorners | parametric.js:197-207 | for `rings, slices ≥ 3` every torus triangle's corners are grid points, and three distinct ones |
| Torus.TorusEdgeOwner | parametric.js:197-207 | the owner of each directed edge of a torus triangle is that triangle, and the reverse edge has an owner that contains it |
| Torus.TorusFacesClosed | parametric.js:197-207 | the torus's labelled triangles are closed, consistently oriented and non-degenerate across both wrap-arounds |
| Torus.TorusNumbersCorners | parametric.js:176-207 | every corner of every torus triangle is stored in the vertex list at the index the generator uses for it |
| Torus.TorusMeshCounts | parametric.js:176-207 | the torus has `rings * slices` vertices, as many normals, `6 * rings * slices` indices, every index names an existing vertex, and the triples connect exactly the labelled triangles |
| Torus.TorusMeshLayout | parametric.js:176-195 | position `i * slices + j` holds grid point (`i`, `j`), and each position holds the point whose number it is |
| Torus.TorusMeshClosed | parametric.js:197-207 | the torus's index triples are closed, consistently oriented and non-degenerate |
| Torus.TorusMeshTriangles | parametric.js:197-207 | the torus's index triples are the numbered labelled triangles |
| Torus.TorusQuadIndices | parametric.js:199-205 | the two triangles of quad (`ring`, `slice`) are `(current, next, nextRing)` and `(next, nextRingNext, nextRing)`, with `(ring + 1) % rings` and `(slice + 1) % slices` as the source computes them |
| Torus.TorusQuadsEnd | parametric.js:197 | loop-bound helper of `TorusQuadLoops`: the outer loop's position `2 * slices * ring` stays within the list and reaches its end at `ring == rings` |
| Torus.GenerateTorus | parametric.js:169-210 | the method returns exactly `TorusMesh(rings, slices)` |
| Torus.TorusQuadLoops | parametric.js:197-207 | the nested index loops push exactly the flattened torus triangles |
| Torus.TorusThreeByThree | parametric.js:169-210 | `rings = 3, slices = 3` gives 9 vertices and 18 triangles (54 indices). The last quad wraps to ring 0 and slice 0: `(8, 6, 2)` and `(6, 0, 2)` |
| Geometry.Max | parametric.js:227-228 | `Math.max` of two integers is at least both and equal to one of them |
| Geometry.Select | parametric.js:226-228 | the selector keeps the shape, and the request meets that shape's minimums (sphere rings ≥ 1, torus rings ≥ 3, slices ≥ 3). Each count is the input or the minimum, whichever is larger |
| Geometry.SelectIdempotent | parametric.js:226-228 | clamping a clamped request changes nothing |
| Geometry.SelectPassThrough | parametric.js:226-228 | the counts pass through unchanged if and only if they already meet the shape's minimums |
| Geometry.SelectSmallestSphere | parametric.js:228 | zero rings and one slice select the sphere with one ring and three slices |
| Geometry.ClampedSmallestSphere | parametric.js:226-228 | zero rings and one slice give exactly the mesh of `generateSphere(1, 3)` |
| Geometry.RequestedMeshManifold | parametric.js:137-207 | in any mesh the selector can produce, each edge of a triangle lies in that triangle alone, its reverse in exactly one triangle, and the undirected edge borders exactly two triangles |
| Geometry.GenerateGeometry | parametric.js:221-228 | for any integers, the dispatched generator returns the mesh of the clamped request. That mesh is well formed, closed, consistently oriented and free of degenerate triangles |

## Left out

- Vertex coordinates and normal vectors are left out. They are computed with
  `Math.sin`, `Math.cos` and `Math.sqrt` (parametric.js:121-130, 177-193).
  - Each vertex is one label rather than three floats, so `vertices.length / 3`
    (parametric.js:157) is the length of the label list.
  - Each normal is `Outward(v)`. Unit length and geometric outward facing are
    floating-point properties and are not modelled. Orientation is captured
    combinatorially by the directed-edge property instead.
- Shader sources, `compileShader`, `resizeCanvas`, `setupBuffers`, buffer
  uploads, `tick`, `draw`, the `load` handler and the `mat4` calls are left out.
  They are WebGL, DOM and animation-frame I/O and hold global render state.
- `parseInt` of the page's input fields (parametric.js:222-223) is left out,
  including its NaN result. The selector takes integers.
- The `Uint16Array` upload (parametric.js:243) is left out. It wraps indices
  above 65535. Indices here are unbounded integers, so the results hold only
  when `rings * slices + 2 ≤ 65536`, which the source does not check.
- Sphere.GenerateSphere: requires `rings ≥ 1` and `slices ≥ 1`. For
  `rings ≤ 0` and `slices ≥ 2` the source's fans name vertices that do not
  exist; with one slice they name only the two poles, in degenerate
  triangles. For `slices ≤ 0` no triangle is pushed. Only the selector calls
  the generator, and it never passes such values.
- Torus.GenerateTorus: requires `rings ≥ 1` and `slices ≥ 1`. Smaller counts
  give an empty mesh in the source, and the selector never passes them.
- Closedness and non-degeneracy are proved for the counts the selector passes:
  sphere `slices ≥ 3`, torus `rings, slices ≥ 3`. With one slice, or one torus
  ring or slice, a triangle repeats a vertex. With two, the triangles are
  non-degenerate, but a directed edge lies in two triangles, so the mesh is not
  closed.
