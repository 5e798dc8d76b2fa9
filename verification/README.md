# Triangular mesh topology, modelled in Dafny

This project models the core of TAShape's `TriangularMesh`. That class stores a triangle mesh as three
growing arrays: vertices, edges and triangles. Each vertex keeps three lists:
- `triList`, the triangles it is a corner of;
- `edgeList`, the edges it is an end of;
- `vertList`, its neighbours.

The model is functional. A `Mesh` is an immutable value. Each member function of the class becomes a
function or method that returns the new mesh, together with the result code where that code can be
something other than success. `addVertex`, `addTriangle` and `createCube` always return `TACORE_OK`, so
their models return only the mesh. Pointers become indices: a vertex, edge or triangle is named by its position, and its `id` equals
that position.

Modules follow the class's structure:

- `MeshModel` (`mesh.dfy`). The entities `Vertex`, `Edge`, `Triangle`, `Mesh` and the result codes
  `Status`. It also defines the mesh invariant `Wf`, which has three parts:
  - ids are dense;
  - every edge and triangle is registered with its ends and corners;
  - at most one edge joins any unordered pair of vertices, and neighbour lists match the edges.
- `Topology` (`topology.dfy`). `clear`, `addVertex`, `addEdge`, `makeVertsNeighbors` and `addTriangle`.
- `TopologyInvariants` (`invariants.dfy`). Each topology operation preserves `Wf`, and each changes
  adjacency in exactly the way it should.
- `Cube` (`cube.dfy`). `createCube`.
- `Construction` (`construction.dfy`). What both loaders do once the file has been read:
  - a sequence of vertex and face records is replayed onto a cleared mesh;
  - then the check for isolated vertices runs.
- `Loader` (`loader.dfy`). `load`, `loadObj` and `loadOff` over already-tokenised input, including how
  the C formatted reads behave at end of input.
- `Exporter` (`exporter.dfy`). `save` and `savePly`. The PLY document is modelled by its content.
- `RingAreas` (`rings.dfy`). `calcRingAreasOfVertices`.
- `Extremes` (`extremes.dfy`). The three exhaustive extremal scans and `calcAuxInfo`.
- `Wrappers` (`wrappers.dfy`). `Option` and `Result`.

Distances, triangle areas and tetrahedron volumes are floating-point geometry. Each is a function
parameter: `Metric`, `AreaOf` and `VolumeOf`. Coordinates are reals.

An edge's `length` is the metric applied to its ends' positions at the time the edge is created.

`addTriangle` in the source pushes the triangle first and then calls `makeVertsNeighbors` three times.
`makeVertsNeighbors` reads the vertex positions, to compute a new edge's length. It writes only the edges,
`edgeList` and `vertList`, and never reads triangles or triangle lists. So the model resolves
the three sides first and appends the triangle afterwards, which reaches the same state.

The source leaves some behaviour undefined. Where the model must pick one, it does so openly:

- **Corner indices out of range.** `addTriangle` has undefined behaviour for such indices, so
  `Topology.AddTriangle` requires valid indices. The loaders check each face record first. A face that
  names a vertex not yet created stops the load with `InvalidArguments`.
- **`createCube` on a non-empty mesh.** `createCube` does not clear the mesh, and its triangles always
  use the absolute indices 0 to 7. On a non-empty mesh, the eight new vertices from index 8 on stay
  isolated. `Cube.CreateCube` states this.

## Model

| member | source | states |
|---|---|---|
| Topology.Clear | TAShape/src/core/TriangularMesh.cpp:19-37 | the result has no vertices, edges or triangles, and is well formed |
| Topology.AddVertex | TAShape/src/core/TriangularMesh.cpp:261-266 | the new vertex's id is the old vertex count, it has the given position and empty lists, and every earlier vertex, edge and triangle is unchanged |
| TopologyInvariants.AddVertexKeepsWf | TAShape/src/core/TriangularMesh.cpp:261-266 | adding a vertex keeps the mesh invariant and changes no adjacency |
| Topology.AddEdge | TAShape/src/core/TriangularMesh.cpp:308-317 | the new edge's id is the old edge count, it joins the two vertices with the metric's length, its id is appended to both ends' edge lists, and nothing else changes |
| Topology.FindEdgeTo | TAShape/src/core/TriangularMesh.cpp:287-293 | the scan returns the first position in `v`'s edge list whose edge has `w` as an end, and returns nothing exactly when no edge in the list has `w` as an end |
| Topology.LinkNew | TAShape/src/core/TriangularMesh.cpp:295-297 | the create case: each vertex becomes the other's neighbour, and exactly one edge is added, with id equal to the old edge count |
| Topology.MakeVertsNeighbors | TAShape/src/core/TriangularMesh.cpp:284-298 | if `v` already has an edge reaching `w`, the mesh is unchanged and that edge is returned; otherwise the create case applies; edges only grow, by at most one |
| TopologyInvariants.NotReachesNotAdjacent | TAShape/src/core/TriangularMesh.cpp:287-297 | when `v`'s own edge list has no edge to `w`, no edge in the mesh joins them, so creating one keeps at most one edge per pair |
| TopologyInvariants.LinkNewKeepsWf | TAShape/src/core/TriangularMesh.cpp:295-297 | creating an edge between two non-adjacent vertices keeps the invariant, and the returned edge connects them |
| TopologyInvariants.MakeVertsNeighborsKeepsWf | TAShape/src/core/TriangularMesh.cpp:284-298 | the invariant (including at most one edge per unordered pair) is kept, and the returned edge connects `v` and `w` |
| TopologyInvariants.MakeVertsNeighborsAdjacency | TAShape/src/core/TriangularMesh.cpp:284-298 | adjacency grows by exactly the pair {v, w}; for v != w the pair becomes adjacent, and the edge count grows by one exactly when the pair was not adjacent before |
| TopologyInvariants.SelfPairReusesFirstEdge | TAShape/src/core/TriangularMesh.cpp:287-292 | for `v == w`, the scan stops at the first edge of `v`, which has `v` as an end, so nothing is created |
| Topology.ResolveSides | TAShape/src/core/TriangularMesh.cpp:277-279 | resolving the sides leaves the triangles untouched, and every vertex's id, position, triangle list and flag; vertices other than the corners are unchanged; existing edges are kept and at most three are added (which pairs the returned edges join is `TopologyInvariants.ResolveSidesKeepsWf`) |
| TopologyInvariants.ResolveSidesKeepsWf | TAShape/src/core/TriangularMesh.cpp:277-279 | after resolution, `e1`, `e2` and `e3` connect (v1,v2), (v1,v3) and (v2,v3), and the invariant holds |
| TopologyInvariants.ResolveSidesAdjacency | TAShape/src/core/TriangularMesh.cpp:277-279 | adjacency grows by exactly the triangle's sides, and each side with distinct ends becomes adjacent |
| TopologyInvariants.ResolveSidesEdgeCount | TAShape/src/core/TriangularMesh.cpp:277-279 | for distinct corners, the edge count grows by the number of sides that were not adjacent before |
| Topology.AppendTriangle | TAShape/src/core/TriangularMesh.cpp:270-275 | the triangle is appended with id equal to the old triangle count, and that id is appended to the triangle list of each corner, once per corner occurrence |
| Topology.AddTriangle | TAShape/src/core/TriangularMesh.cpp:268-282 | the new triangle's id is the old triangle count and its corners are kept in order; each corner's triangle list gains the id; earlier triangles and edges are kept, at most three edges are added, positions and flags are unchanged, and vertices other than the corners are unchanged |
| TopologyInvariants.AddTriangleKeepsWf | TAShape/src/core/TriangularMesh.cpp:268-282 | adding a triangle with valid corners keeps the whole mesh invariant |
| TopologyInvariants.AddTriangleAdjacency | TAShape/src/core/TriangularMesh.cpp:268-282 | adjacency grows by exactly the triangle's sides; for distinct corners, the edge count grows by the number of sides not adjacent before |
| TopologyInvariants.TriangleSideIsTheEdge | TAShape/src/core/TriangularMesh.cpp:277-279 | in a well-formed mesh, an edge joins a triangle's (v1,v2), (v1,v3) or (v2,v3) exactly when it is that triangle's `e1`, `e2` or `e3` |
| Cube.AddCorners | TAShape/src/core/TriangularMesh.cpp:213-237 | eight vertices are added at the cube corners (front-lower-left corner (10,7,5) plus the side-length offsets, in the source's order); each new vertex has the next id and empty lists, and is flagged as not yet referenced; existing vertices, edges and triangles are untouched, and the invariant is kept |
| Cube.AddFaces | TAShape/src/core/TriangularMesh.cpp:240-256 | the faces are added in order with their corners; positions and flags are kept, a vertex no face names is unchanged, and existing edges are kept; the invariant is kept; adjacency becomes the old pairs plus the faces' sides, and the edge count grows by the number of new sides |
| Cube.CubeSides | TAShape/src/core/TriangularMesh.cpp:240-256 | starting from no edges, the twelve cube faces introduce exactly 18 distinct sides |
| Cube.CubeCornersCovered | TAShape/src/core/TriangularMesh.cpp:240-256 | when the eight vertices carry the twelve cube faces, every vertex is a corner of some face, so none is isolated |
| Cube.CubeOnEmpty | TAShape/src/core/TriangularMesh.cpp:211-259 | a mesh holding exactly the cube's triangles has 18 edges, Euler characteristic V - E + F = 2, and no isolated vertex |
| Cube.CreateCube | TAShape/src/core/TriangularMesh.cpp:211-259 | adds 8 vertices and 12 triangles with the source's coordinates and corner triples; keeps the invariant; on an empty mesh gives 8 vertices, 12 triangles, 18 edges, Euler characteristic 2 and no empty triangle list; on a non-empty mesh the old edges, positions and flags are kept, old vertices from index 8 on are unchanged, and the new vertices from index 8 on stay isolated with empty lists |
| Construction.FirstIsolated | TAShape/src/core/TriangularMesh.cpp:88-96 | returns the first vertex at or after `from` with an empty triangle list, and returns nothing exactly when there is none |
| Construction.Validate | TAShape/src/core/TriangularMesh.cpp:139-147 | succeeds exactly when no vertex is isolated; otherwise it names the first vertex whose triangle list is empty |
| Construction.ListedIffReferenced | TAShape/src/core/TriangularMesh.cpp:273-275 | in a well-formed mesh, a vertex's triangle list is non-empty exactly when some face names it as a corner |
| Construction.ValidateOnRecords | TAShape/src/core/TriangularMesh.cpp:88-96 | on a mesh built from face records, validation succeeds exactly when every vertex is named by some face, and it reports the first vertex that no face names |
| Construction.MarkReferenced | TAShape/src/core/TriangularMesh.cpp:85 | clears the `interior` flag of the three corners and changes nothing else |
| Construction.Apply | TAShape/src/core/TriangularMesh.cpp:69-86 | one record: a vertex record adds a vertex; a face record is accepted exactly when its corners exist, and then adds a triangle (marking its corners when asked); the replay invariant is kept |
| Construction.Replay | TAShape/src/core/TriangularMesh.cpp:62-99 | the result is refused with `InvalidArguments` exactly when some face names a vertex not yet created; otherwise the mesh is well formed and holds exactly the records' points and faces, has at most 3 edges per triangle, and validation succeeds exactly when every vertex is referenced |
| Construction.TraceRecords | TAShape/src/core/TriangularMesh.cpp:121-137 | the records of a file that lists its vertices and then its faces replay to exactly those points and faces |
| Construction.TraceBadFace | TAShape/src/core/TriangularMesh.cpp:134-137 | such a file holds a record naming a missing vertex exactly when one of its faces has an index outside 0 .. points-1 |
| Construction.TraceOutcome | TAShape/src/core/TriangularMesh.cpp:139-147 | for such a file, the load is refused exactly when a face index is out of range; otherwise the mesh holds exactly the file's points and faces, with at most three edges per face, and loads `Ok` exactly when every vertex is a corner of some face |
| Loader.Trunc | TAShape/src/core/TriangularMesh.cpp:84 | the `(int)` cast of a float truncates toward zero |
| Loader.ObjOp | TAShape/src/core/TriangularMesh.cpp:70-86 | a 'v' line becomes a vertex at its three numbers; any other type character becomes a face whose corners are the truncated numbers minus one |
| Loader.LoadObj | TAShape/src/core/TriangularMesh.cpp:53-100 | an unopenable file gives `FileError` with the mesh untouched; otherwise the records replay onto a cleared mesh with `interior` flags cleared on referenced corners, followed by the isolated-vertex check |
| Loader.ObjRoundTrip | TAShape/src/core/TriangularMesh.cpp:69-86 | an OBJ text written as 'v' lines and then 1-based 'f' lines reads back as exactly its points and faces |
| Loader.Scan | TAShape/src/core/TriangularMesh.cpp:116-123 | one formatted read: with all its numbers present it takes the next numbers in order; at the end of input it changes nothing; a read cut short by the end of input fills its first variables and leaves the rest as they were |
| Loader.ScanVertices | TAShape/src/core/TriangularMesh.cpp:113-132 | reads the count from the header and then that many vertex lines; past the end of input, coordinates repeat the last values read |
| Loader.ScanFaces | TAShape/src/core/TriangularMesh.cpp:134-137 | reads one face per started group of four numbers, with corners the truncated numbers 2 to 4 of the group; past the end of input, a field keeps its earlier value |
| Loader.ScanOff | TAShape/src/core/TriangularMesh.cpp:113-137 | the whole OFF read yields the vertex records followed by the face records, as the reference reading defines them |
| Loader.LoadOff | TAShape/src/core/TriangularMesh.cpp:102-152 | an unopenable file gives `FileError` with the mesh untouched; otherwise the records replay onto a cleared mesh with `interior` flags left as created, followed by the isolated-vertex check |
| Loader.OffRoundTrip | TAShape/src/core/TriangularMesh.cpp:113-137 | an OFF text with counts line, coordinate lines and "3 a b c" face lines reads back as exactly its points and faces |
| Loader.Load | TAShape/src/core/TriangularMesh.cpp:39-51 | dispatches "obj" and "off" to their loaders; any other extension gives `InvalidOperation` with the mesh untouched |
| Exporter.Document | TAShape/src/core/TriangularMesh.cpp:174-204 | the header counts equal the vertex and triangle counts; each vertex line has the position and, when a scalar field is given, the palette colour at scale one over the vertex count; each face line lists the triangle's corners in order; the header agrees with the lines exactly when it declares colours just when a scalar field is given, or there are no vertices |
| Exporter.SavePly | TAShape/src/core/TriangularMesh.cpp:164-208 | fails with `InvalidArguments` exactly when the scalar array is neither empty nor one per vertex; fails with `FileError` exactly when the array fits but the file cannot be opened; otherwise writes the document, whose header always declares colours |
| Exporter.UncoloredHeaderMismatch | TAShape/src/core/TriangularMesh.cpp:180-182 | with no scalar field, the header declares colour properties that the vertex lines do not carry |
| Exporter.SavePlyCorrected | TAShape/src/core/TriangularMesh.cpp:164-208 | the same error cases as `SavePly`, but the header declares colours exactly when the lines carry them; with a scalar field it agrees with `SavePly` |
| Exporter.Save | TAShape/src/core/TriangularMesh.cpp:154-162 | dispatches "ply" to the PLY writer as written (`SavePly`); any other extension gives `InvalidOperation` |
| Exporter.SaveCorrected | TAShape/src/core/TriangularMesh.cpp:154-162 | the same dispatch over the corrected writer; every document it produces has a header that agrees with its lines |
| Exporter.SaveAgreesWithCorrected | TAShape/src/core/TriangularMesh.cpp:154-208 | the two dispatches fail in the same cases with the same status, and agree whenever a scalar field is given; they differ only on a successful save of a non-empty mesh without one, where the as-written header declares colours the lines lack |
| RingAreas.CalcRingAreas | TAShape/src/core/TriangularMesh.cpp:362-380 | one value per vertex: the sum, over its triangle list (repetitions included), of the triangles' areas |
| RingAreas.SumOverAppend | TAShape/src/core/TriangularMesh.cpp:371-378 | the ring sum over a concatenated list is the sum of the two parts |
| RingAreas.GrownRingArea | TAShape/src/core/TriangularMesh.cpp:362-380 | appending a triangle grows each vertex's ring area by the new area once per corner position it occupies |
| RingAreas.RingAreaAfterAddTriangle | TAShape/src/core/TriangularMesh.cpp:268-282 | after `addTriangle(a, b, c)`, each vertex's ring area is the old one plus the new triangle's area once for each of a, b, c it equals |
| Extremes.PairRow | TAShape/src/core/TriangularMesh.cpp:416-423 | the inner scan raises the running maximum to every distance from `v` to an earlier vertex, and changes it only to an attained distance |
| Extremes.MaxPairDistance | TAShape/src/core/TriangularMesh.cpp:402-426 | the result is non-negative, at least every distance between two vertices, and either 0 or attained by some pair |
| Extremes.TriplePlane | TAShape/src/core/TriangularMesh.cpp:442-462 | raises the running maximum to every area of (v, w, u) with u < w < v, and changes it only to an attained area |
| Extremes.MaxTriangleArea | TAShape/src/core/TriangularMesh.cpp:428-465 | the result is non-negative, at least every area over three vertices u < w < v, and either 0 or attained |
| Extremes.QuadSpace | TAShape/src/core/TriangularMesh.cpp:481-505 | raises the running maximum to every volume of (v, w, u, y) with y < u < w < v, and changes it only to an attained volume |
| Extremes.MaxTetrahedronVolume | TAShape/src/core/TriangularMesh.cpp:467-507 | the result is non-negative, at least every volume over four vertices y < u < w < v, and either 0 or attained |
| Extremes.CalcAuxInfo | TAShape/src/core/TriangularMesh.cpp:509-516 | the three fields are the maximum distance, triangle area and tetrahedron volume over the vertex positions |

## Left out

- File access, text scanning and console output are not modelled. The loaders take the already-matched
  OBJ lines, or the OFF file's numbers, as data. "Cannot be opened" is an absent file. A PLY document is
  modelled by its content, not its text.
- The OFF format word on the first line is read and never checked, so the model ignores it.
- OBJ lines that match only part of the `%c %f %f %f` pattern are not modelled. Each OBJ line is taken
  to be a type character followed by three numbers.
- Variables that the source reads before anything is assigned to them are taken to be 0. Only the OFF
  counts and coordinates can be read so: the face fields reuse values already set by earlier reads.
- A non-numeric token in an OFF face section makes the formatted read return 0 without consuming it,
  so the source's face loop never ends. The model's input is numbers only, so this case is not modelled.
- Positions and the numbers read from files are 32-bit floats in the source and reals here. Float
  rounding is not modelled, so three contracts are stronger than the source's float arithmetic allows:
- Cube.CreateCube: the corners are exact real sums such as 10 + side. In the source the sum is a float,
  so a side of 2^-30 gives the corner x = 10, equal to the lower-left one.
- Loader.ObjRoundTrip: holds only while every written number is an exact float. A face index of
  16777217 reads back as 16777216.0, which names a different vertex.
- Loader.OffRoundTrip: the same limit. Indices and coordinates above 2^24 are read back rounded.
- The vertex constructor is not part of this model. A new vertex's `interior` flag is taken to be `true`,
  meaning no face has referenced it yet.
- Ids, indices and counts are unbounded naturals here. The source stores them as 32-bit `int`: new ids
  come from `verts.size()`, `edges.size()` and `tris.size()` (lines 263, 270 and 310), and the scans use
  `(int)verts.size()` as bound (lines 88, 139 and 287). Narrowing at 2^31 elements is not modelled, so
  the dense-id invariant and every "id equals the old count" clause assume fewer elements than that.
- `Topology.AddVertex`, `Topology.AddTriangle` and `Cube.CreateCube` do not return a status: the source's
  `addVertex`, `addTriangle` and `createCube` return `TACORE_OK` on every path.
- Loader.Trunc: the conversion of a float to a 32-bit `int` is not bounded. A value outside the `int`
  range is undefined in C and is truncated without bound here.
- Construction.Replay: out-of-range corner indices in a face record are undefined behaviour in the
  source. That includes OBJ index 0, which becomes -1. The model refuses them with `InvalidArguments`
  and says nothing about the mesh left behind.
- Exporter.SavePly: the `TACORE_CHECK_ARGS` macro is not part of this model. It is taken to return the
  invalid-arguments code without side effects.
- Exporter.SavePly: `ColorPalette` is not part of this model. It is the `palette` parameter, applied to
  the scale and the scalar value.
- Distances, triangle areas and tetrahedron volumes are floating-point geometry. They are parameters,
  and float rounding is not modelled. This covers `eucDistanceBetween`, `calcAreaOfTriangle`, the
  `Vector3D` computations in the scans, and NaN comparisons.
- `calcAverageEdgeLength`, `calcTotalSurfaceArea` and `assignNormalsToTriangles` compute only
  floating-point quantities. They are left out.
- The scans' progress messages are console output, and are left out.
- Releasing the vertex, edge and triangle objects in `clear` and in the destructor is heap management,
  and is not modelled.
- `TriMeshAuxInfo`, `PathUtil`, `Vector3D`, `TAVector` and the test driver `main.cpp` are not part of
  this model. The file extension is given to `Load` and `Save` directly.

## Findings

| source | as written | input that shows it | evidently intended | confidence | as-written member | corrected member |
|---|---|---|---|---|---|---|
| TAShape/src/core/TriangularMesh.cpp:180-196 | the PLY header always declares the three colour properties, but the vertex lines carry colours only when a scalar field is given | any mesh with at least one vertex, saved with an empty scalar array: the header announces six values per vertex line and each line has three | declare the colour properties only when colours are written | medium, not executed | Exporter.UncoloredHeaderMismatch | Exporter.SavePlyCorrected |

`Exporter.SaveCorrected` dispatches to the corrected writer. `Exporter.Save` keeps the source's
behaviour, and `Exporter.SaveAgreesWithCorrected` states where the two differ.
