/**
  The entities of a triangular mesh and the invariants that tie them together.

  A mesh is three index-addressed collections (vertices, edges, triangles).
  Every cross-reference is an index into one of them; a vertex keeps the
  indices of its incident triangles (`triList`), incident edges (`edgeList`)
  and adjacent vertices (`vertList`), and a triangle keeps one edge per side.
 */
module MeshModel {

  /** A vertex position. The source stores three floats; they are reals here. */
  datatype Point = Point(x: real, y: real, z: real)

  /** The distance between two positions, as a parameter: the source computes a
      Euclidean distance with floating-point `sqrt`, which is not modelled. */
  type Metric = (Point, Point) -> real

  /** `interior` marks a vertex that no face has referenced yet. */
  datatype Vertex = Vertex(
    id: nat,
    coords: Point,
    triList: seq<nat>,
    edgeList: seq<nat>,
    vertList: seq<nat>,
    interior: bool)

  /** `length` is the distance between the endpoints when the edge was created. */
  datatype Edge = Edge(id: nat, v1: nat, v2: nat, length: real)

  /** Corners in insertion order; `e1`, `e2`, `e3` are the sides (v1,v2), (v1,v3), (v2,v3). */
  datatype Triangle = Triangle(id: nat, v1: nat, v2: nat, v3: nat, e1: nat, e2: nat, e3: nat)

  datatype Mesh = Mesh(verts: seq<Vertex>, edges: seq<Edge>, tris: seq<Triangle>)

  /** The result codes of the mesh operations: success, a file that cannot be
      opened, an unsupported file extension, a caller-side argument error, and
      a loaded mesh whose vertex `v` has no incident triangle (the source
      reports the generic error code and prints `v`). */
  datatype Status = Ok | FileError | InvalidOperation | InvalidArguments | IsolatedVertex(v: nat)

  /** The mesh with no vertices, edges or triangles. */
  function Empty(): Mesh {
    Mesh([], [], [])
  }

  /** An unordered vertex pair, stored smaller index first. */
  datatype Pair = Pair(lo: nat, hi: nat)

  /** The unordered pair {a, b}. */
  function PairKey(a: nat, b: nat): Pair {
    if a <= b then Pair(a, b) else Pair(b, a)
  }

  function Key(e: Edge): Pair {
    PairKey(e.v1, e.v2)
  }

  predicate HasEnd(e: Edge, v: nat) {
    e.v1 == v || e.v2 == v
  }

  /** Both `a` and `b` are endpoints of `e` (for a == b: `e` is incident to `a`). */
  predicate Connects(e: Edge, a: nat, b: nat) {
    HasEnd(e, a) && HasEnd(e, b)
  }

  predicate IsCorner(t: Triangle, v: nat) {
    t.v1 == v || t.v2 == v || t.v3 == v
  }

  lemma PairKeyEquals(a: nat, b: nat, c: nat, d: nat)
    ensures PairKey(a, b) == PairKey(c, d) <==> (a == c && b == d) || (a == d && b == c)
  {
  }

  lemma KeyMeansEnds(e: Edge, a: nat, b: nat)
    requires Key(e) == PairKey(a, b)
    ensures HasEnd(e, a) && HasEnd(e, b)
  {
  }

  // ---------------------------------------------------------------------------
  // Invariants

  /** Ids are dense, zero-based and equal to the position in their collection. */
  ghost predicate IdsDense(m: Mesh) {
    && (forall i :: 0 <= i < |m.verts| ==> m.verts[i].id == i)
    && (forall i :: 0 <= i < |m.edges| ==> m.edges[i].id == i)
    && (forall i :: 0 <= i < |m.tris| ==> m.tris[i].id == i)
  }

  /** Every edge index a vertex records exists (what the edge scan needs). */
  predicate EdgeRefsValid(m: Mesh) {
    forall v, k :: 0 <= v < |m.verts| && 0 <= k < |m.verts[v].edgeList| ==>
      m.verts[v].edgeList[k] < |m.edges|
  }

  /** Some edge joins the unordered pair {a, b}. */
  ghost predicate Adjacent(m: Mesh, a: nat, b: nat) {
    exists e :: 0 <= e < |m.edges| && Key(m.edges[e]) == PairKey(a, b)
  }

  ghost predicate EdgeEndsValid(m: Mesh) {
    forall e :: 0 <= e < |m.edges| ==> m.edges[e].v1 < |m.verts| && m.edges[e].v2 < |m.verts|
  }

  /** Each edge a vertex records is incident to that vertex. */
  ghost predicate EdgeListsIncident(m: Mesh)
    requires EdgeRefsValid(m)
  {
    forall v, k :: 0 <= v < |m.verts| && 0 <= k < |m.verts[v].edgeList| ==>
      HasEnd(m.edges[m.verts[v].edgeList[k]], v)
  }

  /** Each edge is recorded by both of its endpoints. */
  ghost predicate EdgesRegistered(m: Mesh)
    requires EdgeEndsValid(m)
  {
    forall e :: 0 <= e < |m.edges| ==>
      e in m.verts[m.edges[e].v1].edgeList && e in m.verts[m.edges[e].v2].edgeList
  }

  /** No two edges join the same unordered pair. */
  ghost predicate EdgesUnique(m: Mesh) {
    forall i, j :: 0 <= i < j < |m.edges| ==> Key(m.edges[i]) != Key(m.edges[j])
  }

  /** `w` is in `v`'s neighbour list exactly when an edge joins them. */
  ghost predicate NeighborsMatchEdges(m: Mesh) {
    forall v, w :: 0 <= v < |m.verts| ==> (w in m.verts[v].vertList <==> Adjacent(m, v, w))
  }

  /** The edge half of the mesh invariant. */
  ghost predicate EdgeWf(m: Mesh) {
    && EdgeRefsValid(m)
    && EdgeEndsValid(m)
    && EdgeListsIncident(m)
    && EdgesRegistered(m)
    && EdgesUnique(m)
    && NeighborsMatchEdges(m)
  }

  /** A triangle's corners exist and each side edge joins the two corners it belongs to. */
  ghost predicate TriangleOk(m: Mesh, t: Triangle) {
    && t.v1 < |m.verts| && t.v2 < |m.verts| && t.v3 < |m.verts|
    && t.e1 < |m.edges| && t.e2 < |m.edges| && t.e3 < |m.edges|
    && Connects(m.edges[t.e1], t.v1, t.v2)
    && Connects(m.edges[t.e2], t.v1, t.v3)
    && Connects(m.edges[t.e3], t.v2, t.v3)
  }

  ghost predicate TrianglesValid(m: Mesh) {
    forall t :: 0 <= t < |m.tris| ==> TriangleOk(m, m.tris[t])
  }

  /** Each triangle a vertex records exists and has that vertex as a corner. */
  ghost predicate TriListsValid(m: Mesh) {
    forall v, k :: 0 <= v < |m.verts| && 0 <= k < |m.verts[v].triList| ==>
      m.verts[v].triList[k] < |m.tris| && IsCorner(m.tris[m.verts[v].triList[k]], v)
  }

  /** Each triangle is recorded by all three of its corners. */
  ghost predicate TrianglesRegistered(m: Mesh)
    requires TrianglesValid(m)
  {
    forall t :: 0 <= t < |m.tris| ==>
      && t in m.verts[m.tris[t].v1].triList
      && t in m.verts[m.tris[t].v2].triList
      && t in m.verts[m.tris[t].v3].triList
  }

  /** The triangle half of the mesh invariant. */
  ghost predicate TriWf(m: Mesh) {
    && TrianglesValid(m)
    && TriListsValid(m)
    && TrianglesRegistered(m)
  }

  /** The whole mesh invariant kept by every topology operation. */
  ghost predicate Wf(m: Mesh) {
    && IdsDense(m)
    && EdgeWf(m)
    && TriWf(m)
    && |m.edges| <= 3 * |m.tris|
  }

  /** No vertex is isolated: every vertex has an incident triangle. */
  ghost predicate NoIsolated(m: Mesh) {
    forall v :: 0 <= v < |m.verts| ==> |m.verts[v].triList| > 0
  }
}
