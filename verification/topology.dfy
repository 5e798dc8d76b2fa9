/**
  The topology builder: the operations that create vertices, edges and
  triangles and keep the incidence lists of `MeshModel` consistent.
 */
module Topology {
  import opened Wrappers
  import opened MeshModel

  /** An updated mesh together with the edge id an operation returned. */
  datatype Linked = Linked(mesh: Mesh, edge: nat)

  /** `[x]` when `c` holds, otherwise nothing: what one conditional push appends. */
  function When<T>(c: bool, x: T): seq<T> {
    if c then [x] else []
  }

  /** The three sides of a triangle with corners a, b, c, as unordered pairs. */
  function Sides(a: nat, b: nat, c: nat): set<Pair> {
    {PairKey(a, b), PairKey(a, c), PairKey(b, c)}
  }

  // ---------------------------------------------------------------------------
  // Per-vertex list updates

  function PushTri(vs: seq<Vertex>, u: nat, t: nat): (r: seq<Vertex>)
    requires u < |vs|
    ensures |r| == |vs|
    ensures forall i :: 0 <= i < |vs| ==>
      r[i] == if i == u then vs[i].(triList := vs[i].triList + [t]) else vs[i]
  {
    vs[u := vs[u].(triList := vs[u].triList + [t])]
  }

  function PushEdge(vs: seq<Vertex>, u: nat, e: nat): (r: seq<Vertex>)
    requires u < |vs|
    ensures |r| == |vs|
    ensures forall i :: 0 <= i < |vs| ==>
      r[i] == if i == u then vs[i].(edgeList := vs[i].edgeList + [e]) else vs[i]
  {
    vs[u := vs[u].(edgeList := vs[u].edgeList + [e])]
  }

  function PushNeighbor(vs: seq<Vertex>, u: nat, w: nat): (r: seq<Vertex>)
    requires u < |vs|
    ensures |r| == |vs|
    ensures forall i :: 0 <= i < |vs| ==>
      r[i] == if i == u then vs[i].(vertList := vs[i].vertList + [w]) else vs[i]
  {
    vs[u := vs[u].(vertList := vs[u].vertList + [w])]
  }

  /** Records triangle `t` in the triangle lists of corners a, b and c, in that order. */
  function RecordTriangle(vs: seq<Vertex>, a: nat, b: nat, c: nat, t: nat): (r: seq<Vertex>)
    requires a < |vs| && b < |vs| && c < |vs|
    ensures |r| == |vs|
    ensures forall u :: 0 <= u < |vs| ==>
      r[u] == vs[u].(triList := vs[u].triList + When(u == a, t) + When(u == b, t) + When(u == c, t))
  {
    var r1 := PushTri(vs, a, t);
    var r2 := PushTri(r1, b, t);
    var r3 := PushTri(r2, c, t);
    assert forall u :: 0 <= u < |vs| ==> r3[u] == r2[u].(triList := r2[u].triList + When(u == c, t));
    assert forall u :: 0 <= u < |vs| ==> r2[u] == r1[u].(triList := r1[u].triList + When(u == b, t));
    assert forall u :: 0 <= u < |vs| ==> r1[u] == vs[u].(triList := vs[u].triList + When(u == a, t));
    r3
  }

  /** `r` has the vertices of `m`, with the same ids, positions, triangle
      lists and flags: only edge and neighbour lists may differ. */
  predicate KeepsVertexData(m: Mesh, r: Mesh) {
    && |r.verts| == |m.verts|
    && forall u :: 0 <= u < |m.verts| ==>
         && r.verts[u].id == m.verts[u].id
         && r.verts[u].coords == m.verts[u].coords
         && r.verts[u].triList == m.verts[u].triList
         && r.verts[u].interior == m.verts[u].interior
  }

  lemma KeepsVertexDataTrans(m: Mesh, x: Mesh, r: Mesh)
    requires KeepsVertexData(m, x) && KeepsVertexData(x, r)
    ensures KeepsVertexData(m, r)
  {
  }

  lemma PrefixTrans<T>(a: seq<T>, b: seq<T>, c: seq<T>)
    requires |a| <= |b| <= |c| && b[..|a|] == a && c[..|b|] == b
    ensures c[..|a|] == a
  {
    assert c[..|a|] == c[..|b|][..|a|];
  }

  // ---------------------------------------------------------------------------
  // Operations

  /** Discards every vertex, edge and triangle. */
  function Clear(m: Mesh): (r: Mesh)
    ensures r.verts == [] && r.edges == [] && r.tris == []
    ensures Wf(r)
  {
    Empty()
  }

  /** Appends a vertex at position `p`; no duplicate-position check is made. */
  function AddVertex(m: Mesh, p: Point): (r: Mesh)
    ensures |r.verts| == |m.verts| + 1 && r.verts[..|m.verts|] == m.verts
    ensures r.verts[|m.verts|].id == |m.verts| && r.verts[|m.verts|].coords == p
    ensures r.verts[|m.verts|].triList == [] && r.verts[|m.verts|].edgeList == []
    ensures r.verts[|m.verts|].vertList == [] && r.verts[|m.verts|].interior
    ensures r.edges == m.edges && r.tris == m.tris
    ensures EdgeRefsValid(m) ==> EdgeRefsValid(r)
  {
    m.(verts := m.verts + [Vertex(|m.verts|, p, [], [], [], true)])
  }

  /** Creates edge (a, b) with the next id, recording its current length, and
      registers it with both endpoints. */
  function AddEdge(m: Mesh, a: nat, b: nat, dist: Metric): (r: Linked)
    requires a < |m.verts| && b < |m.verts|
    ensures r.edge == |m.edges|
    ensures r.mesh.edges == m.edges + [Edge(r.edge, a, b, dist(m.verts[a].coords, m.verts[b].coords))]
    ensures |r.mesh.verts| == |m.verts|
    ensures forall u :: 0 <= u < |m.verts| ==>
      r.mesh.verts[u] == m.verts[u].(edgeList := m.verts[u].edgeList + When(u == a, r.edge) + When(u == b, r.edge))
    ensures r.mesh.tris == m.tris
    ensures EdgeRefsValid(m) ==> EdgeRefsValid(r.mesh)
  {
    var id := |m.edges|;
    var vs := PushEdge(PushEdge(m.verts, a, id), b, id);
    assert forall u :: 0 <= u < |m.verts| ==>
      vs[u].edgeList == m.verts[u].edgeList + When(u == a, id) + When(u == b, id);
    var r := Linked(Mesh(vs, m.edges + [Edge(id, a, b, dist(m.verts[a].coords, m.verts[b].coords))], m.tris), id);
    assert EdgeRefsValid(m) ==> EdgeRefsValid(r.mesh) by {
      if EdgeRefsValid(m) {
        forall u, k | 0 <= u < |vs| && 0 <= k < |vs[u].edgeList|
          ensures vs[u].edgeList[k] < |r.mesh.edges|
        {
          if k < |m.verts[u].edgeList| {
            assert vs[u].edgeList[k] == m.verts[u].edgeList[k];
          }
        }
      }
    }
    r
  }

  /** The first position at or after `from` in `v`'s edge list whose edge has
      `w` as an endpoint. */
  function FindEdgeTo(m: Mesh, v: nat, w: nat, from: nat): (r: Option<nat>)
    requires v < |m.verts| && EdgeRefsValid(m)
    requires from <= |m.verts[v].edgeList|
    ensures r.Some? ==> from <= r.value < |m.verts[v].edgeList|
    ensures r.Some? ==> HasEnd(m.edges[m.verts[v].edgeList[r.value]], w)
    ensures r.Some? ==> forall k :: from <= k < r.value ==> !HasEnd(m.edges[m.verts[v].edgeList[k]], w)
    ensures r.None? ==> forall k :: from <= k < |m.verts[v].edgeList| ==> !HasEnd(m.edges[m.verts[v].edgeList[k]], w)
    decreases |m.verts[v].edgeList| - from
  {
    if from == |m.verts[v].edgeList| then None
    else if HasEnd(m.edges[m.verts[v].edgeList[from]], w) then Some(from)
    else FindEdgeTo(m, v, w, from + 1)
  }

  /** Some edge recorded by `v` has `w` as an endpoint. */
  ghost predicate Reaches(m: Mesh, v: nat, w: nat)
    requires v < |m.verts| && EdgeRefsValid(m)
  {
    exists k :: 0 <= k < |m.verts[v].edgeList| && HasEnd(m.edges[m.verts[v].edgeList[k]], w)
  }

  /** The creating branch of `MakeVertsNeighbors`: `w` joins `v`'s neighbour
      list, `v` joins `w`'s, and edge (v, w) is created. */
  function LinkNew(m: Mesh, v: nat, w: nat, dist: Metric): (r: Linked)
    requires v < |m.verts| && w < |m.verts| && EdgeRefsValid(m)
    ensures EdgeRefsValid(r.mesh)
    ensures r.edge == |m.edges|
    ensures r.mesh.edges == m.edges + [Edge(r.edge, v, w, dist(m.verts[v].coords, m.verts[w].coords))]
    ensures r.mesh.tris == m.tris && |r.mesh.verts| == |m.verts|
    ensures forall u :: 0 <= u < |m.verts| ==>
      r.mesh.verts[u] == m.verts[u].(
        vertList := m.verts[u].vertList + When(u == v, w) + When(u == w, v),
        edgeList := m.verts[u].edgeList + When(u == v, r.edge) + When(u == w, r.edge))
  {
    var vs := PushNeighbor(PushNeighbor(m.verts, v, w), w, v);
    assert forall u :: 0 <= u < |m.verts| ==>
      vs[u] == m.verts[u].(vertList := m.verts[u].vertList + When(u == v, w) + When(u == w, v));
    assert EdgeRefsValid(m.(verts := vs));
    AddEdge(m.(verts := vs), v, w, dist)
  }

  /** Returns the edge between `v` and `w`, creating it (and making the two
      vertices neighbours) when `v` records no edge reaching `w`. */
  function MakeVertsNeighbors(m: Mesh, v: nat, w: nat, dist: Metric): (r: Linked)
    requires v < |m.verts| && w < |m.verts| && EdgeRefsValid(m)
    ensures EdgeRefsValid(r.mesh)
    ensures r.mesh.tris == m.tris && |r.mesh.verts| == |m.verts|
    ensures |m.edges| <= |r.mesh.edges| <= |m.edges| + 1 && r.mesh.edges[..|m.edges|] == m.edges
    ensures KeepsVertexData(m, r.mesh)
    ensures forall u :: 0 <= u < |m.verts| && u != v && u != w ==> r.mesh.verts[u] == m.verts[u]
    // an existing edge is reused: the first one in v's list that reaches w
    ensures Reaches(m, v, w) ==>
      && r.mesh == m
      && exists k :: 0 <= k < |m.verts[v].edgeList| && r.edge == m.verts[v].edgeList[k]
           && HasEnd(m.edges[r.edge], w)
           && forall j :: 0 <= j < k ==> !HasEnd(m.edges[m.verts[v].edgeList[j]], w)
    // otherwise exactly one edge (v, w) is created and both lists grow
    ensures !Reaches(m, v, w) ==> r == LinkNew(m, v, w, dist)
  {
    match FindEdgeTo(m, v, w, 0)
    case Some(k) => Linked(m, m.verts[v].edgeList[k])
    case None =>
      var r := LinkNew(m, v, w, dist);
      assert forall u :: 0 <= u < |m.verts| ==>
        r.mesh.verts[u].triList == m.verts[u].triList;
      r
  }

  /** A mesh after resolving a triangle's three sides, with the side edges. */
  datatype SideEdges = SideEdges(mesh: Mesh, e1: nat, e2: nat, e3: nat)

  /** Resolves the sides (a,b), (a,c), (b,c) of a new triangle, in that order. */
  function ResolveSides(m: Mesh, a: nat, b: nat, c: nat, dist: Metric): (r: SideEdges)
    requires a < |m.verts| && b < |m.verts| && c < |m.verts| && EdgeRefsValid(m)
    ensures EdgeRefsValid(r.mesh)
    ensures r.mesh.tris == m.tris && |r.mesh.verts| == |m.verts|
    ensures |m.edges| <= |r.mesh.edges| <= |m.edges| + 3 && r.mesh.edges[..|m.edges|] == m.edges
    ensures KeepsVertexData(m, r.mesh)
    ensures forall u :: 0 <= u < |m.verts| && u != a && u != b && u != c ==> r.mesh.verts[u] == m.verts[u]
  {
    var l1 := MakeVertsNeighbors(m, a, b, dist);
    var l2 := MakeVertsNeighbors(l1.mesh, a, c, dist);
    var l3 := MakeVertsNeighbors(l2.mesh, b, c, dist);
    PrefixTrans(m.edges, l1.mesh.edges, l2.mesh.edges);
    PrefixTrans(m.edges, l2.mesh.edges, l3.mesh.edges);
    KeepsVertexDataTrans(m, l1.mesh, l2.mesh);
    KeepsVertexDataTrans(m, l2.mesh, l3.mesh);
    SideEdges(l3.mesh, l1.edge, l2.edge, l3.edge)
  }

  /** Pushes triangle (a, b, c) with sides e1, e2, e3 and the next id, and
      records it in its corners' triangle lists; edges are untouched. */
  function AppendTriangle(m: Mesh, a: nat, b: nat, c: nat, e1: nat, e2: nat, e3: nat): (r: Mesh)
    requires a < |m.verts| && b < |m.verts| && c < |m.verts|
    ensures r.edges == m.edges
    ensures EdgeRefsValid(m) ==> EdgeRefsValid(r)
    ensures r.tris == m.tris + [Triangle(|m.tris|, a, b, c, e1, e2, e3)]
    ensures |r.verts| == |m.verts|
    ensures forall u :: 0 <= u < |m.verts| ==>
      r.verts[u] == m.verts[u].(triList := m.verts[u].triList + When(u == a, |m.tris|) + When(u == b, |m.tris|) + When(u == c, |m.tris|))
  {
    Mesh(RecordTriangle(m.verts, a, b, c, |m.tris|), m.edges, m.tris + [Triangle(|m.tris|, a, b, c, e1, e2, e3)])
  }

  /** Appends triangle (a, b, c) with the next id, records it in the triangle
      lists of its three corners and resolves its sides (a,b), (a,c), (b,c).
      The source pushes the triangle before resolving the sides; the side
      resolution neither reads nor writes triangles or triangle lists, so
      appending the triangle afterwards yields the same mesh. */
  function AddTriangle(m: Mesh, a: nat, b: nat, c: nat, dist: Metric): (r: Mesh)
    requires a < |m.verts| && b < |m.verts| && c < |m.verts| && EdgeRefsValid(m)
    ensures EdgeRefsValid(r)
    ensures |r.verts| == |m.verts|
    ensures |r.tris| == |m.tris| + 1 && r.tris[..|m.tris|] == m.tris
    ensures r.tris[|m.tris|].id == |m.tris|
    ensures r.tris[|m.tris|].v1 == a && r.tris[|m.tris|].v2 == b && r.tris[|m.tris|].v3 == c
    ensures |m.edges| <= |r.edges| <= |m.edges| + 3 && r.edges[..|m.edges|] == m.edges
    ensures forall u :: 0 <= u < |m.verts| ==>
      && r.verts[u].triList == m.verts[u].triList + When(u == a, |m.tris|) + When(u == b, |m.tris|) + When(u == c, |m.tris|)
      && r.verts[u].id == m.verts[u].id
      && r.verts[u].coords == m.verts[u].coords
      && r.verts[u].interior == m.verts[u].interior
    ensures forall u :: 0 <= u < |m.verts| && u != a && u != b && u != c ==> r.verts[u] == m.verts[u]
  {
    var s := ResolveSides(m, a, b, c, dist);
    var r := AppendTriangle(s.mesh, a, b, c, s.e1, s.e2, s.e3);
    AddTriangleVerts(m, s.mesh, r, a, b, c, |m.tris|);
    r
  }

  /** How the vertices end up after resolving the sides (`s`) and appending
      triangle `t` (`r`). */
  lemma AddTriangleVerts(m: Mesh, s: Mesh, r: Mesh, a: nat, b: nat, c: nat, t: nat)
    requires KeepsVertexData(m, s)
    requires forall u :: 0 <= u < |m.verts| && u != a && u != b && u != c ==> s.verts[u] == m.verts[u]
    requires |r.verts| == |s.verts|
    requires forall u :: 0 <= u < |s.verts| ==>
      r.verts[u] == s.verts[u].(triList := s.verts[u].triList + When(u == a, t) + When(u == b, t) + When(u == c, t))
    ensures forall u :: 0 <= u < |m.verts| ==>
      && r.verts[u].triList == m.verts[u].triList + When(u == a, t) + When(u == b, t) + When(u == c, t)
      && r.verts[u].id == m.verts[u].id
      && r.verts[u].coords == m.verts[u].coords
      && r.verts[u].interior == m.verts[u].interior
    ensures forall u :: 0 <= u < |m.verts| && u != a && u != b && u != c ==> r.verts[u] == m.verts[u]
  {
  }
}
