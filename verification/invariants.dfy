/**
  The topology operations keep the mesh invariant `Wf`: dense ids, consistent
  back-references in both directions, at most one edge per unordered vertex
  pair, triangle sides that join the right corners, and at most three edges
  per triangle.
 */
module TopologyInvariants {
  import opened MeshModel
  import opened Topology

  /** 1 when no edge joins {x, y} yet, 0 otherwise. */
  ghost function Fresh(m: Mesh, x: nat, y: nat): nat {
    if Adjacent(m, x, y) then 0 else 1
  }

  // ---------------------------------------------------------------------------
  // Frame facts

  lemma AdjacentSameEdges(m: Mesh, r: Mesh)
    requires r.edges == m.edges
    ensures forall x: nat, y: nat :: Adjacent(m, x, y) <==> Adjacent(r, x, y)
  {
  }

  lemma AdjacentAfterAppend(m: Mesh, r: Mesh, e: Edge)
    requires r.edges == m.edges + [e]
    ensures forall x: nat, y: nat :: Adjacent(r, x, y) <==> Adjacent(m, x, y) || Key(e) == PairKey(x, y)
  {
    forall x: nat, y: nat
      ensures Adjacent(r, x, y) <==> Adjacent(m, x, y) || Key(e) == PairKey(x, y)
    {
      if Adjacent(r, x, y) {
        var i :| 0 <= i < |r.edges| && Key(r.edges[i]) == PairKey(x, y);
        if i < |m.edges| {
          assert r.edges[i] == m.edges[i];
        }
      }
      if Adjacent(m, x, y) {
        var i :| 0 <= i < |m.edges| && Key(m.edges[i]) == PairKey(x, y);
        assert r.edges[i] == m.edges[i];
      }
      if Key(e) == PairKey(x, y) {
        assert r.edges[|m.edges|] == e;
      }
    }
  }

  /** The edge invariant reads only edges and the edge/neighbour lists. */
  lemma EdgeWfFrame(m: Mesh, r: Mesh)
    requires EdgeWf(m)
    requires r.edges == m.edges && |r.verts| == |m.verts|
    requires forall u :: 0 <= u < |m.verts| ==>
      r.verts[u].edgeList == m.verts[u].edgeList && r.verts[u].vertList == m.verts[u].vertList
    ensures EdgeWf(r)
  {
    AdjacentSameEdges(m, r);
  }

  /** The triangle invariant survives any change that keeps triangles and
      triangle lists and only appends edges. */
  lemma TriWfFrame(m: Mesh, r: Mesh)
    requires TriWf(m)
    requires r.tris == m.tris && |r.verts| == |m.verts|
    requires |m.edges| <= |r.edges| && r.edges[..|m.edges|] == m.edges
    requires forall u :: 0 <= u < |m.verts| ==> r.verts[u].triList == m.verts[u].triList
    ensures TriWf(r)
  {
    forall t | 0 <= t < |r.tris|
      ensures TriangleOk(r, r.tris[t])
    {
      var tr := m.tris[t];
      assert TriangleOk(m, tr);
      assert r.edges[tr.e1] == m.edges[tr.e1];
      assert r.edges[tr.e2] == m.edges[tr.e2];
      assert r.edges[tr.e3] == m.edges[tr.e3];
    }
  }

  // ---------------------------------------------------------------------------
  // addVertex

  lemma AddVertexKeepsWf(m: Mesh, p: Point)
    requires Wf(m)
    ensures Wf(AddVertex(m, p))
    ensures forall x: nat, y: nat :: Adjacent(AddVertex(m, p), x, y) <==> Adjacent(m, x, y)
  {
    var r := AddVertex(m, p);
    AdjacentSameEdges(m, r);
    assert forall u :: 0 <= u < |m.verts| ==> r.verts[u] == m.verts[u];
    assert NeighborsMatchEdges(r) by {
      forall u, x: nat | 0 <= u < |r.verts|
        ensures x in r.verts[u].vertList <==> Adjacent(r, u, x)
      {
        if u == |m.verts| {
          if Adjacent(r, u, x) {
            var i :| 0 <= i < |r.edges| && Key(r.edges[i]) == PairKey(u, x);
            KeyMeansEnds(r.edges[i], u, x);
            assert false;
          }
        }
      }
    }
  }

  // ---------------------------------------------------------------------------
  // makeVertsNeighbors

  /** An edge joining v and w would be recorded by v and reach w. */
  lemma NotReachesNotAdjacent(m: Mesh, v: nat, w: nat)
    requires EdgeWf(m) && v < |m.verts|
    requires !Reaches(m, v, w)
    ensures !Adjacent(m, v, w)
  {
    if Adjacent(m, v, w) {
      var i :| 0 <= i < |m.edges| && Key(m.edges[i]) == PairKey(v, w);
      KeyMeansEnds(m.edges[i], v, w);
    }
  }

  /** The shape of the mesh after the creating branch of makeVertsNeighbors:
      edge `e` = (v, w) appended, each endpoint's lists extended. */
  ghost predicate LinkShape(m: Mesh, r: Mesh, v: nat, w: nat, e: Edge) {
    && v < |m.verts| && w < |m.verts|
    && e.id == |m.edges| && e.v1 == v && e.v2 == w
    && r.edges == m.edges + [e]
    && |r.verts| == |m.verts|
    && forall u :: 0 <= u < |m.verts| ==>
         && r.verts[u].vertList == m.verts[u].vertList + When(u == v, w) + When(u == w, v)
         && r.verts[u].edgeList == m.verts[u].edgeList + When(u == v, e.id) + When(u == w, e.id)
  }

  lemma LinkEndsValid(m: Mesh, r: Mesh, v: nat, w: nat, e: Edge)
    requires LinkShape(m, r, v, w, e) && EdgeEndsValid(m)
    ensures EdgeEndsValid(r)
  {
    forall i | 0 <= i < |r.edges|
      ensures r.edges[i].v1 < |r.verts| && r.edges[i].v2 < |r.verts|
    {
      if i < |m.edges| {
        assert r.edges[i] == m.edges[i];
      }
    }
  }

  lemma LinkRefsIncident(m: Mesh, r: Mesh, v: nat, w: nat, e: Edge)
    requires LinkShape(m, r, v, w, e) && EdgeRefsValid(m) && EdgeListsIncident(m)
    ensures EdgeRefsValid(r) && EdgeListsIncident(r)
  {
    var id := e.id;
    forall u, k | 0 <= u < |r.verts| && 0 <= k < |r.verts[u].edgeList|
      ensures r.verts[u].edgeList[k] < |r.edges| && HasEnd(r.edges[r.verts[u].edgeList[k]], u)
    {
      var before := m.verts[u].edgeList;
      if k < |before| {
        assert r.verts[u].edgeList[k] == before[k];
        assert r.edges[before[k]] == m.edges[before[k]];
      } else {
        assert r.verts[u].edgeList[k] == id;
      }
    }
  }

  lemma LinkRegistered(m: Mesh, r: Mesh, v: nat, w: nat, e: Edge)
    requires LinkShape(m, r, v, w, e) && EdgeEndsValid(m) && EdgesRegistered(m)
    ensures EdgeEndsValid(r) && EdgesRegistered(r)
  {
    LinkEndsValid(m, r, v, w, e);
    var id := e.id;
    forall i | 0 <= i < |r.edges|
      ensures i in r.verts[r.edges[i].v1].edgeList && i in r.verts[r.edges[i].v2].edgeList
    {
      if i < id {
        assert r.edges[i] == m.edges[i];
        var a, b := m.edges[i].v1, m.edges[i].v2;
        assert i in m.verts[a].edgeList && i in m.verts[b].edgeList;
      } else {
        assert r.verts[v].edgeList == m.verts[v].edgeList + [id] + When(v == w, id);
        assert r.verts[w].edgeList == m.verts[w].edgeList + When(w == v, id) + [id];
      }
    }
  }

  lemma LinkUnique(m: Mesh, r: Mesh, v: nat, w: nat, e: Edge)
    requires LinkShape(m, r, v, w, e) && EdgesUnique(m) && !Adjacent(m, v, w)
    ensures EdgesUnique(r)
  {
    forall i, j | 0 <= i < j < |r.edges|
      ensures Key(r.edges[i]) != Key(r.edges[j])
    {
      assert r.edges[i] == m.edges[i];
      if j < |m.edges| {
        assert r.edges[j] == m.edges[j];
      }
    }
  }

  lemma LinkNeighbors(m: Mesh, r: Mesh, v: nat, w: nat, e: Edge)
    requires LinkShape(m, r, v, w, e) && NeighborsMatchEdges(m)
    ensures NeighborsMatchEdges(r)
  {
    AdjacentAfterAppend(m, r, e);
    forall u, x: nat | 0 <= u < |r.verts|
      ensures x in r.verts[u].vertList <==> Adjacent(r, u, x)
    {
      PairKeyEquals(v, w, u, x);
    }
  }

  lemma LinkNewKeepsEdgeWf(m: Mesh, v: nat, w: nat, dist: Metric)
    requires EdgeWf(m) && v < |m.verts| && w < |m.verts|
    requires !Reaches(m, v, w)
    ensures EdgeWf(LinkNew(m, v, w, dist).mesh)
  {
    var r := LinkNew(m, v, w, dist).mesh;
    var e := Edge(|m.edges|, v, w, dist(m.verts[v].coords, m.verts[w].coords));
    assert LinkShape(m, r, v, w, e);
    NotReachesNotAdjacent(m, v, w);
    LinkRefsIncident(m, r, v, w, e);
    LinkRegistered(m, r, v, w, e);
    LinkUnique(m, r, v, w, e);
    LinkNeighbors(m, r, v, w, e);
  }

  lemma LinkNewKeepsWf(m: Mesh, v: nat, w: nat, dist: Metric)
    requires IdsDense(m) && EdgeWf(m) && TriWf(m) && v < |m.verts| && w < |m.verts|
    requires !Reaches(m, v, w)
    ensures var l := LinkNew(m, v, w, dist);
      && IdsDense(l.mesh) && EdgeWf(l.mesh) && TriWf(l.mesh)
      && l.edge < |l.mesh.edges| && Connects(l.mesh.edges[l.edge], v, w)
  {
    var l := LinkNew(m, v, w, dist);
    LinkNewKeepsEdgeWf(m, v, w, dist);
    TriWfFrame(m, l.mesh);
    assert l.mesh.edges[l.edge].v1 == v && l.mesh.edges[l.edge].v2 == w;
    assert forall u :: 0 <= u < |m.verts| ==> l.mesh.verts[u].id == m.verts[u].id;
    assert forall i :: 0 <= i < |m.edges| ==> l.mesh.edges[i] == m.edges[i];
  }

  /** makeVertsNeighbors keeps the invariant and returns an edge joining v and w. */
  lemma MakeVertsNeighborsKeepsWf(m: Mesh, v: nat, w: nat, dist: Metric)
    requires IdsDense(m) && EdgeWf(m) && TriWf(m) && v < |m.verts| && w < |m.verts|
    ensures var l := MakeVertsNeighbors(m, v, w, dist);
      && IdsDense(l.mesh) && EdgeWf(l.mesh) && TriWf(l.mesh)
      && l.edge < |l.mesh.edges| && Connects(l.mesh.edges[l.edge], v, w)
  {
    var l := MakeVertsNeighbors(m, v, w, dist);
    if Reaches(m, v, w) {
      var k :| 0 <= k < |m.verts[v].edgeList| && l.edge == m.verts[v].edgeList[k]
        && HasEnd(m.edges[l.edge], w);
      assert HasEnd(m.edges[l.edge], v);
    } else {
      LinkNewKeepsWf(m, v, w, dist);
    }
  }

  /** makeVertsNeighbors adds at most the pair {v, w} to the adjacency relation,
      and for v != w adds exactly that pair, creating an edge only when it was new. */
  lemma MakeVertsNeighborsAdjacency(m: Mesh, v: nat, w: nat, dist: Metric)
    requires EdgeWf(m) && v < |m.verts| && w < |m.verts|
    ensures var l := MakeVertsNeighbors(m, v, w, dist);
      && (forall x: nat, y: nat :: Adjacent(m, x, y) ==> Adjacent(l.mesh, x, y))
      && (forall x: nat, y: nat :: Adjacent(l.mesh, x, y) ==> Adjacent(m, x, y) || PairKey(x, y) == PairKey(v, w))
      && (v != w ==> Adjacent(l.mesh, v, w))
      && (v != w ==> |l.mesh.edges| == |m.edges| + Fresh(m, v, w))
  {
    var l := MakeVertsNeighbors(m, v, w, dist);
    if Reaches(m, v, w) {
      var k :| 0 <= k < |m.verts[v].edgeList| && l.edge == m.verts[v].edgeList[k]
        && HasEnd(m.edges[l.edge], w);
      assert HasEnd(m.edges[l.edge], v);
      if v != w {
        assert Key(m.edges[l.edge]) == PairKey(v, w);
      }
    } else {
      NotReachesNotAdjacent(m, v, w);
      var e := Edge(|m.edges|, v, w, dist(m.verts[v].coords, m.verts[w].coords));
      AdjacentAfterAppend(m, l.mesh, e);
      assert l.mesh.edges[|m.edges|] == e;
    }
  }

  /** `makeVertsNeighbors(v, v)` on a vertex that already has edges returns the
      first of them, whatever its other endpoint: every edge v records has v
      as an endpoint, so the scan stops at once. */
  lemma SelfPairReusesFirstEdge(m: Mesh, v: nat, dist: Metric)
    requires EdgeWf(m) && v < |m.verts| && |m.verts[v].edgeList| > 0
    ensures MakeVertsNeighbors(m, v, v, dist) == Linked(m, m.verts[v].edgeList[0])
  {
    assert HasEnd(m.edges[m.verts[v].edgeList[0]], v);
  }

  // ---------------------------------------------------------------------------
  // addTriangle

  /** Resolving a triangle's sides keeps the invariant (bar the edge bound,
      which needs the triangle itself) and yields edges joining the corners. */
  lemma ResolveSidesKeepsWf(m: Mesh, a: nat, b: nat, c: nat, dist: Metric)
    requires IdsDense(m) && EdgeWf(m) && TriWf(m)
    requires a < |m.verts| && b < |m.verts| && c < |m.verts|
    ensures var s := ResolveSides(m, a, b, c, dist);
      && IdsDense(s.mesh) && EdgeWf(s.mesh) && TriWf(s.mesh)
      && s.e1 < |s.mesh.edges| && s.e2 < |s.mesh.edges| && s.e3 < |s.mesh.edges|
      && Connects(s.mesh.edges[s.e1], a, b)
      && Connects(s.mesh.edges[s.e2], a, c)
      && Connects(s.mesh.edges[s.e3], b, c)
  {
    var l1 := MakeVertsNeighbors(m, a, b, dist);
    MakeVertsNeighborsKeepsWf(m, a, b, dist);
    var l2 := MakeVertsNeighbors(l1.mesh, a, c, dist);
    MakeVertsNeighborsKeepsWf(l1.mesh, a, c, dist);
    var l3 := MakeVertsNeighbors(l2.mesh, b, c, dist);
    MakeVertsNeighborsKeepsWf(l2.mesh, b, c, dist);
    assert l2.mesh.edges[..|l1.mesh.edges|] == l1.mesh.edges;
    assert l3.mesh.edges[..|l2.mesh.edges|] == l2.mesh.edges;
    assert l3.mesh.edges[l1.edge] == l2.mesh.edges[l1.edge] == l1.mesh.edges[l1.edge];
    assert l3.mesh.edges[l2.edge] == l2.mesh.edges[l2.edge];
  }

  /** Resolving the sides adds to the adjacency relation only the triangle's
      sides, and every side joining two different corners. */
  lemma ResolveSidesAdjacency(m: Mesh, a: nat, b: nat, c: nat, dist: Metric)
    requires IdsDense(m) && EdgeWf(m) && TriWf(m)
    requires a < |m.verts| && b < |m.verts| && c < |m.verts|
    ensures var s := ResolveSides(m, a, b, c, dist);
      && (forall x: nat, y: nat :: Adjacent(m, x, y) ==> Adjacent(s.mesh, x, y))
      && (forall x: nat, y: nat :: Adjacent(s.mesh, x, y) ==> Adjacent(m, x, y) || PairKey(x, y) in Sides(a, b, c))
      && (a != b ==> Adjacent(s.mesh, a, b))
      && (a != c ==> Adjacent(s.mesh, a, c))
      && (b != c ==> Adjacent(s.mesh, b, c))
  {
    var l1 := MakeVertsNeighbors(m, a, b, dist);
    MakeVertsNeighborsKeepsWf(m, a, b, dist);
    MakeVertsNeighborsAdjacency(m, a, b, dist);
    var l2 := MakeVertsNeighbors(l1.mesh, a, c, dist);
    MakeVertsNeighborsKeepsWf(l1.mesh, a, c, dist);
    MakeVertsNeighborsAdjacency(l1.mesh, a, c, dist);
    var l3 := MakeVertsNeighbors(l2.mesh, b, c, dist);
    MakeVertsNeighborsAdjacency(l2.mesh, b, c, dist);
    forall x: nat, y: nat | Adjacent(l3.mesh, x, y)
      ensures Adjacent(m, x, y) || PairKey(x, y) in Sides(a, b, c)
    {
      if !Adjacent(l2.mesh, x, y) {
        assert PairKey(x, y) == PairKey(b, c);
      } else if !Adjacent(l1.mesh, x, y) {
        assert PairKey(x, y) == PairKey(a, c);
      } else if !Adjacent(m, x, y) {
        assert PairKey(x, y) == PairKey(a, b);
      }
    }
  }

  /** For three different corners, resolving the sides creates one edge for
      each side that was not an edge yet, and no other. */
  lemma ResolveSidesEdgeCount(m: Mesh, a: nat, b: nat, c: nat, dist: Metric)
    requires IdsDense(m) && EdgeWf(m) && TriWf(m)
    requires a < |m.verts| && b < |m.verts| && c < |m.verts|
    requires a != b && a != c && b != c
    ensures |ResolveSides(m, a, b, c, dist).mesh.edges| == |m.edges| + Fresh(m, a, b) + Fresh(m, a, c) + Fresh(m, b, c)
  {
    var l1 := MakeVertsNeighbors(m, a, b, dist);
    MakeVertsNeighborsKeepsWf(m, a, b, dist);
    MakeVertsNeighborsAdjacency(m, a, b, dist);
    var l2 := MakeVertsNeighbors(l1.mesh, a, c, dist);
    MakeVertsNeighborsAdjacency(l1.mesh, a, c, dist);
    PairKeyEquals(a, c, a, b);
    assert Adjacent(l1.mesh, a, c) <==> Adjacent(m, a, c);
    MakeVertsNeighborsKeepsWf(l1.mesh, a, c, dist);
    MakeVertsNeighborsAdjacency(l2.mesh, b, c, dist);
    PairKeyEquals(b, c, a, b);
    PairKeyEquals(b, c, a, c);
    assert Adjacent(l2.mesh, b, c) <==> Adjacent(m, b, c);
  }

  /** The shape of the mesh after the new triangle `t` is appended and recorded
      by its corners. */
  ghost predicate AppendShape(m: Mesh, r: Mesh, t: Triangle) {
    && t.id == |m.tris|
    && t.v1 < |m.verts| && t.v2 < |m.verts| && t.v3 < |m.verts|
    && r.edges == m.edges
    && r.tris == m.tris + [t]
    && |r.verts| == |m.verts|
    && forall u :: 0 <= u < |m.verts| ==>
         r.verts[u] == m.verts[u].(triList := m.verts[u].triList
           + When(u == t.v1, t.id) + When(u == t.v2, t.id) + When(u == t.v3, t.id))
  }

  lemma AppendTrianglesValid(m: Mesh, r: Mesh, t: Triangle)
    requires AppendShape(m, r, t) && TrianglesValid(m) && TriangleOk(m, t)
    ensures TrianglesValid(r)
  {
    forall i | 0 <= i < |r.tris|
      ensures TriangleOk(r, r.tris[i])
    {
      if i < |m.tris| {
        assert r.tris[i] == m.tris[i];
        assert TriangleOk(m, m.tris[i]);
      }
    }
  }

  lemma AppendTriLists(m: Mesh, r: Mesh, t: Triangle)
    requires AppendShape(m, r, t) && TriListsValid(m)
    ensures TriListsValid(r)
  {
    forall u, k | 0 <= u < |r.verts| && 0 <= k < |r.verts[u].triList|
      ensures r.verts[u].triList[k] < |r.tris| && IsCorner(r.tris[r.verts[u].triList[k]], u)
    {
      var before := m.verts[u].triList;
      if k < |before| {
        assert r.verts[u].triList[k] == before[k];
        assert r.tris[before[k]] == m.tris[before[k]];
      } else {
        assert r.verts[u].triList[k] == t.id;
      }
    }
  }

  lemma AppendRegistered(m: Mesh, r: Mesh, t: Triangle)
    requires AppendShape(m, r, t) && TrianglesValid(m) && TrianglesRegistered(m) && TrianglesValid(r)
    ensures TrianglesRegistered(r)
  {
    var idx := t.id;
    forall i | 0 <= i < |r.tris|
      ensures i in r.verts[r.tris[i].v1].triList && i in r.verts[r.tris[i].v2].triList
        && i in r.verts[r.tris[i].v3].triList
    {
      if i < idx {
        var ti := m.tris[i];
        assert r.tris[i] == ti;
        assert i in m.verts[ti.v1].triList && i in m.verts[ti.v2].triList && i in m.verts[ti.v3].triList;
      } else {
        assert r.verts[t.v1].triList == m.verts[t.v1].triList + [idx] + When(t.v1 == t.v2, idx) + When(t.v1 == t.v3, idx);
        assert r.verts[t.v2].triList == m.verts[t.v2].triList + When(t.v2 == t.v1, idx) + [idx] + When(t.v2 == t.v3, idx);
        assert r.verts[t.v3].triList == m.verts[t.v3].triList + When(t.v3 == t.v1, idx) + When(t.v3 == t.v2, idx) + [idx];
      }
    }
  }

  lemma AppendKeepsWf(m: Mesh, r: Mesh, t: Triangle)
    requires AppendShape(m, r, t) && IdsDense(m) && EdgeWf(m) && TriWf(m) && TriangleOk(m, t)
    ensures IdsDense(r) && EdgeWf(r) && TriWf(r)
  {
    EdgeWfFrame(m, r);
    assert TriangleOk(r, t);
    AppendTrianglesValid(m, r, t);
    AppendTriLists(m, r, t);
    AppendRegistered(m, r, t);
    assert IdsDense(r) by {
      assert forall u :: 0 <= u < |r.verts| ==> r.verts[u].id == m.verts[u].id;
      assert forall i :: 0 <= i < |m.tris| ==> r.tris[i] == m.tris[i];
    }
  }

  /** addTriangle keeps the invariant, including at most three edges per
      triangle, across any number of calls. */
  lemma AddTriangleKeepsWf(m: Mesh, a: nat, b: nat, c: nat, dist: Metric)
    requires Wf(m) && a < |m.verts| && b < |m.verts| && c < |m.verts|
    ensures Wf(AddTriangle(m, a, b, c, dist))
  {
    var s := ResolveSides(m, a, b, c, dist);
    ResolveSidesKeepsWf(m, a, b, c, dist);
    var t := Triangle(|m.tris|, a, b, c, s.e1, s.e2, s.e3);
    var r := AddTriangle(m, a, b, c, dist);
    assert AppendShape(s.mesh, r, t);
    AppendKeepsWf(s.mesh, r, t);
  }

  /** addTriangle adds to the adjacency relation exactly the triangle's sides
      that join two different corners; for three different corners it creates
      one edge for each side that was not an edge yet, and no other. */
  lemma AddTriangleAdjacency(m: Mesh, a: nat, b: nat, c: nat, dist: Metric)
    requires Wf(m) && a < |m.verts| && b < |m.verts| && c < |m.verts|
    ensures var r := AddTriangle(m, a, b, c, dist);
      && (forall x: nat, y: nat :: Adjacent(m, x, y) ==> Adjacent(r, x, y))
      && (forall x: nat, y: nat :: Adjacent(r, x, y) ==> Adjacent(m, x, y) || PairKey(x, y) in Sides(a, b, c))
      && (a != b ==> Adjacent(r, a, b))
      && (a != c ==> Adjacent(r, a, c))
      && (b != c ==> Adjacent(r, b, c))
      && (a != b && a != c && b != c ==>
            |r.edges| == |m.edges| + Fresh(m, a, b) + Fresh(m, a, c) + Fresh(m, b, c))
  {
    var s := ResolveSides(m, a, b, c, dist);
    ResolveSidesAdjacency(m, a, b, c, dist);
    if a != b && a != c && b != c {
      ResolveSidesEdgeCount(m, a, b, c, dist);
    }
    AdjacentSameEdges(s.mesh, AddTriangle(m, a, b, c, dist));
  }

  /** In a well-formed mesh, the side edge a triangle records for two different
      corners is the one and only edge joining them. */
  lemma TriangleSideIsTheEdge(m: Mesh, t: nat, e: nat)
    requires Wf(m) && t < |m.tris| && e < |m.edges|
    ensures var tr := m.tris[t];
      && (tr.v1 != tr.v2 ==> (Key(m.edges[e]) == PairKey(tr.v1, tr.v2) <==> e == tr.e1))
      && (tr.v1 != tr.v3 ==> (Key(m.edges[e]) == PairKey(tr.v1, tr.v3) <==> e == tr.e2))
      && (tr.v2 != tr.v3 ==> (Key(m.edges[e]) == PairKey(tr.v2, tr.v3) <==> e == tr.e3))
  {
    var tr := m.tris[t];
    assert TriangleOk(m, tr);
    if tr.v1 != tr.v2 {
      assert Key(m.edges[tr.e1]) == PairKey(tr.v1, tr.v2);
    }
    if tr.v1 != tr.v3 {
      assert Key(m.edges[tr.e2]) == PairKey(tr.v1, tr.v3);
    }
    if tr.v2 != tr.v3 {
      assert Key(m.edges[tr.e3]) == PairKey(tr.v2, tr.v3);
    }
  }
}
