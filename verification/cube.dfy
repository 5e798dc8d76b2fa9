/**
  The procedural cube fixture: eight corners produced by a walk around an
  axis-aligned box, joined by twelve triangles (two per face).
 */
module Cube {
  import opened MeshModel
  import opened Topology
  import opened TopologyInvariants

  /** A face as its three corner indices, in insertion order. */
  datatype Face = Face(a: nat, b: nat, c: nat)

  /** The cube's corner walk starts from this fixed point. */
  const Origin: Point := Point(10.0, 7.0, 5.0)

  /** The offset of corner `v` from `Origin`: each step moves one coordinate by
      plus or minus the side length, starting from no offset at corner 0. */
  function Offset(v: nat, side: real): Point
    requires v < 8
  {
    if v == 0 then Point(0.0, 0.0, 0.0)
    else
      var d := Offset(v - 1, side);
      if v == 1 then d.(x := d.x + side)
      else if v == 2 then d.(y := d.y + side)
      else if v == 3 then d.(x := d.x - side)
      else if v == 4 then d.(z := d.z - side)
      else if v == 5 then d.(x := d.x + side)
      else if v == 6 then d.(y := d.y - side)
      else d.(x := d.x - side)
  }

  function Corner(v: nat, side: real): Point
    requires v < 8
  {
    var d := Offset(v, side);
    Point(Origin.x + d.x, Origin.y + d.y, Origin.z + d.z)
  }

  /** Two triangles per face of the cube, in the order they are added. */
  function CubeFaces(): seq<Face> {
    [ Face(0, 1, 2), Face(0, 2, 3),
      Face(1, 6, 2), Face(6, 5, 2),
      Face(7, 5, 6), Face(7, 4, 5),
      Face(0, 3, 7), Face(3, 4, 7),
      Face(0, 6, 1), Face(0, 7, 6),
      Face(3, 2, 5), Face(3, 5, 4) ]
  }

  predicate FacesIn(faces: seq<Face>, n: nat) {
    forall j :: 0 <= j < |faces| ==> faces[j].a < n && faces[j].b < n && faces[j].c < n
  }

  predicate DistinctCorners(faces: seq<Face>) {
    forall j :: 0 <= j < |faces| ==> faces[j].a != faces[j].b && faces[j].a != faces[j].c && faces[j].b != faces[j].c
  }

  /** The triangles from index `from` on carry the faces' corners, in order. */
  predicate PlacedFrom(r: Mesh, from: nat, faces: seq<Face>) {
    && from + |faces| <= |r.tris|
    && forall j :: 0 <= j < |faces| ==>
         r.tris[from + j].v1 == faces[j].a && r.tris[from + j].v2 == faces[j].b && r.tris[from + j].v3 == faces[j].c
  }

  /** One of the first `n` faces has `u` as a corner. */
  ghost predicate Touches(faces: seq<Face>, n: nat, u: nat)
    requires n <= |faces|
  {
    exists j :: 0 <= j < n && (faces[j].a == u || faces[j].b == u || faces[j].c == u)
  }

  /** `p` is one of the unordered pairs that form the sides of `f`. */
  predicate IsSide(f: Face, p: Pair) {
    p == PairKey(f.a, f.b) || p == PairKey(f.a, f.c) || p == PairKey(f.b, f.c)
  }

  /** `p` is in `s` or is a side of one of the first `k` faces. */
  predicate Seen(s: set<Pair>, faces: seq<Face>, k: nat, p: Pair)
    requires k <= |faces|
  {
    if k == 0 then p in s else IsSide(faces[k - 1], p) || Seen(s, faces, k - 1, p)
  }

  /** How many sides of face `k` were not seen before it. */
  function NewSidesAt(s: set<Pair>, faces: seq<Face>, k: nat): nat
    requires k < |faces|
  {
    var f := faces[k];
    (if Seen(s, faces, k, PairKey(f.a, f.b)) then 0 else 1)
    + (if Seen(s, faces, k, PairKey(f.a, f.c)) then 0 else 1)
    + (if Seen(s, faces, k, PairKey(f.b, f.c)) then 0 else 1)
  }

  /** How many sides of the first `n` faces were new when their face was added. */
  function NewSides(s: set<Pair>, faces: seq<Face>, n: nat): nat
    requires n <= |faces|
  {
    if n == 0 then 0 else NewSides(s, faces, n - 1) + NewSidesAt(s, faces, n - 1)
  }

  /** The unordered pairs that `m` has an edge for. */
  ghost function AdjSet(m: Mesh): set<Pair> {
    set e | 0 <= e < |m.edges| :: Key(m.edges[e])
  }

  lemma AdjSetIsAdjacency(m: Mesh)
    ensures forall x: nat, y: nat :: Adjacent(m, x, y) <==> PairKey(x, y) in AdjSet(m)
  {
    forall x: nat, y: nat
      ensures Adjacent(m, x, y) <==> PairKey(x, y) in AdjSet(m)
    {
      if PairKey(x, y) in AdjSet(m) {
        var e :| 0 <= e < |m.edges| && Key(m.edges[e]) == PairKey(x, y);
      }
    }
  }

  /** A step that keeps every adjacency, adds only the sides of (a, b, c) and
      makes each of those sides adjacent adds exactly those sides. */
  lemma AdjacencyGrows(m: Mesh, r: Mesh, a: nat, b: nat, c: nat)
    requires forall x: nat, y: nat :: Adjacent(m, x, y) ==> Adjacent(r, x, y)
    requires forall x: nat, y: nat :: Adjacent(r, x, y) ==> Adjacent(m, x, y) || PairKey(x, y) in Sides(a, b, c)
    requires Adjacent(r, a, b) && Adjacent(r, a, c) && Adjacent(r, b, c)
    ensures forall x: nat, y: nat :: Adjacent(r, x, y) <==> Adjacent(m, x, y) || IsSide(Face(a, b, c), PairKey(x, y))
  {
    forall x: nat, y: nat
      ensures Adjacent(r, x, y) <==> Adjacent(m, x, y) || IsSide(Face(a, b, c), PairKey(x, y))
    {
      if PairKey(x, y) == PairKey(a, b) {
        assert Adjacent(r, a, b) ==> Adjacent(r, x, y);
      } else if PairKey(x, y) == PairKey(a, c) {
        assert Adjacent(r, a, c) ==> Adjacent(r, x, y);
      } else if PairKey(x, y) == PairKey(b, c) {
        assert Adjacent(r, b, c) ==> Adjacent(r, x, y);
      }
    }
  }

  /** Adding face `k` to a well-formed mesh whose adjacency is exactly the
      pairs seen before it: the adjacency becomes the pairs seen up to and
      including it, and the edge count grows by its new sides. */
  lemma AddFaceStep(m: Mesh, s: set<Pair>, faces: seq<Face>, k: nat, dist: Metric)
    requires k < |faces| && Wf(m)
    requires faces[k].a < |m.verts| && faces[k].b < |m.verts| && faces[k].c < |m.verts|
    requires faces[k].a != faces[k].b && faces[k].a != faces[k].c && faces[k].b != faces[k].c
    requires forall x: nat, y: nat :: Adjacent(m, x, y) <==> Seen(s, faces, k, PairKey(x, y))
    ensures var r := AddTriangle(m, faces[k].a, faces[k].b, faces[k].c, dist);
      && (forall x: nat, y: nat :: Adjacent(r, x, y) <==> Seen(s, faces, k + 1, PairKey(x, y)))
      && |r.edges| == |m.edges| + NewSidesAt(s, faces, k)
  {
    var f := faces[k];
    var r := AddTriangle(m, f.a, f.b, f.c, dist);
    assert f == Face(f.a, f.b, f.c);
    assert |r.edges| == |m.edges| + NewSidesAt(s, faces, k) by {
      AddTriangleAdjacency(m, f.a, f.b, f.c, dist);
      assert Adjacent(m, f.a, f.b) <==> Seen(s, faces, k, PairKey(f.a, f.b));
      assert Adjacent(m, f.a, f.c) <==> Seen(s, faces, k, PairKey(f.a, f.c));
      assert Adjacent(m, f.b, f.c) <==> Seen(s, faces, k, PairKey(f.b, f.c));
    }
    assert forall x: nat, y: nat :: Adjacent(r, x, y) <==> Adjacent(m, x, y) || IsSide(f, PairKey(x, y)) by {
      AddTriangleAdjacency(m, f.a, f.b, f.c, dist);
      AdjacencyGrows(m, r, f.a, f.b, f.c);
    }
  }

  /** The count of new sides of face `k`, with the face and its three sides
      given explicitly. */
  lemma NewSidesOf(s: set<Pair>, faces: seq<Face>, k: nat, f: Face, p1: Pair, p2: Pair, p3: Pair)
    requires k < |faces| && faces[k] == f
    requires p1 == PairKey(f.a, f.b) && p2 == PairKey(f.a, f.c) && p3 == PairKey(f.b, f.c)
    ensures NewSidesAt(s, faces, k)
      == (if Seen(s, faces, k, p1) then 0 else 1) + (if Seen(s, faces, k, p2) then 0 else 1) + (if Seen(s, faces, k, p3) then 0 else 1)
  {
  }

  // How many sides of each cube triangle are new when it is added to an empty
  // mesh, one lemma per triangle (each evaluates the definition on literals).

  lemma CubeNewSides0()
    ensures NewSidesAt({}, CubeFaces(), 0) == 3
  {
    NewSidesOf({}, CubeFaces(), 0, Face(0, 1, 2), Pair(0, 1), Pair(0, 2), Pair(1, 2));
  }

  lemma CubeNewSides1()
    ensures NewSidesAt({}, CubeFaces(), 1) == 2
  {
    NewSidesOf({}, CubeFaces(), 1, Face(0, 2, 3), Pair(0, 2), Pair(0, 3), Pair(2, 3));
  }

  lemma CubeNewSides2()
    ensures NewSidesAt({}, CubeFaces(), 2) == 2
  {
    NewSidesOf({}, CubeFaces(), 2, Face(1, 6, 2), Pair(1, 6), Pair(1, 2), Pair(2, 6));
  }

  lemma CubeNewSides3()
    ensures NewSidesAt({}, CubeFaces(), 3) == 2
  {
    NewSidesOf({}, CubeFaces(), 3, Face(6, 5, 2), Pair(5, 6), Pair(2, 6), Pair(2, 5));
  }

  lemma CubeNewSides4()
    ensures NewSidesAt({}, CubeFaces(), 4) == 2
  {
    NewSidesOf({}, CubeFaces(), 4, Face(7, 5, 6), Pair(5, 7), Pair(6, 7), Pair(5, 6));
  }

  lemma CubeNewSides5()
    ensures NewSidesAt({}, CubeFaces(), 5) == 2
  {
    NewSidesOf({}, CubeFaces(), 5, Face(7, 4, 5), Pair(4, 7), Pair(5, 7), Pair(4, 5));
  }

  lemma CubeNewSides6()
    ensures NewSidesAt({}, CubeFaces(), 6) == 2
  {
    NewSidesOf({}, CubeFaces(), 6, Face(0, 3, 7), Pair(0, 3), Pair(0, 7), Pair(3, 7));
  }

  lemma CubeNewSides7()
    ensures NewSidesAt({}, CubeFaces(), 7) == 1
  {
    NewSidesOf({}, CubeFaces(), 7, Face(3, 4, 7), Pair(3, 4), Pair(3, 7), Pair(4, 7));
  }

  lemma CubeNewSides8()
    ensures NewSidesAt({}, CubeFaces(), 8) == 1
  {
    NewSidesOf({}, CubeFaces(), 8, Face(0, 6, 1), Pair(0, 6), Pair(0, 1), Pair(1, 6));
  }

  lemma CubeNewSides9()
    ensures NewSidesAt({}, CubeFaces(), 9) == 0
  {
    NewSidesOf({}, CubeFaces(), 9, Face(0, 7, 6), Pair(0, 7), Pair(0, 6), Pair(6, 7));
  }

  lemma CubeNewSides10()
    ensures NewSidesAt({}, CubeFaces(), 10) == 1
  {
    NewSidesOf({}, CubeFaces(), 10, Face(3, 2, 5), Pair(2, 3), Pair(3, 5), Pair(2, 5));
  }

  lemma CubeNewSides11()
    ensures NewSidesAt({}, CubeFaces(), 11) == 0
  {
    NewSidesOf({}, CubeFaces(), 11, Face(3, 5, 4), Pair(3, 5), Pair(3, 4), Pair(4, 5));
  }

  /** The cube's twelve triangles create eighteen distinct sides. (`faces` is
      passed in rather than written as a literal so that the count is summed
      step by step instead of being evaluated all at once.) */
  lemma CubeSides(faces: seq<Face>)
    requires faces == CubeFaces()
    ensures NewSides({}, faces, 12) == 18
  {
    CubeNewSides0();
    CubeNewSides1();
    CubeNewSides2();
    CubeNewSides3();
    CubeNewSides4();
    CubeNewSides5();
    CubeNewSides6();
    CubeNewSides7();
    CubeNewSides8();
    CubeNewSides9();
    CubeNewSides10();
    CubeNewSides11();
    assert NewSides({}, faces, 3) == 7;
    assert NewSides({}, faces, 6) == 13;
    assert NewSides({}, faces, 9) == 17;
  }

  /** Appends the walk's eight corners. */
  method AddCorners(m: Mesh, side: real) returns (r: Mesh)
    requires EdgeRefsValid(m)
    ensures |r.verts| == |m.verts| + 8 && r.edges == m.edges && r.tris == m.tris
    ensures EdgeRefsValid(r)
    ensures forall u :: 0 <= u < |m.verts| ==> r.verts[u] == m.verts[u]
    ensures forall u :: |m.verts| <= u < |r.verts| ==> r.verts[u] == Vertex(u, Corner(u - |m.verts|, side), [], [], [], true)
    ensures Wf(m) ==> Wf(r)
  {
    r := m;
    for i := 0 to 8
      invariant |r.verts| == |m.verts| + i
      invariant r.edges == m.edges && r.tris == m.tris
      invariant EdgeRefsValid(r)
      invariant forall u :: 0 <= u < |m.verts| ==> r.verts[u] == m.verts[u]
      invariant forall u :: |m.verts| <= u < |r.verts| ==> r.verts[u] == Vertex(u, Corner(u - |m.verts|, side), [], [], [], true)
      invariant Wf(m) ==> Wf(r)
    {
      var y := AddVertex(r, Corner(i, side));
      assert forall u :: 0 <= u < |r.verts| ==> y.verts[u] == r.verts[u] by {
        assert forall u :: 0 <= u < |r.verts| ==> y.verts[..|r.verts|][u] == y.verts[u];
      }
      if Wf(m) {
        AddVertexKeepsWf(r, Corner(i, side));
      }
      r := y;
    }
  }

  /** What adding the first `k` faces to `m` leaves in `r`, apart from edges:
      the triangles in face order after the old ones, and the positions and
      triangle lists of vertices that no face touched unchanged. */
  ghost predicate FacesFrame(m: Mesh, r: Mesh, faces: seq<Face>, k: nat)
    requires k <= |faces|
  {
    && EdgeRefsValid(r) && |r.verts| == |m.verts|
    && |r.tris| == |m.tris| + k
    && (forall t :: 0 <= t < |m.tris| ==> r.tris[t] == m.tris[t])
    && (forall j :: 0 <= j < k ==>
         r.tris[|m.tris| + j].v1 == faces[j].a && r.tris[|m.tris| + j].v2 == faces[j].b && r.tris[|m.tris| + j].v3 == faces[j].c)
    && |m.edges| <= |r.edges| && r.edges[..|m.edges|] == m.edges
    && (forall u :: 0 <= u < |m.verts| ==>
         r.verts[u].coords == m.verts[u].coords && r.verts[u].interior == m.verts[u].interior)
    && (forall u :: 0 <= u < |m.verts| && !Touches(faces, k, u) ==> r.verts[u] == m.verts[u])
  }

  /** The edge side of adding the first `k` faces: the adjacency of `r` is
      exactly the pairs of `s` and the sides of those faces, and `r` has one
      new edge per new side. */
  ghost predicate FacesEdges(m: Mesh, r: Mesh, s: set<Pair>, faces: seq<Face>, k: nat)
    requires k <= |faces|
  {
    && (forall x: nat, y: nat :: Adjacent(r, x, y) <==> Seen(s, faces, k, PairKey(x, y)))
    && |r.edges| == |m.edges| + NewSides(s, faces, k)
  }

  /** The part of addTriangle's contract that the face loop relies on. */
  ghost predicate TriangleAppended(r: Mesh, y: Mesh, f: Face)
    requires f.a < |r.verts| && f.b < |r.verts| && f.c < |r.verts|
  {
    && EdgeRefsValid(y) && |y.verts| == |r.verts|
    && |y.tris| == |r.tris| + 1 && y.tris[..|r.tris|] == r.tris
    && y.tris[|r.tris|].v1 == f.a && y.tris[|r.tris|].v2 == f.b && y.tris[|r.tris|].v3 == f.c
    && |r.edges| <= |y.edges| && y.edges[..|r.edges|] == r.edges
    && (forall u :: 0 <= u < |r.verts| ==>
         && y.verts[u].triList == r.verts[u].triList + When(u == f.a, |r.tris|) + When(u == f.b, |r.tris|) + When(u == f.c, |r.tris|)
         && y.verts[u].coords == r.verts[u].coords
         && y.verts[u].interior == r.verts[u].interior)
    && (forall u :: 0 <= u < |r.verts| && u != f.a && u != f.b && u != f.c ==> y.verts[u] == r.verts[u])
  }

  lemma FacesFrameStep(m: Mesh, r: Mesh, y: Mesh, faces: seq<Face>, k: nat)
    requires k < |faces| && FacesIn(faces, |m.verts|) && FacesFrame(m, r, faces, k)
    requires TriangleAppended(r, y, faces[k])
    ensures FacesFrame(m, y, faces, k + 1)
  {
    var f := faces[k];
    assert forall t :: 0 <= t < |r.tris| ==> y.tris[t] == r.tris[t] by {
      assert forall t :: 0 <= t < |r.tris| ==> y.tris[..|r.tris|][t] == y.tris[t];
    }
    forall u | 0 <= u < |m.verts| && !Touches(faces, k + 1, u)
      ensures y.verts[u] == m.verts[u]
    {
      assert !(f.a == u || f.b == u || f.c == u);
      assert !Touches(faces, k, u);
    }
    PrefixTrans(m.edges, r.edges, y.edges);
  }

  lemma FacesEdgesStep(m: Mesh, r: Mesh, s: set<Pair>, faces: seq<Face>, k: nat, dist: Metric)
    requires k < |faces| && FacesIn(faces, |r.verts|) && DistinctCorners(faces) && Wf(r)
    requires FacesEdges(m, r, s, faces, k)
    ensures FacesEdges(m, AddTriangle(r, faces[k].a, faces[k].b, faces[k].c, dist), s, faces, k + 1)
  {
    var f := faces[k];
    var y := AddTriangle(r, f.a, f.b, f.c, dist);
    AddFaceStep(r, s, faces, k, dist);
    assert forall x: nat, z: nat :: Adjacent(y, x, z) <==> Seen(s, faces, k + 1, PairKey(x, z));
    assert |y.edges| == |r.edges| + NewSidesAt(s, faces, k);
    assert NewSides(s, faces, k + 1) == NewSides(s, faces, k) + NewSidesAt(s, faces, k);
  }

  /** Adds one triangle per face, in order. */
  method AddFaces(m: Mesh, faces: seq<Face>, dist: Metric) returns (r: Mesh)
    requires EdgeRefsValid(m) && FacesIn(faces, |m.verts|)
    ensures EdgeRefsValid(r) && |r.verts| == |m.verts|
    ensures |r.tris| == |m.tris| + |faces|
    ensures forall t :: 0 <= t < |m.tris| ==> r.tris[t] == m.tris[t]
    ensures PlacedFrom(r, |m.tris|, faces)
    ensures forall u :: 0 <= u < |m.verts| ==>
      r.verts[u].coords == m.verts[u].coords && r.verts[u].interior == m.verts[u].interior
    ensures forall u :: 0 <= u < |m.verts| && !Touches(faces, |faces|, u) ==> r.verts[u] == m.verts[u]
    ensures |m.edges| <= |r.edges| && r.edges[..|m.edges|] == m.edges
    ensures Wf(m) ==> Wf(r)
    ensures Wf(m) && DistinctCorners(faces) ==>
      && (forall x: nat, y: nat :: Adjacent(r, x, y) <==> Seen(AdjSet(m), faces, |faces|, PairKey(x, y)))
      && |r.edges| == |m.edges| + NewSides(AdjSet(m), faces, |faces|)
  {
    r := m;
    FacesDoneStart(m, faces);
    for k := 0 to |faces|
      invariant FacesDone(m, r, faces, k)
    {
      r := AddFace(m, r, faces, k, dist);
    }
    FacesDoneEnd(m, r, faces);
    assert Wf(m) && DistinctCorners(faces) ==> FacesEdges(m, r, AdjSet(m), faces, |faces|);
  }

  /** Before any face is added, the frame and the adjacency account hold. */
  lemma FacesDoneStart(m: Mesh, faces: seq<Face>)
    requires EdgeRefsValid(m)
    ensures FacesDone(m, m, faces, 0)
  {
    if Wf(m) {
      AdjSetIsAdjacency(m);
    }
  }

  /** Once every face is added, the frame gives the contract's frame clauses. */
  lemma FacesDoneEnd(m: Mesh, r: Mesh, faces: seq<Face>)
    requires FacesFrame(m, r, faces, |faces|)
    ensures EdgeRefsValid(r) && |r.verts| == |m.verts|
    ensures |r.tris| == |m.tris| + |faces|
    ensures forall t :: 0 <= t < |m.tris| ==> r.tris[t] == m.tris[t]
    ensures PlacedFrom(r, |m.tris|, faces)
    ensures forall u :: 0 <= u < |m.verts| ==>
      r.verts[u].coords == m.verts[u].coords && r.verts[u].interior == m.verts[u].interior
    ensures forall u :: 0 <= u < |m.verts| && !Touches(faces, |faces|, u) ==> r.verts[u] == m.verts[u]
    ensures |m.edges| <= |r.edges| && r.edges[..|m.edges|] == m.edges
  {
  }

  /** The face loop's invariant after `k` faces. */
  ghost predicate FacesDone(m: Mesh, r: Mesh, faces: seq<Face>, k: nat)
    requires k <= |faces|
  {
    && FacesFrame(m, r, faces, k)
    && (Wf(m) ==> Wf(r))
    && (Wf(m) && DistinctCorners(faces) ==> FacesEdges(m, r, AdjSet(m), faces, k))
  }

  /** One round of the face loop: adds face `k` to `r`, which holds the
      first `k` faces added to `m`. */
  method AddFace(m: Mesh, r: Mesh, faces: seq<Face>, k: nat, dist: Metric) returns (y: Mesh)
    requires k < |faces| && FacesIn(faces, |m.verts|) && FacesDone(m, r, faces, k)
    ensures FacesDone(m, y, faces, k + 1)
  {
    var f := faces[k];
    y := AddTriangle(r, f.a, f.b, f.c, dist);
    assert TriangleAppended(r, y, f);
    FacesFrameStep(m, r, y, faces, k);
    if Wf(m) {
      AddTriangleKeepsWf(r, f.a, f.b, f.c, dist);
      if DistinctCorners(faces) {
        FacesEdgesStep(m, r, AdjSet(m), faces, k, dist);
      }
    }
  }

  /** A corner of a triangle of a well-formed mesh is not isolated. */
  lemma CornerNotIsolated(r: Mesh, t: nat, v: nat)
    requires TrianglesValid(r) && TrianglesRegistered(r)
    requires t < |r.tris| && IsCorner(r.tris[t], v)
    ensures v < |r.verts| && |r.verts[v].triList| > 0
  {
    assert TriangleOk(r, r.tris[t]);
    assert t in r.verts[v].triList;
  }

  /** Each of vertices 0 .. 7 is a corner of one of the cube's triangles, so in
      a well-formed mesh whose triangles are the cube's, none is isolated. */
  lemma CubeCornersCovered(r: Mesh)
    requires TrianglesValid(r) && TrianglesRegistered(r) && |r.verts| == 8 && |r.tris| == 12
    requires PlacedFrom(r, 0, CubeFaces())
    ensures NoIsolated(r)
  {
    var f := CubeFaces();
    assert f[0] == Face(0, 1, 2) && f[1] == Face(0, 2, 3) && f[3] == Face(6, 5, 2) && f[5] == Face(7, 4, 5);
    assert r.tris[0].v1 == 0 && r.tris[0].v2 == 1 && r.tris[0].v3 == 2;
    assert r.tris[1].v3 == 3;
    assert r.tris[3].v1 == 6 && r.tris[3].v2 == 5;
    assert r.tris[5].v1 == 7 && r.tris[5].v2 == 4;
    forall v | 0 <= v < 8
      ensures |r.verts[v].triList| > 0
    {
      var t := if v < 3 then 0 else if v == 3 then 1 else if v == 5 || v == 6 then 3 else 5;
      CornerNotIsolated(r, t, v);
    }
  }

  /** The cube's faces use corners 0 .. 7 and no face repeats a corner. */
  lemma CubeFacesShape()
    ensures FacesIn(CubeFaces(), 8) && DistinctCorners(CubeFaces())
  {
  }

  /** The cube built on an empty mesh: 8 vertices, 12 triangles, 18 edges, so
      its Euler characteristic is 2, and every vertex is a corner. */
  lemma CubeOnEmpty(r: Mesh, faces: seq<Face>)
    requires faces == CubeFaces()
    requires TrianglesValid(r) && TrianglesRegistered(r) && |r.verts| == 8 && |r.tris| == 12
    requires PlacedFrom(r, 0, faces)
    requires |r.edges| == NewSides({}, faces, 12)
    ensures |r.edges| == 18 && |r.verts| - |r.edges| + |r.tris| == 2
    ensures NoIsolated(r)
  {
    CubeSides(faces);
    CubeCornersCovered(r);
  }

  /** Builds the cube with the given side length onto `m`: eight corners are
      appended, then twelve triangles over vertices 0 .. 7, which are the new
      corners only when `m` had no vertices (the mesh is not cleared first). */
  method CreateCube(m: Mesh, side: real, dist: Metric) returns (r: Mesh)
    requires EdgeRefsValid(m)
    ensures |r.verts| == |m.verts| + 8 && |r.tris| == |m.tris| + 12
    ensures forall u :: |m.verts| <= u < |r.verts| ==>
      r.verts[u].coords == Corner(u - |m.verts|, side) && r.verts[u].interior
    ensures forall t :: 0 <= t < |m.tris| ==> r.tris[t] == m.tris[t]
    ensures PlacedFrom(r, |m.tris|, CubeFaces())
    // what was there is kept; vertices from index 8 on are not touched by the faces
    ensures forall u :: 0 <= u < |m.verts| ==>
      r.verts[u].coords == m.verts[u].coords && r.verts[u].interior == m.verts[u].interior
    ensures forall u :: 8 <= u < |m.verts| ==> r.verts[u] == m.verts[u]
    ensures |m.edges| <= |r.edges| && r.edges[..|m.edges|] == m.edges
    // the new corners from index 8 on stay isolated and unlinked
    ensures forall u :: 8 <= u && |m.verts| <= u < |r.verts| ==>
      r.verts[u] == Vertex(u, Corner(u - |m.verts|, side), [], [], [], true)
    ensures Wf(m) ==> Wf(r)
    ensures m == Empty() ==>
      && |r.verts| == 8 && |r.tris| == 12 && |r.edges| == 18
      && |r.verts| - |r.edges| + |r.tris| == 2
      && NoIsolated(r)
  {
    var corners := AddCorners(m, side);
    var faces := CubeFaces();
    CubeFacesShape();
    r := AddFaces(corners, faces, dist);
    forall u | 8 <= u < |r.verts|
      ensures r.verts[u] == corners.verts[u]
    {
      assert !Touches(faces, 12, u);
    }
    if m == Empty() {
      assert Wf(m);
      assert AdjSet(m) == {};
      CubeOnEmpty(r, faces);
    }
  }
}
