/**
  Building a mesh from the records a loader has read: a trace of vertex and
  face operations replayed through the topology builder, followed by the
  post-parse check that every vertex has an incident triangle.
 */
module Construction {
  import opened Wrappers
  import opened MeshModel
  import opened Topology
  import opened TopologyInvariants

  /** The three corner fields of a face record, already converted to integers
      (they may be negative or too large). */
  datatype Corners = Corners(a: int, b: int, c: int)

  /** One record of a mesh file: a vertex position or a face. */
  datatype Op = AddV(p: Point) | AddF(f: Corners)

  /** A mesh together with the result code of the operation that built it. */
  datatype Loaded = Loaded(mesh: Mesh, status: Status)

  predicate InRange(f: Corners, n: nat) {
    0 <= f.a < n && 0 <= f.b < n && 0 <= f.c < n
  }

  function CornersOf(t: Triangle): Corners {
    Corners(t.v1, t.v2, t.v3)
  }

  /** The positions of the vertex records, in order. */
  function Points(ops: seq<Op>): seq<Point> {
    if ops == [] then []
    else
      var last := ops[|ops| - 1];
      Points(ops[..|ops| - 1]) + (if last.AddV? then [last.p] else [])
  }

  /** The corner fields of the face records, in order. */
  function Faces(ops: seq<Op>): seq<Corners> {
    if ops == [] then []
    else
      var last := ops[|ops| - 1];
      Faces(ops[..|ops| - 1]) + (if last.AddF? then [last.f] else [])
  }

  /** Record `i` is a face naming a vertex that no earlier record created. */
  ghost predicate BadFace(ops: seq<Op>, i: nat)
    requires i < |ops|
  {
    ops[i].AddF? && !InRange(ops[i].f, |Points(ops[..i])|)
  }

  /** Some face record names vertex `u`. */
  ghost predicate Referenced(faces: seq<Corners>, u: nat) {
    exists t :: 0 <= t < |faces| && (faces[t].a == u || faces[t].b == u || faces[t].c == u)
  }

  /** Each of vertices 0 .. n-1 is named by some face record. */
  ghost predicate AllReferenced(n: nat, faces: seq<Corners>) {
    forall u :: 0 <= u < n ==> Referenced(faces, u)
  }

  /** `m` holds one vertex per point, at that position, and one triangle per
      face, with the face's corners in order. */
  ghost predicate Describes(m: Mesh, pts: seq<Point>, faces: seq<Corners>) {
    && |m.verts| == |pts| && (forall u :: 0 <= u < |pts| ==> m.verts[u].coords == pts[u])
    && |m.tris| == |faces| && (forall t :: 0 <= t < |faces| ==> CornersOf(m.tris[t]) == faces[t])
  }

  /** No triangle has `u` as a corner. */
  ghost predicate Unused(m: Mesh, u: nat) {
    forall t :: 0 <= t < |m.tris| ==> !IsCorner(m.tris[t], u)
  }

  /** The `interior` flag marks exactly the vertices no triangle uses. */
  ghost predicate InteriorMeansUnused(m: Mesh) {
    forall u :: 0 <= u < |m.verts| ==> (m.verts[u].interior <==> Unused(m, u))
  }

  ghost predicate AllInterior(m: Mesh) {
    forall u :: 0 <= u < |m.verts| ==> m.verts[u].interior
  }

  // ---------------------------------------------------------------------------
  // The post-parse check

  /** The first vertex at or after `from` whose triangle list is empty. */
  function FirstIsolated(m: Mesh, from: nat): (r: Option<nat>)
    requires from <= |m.verts|
    ensures r.Some? ==>
      && from <= r.value < |m.verts| && m.verts[r.value].triList == []
      && forall u :: from <= u < r.value ==> m.verts[u].triList != []
    ensures r.None? <==> forall u :: from <= u < |m.verts| ==> m.verts[u].triList != []
    decreases |m.verts| - from
  {
    if from == |m.verts| then None
    else if m.verts[from].triList == [] then Some(from)
    else FirstIsolated(m, from + 1)
  }

  /** The check both loaders run after parsing: it fails, naming the first
      such vertex, exactly when some vertex has no incident triangle. */
  function Validate(m: Mesh): (s: Status)
    ensures s == Ok || s.IsolatedVertex?
    ensures s == Ok <==> NoIsolated(m)
    ensures s.IsolatedVertex? ==>
      && s.v < |m.verts| && m.verts[s.v].triList == []
      && forall u :: 0 <= u < s.v ==> m.verts[u].triList != []
  {
    match FirstIsolated(m, 0)
    case None => Ok
    case Some(v) => IsolatedVertex(v)
  }

  /** In a well-formed mesh whose triangles are `faces`, a vertex has an
      incident triangle exactly when some face names it. */
  lemma ListedIffReferenced(m: Mesh, faces: seq<Corners>, u: nat)
    requires TriWf(m) && u < |m.verts|
    requires |m.tris| == |faces| && forall t :: 0 <= t < |faces| ==> CornersOf(m.tris[t]) == faces[t]
    ensures m.verts[u].triList != [] <==> Referenced(faces, u)
  {
    if m.verts[u].triList != [] {
      var t := m.verts[u].triList[0];
      assert t < |m.tris| && IsCorner(m.tris[t], u);
      assert CornersOf(m.tris[t]) == faces[t];
    }
    if Referenced(faces, u) {
      var t :| 0 <= t < |faces| && (faces[t].a == u || faces[t].b == u || faces[t].c == u);
      assert CornersOf(m.tris[t]) == faces[t];
      assert TriangleOk(m, m.tris[t]);
      assert t in m.verts[u].triList;
    }
  }

  /** Validation of a well-formed mesh built from `faces`, stated on the records. */
  lemma ValidateOnRecords(m: Mesh, pts: seq<Point>, faces: seq<Corners>)
    requires Wf(m) && Describes(m, pts, faces)
    ensures Validate(m) == Ok <==> AllReferenced(|pts|, faces)
    ensures Validate(m).IsolatedVertex? ==>
      && Validate(m).v < |pts| && !Referenced(faces, Validate(m).v)
      && AllReferenced(Validate(m).v, faces)
  {
    forall u | 0 <= u < |pts|
      ensures m.verts[u].triList != [] <==> Referenced(faces, u)
    {
      ListedIffReferenced(m, faces, u);
    }
  }

  // ---------------------------------------------------------------------------
  // Replay

  /** Marks corners a, b and c as referenced by a face. */
  function MarkReferenced(m: Mesh, a: nat, b: nat, c: nat): (r: Mesh)
    requires a < |m.verts| && b < |m.verts| && c < |m.verts|
    ensures r.edges == m.edges && r.tris == m.tris && |r.verts| == |m.verts|
    ensures forall u :: 0 <= u < |m.verts| ==>
      r.verts[u] == m.verts[u].(interior := m.verts[u].interior && u != a && u != b && u != c)
  {
    var v1 := m.verts[a := m.verts[a].(interior := false)];
    var v2 := v1[b := v1[b].(interior := false)];
    m.(verts := v2[c := v2[c].(interior := false)])
  }

  /** Changing only `interior` flags keeps the mesh invariant. */
  lemma InteriorFrame(m: Mesh, r: Mesh)
    requires Wf(m)
    requires r.edges == m.edges && r.tris == m.tris && |r.verts| == |m.verts|
    requires forall u :: 0 <= u < |m.verts| ==> r.verts[u] == m.verts[u].(interior := r.verts[u].interior)
    ensures Wf(r)
  {
    EdgeWfFrame(m, r);
    TriWfFrame(m, r);
  }

  /** The facts about addTriangle's result that the replay relies on. */
  ghost predicate TriangleAdded(m: Mesh, y: Mesh, f: Corners)
    requires InRange(f, |m.verts|)
  {
    && |y.verts| == |m.verts|
    && |y.tris| == |m.tris| + 1 && y.tris[..|m.tris|] == m.tris
    && CornersOf(y.tris[|m.tris|]) == f
    && (forall u :: 0 <= u < |m.verts| ==>
         y.verts[u].coords == m.verts[u].coords && y.verts[u].interior == m.verts[u].interior)
  }

  /** Marking the corners of the new triangle keeps `interior` meaning unused. */
  lemma MarkStep(m: Mesh, y: Mesh, f: Corners)
    requires InRange(f, |m.verts|) && TriangleAdded(m, y, f)
    requires InteriorMeansUnused(m)
    ensures InteriorMeansUnused(MarkReferenced(y, f.a, f.b, f.c))
  {
    var n := MarkReferenced(y, f.a, f.b, f.c);
    assert forall t :: 0 <= t < |m.tris| ==> n.tris[t] == m.tris[t] by {
      assert forall t :: 0 <= t < |m.tris| ==> y.tris[..|m.tris|][t] == y.tris[t];
    }
    forall u | 0 <= u < |n.verts|
      ensures n.verts[u].interior <==> Unused(n, u)
    {
      assert Unused(n, u) <==> Unused(m, u) && !IsCorner(n.tris[|m.tris|], u);
    }
  }

  lemma FaceStep(m: Mesh, y: Mesh, n: Mesh, pts: seq<Point>, faces: seq<Corners>, f: Corners, mark: bool)
    requires InRange(f, |m.verts|) && TriangleAdded(m, y, f)
    requires Describes(m, pts, faces)
    requires mark ==> InteriorMeansUnused(m)
    requires !mark ==> AllInterior(m)
    requires n == if mark then MarkReferenced(y, f.a, f.b, f.c) else y
    ensures Describes(n, pts, faces + [f])
    ensures mark ==> InteriorMeansUnused(n)
    ensures !mark ==> AllInterior(n)
  {
    assert forall t :: 0 <= t < |m.tris| ==> n.tris[t] == m.tris[t] by {
      assert forall t :: 0 <= t < |m.tris| ==> y.tris[..|m.tris|][t] == y.tris[t];
    }
    if mark {
      MarkStep(m, y, f);
    }
  }

  lemma VertexStep(m: Mesh, p: Point, pts: seq<Point>, faces: seq<Corners>, mark: bool)
    requires TrianglesValid(m) && Describes(m, pts, faces)
    requires mark ==> InteriorMeansUnused(m)
    requires !mark ==> AllInterior(m)
    ensures Describes(AddVertex(m, p), pts + [p], faces)
    ensures mark ==> InteriorMeansUnused(AddVertex(m, p))
    ensures !mark ==> AllInterior(AddVertex(m, p))
  {
    var y := AddVertex(m, p);
    assert forall u :: 0 <= u < |m.verts| ==> y.verts[u] == m.verts[u] by {
      assert forall u :: 0 <= u < |m.verts| ==> y.verts[..|m.verts|][u] == y.verts[u];
    }
    if mark {
      forall t | 0 <= t < |y.tris|
        ensures !IsCorner(y.tris[t], |m.verts|)
      {
        assert TriangleOk(m, m.tris[t]);
      }
    }
  }

  /** The invariant the replay keeps: a well-formed mesh that holds exactly
      the records read so far, with `interior` flags as `mark` asks. */
  ghost predicate Holds(m: Mesh, pts: seq<Point>, faces: seq<Corners>, mark: bool) {
    && Wf(m) && Describes(m, pts, faces)
    && (mark ==> InteriorMeansUnused(m))
    && (!mark ==> AllInterior(m))
  }

  /** A face record with existing corners: the triangle is added and, when
      `mark` is set, its corners are marked as referenced. */
  function PlaceFace(m: Mesh, f: Corners, mark: bool, dist: Metric): Mesh
    requires InRange(f, |m.verts|) && EdgeRefsValid(m)
  {
    var y := AddTriangle(m, f.a, f.b, f.c, dist);
    if mark then MarkReferenced(y, f.a, f.b, f.c) else y
  }

  /** Marking corners keeps the mesh invariant. */
  lemma MarkKeepsWf(m: Mesh, a: nat, b: nat, c: nat)
    requires Wf(m) && a < |m.verts| && b < |m.verts| && c < |m.verts|
    ensures Wf(MarkReferenced(m, a, b, c))
  {
    InteriorFrame(m, MarkReferenced(m, a, b, c));
  }

  lemma PlaceFaceWf(m: Mesh, f: Corners, mark: bool, dist: Metric)
    requires Wf(m) && InRange(f, |m.verts|)
    ensures Wf(PlaceFace(m, f, mark, dist))
  {
    AddTriangleKeepsWf(m, f.a, f.b, f.c, dist);
    if mark {
      MarkKeepsWf(AddTriangle(m, f.a, f.b, f.c, dist), f.a, f.b, f.c);
    }
  }

  lemma PlaceFaceRecords(m: Mesh, f: Corners, mark: bool, dist: Metric, pts: seq<Point>, faces: seq<Corners>)
    requires EdgeRefsValid(m) && InRange(f, |m.verts|) && Describes(m, pts, faces)
    requires mark ==> InteriorMeansUnused(m)
    requires !mark ==> AllInterior(m)
    ensures Describes(PlaceFace(m, f, mark, dist), pts, faces + [f])
    ensures mark ==> InteriorMeansUnused(PlaceFace(m, f, mark, dist))
    ensures !mark ==> AllInterior(PlaceFace(m, f, mark, dist))
  {
    var y := AddTriangle(m, f.a, f.b, f.c, dist);
    assert TriangleAdded(m, y, f);
    FaceStep(m, y, PlaceFace(m, f, mark, dist), pts, faces, f, mark);
  }

  lemma PlaceFaceHolds(m: Mesh, f: Corners, mark: bool, dist: Metric, pts: seq<Point>, faces: seq<Corners>)
    requires Holds(m, pts, faces, mark) && InRange(f, |m.verts|)
    ensures Holds(PlaceFace(m, f, mark, dist), pts, faces + [f], mark)
  {
    PlaceFaceWf(m, f, mark, dist);
    PlaceFaceRecords(m, f, mark, dist, pts, faces);
  }

  lemma PlaceVertexHolds(m: Mesh, p: Point, mark: bool, pts: seq<Point>, faces: seq<Corners>)
    requires Holds(m, pts, faces, mark)
    ensures Holds(AddVertex(m, p), pts + [p], faces, mark)
  {
    VertexStep(m, p, pts, faces, mark);
    AddVertexKeepsWf(m, p);
  }

  /** Applies one record: a vertex record adds a vertex; a face record whose
      corners exist adds a triangle (and marks its corners when `mark` is
      set); a face record naming a missing vertex is refused. */
  method Apply(m: Mesh, op: Op, mark: bool, dist: Metric, ghost pts: seq<Point>, ghost faces: seq<Corners>)
    returns (n: Mesh, ok: bool)
    requires Holds(m, pts, faces, mark)
    ensures ok <==> op.AddV? || InRange(op.f, |m.verts|)
    ensures ok && op.AddV? ==> Holds(n, pts + [op.p], faces, mark)
    ensures ok && op.AddF? ==> Holds(n, pts, faces + [op.f], mark)
  {
    match op
    case AddV(p) =>
      PlaceVertexHolds(m, p, mark, pts, faces);
      n, ok := AddVertex(m, p), true;
    case AddF(f) =>
      if !InRange(f, |m.verts|) {
        return m, false;
      }
      PlaceFaceHolds(m, f, mark, dist, pts, faces);
      n, ok := PlaceFace(m, f, mark, dist), true;
  }

  /** Points and faces of one more record. */
  lemma RecordsStep(ops: seq<Op>, i: nat)
    requires i < |ops|
    ensures Points(ops[..i + 1]) == Points(ops[..i]) + (if ops[i].AddV? then [ops[i].p] else [])
    ensures Faces(ops[..i + 1]) == Faces(ops[..i]) + (if ops[i].AddF? then [ops[i].f] else [])
  {
    assert ops[..i + 1][..i] == ops[..i];
  }

  /** What replaying `ops` yields. A face record naming a vertex that no
      earlier record created stops it with `InvalidArguments`, and only such
      a record does. Otherwise the mesh is well formed and holds exactly the
      records' points and faces, the `interior` flags mean "no triangle uses
      this vertex" when `mark` is set and stay set otherwise, there are at
      most three edges per triangle, and the status
      is `Ok` exactly when every vertex is named by a face (equivalently, has
      an incident triangle), else it names the first vertex that is not. */
  ghost predicate Outcome(ops: seq<Op>, mark: bool, r: Loaded) {
    && (r.status == InvalidArguments <==> exists i :: 0 <= i < |ops| && BadFace(ops, i))
    && (r.status == Ok || r.status == InvalidArguments || r.status.IsolatedVertex?)
    && (r.status != InvalidArguments ==>
         && Holds(r.mesh, Points(ops), Faces(ops), mark)
         && (r.status == Ok <==> NoIsolated(r.mesh))
         && (r.status == Ok <==> AllReferenced(|Points(ops)|, Faces(ops)))
         && (r.status.IsolatedVertex? ==>
               && r.status.v < |Points(ops)| && !Referenced(Faces(ops), r.status.v)
               && AllReferenced(r.status.v, Faces(ops))))
  }

  lemma RefusedOutcome(ops: seq<Op>, mark: bool, m: Mesh, i: nat)
    requires i < |ops| && BadFace(ops, i)
    ensures Outcome(ops, mark, Loaded(m, InvalidArguments))
  {
  }

  /** A load that met no bad face and ends with validation meets the outcome. */
  lemma ValidatedOutcome(ops: seq<Op>, mark: bool, r: Loaded)
    requires Holds(r.mesh, Points(ops), Faces(ops), mark) && r.status == Validate(r.mesh)
    requires forall j :: 0 <= j < |ops| ==> !BadFace(ops, j)
    ensures Outcome(ops, mark, r)
  {
    assert r.status != InvalidArguments && !(exists i :: 0 <= i < |ops| && BadFace(ops, i));
    assert (r.status == Ok <==> AllReferenced(|Points(ops)|, Faces(ops)))
      && (r.status.IsolatedVertex? ==>
            && r.status.v < |Points(ops)| && !Referenced(Faces(ops), r.status.v)
            && AllReferenced(r.status.v, Faces(ops)))
    by {
      ValidateOnRecords(r.mesh, Points(ops), Faces(ops));
    }
  }

  /** Replays `ops` onto an empty mesh: vertex records become vertices, face
      records triangles (clearing their corners' `interior` flags when `mark`
      is set); then the mesh is validated. */
  method Replay(ops: seq<Op>, mark: bool, dist: Metric) returns (r: Loaded)
    ensures Outcome(ops, mark, r)
  {
    var m := Clear(Empty());
    for i := 0 to |ops|
      invariant Holds(m, Points(ops[..i]), Faces(ops[..i]), mark)
      invariant forall j :: 0 <= j < i ==> !BadFace(ops, j)
    {
      RecordsStep(ops, i);
      var n, ok := Apply(m, ops[i], mark, dist, Points(ops[..i]), Faces(ops[..i]));
      if !ok {
        RefusedOutcome(ops, mark, m, i);
        return Loaded(m, InvalidArguments);
      }
      m := n;
    }
    assert ops[..|ops|] == ops;
    r := Loaded(m, Validate(m));
    ValidatedOutcome(ops, mark, r);
  }

  // ---------------------------------------------------------------------------
  // Files that list their vertices first

  /** The records of a file that lists `pts` and then `faces`. */
  function Trace(pts: seq<Point>, faces: seq<Corners>): (ops: seq<Op>)
    ensures |ops| == |pts| + |faces|
    ensures forall i :: 0 <= i < |pts| ==> ops[i] == AddV(pts[i])
    ensures forall t :: 0 <= t < |faces| ==> ops[|pts| + t] == AddF(faces[t])
  {
    seq(|pts|, i requires 0 <= i < |pts| => AddV(pts[i]))
    + seq(|faces|, t requires 0 <= t < |faces| => AddF(faces[t]))
  }

  lemma {:induction false} VertexPrefix(pts: seq<Point>, faces: seq<Corners>, k: nat)
    requires k <= |pts|
    ensures Points(Trace(pts, faces)[..k]) == pts[..k] && Faces(Trace(pts, faces)[..k]) == []
  {
    var ops := Trace(pts, faces);
    if k == 0 {
      assert ops[..0] == [];
    } else {
      VertexPrefix(pts, faces, k - 1);
      RecordsStep(ops, k - 1);
      assert ops[k - 1] == AddV(pts[k - 1]);
      assert pts[..k] == pts[..k - 1] + [pts[k - 1]];
    }
  }

  lemma TakeOneMore<T>(s: seq<T>, j: nat)
    requires j < |s|
    ensures s[..j + 1] == s[..j] + [s[j]]
  {
  }

  lemma {:induction false} FacePrefix(pts: seq<Point>, faces: seq<Corners>, k: nat)
    requires |pts| <= k <= |pts| + |faces|
    ensures Points(Trace(pts, faces)[..k]) == pts && Faces(Trace(pts, faces)[..k]) == faces[..k - |pts|]
  {
    var ops := Trace(pts, faces);
    if k == |pts| {
      VertexPrefix(pts, faces, k);
      assert pts[..k] == pts;
    } else {
      var j := k - 1 - |pts|;
      FacePrefix(pts, faces, k - 1);
      RecordsStep(ops, k - 1);
      assert ops[k - 1] == AddF(faces[j]);
      TakeOneMore(faces, j);
    }
  }

  /** Replaying the records of such a file recovers its points and faces. */
  lemma TraceRecords(pts: seq<Point>, faces: seq<Corners>)
    ensures Points(Trace(pts, faces)) == pts && Faces(Trace(pts, faces)) == faces
  {
    var ops := Trace(pts, faces);
    FacePrefix(pts, faces, |ops|);
    assert ops[..|ops|] == ops;
    assert faces[..|faces|] == faces;
  }

  /** Such a file holds a record naming a missing vertex exactly when one of
      its faces names an index outside 0 .. |pts|-1. */
  /** Record `i` of such a file is a bad face exactly when it is a face
      naming an index outside 0 .. |pts|-1. */
  lemma TraceBadAt(pts: seq<Point>, faces: seq<Corners>, i: nat)
    requires i < |pts| + |faces|
    ensures BadFace(Trace(pts, faces), i) <==> |pts| <= i && !InRange(faces[i - |pts|], |pts|)
  {
    if |pts| <= i {
      FacePrefix(pts, faces, i);
    }
  }

  lemma TraceBadFace(pts: seq<Point>, faces: seq<Corners>)
    ensures (exists i :: 0 <= i < |pts| + |faces| && BadFace(Trace(pts, faces), i))
        <==> exists t :: 0 <= t < |faces| && !InRange(faces[t], |pts|)
  {
    var ops := Trace(pts, faces);
    if exists i :: 0 <= i < |ops| && BadFace(ops, i) {
      var i :| 0 <= i < |ops| && BadFace(ops, i);
      TraceBadAt(pts, faces, i);
      assert !InRange(faces[i - |pts|], |pts|);
    }
    if exists t :: 0 <= t < |faces| && !InRange(faces[t], |pts|) {
      var t :| 0 <= t < |faces| && !InRange(faces[t], |pts|);
      TraceBadAt(pts, faces, |pts| + t);
      assert BadFace(ops, |pts| + t);
    }
  }

  /** Such a file is refused exactly when a face names a vertex index outside
      0 .. |pts|-1; otherwise the replay yields a well-formed mesh holding
      exactly `pts` and `faces`, with at most three edges per face, which
      passes validation exactly when every vertex is a corner of some face. */
  lemma TraceOutcome(pts: seq<Point>, faces: seq<Corners>, mark: bool, r: Loaded)
    requires Outcome(Trace(pts, faces), mark, r)
    ensures r.status == InvalidArguments <==> exists t :: 0 <= t < |faces| && !InRange(faces[t], |pts|)
    ensures r.status != InvalidArguments ==>
      && Wf(r.mesh) && Describes(r.mesh, pts, faces)
      && |r.mesh.edges| <= 3 * |faces|
      && (r.status == Ok <==> AllReferenced(|pts|, faces))
  {
    TraceRecords(pts, faces);
    TraceBadFace(pts, faces);
  }
}
