/**
  Per-vertex ring areas: for each vertex, the total area of the triangles it
  belongs to. The area of a triangle is floating-point geometry and is a
  parameter here; only the aggregation is modelled.
 */
module RingAreas {
  import opened MeshModel
  import opened Topology

  /** The area of the triangle with the given corner positions. */
  type AreaOf = (Point, Point, Point) -> real

  /** Every corner of every triangle exists. */
  predicate CornersExist(m: Mesh) {
    forall t :: 0 <= t < |m.tris| ==>
      m.tris[t].v1 < |m.verts| && m.tris[t].v2 < |m.verts| && m.tris[t].v3 < |m.verts|
  }

  /** Every index in every triangle list names a triangle. */
  predicate TriListsInRange(m: Mesh) {
    forall v :: 0 <= v < |m.verts| ==> Below(m.verts[v].triList, |m.tris|)
  }

  function TriangleArea(m: Mesh, area: AreaOf, t: nat): real
    requires CornersExist(m) && t < |m.tris|
  {
    area(m.verts[m.tris[t].v1].coords, m.verts[m.tris[t].v2].coords, m.verts[m.tris[t].v3].coords)
  }

  /** The area of every triangle, by triangle index. */
  function Areas(m: Mesh, area: AreaOf): (r: seq<real>)
    requires CornersExist(m)
    ensures |r| == |m.tris| && forall t :: 0 <= t < |m.tris| ==> r[t] == TriangleArea(m, area, t)
  {
    seq(|m.tris|, t requires 0 <= t < |m.tris| => TriangleArea(m, area, t))
  }

  /** Every index in `ids` is below `n`. */
  predicate Below(ids: seq<nat>, n: nat) {
    forall k :: 0 <= k < |ids| ==> ids[k] < n
  }

  /** Entry `i` of `areas`, and 0 past the end. */
  function At(areas: seq<real>, i: nat): real {
    if i < |areas| then areas[i] else 0.0
  }

  /** The sum of `areas` over the indices in `ids`, counted with repetition. */
  function SumOver(ids: seq<nat>, areas: seq<real>): real {
    if ids == [] then 0.0
    else SumOver(ids[..|ids| - 1], areas) + At(areas, ids[|ids| - 1])
  }

  /** Sums over a concatenation add up. */
  lemma {:induction false} SumOverAppend(a: seq<nat>, b: seq<nat>, areas: seq<real>)
    ensures SumOver(a + b, areas) == SumOver(a, areas) + SumOver(b, areas)
    decreases |b|
  {
    if b == [] {
      assert a + b == a;
    } else {
      var b' := b[..|b| - 1];
      assert (a + b)[..|a + b| - 1] == a + b';
      SumOverAppend(a, b', areas);
    }
  }

  /** A sum only reads the entries its indices name. */
  lemma {:induction false} SumOverAgree(ids: seq<nat>, areas: seq<real>, other: seq<real>)
    requires forall k :: 0 <= k < |ids| ==> At(areas, ids[k]) == At(other, ids[k])
    ensures SumOver(ids, areas) == SumOver(ids, other)
    decreases |ids|
  {
    if ids != [] {
      SumOverAgree(ids[..|ids| - 1], areas, other);
    }
  }

  /** The ring areas: for each vertex, the sum of the areas of the triangles in
      its triangle list (a triangle listed twice counts twice). The areas of
      all triangles are computed once, first. */
  method CalcRingAreas(m: Mesh, area: AreaOf) returns (ring: seq<real>)
    requires CornersExist(m) && TriListsInRange(m)
    ensures |ring| == |m.verts|
    ensures forall v :: 0 <= v < |m.verts| ==>
      ring[v] == SumOver(m.verts[v].triList, Areas(m, area))
  {
    var areas := [];
    for t := 0 to |m.tris|
      invariant |areas| == t
      invariant forall i :: 0 <= i < t ==> areas[i] == TriangleArea(m, area, i)
    {
      areas := areas + [TriangleArea(m, area, t)];
    }
    assert areas == Areas(m, area);
    ring := [];
    for v := 0 to |m.verts|
      invariant |ring| == v
      invariant forall u :: 0 <= u < v ==> ring[u] == SumOver(m.verts[u].triList, areas)
    {
      var list := m.verts[v].triList;
      var sum := 0.0;
      for k := 0 to |list|
        invariant sum == SumOver(list[..k], areas)
      {
        assert list[..k + 1][..k] == list[..k];
        sum := sum + areas[list[k]];
        assert areas[list[k]] == At(areas, list[k]);
      }
      assert list[..|list|] == list;
      ring := ring + [sum];
    }
  }

  /** What a triangle of area `x` with corners (a, b, c) adds to the ring
      area of `u`: `x` once for each corner position `u` occupies. */
  function Contribution(u: nat, a: nat, b: nat, c: nat, x: real): real {
    (if u == a then x else 0.0) + (if u == b then x else 0.0) + (if u == c then x else 0.0)
  }

  /** The copies of triangle index `t` that adding triangle (a, b, c) as `t`
      appends to the triangle list of `u`: one per corner `u` occupies. */
  function Added(u: nat, a: nat, b: nat, c: nat, t: nat): seq<nat> {
    When(u == a, t) + When(u == b, t) + When(u == c, t)
  }

  /** `r` is `m` with triangle (a, b, c) appended: earlier triangles, positions
      and the order of the vertices kept, and the new index appended to each
      corner's triangle list once per corner. */
  ghost predicate Grown(m: Mesh, r: Mesh, a: nat, b: nat, c: nat) {
    && a < |m.verts| && b < |m.verts| && c < |m.verts|
    && |r.verts| == |m.verts|
    && |r.tris| == |m.tris| + 1 && r.tris[..|m.tris|] == m.tris
    && r.tris[|m.tris|].v1 == a && r.tris[|m.tris|].v2 == b && r.tris[|m.tris|].v3 == c
    && forall u :: 0 <= u < |m.verts| ==>
         && r.verts[u].triList == m.verts[u].triList + Added(u, a, b, c, |m.tris|)
         && r.verts[u].coords == m.verts[u].coords
  }

  lemma AddedBelow(u: nat, a: nat, b: nat, c: nat, t: nat)
    ensures Below(Added(u, a, b, c, t), t + 1)
  {
  }

  lemma BelowAppend(x: seq<nat>, y: seq<nat>, n: nat)
    requires Below(x, n) && Below(y, n)
    ensures Below(x + y, n)
  {
    forall k | 0 <= k < |x + y|
      ensures (x + y)[k] < n
    {
      if k >= |x| {
        assert (x + y)[k] == y[k - |x|];
      }
    }
  }

  lemma GrownKeepsRanges(m: Mesh, r: Mesh, a: nat, b: nat, c: nat)
    requires Grown(m, r, a, b, c) && CornersExist(m) && TriListsInRange(m)
    ensures CornersExist(r) && TriListsInRange(r)
  {
    var n := |m.tris|;
    forall t | 0 <= t < n
      ensures r.tris[t] == m.tris[t]
    {
      assert r.tris[..n][t] == r.tris[t];
    }
    forall v | 0 <= v < |r.verts|
      ensures Below(r.verts[v].triList, |r.tris|)
    {
      AddedBelow(v, a, b, c, n);
      BelowAppend(m.verts[v].triList, Added(v, a, b, c, n), n + 1);
    }
  }

  /** Appending a triangle keeps the areas of the earlier triangles and adds
      the new one's at the end. */
  lemma GrownAreas(m: Mesh, r: Mesh, a: nat, b: nat, c: nat, area: AreaOf)
    requires Grown(m, r, a, b, c) && CornersExist(m) && CornersExist(r)
    ensures Areas(r, area) == Areas(m, area) + [area(m.verts[a].coords, m.verts[b].coords, m.verts[c].coords)]
  {
    var n := |m.tris|;
    forall t | 0 <= t < n
      ensures Areas(r, area)[t] == Areas(m, area)[t]
    {
      assert r.tris[..n][t] == r.tris[t];
    }
  }

  lemma SumOverWhen(cond: bool, t: nat, areas: seq<real>)
    ensures SumOver(When(cond, t), areas) == if cond then At(areas, t) else 0.0
  {
    if cond {
      assert When(cond, t)[..0] == [];
    }
  }

  /** The sum over the copies of a new index is its contribution. */
  lemma SumOverAdded(u: nat, a: nat, b: nat, c: nat, t: nat, areas: seq<real>)
    ensures SumOver(Added(u, a, b, c, t), areas) == Contribution(u, a, b, c, At(areas, t))
  {
    var p, q, w := When(u == a, t), When(u == b, t), When(u == c, t);
    SumOverWhen(u == a, t, areas);
    SumOverWhen(u == b, t, areas);
    SumOverWhen(u == c, t, areas);
    SumOverAppend(p, q, areas);
    SumOverAppend(p + q, w, areas);
  }

  /** Appending a triangle grows the ring area of each vertex by the new
      triangle's area once per corner the vertex occupies. */
  lemma GrownRingArea(m: Mesh, r: Mesh, a: nat, b: nat, c: nat, area: AreaOf, u: nat)
    requires Grown(m, r, a, b, c) && CornersExist(m) && TriListsInRange(m) && u < |m.verts|
    ensures CornersExist(r) && TriListsInRange(r)
    ensures SumOver(r.verts[u].triList, Areas(r, area))
         == SumOver(m.verts[u].triList, Areas(m, area))
            + Contribution(u, a, b, c, area(m.verts[a].coords, m.verts[b].coords, m.verts[c].coords))
  {
    GrownKeepsRanges(m, r, a, b, c);
    GrownAreas(m, r, a, b, c, area);
    var n := |m.tris|;
    var olds := Areas(m, area);
    var news := Areas(r, area);
    assert At(news, n) == area(m.verts[a].coords, m.verts[b].coords, m.verts[c].coords);
    var list := m.verts[u].triList;
    forall k | 0 <= k < |list|
      ensures At(olds, list[k]) == At(news, list[k])
    {
      assert list[k] < n;
    }
    SumOverAgree(list, olds, news);
    SumOverAdded(u, a, b, c, n, news);
    SumOverAppend(list, Added(u, a, b, c, n), news);
  }

  lemma Regroup(x: seq<nat>, p: seq<nat>, q: seq<nat>, w: seq<nat>)
    ensures x + p + q + w == x + (p + q + w)
  {
  }

  lemma AddTriangleGrows(m: Mesh, a: nat, b: nat, c: nat, dist: Metric)
    requires EdgeRefsValid(m) && a < |m.verts| && b < |m.verts| && c < |m.verts|
    ensures Grown(m, AddTriangle(m, a, b, c, dist), a, b, c)
  {
    var r := AddTriangle(m, a, b, c, dist);
    var n := |m.tris|;
    forall v | 0 <= v < |m.verts|
      ensures r.verts[v].triList == m.verts[v].triList + Added(v, a, b, c, n)
    {
      Regroup(m.verts[v].triList, When(v == a, n), When(v == b, n), When(v == c, n));
    }
  }

  /** Adding triangle (a, b, c) to a mesh grows the ring area of each vertex by
      the new triangle's area once per corner it occupies, and leaves the
      others alone. */
  lemma RingAreaAfterAddTriangle(m: Mesh, a: nat, b: nat, c: nat, dist: Metric, area: AreaOf, u: nat)
    requires EdgeRefsValid(m) && CornersExist(m) && TriListsInRange(m)
    requires a < |m.verts| && b < |m.verts| && c < |m.verts| && u < |m.verts|
    ensures var r := AddTriangle(m, a, b, c, dist);
      && CornersExist(r) && TriListsInRange(r)
      && SumOver(r.verts[u].triList, Areas(r, area))
         == SumOver(m.verts[u].triList, Areas(m, area))
            + Contribution(u, a, b, c, area(m.verts[a].coords, m.verts[b].coords, m.verts[c].coords))
  {
    AddTriangleGrows(m, a, b, c, dist);
    GrownRingArea(m, AddTriangle(m, a, b, c, dist), a, b, c, area, u);
  }
}
