/**
  The exhaustive extremal scans over vertex positions: the largest distance
  between two vertices, the largest triangle area over three and the largest
  tetrahedron volume over four. Each measure is floating-point geometry and is
  a parameter here; only the scan order and the maximum are modelled.

  Every scan starts from 0 and replaces its running value by a strictly
  larger measure. The tuples are visited with the earlier-added vertex last:
  (v, w) with w < v, (v, w, u) with u < w < v and (v, w, u, y) with
  y < u < w < v. Each nesting level is a method of its own.
 */
module Extremes {
  import opened MeshModel
  import opened RingAreas

  /** The volume of the tetrahedron with the given corner positions. */
  type VolumeOf = (Point, Point, Point, Point) -> real

  /** The vertex positions, by vertex index. */
  function Positions(m: Mesh): (ps: seq<Point>)
    ensures |ps| == |m.verts| && forall v :: 0 <= v < |m.verts| ==> ps[v] == m.verts[v].coords
  {
    seq(|m.verts|, v requires 0 <= v < |m.verts| => m.verts[v].coords)
  }

  /** The distance between vertices `v` and `w`. */
  function PairDistance(ps: seq<Point>, dist: Metric, v: nat, w: nat): real
    requires v < |ps| && w < |ps|
  {
    dist(ps[v], ps[w])
  }

  /** The area of the triangle spanned by vertices `v`, `w` and `u`. */
  function TripleArea(ps: seq<Point>, area: AreaOf, v: nat, w: nat, u: nat): real
    requires v < |ps| && w < |ps| && u < |ps|
  {
    area(ps[v], ps[w], ps[u])
  }

  /** The volume of the tetrahedron spanned by vertices `v`, `w`, `u` and `y`. */
  function QuadVolume(ps: seq<Point>, volume: VolumeOf, v: nat, w: nat, u: nat, y: nat): real
    requires v < |ps| && w < |ps| && u < |ps| && y < |ps|
  {
    volume(ps[v], ps[w], ps[u], ps[y])
  }

  // Pairs

  /** `r` is the largest of 0 and `dist` over all pairs w < v. */
  ghost predicate IsMaxPair(ps: seq<Point>, dist: Metric, r: real) {
    && 0.0 <= r
    && (forall v, w :: 0 <= w < v < |ps| ==> PairDistance(ps, dist, v, w) <= r)
    && (r == 0.0 || exists v, w :: 0 <= w < v < |ps| && PairDistance(ps, dist, v, w) == r)
  }

  /** Raises `r0` to the distances from vertex `v` to every earlier vertex. */
  method PairRow(ps: seq<Point>, dist: Metric, v: nat, r0: real) returns (r: real)
    requires v < |ps|
    ensures r0 <= r
    ensures forall w :: 0 <= w < v ==> PairDistance(ps, dist, v, w) <= r
    ensures r == r0 || exists w :: 0 <= w < v && PairDistance(ps, dist, v, w) == r
  {
    r := r0;
    for w := 0 to v
      invariant r0 <= r
      invariant forall w' :: 0 <= w' < w ==> PairDistance(ps, dist, v, w') <= r
      invariant r == r0 || exists w' :: 0 <= w' < v && PairDistance(ps, dist, v, w') == r
    {
      var d := PairDistance(ps, dist, v, w);
      if d > r {
        r := d;
      }
    }
  }

  /** The largest distance between two vertices, or 0 when none is positive. */
  method MaxPairDistance(ps: seq<Point>, dist: Metric) returns (r: real)
    ensures IsMaxPair(ps, dist, r)
  {
    r := 0.0;
    for v := 0 to |ps|
      invariant 0.0 <= r
      invariant forall v', w :: 0 <= w < v' < v ==> PairDistance(ps, dist, v', w) <= r
      invariant r == 0.0 || exists v', w :: 0 <= w < v' < |ps| && PairDistance(ps, dist, v', w) == r
    {
      r := PairRow(ps, dist, v, r);
    }
  }

  // Triples

  /** `r` is the largest of 0 and `area` over all triples u < w < v. */
  ghost predicate IsMaxTriple(ps: seq<Point>, area: AreaOf, r: real) {
    && 0.0 <= r
    && (forall v, w, u :: 0 <= u < w < v < |ps| ==> TripleArea(ps, area, v, w, u) <= r)
    && (r == 0.0 || exists v, w, u :: 0 <= u < w < v < |ps| && TripleArea(ps, area, v, w, u) == r)
  }

  /** Raises `r0` to the areas of (v, w, u) for every u < w. */
  method TripleRow(ps: seq<Point>, area: AreaOf, v: nat, w: nat, r0: real) returns (r: real)
    requires w < v < |ps|
    ensures r0 <= r
    ensures forall u :: 0 <= u < w ==> TripleArea(ps, area, v, w, u) <= r
    ensures r == r0 || exists u :: 0 <= u < w && TripleArea(ps, area, v, w, u) == r
  {
    r := r0;
    for u := 0 to w
      invariant r0 <= r
      invariant forall u' :: 0 <= u' < u ==> TripleArea(ps, area, v, w, u') <= r
      invariant r == r0 || exists u' :: 0 <= u' < w && TripleArea(ps, area, v, w, u') == r
    {
      var x := TripleArea(ps, area, v, w, u);
      if x > r {
        r := x;
      }
    }
  }

  /** Raises `r0` to the areas of (v, w, u) for every u < w < v. */
  method TriplePlane(ps: seq<Point>, area: AreaOf, v: nat, r0: real) returns (r: real)
    requires v < |ps|
    ensures r0 <= r
    ensures forall w, u :: 0 <= u < w < v ==> TripleArea(ps, area, v, w, u) <= r
    ensures r == r0 || exists w, u :: 0 <= u < w < v && TripleArea(ps, area, v, w, u) == r
  {
    r := r0;
    for w := 0 to v
      invariant r0 <= r
      invariant forall w', u :: 0 <= u < w' < w ==> TripleArea(ps, area, v, w', u) <= r
      invariant r == r0 || exists w', u :: 0 <= u < w' < v && TripleArea(ps, area, v, w', u) == r
    {
      r := TripleRow(ps, area, v, w, r);
    }
  }

  /** The largest area of a triangle spanned by three vertices, or 0 when
      none is positive. */
  method MaxTriangleArea(ps: seq<Point>, area: AreaOf) returns (r: real)
    ensures IsMaxTriple(ps, area, r)
  {
    r := 0.0;
    for v := 0 to |ps|
      invariant 0.0 <= r
      invariant forall v', w, u :: 0 <= u < w < v' < v ==> TripleArea(ps, area, v', w, u) <= r
      invariant r == 0.0 || exists v', w, u :: 0 <= u < w < v' < |ps| && TripleArea(ps, area, v', w, u) == r
    {
      r := TriplePlane(ps, area, v, r);
    }
  }

  // Quadruples

  /** `r` is the largest of 0 and `volume` over all quadruples y < u < w < v. */
  ghost predicate IsMaxQuad(ps: seq<Point>, volume: VolumeOf, r: real) {
    && 0.0 <= r
    && (forall v, w, u, y :: 0 <= y < u < w < v < |ps| ==> QuadVolume(ps, volume, v, w, u, y) <= r)
    && (r == 0.0 || exists v, w, u, y :: 0 <= y < u < w < v < |ps| && QuadVolume(ps, volume, v, w, u, y) == r)
  }

  /** Raises `r0` to the volumes of (v, w, u, y) for every y < u. */
  method QuadRow(ps: seq<Point>, volume: VolumeOf, v: nat, w: nat, u: nat, r0: real) returns (r: real)
    requires u < w < v < |ps|
    ensures r0 <= r
    ensures forall y :: 0 <= y < u ==> QuadVolume(ps, volume, v, w, u, y) <= r
    ensures r == r0 || exists y :: 0 <= y < u && QuadVolume(ps, volume, v, w, u, y) == r
  {
    r := r0;
    for y := 0 to u
      invariant r0 <= r
      invariant forall y' :: 0 <= y' < y ==> QuadVolume(ps, volume, v, w, u, y') <= r
      invariant r == r0 || exists y' :: 0 <= y' < u && QuadVolume(ps, volume, v, w, u, y') == r
    {
      var x := QuadVolume(ps, volume, v, w, u, y);
      if x > r {
        r := x;
      }
    }
  }

  /** Raises `r0` to the volumes of (v, w, u, y) for every y < u < w. */
  method QuadPlane(ps: seq<Point>, volume: VolumeOf, v: nat, w: nat, r0: real) returns (r: real)
    requires w < v < |ps|
    ensures r0 <= r
    ensures forall u, y :: 0 <= y < u < w ==> QuadVolume(ps, volume, v, w, u, y) <= r
    ensures r == r0 || exists u, y :: 0 <= y < u < w && QuadVolume(ps, volume, v, w, u, y) == r
  {
    r := r0;
    for u := 0 to w
      invariant r0 <= r
      invariant forall u', y :: 0 <= y < u' < u ==> QuadVolume(ps, volume, v, w, u', y) <= r
      invariant r == r0 || exists u', y :: 0 <= y < u' < w && QuadVolume(ps, volume, v, w, u', y) == r
    {
      r := QuadRow(ps, volume, v, w, u, r);
    }
  }

  /** Raises `r0` to the volumes of (v, w, u, y) for every y < u < w < v. */
  method QuadSpace(ps: seq<Point>, volume: VolumeOf, v: nat, r0: real) returns (r: real)
    requires v < |ps|
    ensures r0 <= r
    ensures forall w, u, y :: 0 <= y < u < w < v ==> QuadVolume(ps, volume, v, w, u, y) <= r
    ensures r == r0 || exists w, u, y :: 0 <= y < u < w < v && QuadVolume(ps, volume, v, w, u, y) == r
  {
    r := r0;
    for w := 0 to v
      invariant r0 <= r
      invariant forall w', u, y :: 0 <= y < u < w' < w ==> QuadVolume(ps, volume, v, w', u, y) <= r
      invariant r == r0 || exists w', u, y :: 0 <= y < u < w' < v && QuadVolume(ps, volume, v, w', u, y) == r
    {
      r := QuadPlane(ps, volume, v, w, r);
    }
  }

  /** The largest volume of a tetrahedron spanned by four vertices, or 0 when
      none is positive. */
  method MaxTetrahedronVolume(ps: seq<Point>, volume: VolumeOf) returns (r: real)
    ensures IsMaxQuad(ps, volume, r)
  {
    r := 0.0;
    for v := 0 to |ps|
      invariant 0.0 <= r
      invariant forall v', w, u, y :: 0 <= y < u < w < v' < v ==> QuadVolume(ps, volume, v', w, u, y) <= r
      invariant r == 0.0 || exists v', w, u, y :: 0 <= y < u < w < v' < |ps| && QuadVolume(ps, volume, v', w, u, y) == r
    {
      r := QuadSpace(ps, volume, v, r);
    }
  }

  /** The three extremal measures of a mesh's vertex set. */
  datatype AuxInfo = AuxInfo(maxDistance: real, maxArea: real, maxVolume: real)

  /** Gathers the three extremal scans over the vertex positions. */
  method CalcAuxInfo(m: Mesh, dist: Metric, area: AreaOf, volume: VolumeOf) returns (info: AuxInfo)
    ensures IsMaxPair(Positions(m), dist, info.maxDistance)
    ensures IsMaxTriple(Positions(m), area, info.maxArea)
    ensures IsMaxQuad(Positions(m), volume, info.maxVolume)
  {
    var ps := Positions(m);
    var d := MaxPairDistance(ps, dist);
    var a := MaxTriangleArea(ps, area);
    var v := MaxTetrahedronVolume(ps, volume);
    info := AuxInfo(d, a, v);
  }
}
