/**
  The two mesh file readers and the extension dispatch. Character-level
  scanning is not modelled: an OBJ file is the sequence of records its line
  scan matched, and an OFF file is the sequence of numbers that follow its
  format word. Both readers clear the mesh, replay the records they read and
  validate the result.
 */
module Loader {
  import opened Wrappers
  import opened MeshModel
  import opened Topology
  import opened Construction

  /** C's conversion of a floating-point value to `int`: truncation toward zero. */
  function Trunc(x: real): (r: int)
    ensures 0.0 <= x ==> r as real <= x < r as real + 1.0
    ensures x < 0.0 ==> r as real - 1.0 < x <= r as real
  {
    if x >= 0.0 then x.Floor else -((-x).Floor)
  }

  function Min(a: int, b: int): int {
    if a <= b then a else b
  }

  // ---------------------------------------------------------------------------
  // OBJ

  /** One matched OBJ line: its type character and three numbers. */
  datatype ObjLine = ObjLine(kind: char, a: real, b: real, c: real)

  /** A 'v' line is a vertex; any other type character is read as a face whose
      1-based corner numbers are truncated and shifted to 0-based indices. */
  function ObjOp(l: ObjLine): (op: Op)
    ensures op.AddV? <==> l.kind == 'v'
    ensures op.AddV? ==> op.p == Point(l.a, l.b, l.c)
    ensures op.AddF? ==> op.f.a + 1 == Trunc(l.a) && op.f.b + 1 == Trunc(l.b) && op.f.c + 1 == Trunc(l.c)
  {
    if l.kind == 'v' then AddV(Point(l.a, l.b, l.c))
    else AddF(Corners(Trunc(l.a) - 1, Trunc(l.b) - 1, Trunc(l.c) - 1))
  }

  function ObjOps(lines: seq<ObjLine>): (ops: seq<Op>)
    ensures |ops| == |lines| && forall i :: 0 <= i < |lines| ==> ops[i] == ObjOp(lines[i])
  {
    seq(|lines|, i requires 0 <= i < |lines| => ObjOp(lines[i]))
  }

  /** Loads an OBJ file onto `m`. A file that cannot be opened leaves `m` as it
      is; otherwise `m` is cleared and the records replayed, marking every
      corner a face names as no longer interior. */
  method LoadObj(file: Option<seq<ObjLine>>, m: Mesh, dist: Metric) returns (r: Loaded)
    ensures file.None? ==> r == Loaded(m, FileError)
    ensures file.Some? ==> Outcome(ObjOps(file.value), true, r)
  {
    if file.None? {
      return Loaded(m, FileError);
    }
    r := Replay(ObjOps(file.value), true, dist);
  }

  // ---------------------------------------------------------------------------
  // OFF

  /** One formatted read of `|prev|` numbers starting at `pos`: each number
      present replaces the matching entry of `prev`; once input runs out the
      remaining variables keep their previous values. */
  function Scan(toks: seq<real>, pos: nat, prev: seq<real>): (r: seq<real>)
    ensures |r| == |prev|
    ensures forall j :: 0 <= j < |prev| ==> r[j] == if pos + j < |toks| then toks[pos + j] else prev[j]
    // a read with all its numbers present takes the next |prev| numbers in order
    ensures pos + |prev| <= |toks| ==> r == toks[pos..pos + |prev|]
    // a read at the end of input changes nothing
    ensures |toks| <= pos ==> r == prev
  {
    seq(|prev|, j requires 0 <= j < |prev| => if pos + j < |toks| then toks[pos + j] else prev[j])
  }

  /** The last number before position `end` that a three-number read stored
      in slot `j` (counts line and vertex lines share one set of variables),
      or 0 when none has: the source leaves them uninitialised. */
  function Last3(toks: seq<real>, end: nat, j: nat): real
    requires end <= |toks| && j < 3
  {
    if end == 0 then 0.0
    else if (end - 1) % 3 == j then toks[end - 1]
    else Last3(toks, end - 1, j)
  }

  /** The number of vertices the counts line announces (its first number,
      truncated; none when that is negative or missing). */
  function OffCount(toks: seq<real>): nat {
    if |toks| == 0 then 0
    else if Trunc(toks[0]) < 0 then 0
    else Trunc(toks[0])
  }

  /** Where the face records start: after the counts line and `OffCount` vertex lines. */
  function FaceStart(toks: seq<real>): nat {
    3 + 3 * OffCount(toks)
  }

  /** Vertex `u` as read: each coordinate is the number at its position, or,
      past the end of input, the last value read into the same variable. */
  function OffPoint(toks: seq<real>, u: nat): Point {
    var e := Min(6 + 3 * u, |toks|);
    Point(Last3(toks, e, 0), Last3(toks, e, 1), Last3(toks, e, 2))
  }

  /** The number of face reads: one per started group of four numbers. */
  function OffFaceCount(toks: seq<real>): nat {
    if |toks| <= FaceStart(toks) then 0 else (|toks| - FaceStart(toks) + 3) / 4
  }

  /** Field `j` (1 .. 3) of face `t`: the number at its position, or, past the
      end of input, the value the same variable got from the previous read,
      four numbers earlier. */
  function OffField(toks: seq<real>, t: nat, j: nat): real
    requires t < OffFaceCount(toks) && 1 <= j <= 3
  {
    var p := FaceStart(toks) + 4 * t + j;
    if p < |toks| then toks[p] else toks[p - 4]
  }

  /** Face `t` as read: the per-face corner count is skipped and the three
      indices are used as they are (they are 0-based). */
  function OffFace(toks: seq<real>, t: nat): Corners
    requires t < OffFaceCount(toks)
  {
    Corners(Trunc(OffField(toks, t, 1)), Trunc(OffField(toks, t, 2)), Trunc(OffField(toks, t, 3)))
  }

  /** The records the OFF reader extracts: `OffCount` vertices, then one face
      per group of four numbers up to the end of input. */
  function OffRead(toks: seq<real>): (ops: seq<Op>)
    ensures |ops| == OffCount(toks) + OffFaceCount(toks)
  {
    seq(OffCount(toks), u requires 0 <= u < OffCount(toks) => AddV(OffPoint(toks, u)))
    + seq(OffFaceCount(toks), t requires 0 <= t < OffFaceCount(toks) => AddF(OffFace(toks, t)))
  }

  /** One three-number read at a group boundary advances each slot's last value. */
  lemma Last3Step(toks: seq<real>, pos: nat, j: nat)
    requires pos <= |toks| && j < 3 && (pos % 3 == 0 || pos == |toks|)
    ensures Last3(toks, Min(pos + 3, |toks|), j)
      == if pos + j < |toks| then toks[pos + j] else Last3(toks, pos, j)
  {
    if pos + 3 <= |toks| {
      assert Last3(toks, pos + 1, j) == if j == 0 then toks[pos] else Last3(toks, pos, j);
      assert Last3(toks, pos + 2, j) == if j == 1 then toks[pos + 1] else Last3(toks, pos + 1, j);
    } else if pos + 2 == |toks| {
      assert Last3(toks, pos + 1, j) == if j == 0 then toks[pos] else Last3(toks, pos, j);
    }
  }

  /** At a full group boundary, the last value of slot `j` is the number just before it. */
  lemma Last3AtBoundary(toks: seq<real>, end: nat, j: nat)
    requires 3 <= end <= |toks| && end % 3 == 0 && j < 3
    ensures Last3(toks, end, j) == toks[end - 3 + j]
  {
    if j < 2 {
      assert Last3(toks, end, j) == Last3(toks, end - 1, j);
      if j == 0 {
        assert Last3(toks, end - 1, j) == Last3(toks, end - 2, j);
      }
    }
  }

  /** The vertex part of the OFF reader: the counts line, then one
      three-number read per announced vertex. Returns the vertices, the
      position after them and the variables' last values. */
  method ScanVertices(toks: seq<real>) returns (ops: seq<Op>, pos: nat, abc: seq<real>)
    ensures |ops| == OffCount(toks) && forall u :: 0 <= u < |ops| ==> ops[u] == AddV(OffPoint(toks, u))
    ensures pos == Min(FaceStart(toks), |toks|)
    ensures |abc| == 3 && forall j :: 0 <= j < 3 ==> abc[j] == Last3(toks, pos, j)
  {
    abc := Scan(toks, 0, [0.0, 0.0, 0.0]);
    pos := Min(3, |toks|);
    forall j | 0 <= j < 3
      ensures abc[j] == Last3(toks, pos, j)
    {
      Last3Step(toks, 0, j);
    }
    var n := Trunc(abc[0]);
    assert |toks| == 0 || n == Trunc(toks[0]);
    ops := [];
    var v := 0;
    while v < n
      invariant 0 <= v && (v <= n || v == 0)
      invariant pos == Min(3 + 3 * v, |toks|) && |abc| == 3
      invariant forall j :: 0 <= j < 3 ==> abc[j] == Last3(toks, pos, j)
      invariant |ops| == v && forall u :: 0 <= u < v ==> ops[u] == AddV(OffPoint(toks, u))
    {
      forall j | 0 <= j < 3
        ensures Scan(toks, pos, abc)[j] == Last3(toks, Min(pos + 3, |toks|), j)
      {
        Last3Step(toks, pos, j);
      }
      abc := Scan(toks, pos, abc);
      pos := Min(pos + 3, |toks|);
      ops := ops + [AddV(Point(abc[0], abc[1], abc[2]))];
      v := v + 1;
    }
  }

  /** The face part of the OFF reader: four-number reads from the face start
      until the input is exhausted. */
  method ScanFaces(toks: seq<real>, start: nat, abc: seq<real>) returns (ops: seq<Op>)
    requires start == Min(FaceStart(toks), |toks|) && |abc| == 3
    requires start < |toks| ==> forall j :: 0 <= j < 3 ==> abc[j] == toks[start - 3 + j]
    ensures |ops| == OffFaceCount(toks) && forall t :: 0 <= t < |ops| ==> ops[t] == AddF(OffFace(toks, t))
  {
    ghost var f := FaceStart(toks);
    var pos := start;
    var dabc := [0.0] + abc;
    var t := 0;
    ops := [];
    while pos < |toks|
      invariant f <= |toks| ==> pos == Min(f + 4 * t, |toks|)
      invariant f > |toks| ==> pos == |toks| && t == 0
      invariant t > 0 ==> f + 4 * (t - 1) < |toks|
      invariant |dabc| == 4
      invariant pos < |toks| ==> forall j :: 1 <= j <= 3 ==> dabc[j] == toks[pos + j - 4]
      invariant t <= OffFaceCount(toks)
      invariant |ops| == t && forall i :: 0 <= i < t ==> ops[i] == AddF(OffFace(toks, i))
    {
      dabc := Scan(toks, pos, dabc);
      assert forall j :: 1 <= j <= 3 ==> dabc[j] == OffField(toks, t, j);
      pos := Min(pos + 4, |toks|);
      ops := ops + [AddF(Corners(Trunc(dabc[1]), Trunc(dabc[2]), Trunc(dabc[3])))];
      t := t + 1;
    }
  }

  /** The OFF reader as the source runs it: one read of the counts line, one
      read per announced vertex, then reads of four numbers until the input
      is exhausted, each read keeping stale values for what is missing. */
  method ScanOff(toks: seq<real>) returns (ops: seq<Op>)
    ensures ops == OffRead(toks)
  {
    var vs, pos, abc := ScanVertices(toks);
    if pos < |toks| {
      forall j | 0 <= j < 3
        ensures abc[j] == toks[pos - 3 + j]
      {
        Last3AtBoundary(toks, pos, j);
      }
    }
    var fs := ScanFaces(toks, pos, abc);
    ops := vs + fs;
  }

  /** Loads an OFF file onto `m`. A file that cannot be opened leaves `m` as it
      is; otherwise `m` is cleared and the records replayed. The format word
      is not checked and the reader never clears `interior` flags. */
  method LoadOff(file: Option<seq<real>>, m: Mesh, dist: Metric) returns (r: Loaded)
    ensures file.None? ==> r == Loaded(m, FileError)
    ensures file.Some? ==> Outcome(OffRead(file.value), false, r)
  {
    if file.None? {
      return Loaded(m, FileError);
    }
    var ops := ScanOff(file.value);
    r := Replay(ops, false, dist);
  }

  // ---------------------------------------------------------------------------
  // Files written vertex section first

  lemma TruncOfInt(n: int)
    ensures Trunc(n as real) == n
  {
  }

  /** An OBJ file listing `pts` as 'v' lines and then `faces` as 'f' lines
      with 1-based corner numbers. */
  function ObjText(pts: seq<Point>, faces: seq<Corners>): (lines: seq<ObjLine>)
    ensures |lines| == |pts| + |faces|
    ensures forall i :: 0 <= i < |pts| ==> lines[i] == ObjLine('v', pts[i].x, pts[i].y, pts[i].z)
    ensures forall t :: 0 <= t < |faces| ==>
      lines[|pts| + t] == ObjLine('f', (faces[t].a + 1) as real, (faces[t].b + 1) as real, (faces[t].c + 1) as real)
  {
    seq(|pts|, i requires 0 <= i < |pts| => ObjLine('v', pts[i].x, pts[i].y, pts[i].z))
    + seq(|faces|, t requires 0 <= t < |faces| =>
        ObjLine('f', (faces[t].a + 1) as real, (faces[t].b + 1) as real, (faces[t].c + 1) as real))
  }

  /** Line `i` of such a file reads back as record `i`. */
  lemma ObjLineBack(pts: seq<Point>, faces: seq<Corners>, i: nat)
    requires i < |pts| + |faces|
    ensures ObjOp(ObjText(pts, faces)[i]) == Trace(pts, faces)[i]
  {
    if |pts| <= i {
      var f := faces[i - |pts|];
      TruncOfInt(f.a + 1);
      TruncOfInt(f.b + 1);
      TruncOfInt(f.c + 1);
    }
  }

  /** The OBJ reader reads such a file back as its points and faces: the
      1-based numbers written come back as the 0-based indices. */
  lemma ObjRoundTrip(pts: seq<Point>, faces: seq<Corners>)
    ensures ObjOps(ObjText(pts, faces)) == Trace(pts, faces)
  {
    var ops := ObjOps(ObjText(pts, faces));
    var tr := Trace(pts, faces);
    forall i | 0 <= i < |ops|
      ensures ops[i] == tr[i]
    {
      ObjLineBack(pts, faces, i);
    }
  }

  function Coord(p: Point, j: nat): real {
    if j == 0 then p.x else if j == 1 then p.y else p.z
  }

  /** The four numbers of a face line: the corner count 3, then the indices. */
  function FaceNumber(f: Corners, j: nat): real {
    if j == 0 then 3.0 else if j == 1 then f.a as real else if j == 2 then f.b as real else f.c as real
  }

  /** The numbers of an OFF file with counts line |pts| |faces| 0, one line
      per point and one line per face. */
  function OffText(pts: seq<Point>, faces: seq<Corners>): (toks: seq<real>)
    ensures |toks| == 3 + 3 * |pts| + 4 * |faces|
  {
    [|pts| as real, |faces| as real, 0.0]
    + seq(3 * |pts|, i requires 0 <= i < 3 * |pts| => Coord(pts[i / 3], i % 3))
    + seq(4 * |faces|, i requires 0 <= i < 4 * |faces| => FaceNumber(faces[i / 4], i % 4))
  }

  lemma OffTextCounts(pts: seq<Point>, faces: seq<Corners>)
    ensures var toks := OffText(pts, faces);
      OffCount(toks) == |pts| && FaceStart(toks) == 3 + 3 * |pts| && OffFaceCount(toks) == |faces|
  {
    var toks := OffText(pts, faces);
    assert toks[0] == |pts| as real;
    TruncOfInt(|pts|);
  }

  lemma OffTextCoord(pts: seq<Point>, faces: seq<Corners>, u: nat, j: nat)
    requires u < |pts| && j < 3
    ensures OffText(pts, faces)[3 + 3 * u + j] == Coord(pts[u], j)
  {
    var k := 3 * u + j;
    assert k / 3 == u && k % 3 == j;
  }

  lemma OffTextFace(pts: seq<Point>, faces: seq<Corners>, t: nat, j: nat)
    requires t < |faces| && j < 4
    ensures OffText(pts, faces)[3 + 3 * |pts| + 4 * t + j] == FaceNumber(faces[t], j)
  {
    var k := 4 * t + j;
    assert k / 4 == t && k % 4 == j;
  }

  lemma OffPointsBack(pts: seq<Point>, faces: seq<Corners>, u: nat)
    requires u < |pts|
    ensures OffPoint(OffText(pts, faces), u) == pts[u]
  {
    var toks := OffText(pts, faces);
    var e := 6 + 3 * u;
    assert 3 * u + 3 <= 3 * |pts|;
    assert Min(e, |toks|) == e;
    Last3AtBoundary(toks, e, 0);
    Last3AtBoundary(toks, e, 1);
    Last3AtBoundary(toks, e, 2);
    OffTextCoord(pts, faces, u, 0);
    OffTextCoord(pts, faces, u, 1);
    OffTextCoord(pts, faces, u, 2);
    assert Last3(toks, e, 0) == pts[u].x && Last3(toks, e, 1) == pts[u].y && Last3(toks, e, 2) == pts[u].z;
  }

  lemma OffFacesBack(pts: seq<Point>, faces: seq<Corners>, t: nat)
    requires t < |faces|
    ensures OffFaceCount(OffText(pts, faces)) == |faces|
    ensures OffFace(OffText(pts, faces), t) == faces[t]
  {
    var toks := OffText(pts, faces);
    OffTextCounts(pts, faces);
    OffTextFace(pts, faces, t, 1);
    OffTextFace(pts, faces, t, 2);
    OffTextFace(pts, faces, t, 3);
    TruncOfInt(faces[t].a);
    TruncOfInt(faces[t].b);
    TruncOfInt(faces[t].c);
  }

  /** The OFF reader reads such a file back as its points and faces. */
  lemma OffRoundTrip(pts: seq<Point>, faces: seq<Corners>)
    ensures OffRead(OffText(pts, faces)) == Trace(pts, faces)
  {
    var toks := OffText(pts, faces);
    OffTextCounts(pts, faces);
    var ops := OffRead(toks);
    var tr := Trace(pts, faces);
    forall i | 0 <= i < |ops|
      ensures ops[i] == tr[i]
    {
      if i < |pts| {
        OffPointsBack(pts, faces, i);
      } else {
        OffFacesBack(pts, faces, i - |pts|);
      }
    }
  }

  // ---------------------------------------------------------------------------
  // Dispatch

  /** A file's contents as each reader would scan them. */
  datatype FileText = FileText(asObj: seq<ObjLine>, asOff: seq<real>)

  /** Loads by file extension: "obj" and "off" go to their readers, any other
      extension is refused with `InvalidOperation` and leaves `m` as it is. */
  method Load(ext: string, file: Option<FileText>, m: Mesh, dist: Metric) returns (r: Loaded)
    ensures ext != "obj" && ext != "off" ==> r == Loaded(m, InvalidOperation)
    ensures (ext == "obj" || ext == "off") && file.None? ==> r == Loaded(m, FileError)
    ensures ext == "obj" && file.Some? ==> Outcome(ObjOps(file.value.asObj), true, r)
    ensures ext == "off" && file.Some? ==> Outcome(OffRead(file.value.asOff), false, r)
  {
    if ext == "obj" {
      r := LoadObj(if file.Some? then Some(file.value.asObj) else None, m, dist);
    } else if ext == "off" {
      r := LoadOff(if file.Some? then Some(file.value.asOff) else None, m, dist);
    } else {
      r := Loaded(m, InvalidOperation);
    }
  }
}
