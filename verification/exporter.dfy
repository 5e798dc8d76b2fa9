/**
  Writing a mesh as an ASCII PLY document with an optional per-vertex scalar
  field rendered as colours. The document is modelled by its content (counts,
  rows); the text formatting and the file itself are not.
 */
module Exporter {
  import opened Wrappers
  import opened MeshModel
  import opened Construction

  /** An 8-bit-per-channel colour. */
  datatype Rgb = Rgb(r: nat, g: nat, b: nat)

  /** The colour service: maps a scalar to a colour for a given scale. It is
      outside this model and appears as a parameter. */
  type Palette = (real, real) -> Rgb

  /** One vertex line: the position, then a colour when a scalar field is given. */
  datatype VertexRow = VertexRow(p: Point, color: Option<Rgb>)

  /** A PLY document: the counts its header declares, whether the header
      declares the three colour properties, the vertex lines and the face
      lines (each written as "3" and the triangle's corners in order). */
  datatype Ply = Ply(
    vertexCount: nat,
    faceCount: nat,
    declaresColor: bool,
    vertexRows: seq<VertexRow>,
    faceRows: seq<Corners>)

  /** The scalar array must be empty or hold one value per vertex. */
  predicate MagnitudesFit(m: Mesh, mags: seq<real>) {
    |mags| == 0 || |mags| == |m.verts|
  }

  /** Every vertex line carries a colour exactly when the header declares the
      colour properties, so that a reader finds as many values per line as
      the header announces. */
  predicate HeaderMatchesRows(p: Ply) {
    forall v :: 0 <= v < |p.vertexRows| ==> (p.vertexRows[v].color.Some? <==> p.declaresColor)
  }

  /** The document for `m`: one line per vertex, coloured through `palette`
      at scale 1/|verts| when a scalar field is given, and one line per
      triangle. Whether the header declares colours is the caller's choice. */
  function Document(m: Mesh, mags: seq<real>, palette: Palette, declaresColor: bool): (p: Ply)
    requires MagnitudesFit(m, mags)
    ensures p.vertexCount == |p.vertexRows| == |m.verts|
    ensures p.faceCount == |p.faceRows| == |m.tris|
    ensures p.declaresColor == declaresColor
    ensures forall v :: 0 <= v < |m.verts| ==>
      && p.vertexRows[v].p == m.verts[v].coords
      && (|mags| == 0 ==> p.vertexRows[v].color.None?)
      && (|mags| > 0 ==> p.vertexRows[v].color == Some(palette(1.0 / (|m.verts| as real), mags[v])))
    ensures forall t :: 0 <= t < |m.tris| ==> p.faceRows[t] == CornersOf(m.tris[t])
    // the header is consistent with the lines exactly when it declares
    // colours just when they are written (or there are no vertex lines)
    ensures HeaderMatchesRows(p) <==> (declaresColor <==> |mags| > 0) || |m.verts| == 0
  {
    var scale := if |m.verts| == 0 then 0.0 else 1.0 / (|m.verts| as real);
    var p := Ply(
      |m.verts|,
      |m.tris|,
      declaresColor,
      seq(|m.verts|, v requires 0 <= v < |m.verts| =>
        VertexRow(m.verts[v].coords, if |mags| > 0 then Some(palette(scale, mags[v])) else None)),
      seq(|m.tris|, t requires 0 <= t < |m.tris| => CornersOf(m.tris[t])));
    assert |m.verts| > 0 ==> (p.vertexRows[0].color.Some? <==> |mags| > 0);
    p
  }

  /** Saves `m` as PLY, as written: a scalar array of the wrong length is
      refused with `InvalidArguments` before anything is opened; a file that
      cannot be opened for writing gives `FileError`; the header always
      declares the three colour properties. */
  function SavePly(m: Mesh, mags: seq<real>, writable: bool, palette: Palette): (r: Result<Ply, Status>)
    ensures r == Failure(InvalidArguments) <==> !MagnitudesFit(m, mags)
    ensures r == Failure(FileError) <==> MagnitudesFit(m, mags) && !writable
    ensures r.Success? <==> MagnitudesFit(m, mags) && writable
    ensures r.Success? ==> r.value == Document(m, mags, palette, true)
  {
    if !MagnitudesFit(m, mags) then Failure(InvalidArguments)
    else if !writable then Failure(FileError)
    else Success(Document(m, mags, palette, true))
  }

  /** Without a scalar field, the header written by `SavePly` declares colour
      properties that no vertex line carries. */
  lemma UncoloredHeaderMismatch(m: Mesh, palette: Palette)
    requires |m.verts| > 0
    ensures SavePly(m, [], true, palette).Success?
    ensures !HeaderMatchesRows(SavePly(m, [], true, palette).value)
  {
    var p := SavePly(m, [], true, palette).value;
    assert p.vertexRows[0].color.None? && p.declaresColor;
  }

  /** Saves `m` as PLY with the colour properties declared only when a scalar
      field is written; otherwise as `SavePly`. */
  function SavePlyCorrected(m: Mesh, mags: seq<real>, writable: bool, palette: Palette): (r: Result<Ply, Status>)
    ensures r == Failure(InvalidArguments) <==> !MagnitudesFit(m, mags)
    ensures r == Failure(FileError) <==> MagnitudesFit(m, mags) && !writable
    ensures r.Success? <==> MagnitudesFit(m, mags) && writable
    ensures r.Success? ==> HeaderMatchesRows(r.value)
    ensures r.Success? ==> r.value == Document(m, mags, palette, |mags| > 0)
    ensures r.Success? && |mags| > 0 ==> r == SavePly(m, mags, writable, palette)
  {
    if !MagnitudesFit(m, mags) then Failure(InvalidArguments)
    else if !writable then Failure(FileError)
    else Success(Document(m, mags, palette, |mags| > 0))
  }

  /** Saves by file extension: only "ply" is supported, and it goes to the
      PLY writer as written. */
  function Save(ext: string, m: Mesh, mags: seq<real>, writable: bool, palette: Palette): (r: Result<Ply, Status>)
    ensures ext != "ply" ==> r == Failure(InvalidOperation)
    ensures ext == "ply" ==> r == SavePly(m, mags, writable, palette)
  {
    if ext == "ply" then SavePly(m, mags, writable, palette) else Failure(InvalidOperation)
  }

  /** The extension dispatch over the corrected PLY writer. */
  function SaveCorrected(ext: string, m: Mesh, mags: seq<real>, writable: bool, palette: Palette): (r: Result<Ply, Status>)
    ensures ext != "ply" ==> r == Failure(InvalidOperation)
    ensures ext == "ply" ==> r == SavePlyCorrected(m, mags, writable, palette)
    ensures r.Success? ==> HeaderMatchesRows(r.value)
  {
    if ext == "ply" then SavePlyCorrected(m, mags, writable, palette) else Failure(InvalidOperation)
  }

  /** The two dispatches differ only in the header of a successful save
      without a scalar field: the error cases agree, and so do saves with one. */
  lemma SaveAgreesWithCorrected(ext: string, m: Mesh, mags: seq<real>, writable: bool, palette: Palette)
    ensures Save(ext, m, mags, writable, palette).Failure? <==> SaveCorrected(ext, m, mags, writable, palette).Failure?
    ensures Save(ext, m, mags, writable, palette).Failure? ==>
      Save(ext, m, mags, writable, palette) == SaveCorrected(ext, m, mags, writable, palette)
    ensures |mags| > 0 ==> Save(ext, m, mags, writable, palette) == SaveCorrected(ext, m, mags, writable, palette)
    ensures |mags| == 0 && |m.verts| > 0 && Save(ext, m, mags, writable, palette).Success? ==>
      && Save(ext, m, mags, writable, palette).value.declaresColor
      && !HeaderMatchesRows(Save(ext, m, mags, writable, palette).value)
      && !SaveCorrected(ext, m, mags, writable, palette).value.declaresColor
  {
    if |mags| == 0 && |m.verts| > 0 && ext == "ply" && writable {
      UncoloredHeaderMismatch(m, palette);
    }
  }
}
