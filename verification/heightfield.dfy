/**
  Integer indexing of a heightfield: a grid of `rows x cols` height samples
  split into `(rows-1) x (cols-1)` cells, each cell split into a left and a
  right triangle along one of its diagonals.  Only the index arithmetic is
  modelled: the height values, the scale and all floating-point geometry are
  not, so a triangle is the three grid corners it connects.
 */
module HeightFields {
  import opened Sequences
  import opened Wrappers

  /* ---------------------------------------------------------------------- */
  /* Cell status flags (an 8-bit set).                                        */
  /* ---------------------------------------------------------------------- */

  type CellStatus = bv8

  const ZIGZAG_SUBDIVISION: CellStatus := 1
  const LEFT_TRIANGLE_REMOVED: CellStatus := 2
  const RIGHT_TRIANGLE_REMOVED: CellStatus := 4
  const CELL_REMOVED: CellStatus := LEFT_TRIANGLE_REMOVED | RIGHT_TRIANGLE_REMOVED

  /** `s` holds every flag of `flags`. */
  predicate Contains(s: CellStatus, flags: CellStatus) {
    s & flags == flags
  }

  /** The removal flag is exactly the union of the two triangle flags, and a
      status holds it iff it holds both of them. */
  lemma CellRemovedIsBothTriangles(s: CellStatus)
    ensures CELL_REMOVED == 6
    ensures Contains(s, CELL_REMOVED)
        <==> Contains(s, LEFT_TRIANGLE_REMOVED) && Contains(s, RIGHT_TRIANGLE_REMOVED)
  {
  }

  /* ---------------------------------------------------------------------- */
  /* The heightfield record.                                                  */
  /* ---------------------------------------------------------------------- */

  /** `heightRows` and `heightCols` are the dimensions of the height matrix;
      `status[i][j]` is the status of cell `(i, j)`. */
  datatype HeightField = HeightField(
    heightRows: nat,
    heightCols: nat,
    numTriangles: nat,
    status: seq<seq<CellStatus>>)

  /** A grid corner: row index and column index into the height matrix. */
  datatype Corner = Corner(row: nat, col: nat)

  /** A triangle, as the three grid corners it connects, in order. */
  datatype Triangle = Triangle(a: Corner, b: Corner, c: Corner)

  /** Triangle-local feature ids and heightfield-global feature ids. */
  datatype FeatureId = Vertex(v: nat) | Edge(e: nat) | Face(f: nat) | Unknown

  /* ---------------------------------------------------------------------- */
  /* Column-major sizes.                                                      */
  /* ---------------------------------------------------------------------- */

  /** `j` whole columns of `w` entries each, that is `j * w`, counted one
      column at a time.  Every size and index below is written with it, which
      keeps their arithmetic linear; `ColumnsIsProduct` ties it to the
      product. */
  function Columns(j: nat, w: nat): nat
  {
    if j == 0 then 0 else Columns(j - 1, w) + w
  }

  lemma {:induction false} ColumnsIsProduct(j: nat, w: nat)
    ensures Columns(j, w) == j * w
    decreases j
  {
    if j > 0 {
      ColumnsIsProduct(j - 1, w);
    }
  }

  /** More columns hold more entries. */
  lemma {:induction false} ColumnsMonotone(j1: nat, j2: nat, w: nat)
    requires j1 <= j2
    ensures Columns(j1, w) <= Columns(j2, w)
    decreases j2 - j1
  {
    if j1 < j2 {
      ColumnsMonotone(j1, j2 - 1, w);
    }
  }

  /** Number of cells: `(rows - 1) * (cols - 1)`. */
  function NumCells(hf: HeightField): nat
    requires hf.heightRows >= 1 && hf.heightCols >= 1
  {
    Columns(hf.heightCols - 1, hf.heightRows - 1)
  }

  /** Number of grid vertices: `rows * cols`. */
  function NumVertices(hf: HeightField): nat
  {
    Columns(hf.heightCols, hf.heightRows)
  }

  /** The shape every heightfield built by `New` keeps. */
  ghost predicate Valid(hf: HeightField) {
    && hf.heightRows >= 2
    && hf.heightCols >= 2
    && hf.numTriangles == 2 * NumCells(hf)
    && |hf.status| == hf.heightRows - 1
    && forall i :: 0 <= i < |hf.status| ==> |hf.status[i]| == hf.heightCols - 1
  }

  /** A `rows x cols` grid holding `s` everywhere. */
  function Grid(rows: nat, cols: nat, s: CellStatus): (g: seq<seq<CellStatus>>)
    ensures |g| == rows
    ensures forall i :: 0 <= i < rows ==> |g[i]| == cols
    ensures forall i, j :: 0 <= i < rows && 0 <= j < cols ==> g[i][j] == s
  {
    seq(rows, _ => seq(cols, _ => s))
  }

  /** Builds a heightfield over a `rows x cols` height matrix.  Fewer than two
      rows or columns is refused: construction fails with an assertion. */
  function New(rows: nat, cols: nat): (r: Option<HeightField>)
    ensures r.Some? <==> rows >= 2 && cols >= 2
    ensures r.Some? ==> Valid(r.value)
    ensures r.Some? ==> r.value.heightRows == rows && r.value.heightCols == cols
    ensures r.Some? ==> r.value.numTriangles == 2 * NRows(r.value) * NCols(r.value)
    ensures r.Some? ==> forall i, j :: 0 <= i < rows - 1 && 0 <= j < cols - 1 ==>
                          r.value.status[i][j] == 0
  {
    if rows > 1 && cols > 1 then
      ColumnsIsProduct(cols - 1, rows - 1);
      Some(HeightField(rows, cols, (rows - 1) * (cols - 1) * 2, Grid(rows - 1, cols - 1, 0)))
    else
      None
  }

  /** Number of cell rows. */
  function NRows(hf: HeightField): (r: nat)
    requires Valid(hf)
    ensures r >= 1 && r == |hf.status|
    ensures hf.numTriangles == 2 * Columns(hf.heightCols - 1, r)
  {
    hf.heightRows - 1
  }

  /** Number of cell columns. */
  function NCols(hf: HeightField): (r: nat)
    requires Valid(hf)
    ensures r >= 1 && forall i :: 0 <= i < |hf.status| ==> |hf.status[i]| == r
    ensures hf.numTriangles == 2 * Columns(r, hf.heightRows - 1)
  {
    hf.heightCols - 1
  }

  /** The cell `(i, j)` exists. */
  predicate InCell(hf: HeightField, i: nat, j: nat)
    requires Valid(hf)
  {
    i < NRows(hf) && j < NCols(hf)
  }

  /* ---------------------------------------------------------------------- */
  /* Index arithmetic helpers.                                                */
  /* ---------------------------------------------------------------------- */

  /** `i + j * w` enumerates a `w x h` grid without gaps. */
  lemma {:induction false} GridIndexBound(i: nat, j: nat, w: nat, h: nat)
    requires i < w && j < h
    ensures Index(i, j, w) < Columns(h, w)
  {
    ColumnsMonotone(j + 1, h, w);
  }

  /** `i + j * w` determines `i` and `j` when `i < w`. */
  lemma GridIndexInjective(i1: nat, j1: nat, i2: nat, j2: nat, w: nat)
    requires i1 < w && i2 < w
    requires Index(i1, j1, w) == Index(i2, j2, w)
    ensures i1 == i2 && j1 == j2
  {
    if j1 < j2 {
      GridIndexStrict(i1, j1, i2, j2, w);
      assert false;
    } else if j2 < j1 {
      GridIndexStrict(i2, j2, i1, j1, w);
      assert false;
    }
  }

  /** A later column always comes after every index of an earlier column. */
  lemma GridIndexStrict(i1: nat, j1: nat, i2: nat, j2: nat, w: nat)
    requires i1 < w && j1 < j2
    ensures Index(i1, j1, w) < Index(i2, j2, w)
  {
    ColumnsMonotone(j1 + 1, j2, w);
  }

  /* ---------------------------------------------------------------------- */
  /* Triangle and face numbering.                                             */
  /* ---------------------------------------------------------------------- */

  /** `i + j * w`: the column-major index of `(i, j)` in a grid of height `w`. */
  function Index(i: nat, j: nat, w: nat): nat {
    i + Columns(j, w)
  }

  /** Left triangles are numbered column-major over the cells; right triangles
      follow them. */
  function TriangleId(hf: HeightField, i: nat, j: nat, left: bool): (r: nat)
    requires Valid(hf)
    ensures InCell(hf, i, j) ==> (left <==> r < hf.numTriangles / 2)
  {
    var tid := Index(i, j, hf.heightRows - 1);
    assert InCell(hf, i, j) ==> tid < hf.numTriangles / 2 by {
      if InCell(hf, i, j) {
        GridIndexBound(i, j, NRows(hf), NCols(hf));
      }
    }
    if left then tid else tid + hf.numTriangles / 2
  }

  /** Back faces are numbered after all front faces. */
  function FaceId(hf: HeightField, i: nat, j: nat, left: bool, front: bool): (r: nat)
    requires Valid(hf)
    ensures InCell(hf, i, j) ==> (front <==> r < hf.numTriangles)
  {
    var tid := TriangleId(hf, i, j, left);
    assert InCell(hf, i, j) ==> tid < hf.numTriangles by {
      if InCell(hf, i, j) {
        GridIndexBound(i, j, NRows(hf), NCols(hf));
      }
    }
    if front then tid else tid + hf.numTriangles
  }

  /** Left triangles of existing cells take `[0, n/2)`, right ones `[n/2, n)`. */
  lemma TriangleIdRange(hf: HeightField, i: nat, j: nat, left: bool)
    requires Valid(hf) && InCell(hf, i, j)
    ensures left ==> TriangleId(hf, i, j, left) < hf.numTriangles / 2
    ensures !left ==> hf.numTriangles / 2 <= TriangleId(hf, i, j, left) < hf.numTriangles
  {
    GridIndexBound(i, j, NRows(hf), NCols(hf));
  }

  /** Distinct triangles of existing cells get distinct ids. */
  lemma TriangleIdInjective(hf: HeightField, i1: nat, j1: nat, l1: bool, i2: nat, j2: nat, l2: bool)
    requires Valid(hf) && InCell(hf, i1, j1) && InCell(hf, i2, j2)
    requires TriangleId(hf, i1, j1, l1) == TriangleId(hf, i2, j2, l2)
    ensures i1 == i2 && j1 == j2 && l1 == l2
  {
    TriangleIdRange(hf, i1, j1, l1);
    TriangleIdRange(hf, i2, j2, l2);
    assert l1 == l2;
    GridIndexInjective(i1, j1, i2, j2, NRows(hf));
  }

  /** Front faces take `[0, n)` and back faces `[n, 2n)`, so the two sides of
      one triangle never share an id, and every face id names one side of one
      triangle. */
  lemma FaceIdRange(hf: HeightField, i: nat, j: nat, left: bool, front: bool)
    requires Valid(hf) && InCell(hf, i, j)
    ensures front ==> FaceId(hf, i, j, left, front) == TriangleId(hf, i, j, left) < hf.numTriangles
    ensures !front ==> FaceId(hf, i, j, left, front) == TriangleId(hf, i, j, left) + hf.numTriangles
    ensures !front ==> hf.numTriangles <= FaceId(hf, i, j, left, front) < 2 * hf.numTriangles
  {
    TriangleIdRange(hf, i, j, left);
  }

  /** Distinct faces of existing cells get distinct ids. */
  lemma FaceIdInjective(hf: HeightField, i1: nat, j1: nat, l1: bool, f1: bool,
                                         i2: nat, j2: nat, l2: bool, f2: bool)
    requires Valid(hf) && InCell(hf, i1, j1) && InCell(hf, i2, j2)
    requires FaceId(hf, i1, j1, l1, f1) == FaceId(hf, i2, j2, l2, f2)
    ensures i1 == i2 && j1 == j2 && l1 == l2 && f1 == f2
  {
    FaceIdRange(hf, i1, j1, l1, f1);
    FaceIdRange(hf, i2, j2, l2, f2);
    assert f1 == f2;
    TriangleIdInjective(hf, i1, j1, l1, i2, j2, l2);
  }

  /* ---------------------------------------------------------------------- */
  /* Cell statuses and the triangles of a cell.                               */
  /* ---------------------------------------------------------------------- */

  function CellStatusAt(hf: HeightField, i: nat, j: nat): CellStatus
    requires Valid(hf) && InCell(hf, i, j)
  {
    hf.status[i][j]
  }

  /** Writing back the status just read leaves the heightfield as it was. */
  lemma CellStatusRoundTrip(hf: HeightField, i: nat, j: nat)
    requires Valid(hf) && InCell(hf, i, j)
    ensures SetCellStatus(hf, i, j, CellStatusAt(hf, i, j)) == hf
  {
    assert hf.status[i][j := hf.status[i][j]] == hf.status[i];
    assert hf.status[i := hf.status[i]] == hf.status;
  }

  /** Replaces the status of cell `(i, j)`. */
  function SetCellStatus(hf: HeightField, i: nat, j: nat, s: CellStatus): (r: HeightField)
    requires Valid(hf) && InCell(hf, i, j)
    ensures Valid(r)
    ensures r.heightRows == hf.heightRows && r.heightCols == hf.heightCols
    ensures r.numTriangles == hf.numTriangles
    ensures CellStatusAt(r, i, j) == s
    ensures forall i': nat, j': nat :: InCell(hf, i', j') && (i', j') != (i, j) ==>
              CellStatusAt(r, i', j') == CellStatusAt(hf, i', j')
  {
    hf.(status := hf.status[i := hf.status[i][j := s]])
  }

  /** The corners of cell `(i, j)`: `(i + di, j + dj)`. */
  function P00(i: nat, j: nat): Corner { Corner(i, j) }
  function P10(i: nat, j: nat): Corner { Corner(i + 1, j) }
  function P01(i: nat, j: nat): Corner { Corner(i, j + 1) }
  function P11(i: nat, j: nat): Corner { Corner(i + 1, j + 1) }

  /** The left or right triangle of cell `(i, j)`, split along `p00-p11`
      when `zigzag`, along `p10-p01` otherwise. */
  function CellTriangle(i: nat, j: nat, zigzag: bool, left: bool): Triangle {
    if zigzag then
      if left then Triangle(P00(i, j), P10(i, j), P11(i, j))
      else Triangle(P00(i, j), P11(i, j), P01(i, j))
    else
      if left then Triangle(P00(i, j), P10(i, j), P01(i, j))
      else Triangle(P10(i, j), P11(i, j), P01(i, j))
  }

  /** Corner `v` (0, 1 or 2) of a triangle. */
  function CornerOf(t: Triangle, v: nat): Corner
    requires v < 3
  {
    if v == 0 then t.a else if v == 1 then t.b else t.c
  }

  /** `c` is one of the four corners of cell `(i, j)`. */
  predicate IsCellCorner(c: Corner, i: nat, j: nat) {
    (c.row == i || c.row == i + 1) && (c.col == j || c.col == j + 1)
  }

  /** The two existing triangles of a cell, `None` where removed. */
  function TrianglesAt(hf: HeightField, i: nat, j: nat): (r: (Option<Triangle>, Option<Triangle>))
    requires Valid(hf) && InCell(hf, i, j)
    ensures Contains(CellStatusAt(hf, i, j), CELL_REMOVED) ==> r.0.None? && r.1.None?
    ensures r.0.None? <==> Contains(CellStatusAt(hf, i, j), LEFT_TRIANGLE_REMOVED)
    ensures r.1.None? <==> Contains(CellStatusAt(hf, i, j), RIGHT_TRIANGLE_REMOVED)
    ensures r.0.Some? ==> r.0.value == CellTriangle(i, j, Contains(CellStatusAt(hf, i, j), ZIGZAG_SUBDIVISION), true)
    ensures r.1.Some? ==> r.1.value == CellTriangle(i, j, Contains(CellStatusAt(hf, i, j), ZIGZAG_SUBDIVISION), false)
  {
    var status := hf.status[i][j];
    if Contains(status, LEFT_TRIANGLE_REMOVED | RIGHT_TRIANGLE_REMOVED) then
      (None, None)
    else
      var zigzag := Contains(status, ZIGZAG_SUBDIVISION);
      var tri1 := if Contains(status, LEFT_TRIANGLE_REMOVED) then None else Some(CellTriangle(i, j, zigzag, true));
      var tri2 := if Contains(status, RIGHT_TRIANGLE_REMOVED) then None else Some(CellTriangle(i, j, zigzag, false));
      (tri1, tri2)
  }

  /** Each triangle of a cell connects three distinct corners of that cell; the
      two triangles share exactly the diagonal, which is `p00-p11` under the
      zigzag split and `p10-p01` otherwise; together they cover all four
      corners. */
  lemma CellTrianglesTileCell(i: nat, j: nat, zigzag: bool)
    ensures forall left: bool, v :: 0 <= v < 3 ==> IsCellCorner(CornerOf(CellTriangle(i, j, zigzag, left), v), i, j)
    ensures forall left: bool, v, w :: 0 <= v < w < 3 ==>
              CornerOf(CellTriangle(i, j, zigzag, left), v) != CornerOf(CellTriangle(i, j, zigzag, left), w)
    ensures var l := CellTriangle(i, j, zigzag, true);
            var r := CellTriangle(i, j, zigzag, false);
            var diag := if zigzag then {P00(i, j), P11(i, j)} else {P10(i, j), P01(i, j)};
            && {l.a, l.b, l.c} * {r.a, r.b, r.c} == diag
            && {l.a, l.b, l.c} + {r.a, r.b, r.c} == {P00(i, j), P10(i, j), P01(i, j), P11(i, j)}
  {
  }

  /* ---------------------------------------------------------------------- */
  /* Global feature ids.                                                      */
  /* ---------------------------------------------------------------------- */

  /** Id of a grid vertex: column-major index into the height matrix. */
  function VertexIdOf(hf: HeightField, c: Corner): nat {
    Index(c.row, c.col, hf.heightRows)
  }

  /** First horizontal-edge id: after the `(rows-1) * cols` vertical edges. */
  function HShift(hf: HeightField): nat
    requires Valid(hf)
  {
    Columns(hf.heightCols, hf.heightRows - 1)
  }

  /** First diagonal-edge id: after the `rows * (cols-1)` horizontal edges. */
  function DShift(hf: HeightField): nat
    requires Valid(hf)
  {
    HShift(hf) + Columns(hf.heightCols - 1, hf.heightRows)
  }

  /** Reference numbering of grid edges: a vertical edge (one row step) is
      numbered column-major among vertical edges, a horizontal edge (one column
      step) after them, and a cell diagonal (either one) by its cell after all
      horizontal edges.  `None` for two corners that are not adjacent. */
  function EdgeIdOf(hf: HeightField, a: Corner, b: Corner): Option<nat>
    requires Valid(hf)
  {
    var r := if a.row <= b.row then a.row else b.row;
    var c := if a.col <= b.col then a.col else b.col;
    var dr := if a.row <= b.row then b.row - a.row else a.row - b.row;
    var dc := if a.col <= b.col then b.col - a.col else a.col - b.col;
    if dr == 1 && dc == 0 then Some(Index(r, c, hf.heightRows - 1))
    else if dr == 0 && dc == 1 then Some(HShift(hf) + Index(r, c, hf.heightRows))
    else if dr == 1 && dc == 1 then Some(DShift(hf) + Index(r, c, hf.heightRows - 1))
    else None
  }

  /** A triangle-local feature id this conversion accepts: vertex and edge
      ids pick one of three entries, so only 0, 1 and 2 are valid. */
  predicate LocalFeature(fid: FeatureId) {
    match fid
    case Vertex(v) => v < 3
    case Edge(e) => e < 3
    case _ => true
  }

  /** Converts a feature id local to the left or right triangle of cell
      `(i, j)` into a heightfield-global one. */
  function ConvertTriangleFeatureId(hf: HeightField, i: nat, j: nat, left: bool, fid: FeatureId): (r: FeatureId)
    requires Valid(hf) && LocalFeature(fid)
    requires (fid.Vertex? || fid.Edge?) ==> InCell(hf, i, j)
    ensures r.Vertex? <==> fid.Vertex?
    ensures r.Edge? <==> fid.Edge?
    ensures r.Face? <==> fid.Face?
    ensures fid.Face? && InCell(hf, i, j) ==> (fid.f == 0 <==> r.f < hf.numTriangles)
  {
    match fid
    case Vertex(ivertex) =>
      var nrows := hf.heightRows;
      var ij := Index(i, j, nrows);
      if Contains(hf.status[i][j], ZIGZAG_SUBDIVISION) then
        if left then Vertex([ij, ij + 1, ij + 1 + nrows][ivertex])
        else Vertex([ij, ij + 1 + nrows, ij + nrows][ivertex])
      else
        if left then Vertex([ij, ij + 1, ij + nrows][ivertex])
        else Vertex([ij + 1, ij + 1 + nrows, ij + nrows][ivertex])
    case Edge(iedge) =>
      var nrows := hf.heightRows;
      var ncols := hf.heightCols;
      var vshift := 0;
      var hshift := HShift(hf);
      var dshift := DShift(hf);
      var idiag := dshift + Index(i, j, nrows - 1);
      var itop := hshift + Index(i, j, nrows);
      var ibottom := itop + 1;
      var ileft := vshift + Index(i, j, nrows - 1);
      var iright := ileft + nrows - 1;
      if Contains(hf.status[i][j], ZIGZAG_SUBDIVISION) then
        if left then Edge([ileft, ibottom, idiag][iedge])
        else Edge([idiag, iright, itop][iedge])
      else
        if left then Edge([ileft, idiag, itop][iedge])
        else Edge([ibottom, iright, idiag][iedge])
    case Face(iface) =>
      if iface == 0 then Face(FaceId(hf, i, j, left, true))
      else Face(FaceId(hf, i, j, left, false))
    case Unknown => Unknown
  }

  /** The triangle `TrianglesAt` builds for this side and this cell's split. */
  function TriangleOfCell(hf: HeightField, i: nat, j: nat, left: bool): Triangle
    requires Valid(hf) && InCell(hf, i, j)
  {
    CellTriangle(i, j, Contains(CellStatusAt(hf, i, j), ZIGZAG_SUBDIVISION), left)
  }

  /** Vertex `v` of a cell triangle becomes the global id of the very corner
      `TrianglesAt` puts at position `v`, and that id indexes the height
      matrix. */
  lemma ConvertVertexNamesTriangleCorner(hf: HeightField, i: nat, j: nat, left: bool, v: nat)
    requires Valid(hf) && InCell(hf, i, j) && v < 3
    ensures ConvertTriangleFeatureId(hf, i, j, left, Vertex(v))
         == Vertex(VertexIdOf(hf, CornerOf(TriangleOfCell(hf, i, j, left), v)))
    ensures VertexIdOf(hf, CornerOf(TriangleOfCell(hf, i, j, left), v)) < NumVertices(hf)
  {
    var R := hf.heightRows;
    assert Columns(j + 1, R) == Columns(j, R) + R;
    var zigzag := Contains(hf.status[i][j], ZIGZAG_SUBDIVISION);
    var t := CellTriangle(i, j, zigzag, left);
    assert TriangleOfCell(hf, i, j, left) == t;
    var c := CornerOf(t, v);
    assert c.row < R && c.col < hf.heightCols;
    GridIndexBound(c.row, c.col, R, hf.heightCols);
  }

  /** Edge `e` of a cell triangle (from its corner `e` to corner `e+1 mod 3`)
      becomes the reference id of that pair of corners. */
  lemma ConvertEdgeNamesTriangleSide(hf: HeightField, i: nat, j: nat, left: bool, e: nat)
    requires Valid(hf) && InCell(hf, i, j) && e < 3
    ensures var t := TriangleOfCell(hf, i, j, left);
            EdgeIdOf(hf, CornerOf(t, e), CornerOf(t, (e + 1) % 3)) == Some(ConvertTriangleFeatureId(hf, i, j, left, Edge(e)).e)
    ensures ConvertTriangleFeatureId(hf, i, j, left, Edge(e)).Edge?
  {
    CellEdgeIds(hf, i, j);
    if Contains(hf.status[i][j], ZIGZAG_SUBDIVISION) {
      assert TriangleOfCell(hf, i, j, left) == CellTriangle(i, j, true, left);
    } else {
      assert TriangleOfCell(hf, i, j, left) == CellTriangle(i, j, false, left);
    }
  }

  /** The reference ids of the five edges of cell `(i, j)`, in either
      direction. */
  lemma CellEdgeIds(hf: HeightField, i: nat, j: nat)
    requires Valid(hf) && InCell(hf, i, j)
    ensures var R := hf.heightRows;
            var ileft := Index(i, j, R - 1);
            var itop := HShift(hf) + Index(i, j, R);
            var idiag := DShift(hf) + Index(i, j, R - 1);
            && EdgeIdOf(hf, P00(i, j), P10(i, j)) == EdgeIdOf(hf, P10(i, j), P00(i, j)) == Some(ileft)
            && EdgeIdOf(hf, P01(i, j), P11(i, j)) == EdgeIdOf(hf, P11(i, j), P01(i, j)) == Some(ileft + R - 1)
            && EdgeIdOf(hf, P00(i, j), P01(i, j)) == EdgeIdOf(hf, P01(i, j), P00(i, j)) == Some(itop)
            && EdgeIdOf(hf, P10(i, j), P11(i, j)) == EdgeIdOf(hf, P11(i, j), P10(i, j)) == Some(itop + 1)
            && EdgeIdOf(hf, P00(i, j), P11(i, j)) == EdgeIdOf(hf, P11(i, j), P00(i, j)) == Some(idiag)
            && EdgeIdOf(hf, P10(i, j), P01(i, j)) == EdgeIdOf(hf, P01(i, j), P10(i, j)) == Some(idiag)
  {
    var R := hf.heightRows;
    assert Columns(j + 1, R - 1) == Columns(j, R - 1) + R - 1;
  }

  /** Vertical edges take `[0, hshift)`, horizontal ones `[hshift, dshift)`
      and diagonals `[dshift, dshift + (rows-1)(cols-1))`; the left and right
      triangles of a cell share its diagonal id. */
  lemma EdgeIdBands(hf: HeightField, i: nat, j: nat, left: bool, e: nat)
    requires Valid(hf) && InCell(hf, i, j) && e < 3
    ensures var t := TriangleOfCell(hf, i, j, left);
            var a := CornerOf(t, e);
            var b := CornerOf(t, (e + 1) % 3);
            var id := ConvertTriangleFeatureId(hf, i, j, left, Edge(e)).e;
            && (a.col == b.col ==> id < HShift(hf))
            && (a.row == b.row ==> HShift(hf) <= id < DShift(hf))
            && (a.row != b.row && a.col != b.col ==>
                  id == DShift(hf) + Index(i, j, hf.heightRows - 1)
                  && DShift(hf) <= id < DShift(hf) + NumCells(hf))
  {
    var R := hf.heightRows;
    var C := hf.heightCols;
    ConvertEdgeNamesTriangleSide(hf, i, j, left, e);
    GridIndexBound(i, j + 1, R - 1, C);
    GridIndexBound(i + 1, j, R, C - 1);
    GridIndexBound(i, j, R - 1, C - 1);
    assert Columns(j + 1, R - 1) == Columns(j, R - 1) + R - 1;
  }

  /** The diagonal is the one edge both triangles of a cell carry. */
  lemma DiagonalShared(hf: HeightField, i: nat, j: nat)
    requires Valid(hf) && InCell(hf, i, j)
    ensures exists el, er :: 0 <= el < 3 && 0 <= er < 3
              && ConvertTriangleFeatureId(hf, i, j, true, Edge(el))
              == ConvertTriangleFeatureId(hf, i, j, false, Edge(er))
              == Edge(DShift(hf) + Index(i, j, hf.heightRows - 1))
  {
    if Contains(hf.status[i][j], ZIGZAG_SUBDIVISION) {
      assert ConvertTriangleFeatureId(hf, i, j, true, Edge(2)) == ConvertTriangleFeatureId(hf, i, j, false, Edge(0));
    } else {
      assert ConvertTriangleFeatureId(hf, i, j, true, Edge(1)) == ConvertTriangleFeatureId(hf, i, j, false, Edge(2));
    }
  }

  /** Face 0 is the front face of the triangle and any other face its back
      face; unknown features stay unknown. */
  lemma ConvertFaceAndUnknown(hf: HeightField, i: nat, j: nat, left: bool, f: nat)
    requires Valid(hf) && InCell(hf, i, j)
    ensures var r := ConvertTriangleFeatureId(hf, i, j, left, Face(f));
            && r.Face?
            && (f == 0 ==> r.f == TriangleId(hf, i, j, left) < hf.numTriangles)
            && (f != 0 ==> r.f == TriangleId(hf, i, j, left) + hf.numTriangles)
    ensures ConvertTriangleFeatureId(hf, i, j, left, Unknown) == Unknown
  {
    FaceIdRange(hf, i, j, left, f == 0);
  }
}
