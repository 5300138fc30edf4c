/**
 * The grid of the products module: a decoded GRIB2 record laid out as rows
 * (scan mode 0 of code table 3.4: longitude increasing from lo1, latitude
 * decreasing from la1), and bilinear sampling of it with longitude wrap.
 */
module Products {
  import opened Values
  import opened Micro

  /** The header fields buildGrid reads. */
  datatype Header = Header(lo1: real, la1: real, dx: real, dy: real, nx: nat, ny: nat)

  /** A 2-vector sample [u, v] of a vector product. */
  datatype Vec = Vec(u: real, v: real)

  /** The built grid: one row per latitude, each cell a value or null/undefined. */
  datatype Grid<V> = Grid(header: Header, rows: seq<seq<Option<V>>>)

  /** The grid covers the whole circle of longitude: floor(nx * dx) >= 360. */
  predicate IsContinuous(h: Header)
  {
    (h.nx as real * h.dx).Floor >= 360
  }

  /** The width of every row: nx, plus the duplicated first column when the grid wraps. */
  function RowWidth(h: Header): nat
  {
    if IsContinuous(h) then h.nx + 1 else h.nx
  }

  /**
   * What buildGrid promises about the rows it lays out from data(0), data(1), ...:
   * ny rows of RowWidth cells, row j cell i holding data(j * nx + i), and on a wrapping
   * grid a last cell equal to the first.
   */
  ghost predicate LaidOut<V>(grid: Grid<V>, data: int -> Option<V>)
  {
    var h := grid.header;
    && |grid.rows| == h.ny
    && (forall j :: 0 <= j < h.ny ==> |grid.rows[j]| == RowWidth(h))
    && (forall j, i :: 0 <= j < h.ny && 0 <= i < h.nx ==> grid.rows[j][i] == data(j * h.nx + i))
    && (IsContinuous(h) ==> h.nx > 0 && forall j :: 0 <= j < h.ny ==> grid.rows[j][h.nx] == grid.rows[j][0])
  }

  /** The first j rows are laid out as LaidOut describes. */
  ghost predicate RowsLaidOut<V>(rows: seq<seq<Option<V>>>, h: Header, data: int -> Option<V>, j: nat)
  {
    && |rows| == j
    && forall jj :: 0 <= jj < j ==>
         && |rows[jj]| == RowWidth(h)
         && (forall i :: 0 <= i < h.nx ==> rows[jj][i] == data(jj * h.nx + i))
         && (IsContinuous(h) ==> rows[jj][h.nx] == rows[jj][0])
  }

  /** buildGrid: the rows laid out in scan order, with the wrap column when the grid wraps. */
  method BuildGrid<V>(header: Header, data: int -> Option<V>) returns (grid: Grid<V>)
    ensures grid.header == header
    ensures LaidOut(grid, data)
  {
    var ni, nj := header.nx, header.ny;
    var rows: seq<seq<Option<V>>> := [];
    var p := 0;
    var isContinuous := (ni as real * header.dx).Floor >= 360;
    assert isContinuous ==> ni > 0 by {
      if ni == 0 {
        assert ni as real * header.dx == 0.0;
      }
    }
    var j := 0;
    while j < nj
      invariant 0 <= j <= nj
      invariant p == j * ni
      invariant RowsLaidOut(rows, header, data, j)
    {
      var row;
      ghost var p0 := p;
      row, p := BuildRow(data, p, ni, isContinuous);
      RowsLaidOutStep(rows, row, header, data, j, p0);
      rows := rows + [row];
      j := j + 1;
    }
    grid := Grid(header, rows);
  }

  /** Appending row j, read from data(j * nx) on, extends the laid-out rows by one. */
  lemma RowsLaidOutStep<V>(rows: seq<seq<Option<V>>>, row: seq<Option<V>>, h: Header, data: int -> Option<V>,
                           j: nat, p0: int)
    requires RowsLaidOut(rows, h, data, j)
    requires p0 == j * h.nx
    requires |row| == RowWidth(h)
    requires forall i :: 0 <= i < h.nx ==> row[i] == data(p0 + i)
    requires IsContinuous(h) ==> row[h.nx] == row[0]
    ensures RowsLaidOut(rows + [row], h, data, j + 1)
    ensures p0 + h.nx == (j + 1) * h.nx
  {
    var rows' := rows + [row];
    forall jj | 0 <= jj < j + 1
      ensures && |rows'[jj]| == RowWidth(h)
              && (forall i :: 0 <= i < h.nx ==> rows'[jj][i] == data(jj * h.nx + i))
              && (IsContinuous(h) ==> rows'[jj][h.nx] == rows'[jj][0])
    {
      if jj == j {
        assert rows'[jj] == row;
      } else {
        assert rows'[jj] == rows[jj];
      }
    }
  }

  /**
   * One row of buildGrid: the ni cells data(p), data(p + 1), ..., then the first cell
   * again when the grid wraps; p ends ni further on.
   */
  method BuildRow<V>(data: int -> Option<V>, p0: int, ni: nat, isContinuous: bool)
    returns (row: seq<Option<V>>, p: int)
    requires isContinuous ==> ni > 0
    ensures p == p0 + ni
    ensures |row| == if isContinuous then ni + 1 else ni
    ensures forall i :: 0 <= i < ni ==> row[i] == data(p0 + i)
    ensures isContinuous ==> row[ni] == row[0]
  {
    row := [];
    p := p0;
    var i := 0;
    while i < ni
      invariant 0 <= i <= ni
      invariant |row| == i
      invariant p == p0 + i
      invariant forall ii :: 0 <= ii < i ==> row[ii] == data(p0 + ii)
    {
      row := row + [data(p)];
      i, p := i + 1, p + 1;
    }
    if isContinuous {
      row := row + [row[0]];
    }
  }

  /** grid[j][i], or undefined outside the rows and columns. */
  function CellAt<V>(grid: Grid<V>, j: int, i: int): Option<V>
  {
    if 0 <= j < |grid.rows| && 0 <= i < |grid.rows[j]| then grid.rows[j][i] else None
  }

  /** The fractional column index floorMod(lon - lo1, 360) / dx. */
  function LonIndex(h: Header, lon: real): real
    requires h.dx != 0.0
  {
    FloorMod(lon - h.lo1, 360.0) / h.dx
  }

  /** The fractional row index (la1 - lat) / dy. */
  function LatIndex(h: Header, lat: real): real
    requires h.dy != 0.0
  {
    (h.la1 - lat) / h.dy
  }

  /**
   * interpolate: the four grid points at the floor and floor + 1 of the fractional
   * indices, weighted by the product's builder; null when a row or a point is missing.
   * A zero dx or dy makes the index non-finite in JavaScript, so no point is found.
   */
  function Interpolate<V, R>(grid: Grid<V>, weigh: (real, real, V, V, V, V) -> R, lon: real, lat: real)
    : Option<R>
  {
    var h := grid.header;
    if h.dx == 0.0 || h.dy == 0.0 then None
    else SampleAt(grid, weigh, LonIndex(h, lon), LatIndex(h, lat))
  }

  /** The weighting of the cell around the fractional indices (i, j), if its corners exist. */
  function SampleAt<V, R>(grid: Grid<V>, weigh: (real, real, V, V, V, V) -> R, i: real, j: real): Option<R>
  {
    var fi, fj := i.Floor, j.Floor;
    var ci, cj := fi + 1, fj + 1;
    if CornersPresent(grid, fj, fi) then
      Some(weigh(i - fi as real, j - fj as real, CellAt(grid, fj, fi).value, CellAt(grid, fj, ci).value,
                 CellAt(grid, cj, fi).value, CellAt(grid, cj, ci).value))
    else None
  }

  /** All four corners of the cell at row fj, column fi hold a value. */
  predicate CornersPresent<V>(grid: Grid<V>, fj: int, fi: int)
  {
    CellAt(grid, fj, fi).Some? && CellAt(grid, fj, fi + 1).Some?
    && CellAt(grid, fj + 1, fi).Some? && CellAt(grid, fj + 1, fi + 1).Some?
  }

  /**
   * interpolate returns a value exactly when the four surrounding points exist, and then
   * it is the builder's weighting at offsets in [0, 1) of the column index, which lies in
   * [0, 360 / dx), and the row index.
   */
  lemma InterpolateCases<V, R>(grid: Grid<V>, weigh: (real, real, V, V, V, V) -> R, lon: real, lat: real)
    requires grid.header.dx > 0.0 && grid.header.dy != 0.0
    ensures var h := grid.header;
            var i, j := LonIndex(h, lon), LatIndex(h, lat);
            && 0.0 <= i < 360.0 / h.dx
            && (Interpolate(grid, weigh, lon, lat).Some? <==> CornersPresent(grid, j.Floor, i.Floor))
            && (CornersPresent(grid, j.Floor, i.Floor) ==>
                 var fx, fy := i - i.Floor as real, j - j.Floor as real;
                 && 0.0 <= fx < 1.0 && 0.0 <= fy < 1.0
                 && Interpolate(grid, weigh, lon, lat) ==
                    Some(weigh(fx, fy, CellAt(grid, j.Floor, i.Floor).value, CellAt(grid, j.Floor, i.Floor + 1).value,
                               CellAt(grid, j.Floor + 1, i.Floor).value, CellAt(grid, j.Floor + 1, i.Floor + 1).value)))
  {
    var h := grid.header;
    FloorModRange(lon - h.lo1, 360.0);
    var m := FloorMod(lon - h.lo1, 360.0);
    ScaleLe(0.0, m, 1.0 / h.dx);
    ScaleLt(m, 360.0, 1.0 / h.dx);
  }

  /** Longitudes a whole turn apart sample the same value. */
  lemma InterpolatePeriodic<V, R>(grid: Grid<V>, weigh: (real, real, V, V, V, V) -> R, lon: real, lat: real, k: int)
    ensures Interpolate(grid, weigh, lon + k as real * 360.0, lat) == Interpolate(grid, weigh, lon, lat)
  {
    var h := grid.header;
    if h.dx != 0.0 && h.dy != 0.0 {
      assert lon + k as real * 360.0 - h.lo1 == (lon - h.lo1) + k as real * 360.0;
      FloorModPeriodic(lon - h.lo1, 360.0, k);
      assert LonIndex(h, lon + k as real * 360.0) == LonIndex(h, lon);
    }
  }

  /**
   * Sampling exactly at grid point (i, j), where both fractional indices are whole,
   * weighs the cell whose upper-left corner it is with offsets (0, 0).
   */
  lemma InterpolateAtNode<V, R>(grid: Grid<V>, weigh: (real, real, V, V, V, V) -> R, lon: real, lat: real,
                                i: int, j: int)
    requires grid.header.dx != 0.0 && grid.header.dy != 0.0
    requires LonIndex(grid.header, lon) == i as real && LatIndex(grid.header, lat) == j as real
    requires CornersPresent(grid, j, i)
    ensures Interpolate(grid, weigh, lon, lat) ==
            Some(weigh(0.0, 0.0, CellAt(grid, j, i).value, CellAt(grid, j, i + 1).value,
                       CellAt(grid, j + 1, i).value, CellAt(grid, j + 1, i + 1).value))
  {
    FloorOfInteger(LonIndex(grid.header, lon), i);
    FloorOfInteger(LatIndex(grid.header, lat), j);
  }

  /** An integer is its own floor. */
  lemma FloorOfInteger(r: real, k: int)
    requires r == k as real
    ensures r.Floor == k
  {
  }

  /** The longitude of column i has column index i. */
  lemma LonIndexAtColumn(h: Header, i: nat)
    requires h.dx > 0.0
    requires i as real * h.dx < 360.0
    ensures LonIndex(h, h.lo1 + i as real * h.dx) == i as real
  {
    var x := i as real * h.dx;
    ScaleLe(0.0, i as real, h.dx);
    FloorModUnique(h.lo1 + x - h.lo1, 360.0, x, 0);
  }

  /** The latitude of row j has row index j. */
  lemma LatIndexAtRow(h: Header, j: int)
    requires h.dy != 0.0
    ensures LatIndex(h, h.la1 - j as real * h.dy) == j as real
  {
    assert h.la1 - (h.la1 - j as real * h.dy) == j as real * h.dy;
  }

  /** On the last row the row below is missing, so sampling there yields null. */
  lemma InterpolateLastRow<V, R>(grid: Grid<V>, weigh: (real, real, V, V, V, V) -> R, lon: real, lat: real)
    requires grid.header.dx != 0.0 && grid.header.dy != 0.0
    requires |grid.rows| == grid.header.ny > 0
    requires LatIndex(grid.header, lat) == (grid.header.ny - 1) as real
    ensures Interpolate(grid, weigh, lon, lat) == None
  {
    var h := grid.header;
    FloorOfInteger(LatIndex(h, lat), h.ny - 1);
    assert CellAt(grid, h.ny, LonIndex(h, lon).Floor) == None;
  }

  /**
   * On a laid-out wrapping grid, sampling east of the last column weighs the last column
   * against the duplicated first one: the ceiling index nx reads column 0, so interpolate
   * needs no modulo for it.
   */
  lemma InterpolateAcrossSeam<V, R>(grid: Grid<V>, data: int -> Option<V>, weigh: (real, real, V, V, V, V) -> R,
                                    lon: real, lat: real)
    requires LaidOut(grid, data)
    requires grid.header.dx > 0.0 && grid.header.dy != 0.0
    requires IsContinuous(grid.header)
    requires LonIndex(grid.header, lon).Floor == grid.header.nx - 1
    ensures var h := grid.header;
            var i, j := LonIndex(h, lon), LatIndex(h, lat);
            var fi, fj := h.nx - 1, j.Floor;
            Interpolate(grid, weigh, lon, lat) ==
              if && CellAt(grid, fj, fi).Some? && CellAt(grid, fj, 0).Some?
                 && CellAt(grid, fj + 1, fi).Some? && CellAt(grid, fj + 1, 0).Some?
              then Some(weigh(i - fi as real, j - fj as real, CellAt(grid, fj, fi).value, CellAt(grid, fj, 0).value,
                              CellAt(grid, fj + 1, fi).value, CellAt(grid, fj + 1, 0).value))
              else None
  {
    var h := grid.header;
    var fj := LatIndex(h, lat).Floor;
    SeamColumn(grid, data, fj);
    SeamColumn(grid, data, fj + 1);
  }

  /** On a laid-out wrapping grid, column nx of any row reads what column 0 does. */
  lemma SeamColumn<V>(grid: Grid<V>, data: int -> Option<V>, j: int)
    requires LaidOut(grid, data)
    requires IsContinuous(grid.header)
    ensures CellAt(grid, j, grid.header.nx) == CellAt(grid, j, 0)
  {
  }

  /** bilinearInterpolateScalar. */
  function BilinearScalar(x: real, y: real, g00: real, g10: real, g01: real, g11: real): real
  {
    var rx := 1.0 - x;
    var ry := 1.0 - y;
    g00 * rx * ry + g10 * x * ry + g01 * rx * y + g11 * x * y
  }

  /** At the four corners of the unit cell the scalar weighting returns that corner's value. */
  lemma BilinearScalarCorners(g00: real, g10: real, g01: real, g11: real)
    ensures BilinearScalar(0.0, 0.0, g00, g10, g01, g11) == g00
    ensures BilinearScalar(1.0, 0.0, g00, g10, g01, g11) == g10
    ensures BilinearScalar(0.0, 1.0, g00, g10, g01, g11) == g01
    ensures BilinearScalar(1.0, 1.0, g00, g10, g01, g11) == g11
  {
  }

  /** The four weights sum to one, so a constant is reproduced. */
  lemma BilinearWeightsSumToOne(x: real, y: real, c: real)
    ensures BilinearScalar(x, y, c, c, c, c) == c
  {
    assert (1.0 - x) * (1.0 - y) + x * (1.0 - y) + (1.0 - x) * y + x * y == 1.0;
  }

  /** Inside the unit cell the result lies between any bounds of the four corners. */
  lemma BilinearScalarBetween(x: real, y: real, g00: real, g10: real, g01: real, g11: real, lo: real, hi: real)
    requires 0.0 <= x <= 1.0 && 0.0 <= y <= 1.0
    requires lo <= g00 <= hi && lo <= g10 <= hi && lo <= g01 <= hi && lo <= g11 <= hi
    ensures lo <= BilinearScalar(x, y, g00, g10, g01, g11) <= hi
  {
    var top, bottom := Lerp(x, g00, g10), Lerp(x, g01, g11);
    LerpBetween(x, g00, g10, lo, hi);
    LerpBetween(x, g01, g11, lo, hi);
    LerpBetween(y, top, bottom, lo, hi);
    assert BilinearScalar(x, y, g00, g10, g01, g11) == Lerp(y, top, bottom);
  }

  /** Linear interpolation from p at t = 0 to q at t = 1. */
  function Lerp(t: real, p: real, q: real): real
  {
    p * (1.0 - t) + q * t
  }

  /** Between t = 0 and t = 1 the interpolant stays within any bounds of its ends. */
  lemma LerpBetween(t: real, p: real, q: real, lo: real, hi: real)
    requires 0.0 <= t <= 1.0
    requires lo <= p <= hi && lo <= q <= hi
    ensures lo <= Lerp(t, p, q) <= hi
  {
    LerpAbove(t, p, q, lo);
    LerpAbove(t, -p, -q, -hi);
    assert Lerp(t, -p, -q) == -Lerp(t, p, q);
  }

  /** Between t = 0 and t = 1 the interpolant stays above any lower bound of its ends. */
  lemma LerpAbove(t: real, p: real, q: real, lo: real)
    requires 0.0 <= t <= 1.0
    requires lo <= p && lo <= q
    ensures lo <= Lerp(t, p, q)
  {
    var s := 1.0 - t;
    MulNonNeg(p - lo, s);
    MulNonNeg(q - lo, t);
    assert Lerp(t, p, q) - lo == (p - lo) * s + (q - lo) * t;
  }

  /** The product of two non-negative numbers is non-negative. */
  lemma MulNonNeg(a: real, b: real)
    requires a >= 0.0 && b >= 0.0
    ensures a * b >= 0.0
  {
  }

  /** The corners [[1, 2], [3, 4]] sampled in the middle give their average, 2.5. */
  lemma BilinearScalarExample()
    ensures BilinearScalar(0.5, 0.5, 1.0, 2.0, 3.0, 4.0) == 2.5
  {
  }

  /**
   * bilinearInterpolateVector: the same four weights applied to each component.
   * The third element, the magnitude sqrt(u*u + v*v), is not modelled.
   */
  function BilinearVector(x: real, y: real, g00: Vec, g10: Vec, g01: Vec, g11: Vec): (r: Vec)
    ensures r.u == BilinearScalar(x, y, g00.u, g10.u, g01.u, g11.u)
    ensures r.v == BilinearScalar(x, y, g00.v, g10.v, g01.v, g11.v)
  {
    var rx := 1.0 - x;
    var ry := 1.0 - y;
    var a, b, c, d := rx * ry, x * ry, rx * y, x * y;
    Vec(g00.u * a + g10.u * b + g01.u * c + g11.u * d, g00.v * a + g10.v * b + g01.v * c + g11.v * d)
  }

  /** The 2 x 2 grid [[1, 2], [3, 4]] with origin (0, 0) and unit spacing. */
  function ExampleGrid(): Grid<real>
  {
    Grid(Header(0.0, 0.0, 1.0, 1.0, 2, 2), [[Some(1.0), Some(2.0)], [Some(3.0), Some(4.0)]])
  }

  /** Sampling that grid at longitude 0.5, latitude -0.5 (indices 0.5, 0.5) gives 2.5. */
  lemma ExampleGridSample()
    ensures Interpolate(ExampleGrid(), BilinearScalar, 0.5, -0.5) == Some(2.5)
  {
    var g := ExampleGrid();
    FloorModUnique(0.5, 360.0, 0.5, 0);
    assert LonIndex(g.header, 0.5) == 0.5;
    assert LatIndex(g.header, -0.5) == 0.5;
    assert (0.5).Floor == 0;
    BilinearScalarExample();
  }

  /** On any grid and for any weighting, longitudes 359.5 and -0.5 sample the same value. */
  lemma WrapExample<V, R>(grid: Grid<V>, weigh: (real, real, V, V, V, V) -> R, lat: real)
    ensures Interpolate(grid, weigh, 359.5, lat) == Interpolate(grid, weigh, -0.5, lat)
  {
    InterpolatePeriodic(grid, weigh, -0.5, lat, 1);
  }
}
