/** The fixed 3-arc-second pixel grid: snapping boxes onto it, the affine
    transforms that georeference it, and integer pixel windows. All numbers
    are exact reals; float rounding is not modelled. */
module PixelGrid {
  import opened Outcomes
  import opened Geometry

  /** Grid resolution RES = 3/3600 degree. */
  const RES: real := 1.0 / 1200.0

  /** Default tolerance of special_round. */
  const EPS: real := 0.01

  function Ceil(x: real): (r: int)
    ensures x <= r as real < x + 1.0
  {
    -((-x).Floor)
  }

  /** affine.Affine(a, b, c, d, e, f): pixel (col, row) maps to
      (a * col + b * row + c, d * col + e * row + f). */
  datatype Affine = Affine(a: real, b: real, c: real, d: real, e: real, f: real) {
    function Apply(col: real, row: real): (real, real)
    {
      (a * col + b * row + c, d * col + e * row + f)
    }
  }

  /** No rotation or shear: the only transforms the core builds or reads. */
  predicate AxisAligned(t: Affine) { t.b == 0.0 && t.d == 0.0 }

  /** A raster shape (height, width). */
  datatype Shape = Shape(rows: int, cols: int)

  /** What adjust_bounds_to_px_grid returns. */
  datatype Alignment = Alignment(bounds: Bounds, transform: Affine, shape: Shape)

  /** x is a whole number of pixels from the origin. */
  predicate OnGrid(x: real) { (x / RES).Floor as real == x / RES }

  predicate BoundsOnGrid(b: Bounds) { OnGrid(b.w) && OnGrid(b.s) && OnGrid(b.e) && OnGrid(b.n) }

  // ---------------------------------------------------------------------
  // adjust_bounds_to_px_grid
  // ---------------------------------------------------------------------

  /** adjust_bounds_to_px_grid: snap w and s down and e and n up to the grid,
      count both end pixels in the shape, and place the transform's origin
      half a pixel outside the north-west pixel centre. */
  function AdjustBoundsToPxGrid(b: Bounds): (g: Alignment)
    // the snapped box encloses the input, by less than one pixel on each side
    ensures g.bounds.w <= b.w && g.bounds.s <= b.s && b.e <= g.bounds.e && b.n <= g.bounds.n
    ensures b.w - RES < g.bounds.w && b.s - RES < g.bounds.s
    ensures g.bounds.e < b.e + RES && g.bounds.n < b.n + RES
    ensures BoundsOnGrid(g.bounds)
    // one pixel per grid line, both ends included
    ensures g.shape.rows as real == (g.bounds.n - g.bounds.s) / RES + 1.0
    ensures g.shape.cols as real == (g.bounds.e - g.bounds.w) / RES + 1.0
    // the first pixel centre is the north-west corner, the last the south-east one
    ensures AxisAligned(g.transform) && g.transform.a == RES && g.transform.e == -RES
    ensures g.transform.Apply(0.5, 0.5) == (g.bounds.w, g.bounds.n)
    ensures g.transform.Apply(g.shape.cols as real - 0.5, g.shape.rows as real - 0.5)
         == (g.bounds.e, g.bounds.s)
  {
    var colMin, colMax := (b.w / RES).Floor, Ceil(b.e / RES);
    var rowMin, rowMax := (b.s / RES).Floor, Ceil(b.n / RES);
    var w, e := RES * colMin as real, RES * colMax as real;
    var s, n := RES * rowMin as real, RES * rowMax as real;
    var cols, rows := colMax - colMin + 1, rowMax - rowMin + 1;
    var t := Affine(RES, 0.0, w - RES / 2.0, 0.0, -RES, n + RES / 2.0);
    var x, y := cols as real - 0.5, rows as real - 0.5;
    assert x == colMax as real - colMin as real + 0.5;
    assert y == rowMax as real - rowMin as real + 0.5;
    assert RES * x == e - w + RES * 0.5;
    assert RES * y == n - s + RES * 0.5;
    ApplyAxisAligned(t, x, y);
    ApplyAxisAligned(t, 0.5, 0.5);
    assert t.a * x + t.c == e && t.e * y + t.f == s;
    assert t.a * 0.5 + t.c == w && t.e * 0.5 + t.f == n;
    SnapBelow(b.w);
    SnapBelow(b.s);
    SnapAbove(b.e);
    SnapAbove(b.n);
    GridSteps(colMin, colMax);
    GridSteps(rowMin, rowMax);
    Alignment(Bounds(w, s, e, n), t, Shape(rows, cols))
  }

  lemma SnapBelow(x: real)
    ensures var k := (x / RES).Floor; RES * k as real <= x < RES * k as real + RES
  {
    var k := (x / RES).Floor;
    assert k as real <= x / RES < k as real + 1.0;
  }

  lemma SnapAbove(x: real)
    ensures var k := Ceil(x / RES); x <= RES * k as real < x + RES
  {
    var k := Ceil(x / RES);
    assert x / RES <= k as real < x / RES + 1.0;
  }

  /** Grid points are on the grid, and lie a whole number of steps apart. */
  lemma GridSteps(k1: int, k2: int)
    ensures OnGrid(RES * k1 as real) && OnGrid(RES * k2 as real)
    ensures (RES * k2 as real - RES * k1 as real) / RES == (k2 - k1) as real
  {
    assert (RES * k1 as real) / RES == k1 as real;
    assert (RES * k2 as real) / RES == k2 as real;
    assert (k1 as real).Floor == k1 && (k2 as real).Floor == k2;
  }

  lemma ApplyAxisAligned(t: Affine, col: real, row: real)
    requires AxisAligned(t)
    ensures t.Apply(col, row) == (t.a * col + t.c, t.e * row + t.f)
  {
    assert t.b * row == 0.0 && t.d * col == 0.0;
    assert t.Apply(col, row).0 == t.a * col + t.c;
    assert t.Apply(col, row).1 == t.e * row + t.f;
  }

  /** A box already on the grid is its own snapped box. */
  lemma AdjustOnGridFixpoint(b: Bounds)
    requires BoundsOnGrid(b)
    ensures AdjustBoundsToPxGrid(b).bounds == b
  {
    SnapOnGrid(b.w);
    SnapOnGrid(b.s);
    SnapOnGrid(b.e);
    SnapOnGrid(b.n);
  }

  lemma SnapOnGrid(x: real)
    requires OnGrid(x)
    ensures RES * (x / RES).Floor as real == x && RES * Ceil(x / RES) as real == x
  {
    var k := (x / RES).Floor;
    assert x / RES == k as real;
    assert -(x / RES) == (-k) as real;
    assert (-(x / RES)).Floor == -k;
  }

  /** Re-snapping the snapped box changes nothing. */
  lemma AdjustIdempotent(b: Bounds)
    ensures var g := AdjustBoundsToPxGrid(b); AdjustBoundsToPxGrid(g.bounds) == g
  {
    AdjustOnGridFixpoint(AdjustBoundsToPxGrid(b).bounds);
  }

  /** A proper input interval yields at least two pixels along each axis. */
  lemma AdjustShapeAtLeastTwo(b: Bounds)
    requires b.w < b.e && b.s < b.n
    ensures var g := AdjustBoundsToPxGrid(b); g.shape.rows >= 2 && g.shape.cols >= 2
  {
  }

  // ---------------------------------------------------------------------
  // round and special_round
  // ---------------------------------------------------------------------

  function Abs(x: real): real { if x < 0.0 then -x else x }

  /** Python's round() on an exact value: the nearest integer, ties to even. */
  function PyRound(x: real): (r: int)
    ensures Abs(r as real - x) <= 0.5
    ensures Abs(r as real - x) == 0.5 ==> r % 2 == 0
  {
    var f := x.Floor;
    var frac := x - f as real;
    if frac < 0.5 then f
    else if frac > 0.5 then f + 1
    else if f % 2 == 0 then f
    else f + 1
  }

  /** No integer is nearer to x than PyRound(x). */
  lemma PyRoundNearest(x: real, k: int)
    ensures Abs(PyRound(x) as real - x) <= Abs(k as real - x)
  {
    var r := PyRound(x);
    if k < r {
      assert k as real <= r as real - 1.0;
    } else if k > r {
      assert k as real >= r as real + 1.0;
    }
  }

  /** The two properties of PyRound determine it. */
  lemma PyRoundUnique(x: real, k: int)
    requires Abs(k as real - x) <= 0.5
    requires Abs(k as real - x) == 0.5 ==> k % 2 == 0
    ensures k == PyRound(x)
  {
    var r := PyRound(x);
    if k != r {
      assert false;
    }
  }

  /** special_round: round, then fail when the rounded value lies eps or more
      ABOVE val. The check is one-sided: rounding down is never refused. */
  function SpecialRound(val: real, eps: real): (r: Result<int>)
    ensures r.Ok? ==> Abs(r.value as real - val) <= 0.5 && r.value as real - val < eps
    ensures r.Ok? ==> r.value == PyRound(val)
    ensures r.Ok? <==> PyRound(val) as real - val < eps
    ensures r.Err? ==> r.error == BigRoundingError
  {
    var rounded := PyRound(val);
    if rounded as real - val < eps then Ok(rounded) else Err(BigRoundingError)
  }

  /** A rounding error of 0.4 below the value passes the 0.01 tolerance. */
  lemma SpecialRoundOneSided()
    ensures SpecialRound(2.4, EPS) == Ok(2)
    ensures SpecialRound(2.6, EPS) == Err(BigRoundingError)
  {
    assert (2.4).Floor == 2;
    assert (2.6).Floor == 2;
  }

  /** An integral value is always accepted, unchanged. */
  lemma SpecialRoundIntegral(k: int, eps: real)
    requires eps > 0.0
    ensures SpecialRound(k as real, eps) == Ok(k)
  {
    assert (k as real).Floor == k;
  }

  // ---------------------------------------------------------------------
  // rasterio.windows.from_bounds and get_px_region
  // ---------------------------------------------------------------------

  /** A fractional pixel window. */
  datatype FracWindow = FracWindow(colOff: real, rowOff: real, width: real, height: real)

  /** An integer pixel window (col, row, w, h): rows row..row+h-1, columns col..col+w-1. */
  datatype PxWindow = PxWindow(col: int, row: int, w: int, h: int)

  /** from_bounds for an axis-aligned transform: the window whose corners the
      transform maps onto the north-west and south-east corners of the box. */
  function FromBounds(b: Bounds, t: Affine): (r: Result<FracWindow>)
    requires AxisAligned(t)
    ensures r.Err? <==> t.a == 0.0 || t.e == 0.0
    ensures r.Err? ==> r.error == TransformNotInvertible
    ensures r.Ok? ==>
      && t.Apply(r.value.colOff, r.value.rowOff) == (b.w, b.n)
      && t.Apply(r.value.colOff + r.value.width, r.value.rowOff + r.value.height) == (b.e, b.s)
  {
    if t.a == 0.0 || t.e == 0.0 then Err(TransformNotInvertible)
    else
      var win := FracWindow((b.w - t.c) / t.a, (b.n - t.f) / t.e, (b.e - b.w) / t.a, (b.s - b.n) / t.e);
      assert t.a * win.colOff == b.w - t.c && t.e * win.rowOff == b.n - t.f;
      assert t.a * (win.colOff + win.width) == b.e - t.c;
      assert t.e * (win.rowOff + win.height) == b.s - t.f;
      assert t.b * win.rowOff == 0.0 && t.d * win.colOff == 0.0;
      assert t.b * (win.rowOff + win.height) == 0.0 && t.d * (win.colOff + win.width) == 0.0;
      var nw, se := t.Apply(win.colOff, win.rowOff), t.Apply(win.colOff + win.width, win.rowOff + win.height);
      assert nw.0 == b.w && nw.1 == b.n;
      assert se.0 == b.e && se.1 == b.s;
      Ok(win)
  }

  /** special_round with its default tolerance accepts the rounding of v. */
  predicate RoundingAccepted(v: real) { PyRound(v) as real - v < EPS }

  /** The half-pixel shift get_px_region takes off the offsets. */
  function Offset(isArea: bool): real { if isArea then 0.5 else 0.0 }

  /** get_px_region: from_bounds, then special_round of the offsets (shifted
      by half a pixel for an area transform) and of the sizes; (col, row, w, h). */
  function GetPxRegion(b: Bounds, t: Affine, isArea: bool): (r: Result<PxWindow>)
    requires AxisAligned(t)
    // it fails only when from_bounds does or one of the four roundings is refused
    ensures r.Ok? <==>
      && FromBounds(b, t).Ok?
      && var win, off := FromBounds(b, t).value, Offset(isArea);
      && RoundingAccepted(win.rowOff - off) && RoundingAccepted(win.colOff - off)
      && RoundingAccepted(win.height) && RoundingAccepted(win.width)
    ensures r.Ok? ==>
      var win, off := FromBounds(b, t).value, Offset(isArea);
      r.value == PxWindow(PyRound(win.colOff - off), PyRound(win.rowOff - off),
                          PyRound(win.width), PyRound(win.height))
    ensures r.Err? ==> r.error == if FromBounds(b, t).Err? then TransformNotInvertible else BigRoundingError
  {
    var win :- FromBounds(b, t);
    var off := Offset(isArea);
    var row :- SpecialRound(win.rowOff - off, EPS);
    var col :- SpecialRound(win.colOff - off, EPS);
    var h :- SpecialRound(win.height, EPS);
    var w :- SpecialRound(win.width, EPS);
    Ok(PxWindow(col, row, w, h))
  }

  /** The transform of a grid whose first pixel centre is pixel (colOrigin,
      rowOrigin) of the global grid; an area transform has its origin half a
      pixel further out, at the pixel's corner. */
  function GridTransform(colOrigin: int, rowOrigin: int, isArea: bool): Affine
  {
    Affine(RES, 0.0, RES * (colOrigin as real - Offset(isArea)),
           0.0, -RES, RES * (rowOrigin as real + Offset(isArea)))
  }

  /** For a box on the grid, get_px_region is exact: no rounding happens, and
      the window starts at the box's north-west pixel and spans the number of
      grid steps between its edges. */
  lemma OnGridWindow(colOrigin: int, rowOrigin: int, isArea: bool, cw: int, rs: int, ce: int, rn: int)
    ensures var b := Bounds(RES * cw as real, RES * rs as real, RES * ce as real, RES * rn as real);
      GetPxRegion(b, GridTransform(colOrigin, rowOrigin, isArea), isArea)
        == Ok(PxWindow(cw - colOrigin, rowOrigin - rn, ce - cw, rn - rs))
  {
    var b := Bounds(RES * cw as real, RES * rs as real, RES * ce as real, RES * rn as real);
    var t := GridTransform(colOrigin, rowOrigin, isArea);
    var win := FromBounds(b, t).value;
    var off := Offset(isArea);
    assert b.w - t.c == RES * ((cw - colOrigin) as real + off);
    assert b.n - t.f == -RES * ((rowOrigin - rn) as real + off);
    assert b.e - b.w == RES * (ce - cw) as real;
    assert b.s - b.n == -RES * (rn - rs) as real;
    assert win.colOff - off == (cw - colOrigin) as real;
    assert win.rowOff - off == (rowOrigin - rn) as real;
    assert win.width == (ce - cw) as real;
    assert win.height == (rn - rs) as real;
    SpecialRoundIntegral(cw - colOrigin, EPS);
    SpecialRoundIntegral(rowOrigin - rn, EPS);
    SpecialRoundIntegral(ce - cw, EPS);
    SpecialRoundIntegral(rn - rs, EPS);
  }

  /** The snapped box, read back through its own transform, is the window of
      the whole raster less its last row and column. */
  lemma AdjustedWindow(b: Bounds)
    ensures var g := AdjustBoundsToPxGrid(b);
      GetPxRegion(g.bounds, g.transform, true)
        == Ok(PxWindow(0, 0, g.shape.cols - 1, g.shape.rows - 1))
  {
    var g := AdjustBoundsToPxGrid(b);
    var colMin, rowMax := (b.w / RES).Floor, Ceil(b.n / RES);
    var colMax, rowMin := Ceil(b.e / RES), (b.s / RES).Floor;
    assert g.transform == GridTransform(colMin, rowMax, true);
    OnGridWindow(colMin, rowMax, true, colMin, rowMin, colMax, rowMax);
  }
}
