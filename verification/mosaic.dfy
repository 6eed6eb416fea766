/** The mosaic merge: composite the windows of several source rasters into
    one destination array, first dataset wins on overlap. */
module Mosaic {
  import opened Outcomes
  import opened Geometry
  import opened PixelGrid

  /** A float32 raster value: NaN or an (exact) number. */
  datatype Cell = NaN | Val(v: real)

  /** The nodata test of merge: np.isnan when the nodata value is NaN,
      equality otherwise. */
  predicate IsNoData(x: Cell, nodata: Cell): (r: bool)
    ensures r <==> x == nodata
  {
    if nodata.NaN? then x.NaN? else x == nodata
  }

  /** An opened source raster: its bounds, its transform, its nodata value
      and its band-1 cells, row by row. */
  datatype Dataset = Dataset(bounds: Bounds, transform: Affine, nodata: Cell, data: seq<seq<Cell>>)

  function Width(data: seq<seq<Cell>>): nat { if |data| == 0 then 0 else |data[0]| }

  predicate Rectangular(data: seq<seq<Cell>>)
  {
    forall r :: 0 <= r < |data| ==> |data[r]| == Width(data)
  }

  predicate WellFormed(ds: Dataset) { AxisAligned(ds.transform) && Rectangular(ds.data) }

  predicate AllWellFormed(datasets: seq<Dataset>)
  {
    forall k :: 0 <= k < |datasets| ==> WellFormed(datasets[k])
  }

  // ---------------------------------------------------------------------
  // Windows of one dataset
  // ---------------------------------------------------------------------

  /** merge's dst_bounds: the transform applied to the first pixel centre and
      to one pixel past the last pixel centre. */
  function DstBounds(t: Affine, shape: Shape): (b: Bounds)
    ensures t.Apply(0.5, 0.5) == (b.w, b.n)
    ensures t.Apply(shape.cols as real + 0.5, shape.rows as real + 0.5) == (b.e, b.s)
  {
    var nw := t.Apply(0.5, 0.5);
    var se := t.Apply(shape.cols as real + 0.5, shape.rows as real + 0.5);
    Bounds(nw.0, se.1, se.0, nw.1)
  }

  /** For a snapped grid, dst_bounds is the snapped box grown by one pixel to
      the east and to the south. */
  lemma DstBoundsOfAlignment(b: Bounds)
    ensures var g := AdjustBoundsToPxGrid(b);
      DstBounds(g.transform, g.shape) == Bounds(g.bounds.w, g.bounds.s - RES, g.bounds.e + RES, g.bounds.n)
  {
    var g := AdjustBoundsToPxGrid(b);
    var t := g.transform;
    var x, y := g.shape.cols as real + 0.5, g.shape.rows as real + 0.5;
    assert t.a * x == RES * x && t.b * y == 0.0 && t.d * x == 0.0 && t.e * y == -RES * y;
    assert t.a * 0.5 == RES * 0.5 && t.b * 0.5 == 0.0 && t.d * 0.5 == 0.0 && t.e * 0.5 == -RES * 0.5;
    var se := t.Apply(x, y);
    assert se.0 == g.bounds.e + RES && se.1 == g.bounds.s - RES;
  }

  predicate WindowInside(win: PxWindow, rows: int, cols: int)
  {
    && 0 <= win.row && 0 <= win.h && win.row + win.h <= rows
    && 0 <= win.col && 0 <= win.w && win.col + win.w <= cols
  }

  /** Where one dataset goes: a destination window and a source window of the same size. */
  datatype Placement = Placement(dst: PxWindow, src: PxWindow)

  predicate Fits(p: Placement, ds: Dataset, shape: Shape)
  {
    && WindowInside(p.src, |ds.data|, Width(ds.data))
    && WindowInside(p.dst, shape.rows, shape.cols)
    && p.dst.h == p.src.h && p.dst.w == p.src.w
  }

  predicate InWindow(i: int, j: int, win: PxWindow)
  {
    win.row <= i < win.row + win.h && win.col <= j < win.col + win.w
  }

  /** The exceptions placing one dataset can raise. */
  predicate PlacementFailure(f: Failure)
  {
    f == NotAnInterval || f == TransformNotInvertible || f == BigRoundingError
    || f == WindowOutOfRange || f == WindowShapeMismatch
  }

  /** The body of merge's loop up to the copy: None for a dataset that does
      not meet the destination, otherwise the destination window (area
      transform) and the source window (the dataset's transform, point
      convention). A window that does not lie inside its array, or two
      windows of different sizes, make the read or the masked copy fail. */
  function Place(ds: Dataset, t: Affine, shape: Shape): (r: Result<Option<Placement>>)
    requires AxisAligned(t) && WellFormed(ds)
    ensures r.Ok? && r.value.Some? ==> Fits(r.value.value, ds, shape)
    ensures r.Ok? && r.value.None? <==> IntersectBounds(DstBounds(t, shape), ds.bounds) == Ok(None)
    ensures r.Err? ==> PlacementFailure(r.error)
  {
    var common :- IntersectBounds(DstBounds(t, shape), ds.bounds);
    if common.None? then Ok(None)
    else
      var dst :- GetPxRegion(common.value, t, true);
      var src :- GetPxRegion(common.value, ds.transform, false);
      if !WindowInside(src, |ds.data|, Width(ds.data)) then Err(WindowOutOfRange)
      else if !WindowInside(dst, shape.rows, shape.cols) then Err(WindowOutOfRange)
      else if dst.h != src.h || dst.w != src.w then Err(WindowShapeMismatch)
      else Ok(Some(Placement(dst, src)))
  }

  /** The windows Place returns are get_px_region of the intersection, in the
      area convention for the destination and the point convention for the
      source; a dataset that meets the destination is placed exactly when
      both windows are computed and fit their arrays. */
  lemma PlaceWindows(ds: Dataset, t: Affine, shape: Shape)
    requires AxisAligned(t) && WellFormed(ds)
    ensures var r := Place(ds, t, shape);
      r.Ok? && r.value.Some? ==>
        var common := IntersectBounds(DstBounds(t, shape), ds.bounds);
        && common.Ok? && common.value.Some?
        && GetPxRegion(common.value.value, t, true) == Ok(r.value.value.dst)
        && GetPxRegion(common.value.value, ds.transform, false) == Ok(r.value.value.src)
    ensures var common := IntersectBounds(DstBounds(t, shape), ds.bounds);
      common.Ok? && common.value.Some? ==>
        var dst, src := GetPxRegion(common.value.value, t, true), GetPxRegion(common.value.value, ds.transform, false);
        (Place(ds, t, shape).Ok? <==> dst.Ok? && src.Ok? && Fits(Placement(dst.value, src.value), ds, shape))
  {
  }

  /** The value the dataset offers for destination cell (i, j): its source
      cell, unless (i, j) is outside the window or the source cell is the
      source's nodata. */
  function Painted(ds: Dataset, p: Placement, shape: Shape, i: int, j: int): (r: Option<Cell>)
    requires WellFormed(ds) && Fits(p, ds, shape)
    ensures r.Some? ==> InWindow(i, j, p.dst) && !IsNoData(r.value, ds.nodata)
  {
    if InWindow(i, j, p.dst) then
      var v := ds.data[i - p.dst.row + p.src.row][j - p.dst.col + p.src.col];
      if IsNoData(v, ds.nodata) then None else Some(v)
    else None
  }

  /** copyto on one cell: written only while it still holds nodata. */
  function Composite(current: Cell, painted: Option<Cell>, nodata: Cell): (r: Cell)
    ensures current != nodata ==> r == current
    ensures current == nodata && painted.Some? ==> r == painted.value
    ensures painted.None? ==> r == current
  {
    if IsNoData(current, nodata) && painted.Some? then painted.value else current
  }

  // ---------------------------------------------------------------------
  // Placement of a tile on the grid
  // ---------------------------------------------------------------------

  function IntMax(a: int, b: int): int { if a >= b then a else b }

  function IntMin(a: int, b: int): int { if a <= b then a else b }

  /** The rasterio bounds of a dataset whose transform is the point-convention
      grid transform with origin (colOrigin, rowOrigin). */
  function GridDatasetBounds(colOrigin: int, rowOrigin: int, rows: int, cols: int): Bounds
  {
    Bounds(RES * colOrigin as real, RES * (rowOrigin - rows) as real,
           RES * (colOrigin + cols) as real, RES * rowOrigin as real)
  }

  /** Two runs of whole grid steps meet in a run of whole grid steps. */
  lemma GridIntervals(a0: int, a1: int, b0: int, b1: int)
    requires a0 < a1 && b0 < b1
    ensures var lo, up := IntMax(a0, b0), IntMin(a1, b1);
      IntersectIntervals(Interval(RES * a0 as real, RES * a1 as real), Interval(RES * b0 as real, RES * b1 as real))
        == if lo <= up then Ok(Some(Interval(RES * lo as real, RES * up as real))) else Ok(None)
  {
  }

  /** The destination box of a snapped grid meets a grid tile's box in a box
      of whole grid steps, or not at all. */
  lemma GridIntersection(colOrigin: int, rowOrigin: int, shape: Shape, tileCol: int, tileRow: int, rows: int, cols: int)
    requires shape.rows > 0 && shape.cols > 0 && rows > 0 && cols > 0
    ensures var cw, ce := IntMax(colOrigin, tileCol), IntMin(colOrigin + shape.cols, tileCol + cols);
      var rs, rn := IntMax(rowOrigin - shape.rows, tileRow - rows), IntMin(rowOrigin, tileRow);
      IntersectBounds(DstBounds(GridTransform(colOrigin, rowOrigin, true), shape),
                      GridDatasetBounds(tileCol, tileRow, rows, cols))
        == if cw <= ce && rs <= rn then Ok(Some(Bounds(RES * cw as real, RES * rs as real, RES * ce as real, RES * rn as real)))
           else Ok(None)
  {
    GridDstBounds(colOrigin, rowOrigin, shape);
    var one, other := GridDatasetBounds(colOrigin, rowOrigin, shape.rows, shape.cols), GridDatasetBounds(tileCol, tileRow, rows, cols);
    GridIntervals(colOrigin, colOrigin + shape.cols, tileCol, tileCol + cols);
    GridIntervals(rowOrigin - shape.rows, rowOrigin, tileRow - rows, tileRow);
    assert LonAxis(one) == Interval(RES * colOrigin as real, RES * (colOrigin + shape.cols) as real);
    assert LatAxis(one) == Interval(RES * (rowOrigin - shape.rows) as real, RES * rowOrigin as real);
    assert LonAxis(other) == Interval(RES * tileCol as real, RES * (tileCol + cols) as real);
    assert LatAxis(other) == Interval(RES * (tileRow - rows) as real, RES * tileRow as real);
  }

  /** The destination box merge computes for a grid is the box of its pixels
      grown by one pixel to the east and to the south. */
  lemma GridDstBounds(colOrigin: int, rowOrigin: int, shape: Shape)
    ensures DstBounds(GridTransform(colOrigin, rowOrigin, true), shape)
         == GridDatasetBounds(colOrigin, rowOrigin, shape.rows, shape.cols)
  {
    var t := GridTransform(colOrigin, rowOrigin, true);
    ApplyAxisAligned(t, 0.5, 0.5);
    ApplyAxisAligned(t, shape.cols as real + 0.5, shape.rows as real + 0.5);
  }

  /** Pixel (i, j) of an area grid and the pixel of a point grid that lies
      the difference of their origins away share their centre. */
  lemma GridCentres(colOrigin: int, rowOrigin: int, tileCol: int, tileRow: int, i: int, j: int)
    ensures GridTransform(tileCol, tileRow, false).Apply((j + colOrigin - tileCol) as real, (i - rowOrigin + tileRow) as real)
         == GridTransform(colOrigin, rowOrigin, true).Apply(j as real + 0.5, i as real + 0.5)
  {
    var x, y := (j + colOrigin - tileCol) as real, (i - rowOrigin + tileRow) as real;
    var src, dst := GridTransform(tileCol, tileRow, false), GridTransform(colOrigin, rowOrigin, true);
    ApplyAxisAligned(src, x, y);
    ApplyAxisAligned(dst, j as real + 0.5, i as real + 0.5);
    assert src.c == RES * tileCol as real && src.f == RES * tileRow as real;
    assert dst.c == RES * (colOrigin as real - 0.5) && dst.f == RES * (rowOrigin as real + 0.5);
    assert RES * x + RES * tileCol as real == RES * (colOrigin + j) as real;
    assert RES * (j as real + 0.5) + RES * (colOrigin as real - 0.5) == RES * (colOrigin + j) as real;
    assert -RES * y + RES * tileRow as real == RES * (rowOrigin - i) as real;
    assert -RES * (i as real + 0.5) + RES * (rowOrigin as real + 0.5) == RES * (rowOrigin - i) as real;
  }

  /** Where a grid tile of rows x cols pixels, whose point-convention origin is
      pixel (tileCol, tileRow) of the global grid, lands on a destination
      grid whose area-convention origin is (colOrigin, rowOrigin): the
      pixels both cover, counted in whole grid steps, or None when they do
      not meet. */
  function GridPlacement(colOrigin: int, rowOrigin: int, shape: Shape, tileCol: int, tileRow: int, rows: int, cols: int): Option<Placement>
  {
    var cw, ce := IntMax(colOrigin, tileCol), IntMin(colOrigin + shape.cols, tileCol + cols);
    var rs, rn := IntMax(rowOrigin - shape.rows, tileRow - rows), IntMin(rowOrigin, tileRow);
    if cw <= ce && rs <= rn then
      Some(Placement(PxWindow(cw - colOrigin, rowOrigin - rn, ce - cw, rn - rs),
                     PxWindow(cw - tileCol, tileRow - rn, ce - cw, rn - rs)))
    else None
  }

  /** Both windows of a grid placement lie inside their arrays and have the
      same size. */
  lemma GridPlacementInside(colOrigin: int, rowOrigin: int, shape: Shape, tileCol: int, tileRow: int, rows: int, cols: int)
    requires GridPlacement(colOrigin, rowOrigin, shape, tileCol, tileRow, rows, cols).Some?
    ensures var p := GridPlacement(colOrigin, rowOrigin, shape, tileCol, tileRow, rows, cols).value;
      && WindowInside(p.src, rows, cols) && WindowInside(p.dst, shape.rows, shape.cols)
      && p.dst.h == p.src.h && p.dst.w == p.src.w
  {
  }

  /** A tile on the 3-arc-second grid, whose transform uses the point
      convention like the SRTM tiles', is always placed on a snapped
      destination grid, at the pixels both cover. */
  lemma GridDatasetPlaced(ds: Dataset, colOrigin: int, rowOrigin: int, shape: Shape, tileCol: int, tileRow: int)
    requires WellFormed(ds) && |ds.data| > 0 && Width(ds.data) > 0
    requires shape.rows > 0 && shape.cols > 0
    requires ds.transform == GridTransform(tileCol, tileRow, false)
    requires ds.bounds == GridDatasetBounds(tileCol, tileRow, |ds.data|, Width(ds.data))
    ensures Place(ds, GridTransform(colOrigin, rowOrigin, true), shape)
         == Ok(GridPlacement(colOrigin, rowOrigin, shape, tileCol, tileRow, |ds.data|, Width(ds.data)))
  {
    var rows, cols := |ds.data|, Width(ds.data);
    var t := GridTransform(colOrigin, rowOrigin, true);
    GridIntersection(colOrigin, rowOrigin, shape, tileCol, tileRow, rows, cols);
    var cw, ce := IntMax(colOrigin, tileCol), IntMin(colOrigin + shape.cols, tileCol + cols);
    var rs, rn := IntMax(rowOrigin - shape.rows, tileRow - rows), IntMin(rowOrigin, tileRow);
    if cw <= ce && rs <= rn {
      var common := Bounds(RES * cw as real, RES * rs as real, RES * ce as real, RES * rn as real);
      var dst := PxWindow(cw - colOrigin, rowOrigin - rn, ce - cw, rn - rs);
      var src := PxWindow(cw - tileCol, tileRow - rn, ce - cw, rn - rs);
      assert GridPlacement(colOrigin, rowOrigin, shape, tileCol, tileRow, rows, cols) == Some(Placement(dst, src));
      OnGridWindow(colOrigin, rowOrigin, true, cw, rs, ce, rn);
      OnGridWindow(tileCol, tileRow, false, cw, rs, ce, rn);
      GridPlacementInside(colOrigin, rowOrigin, shape, tileCol, tileRow, rows, cols);
      PlaceOfWindows(ds, t, shape, common, Placement(dst, src));
    } else {
      PlaceDisjoint(ds, t, shape);
    }
  }

  /** Place returns the two windows of the intersection when they fit. */
  lemma PlaceOfWindows(ds: Dataset, t: Affine, shape: Shape, common: Bounds, p: Placement)
    requires AxisAligned(t) && WellFormed(ds)
    requires IntersectBounds(DstBounds(t, shape), ds.bounds) == Ok(Some(common))
    requires GetPxRegion(common, t, true) == Ok(p.dst)
    requires GetPxRegion(common, ds.transform, false) == Ok(p.src)
    requires Fits(p, ds, shape)
    ensures Place(ds, t, shape) == Ok(Some(p))
  {
  }

  /** Place skips a dataset that does not meet the destination. */
  lemma PlaceDisjoint(ds: Dataset, t: Affine, shape: Shape)
    requires AxisAligned(t) && WellFormed(ds)
    requires IntersectBounds(DstBounds(t, shape), ds.bounds) == Ok(None)
    ensures Place(ds, t, shape) == Ok(None)
  {
  }

  /** Each destination cell a grid tile covers is given the source cell whose
      centre is the same point: the half-pixel offsets of the area and point
      conventions cancel. */
  lemma GridPlacementCentres(colOrigin: int, rowOrigin: int, shape: Shape, tileCol: int, tileRow: int,
                             rows: int, cols: int, i: int, j: int)
    requires GridPlacement(colOrigin, rowOrigin, shape, tileCol, tileRow, rows, cols).Some?
    ensures var p := GridPlacement(colOrigin, rowOrigin, shape, tileCol, tileRow, rows, cols).value;
      GridTransform(tileCol, tileRow, false).Apply((j - p.dst.col + p.src.col) as real, (i - p.dst.row + p.src.row) as real)
        == GridTransform(colOrigin, rowOrigin, true).Apply(j as real + 0.5, i as real + 0.5)
  {
    var p := GridPlacement(colOrigin, rowOrigin, shape, tileCol, tileRow, rows, cols).value;
    assert j - p.dst.col + p.src.col == j + colOrigin - tileCol;
    assert i - p.dst.row + p.src.row == i - rowOrigin + tileRow;
    GridCentres(colOrigin, rowOrigin, tileCol, tileRow, i, j);
  }

  // ---------------------------------------------------------------------
  // Specification of merge
  // ---------------------------------------------------------------------

  predicate AllPlaced(datasets: seq<Dataset>, t: Affine, shape: Shape)
    requires AxisAligned(t) && AllWellFormed(datasets)
  {
    forall k :: 0 <= k < |datasets| ==> Place(datasets[k], t, shape).Ok?
  }

  /** The exception merge raises, if any: that of the first dataset whose
      placement fails. */
  function CheckPlacements(datasets: seq<Dataset>, t: Affine, shape: Shape): (r: Result<()>)
    requires AxisAligned(t) && AllWellFormed(datasets)
    ensures r.Err? ==> PlacementFailure(r.error)
  {
    if |datasets| == 0 then Ok(())
    else
      var first :- Place(datasets[0], t, shape);
      CheckPlacements(datasets[1..], t, shape)
  }

  lemma {:induction false} CheckPlacementsOk(datasets: seq<Dataset>, t: Affine, shape: Shape)
    requires AxisAligned(t) && AllWellFormed(datasets)
    ensures CheckPlacements(datasets, t, shape).Ok? <==> AllPlaced(datasets, t, shape)
  {
    if |datasets| > 0 {
      CheckPlacementsOk(datasets[1..], t, shape);
      if AllPlaced(datasets, t, shape) {
        assert forall k :: 1 <= k < |datasets| ==> datasets[1..][k - 1] == datasets[k];
      }
    }
  }

  lemma {:induction false} CheckPlacementsFirstError(datasets: seq<Dataset>, t: Affine, shape: Shape, k: nat)
    requires AxisAligned(t) && AllWellFormed(datasets)
    requires k < |datasets| && AllPlaced(datasets[..k], t, shape)
    requires Place(datasets[k], t, shape).Err?
    ensures CheckPlacements(datasets, t, shape) == Err(Place(datasets[k], t, shape).error)
  {
    if k > 0 {
      assert datasets[..k][0] == datasets[0];
      assert datasets[1..][..k - 1] == datasets[..k][1..];
      CheckPlacementsFirstError(datasets[1..], t, shape, k - 1);
    }
  }

  /** The value of cell (i, j) after merge has processed every dataset, in order. */
  function MergedCell(datasets: seq<Dataset>, t: Affine, shape: Shape, nodata: Cell, i: int, j: int): Cell
    requires AxisAligned(t) && AllWellFormed(datasets) && AllPlaced(datasets, t, shape)
  {
    if |datasets| == 0 then nodata
    else
      Layer(MergedCell(datasets[..|datasets| - 1], t, shape, nodata, i, j), datasets[|datasets| - 1], t, shape, nodata, i, j)
  }

  /** One iteration of merge's loop on cell (i, j), which holds c: unchanged
      when the dataset does not meet the destination, composited otherwise. */
  function Layer(c: Cell, ds: Dataset, t: Affine, shape: Shape, nodata: Cell, i: int, j: int): Cell
    requires AxisAligned(t) && WellFormed(ds) && Place(ds, t, shape).Ok?
  {
    match Place(ds, t, shape).value
    case None => c
    case Some(p) => Composite(c, Painted(ds, p, shape, i, j), nodata)
  }

  /** One more dataset: the fold's step, as merge's loop body takes it. */
  lemma MergedCellSnoc(datasets: seq<Dataset>, k: nat, t: Affine, shape: Shape, nodata: Cell)
    requires AxisAligned(t) && AllWellFormed(datasets)
    requires k < |datasets| && AllPlaced(datasets[..k], t, shape) && Place(datasets[k], t, shape).Ok?
    ensures AllPlaced(datasets[..k + 1], t, shape)
    ensures forall i, j ::
              MergedCell(datasets[..k + 1], t, shape, nodata, i, j) ==
              Layer(MergedCell(datasets[..k], t, shape, nodata, i, j), datasets[k], t, shape, nodata, i, j)
  {
    assert datasets[..k + 1][..k] == datasets[..k];
  }

  /** What dataset k contributes to cell (i, j): a value that is neither the
      source's nodata nor the destination's. */
  function Offer(ds: Dataset, t: Affine, shape: Shape, nodata: Cell, i: int, j: int): Option<Cell>
    requires AxisAligned(t) && WellFormed(ds) && Place(ds, t, shape).Ok?
  {
    match Place(ds, t, shape).value
    case None => None
    case Some(p) =>
      var painted := Painted(ds, p, shape, i, j);
      if painted.Some? && !IsNoData(painted.value, nodata) then painted else None
  }

  /** A layer writes the dataset's offer into a cell that still holds nodata,
      and leaves every other cell alone. */
  lemma LayerIsOffer(c: Cell, ds: Dataset, t: Affine, shape: Shape, nodata: Cell, i: int, j: int)
    requires AxisAligned(t) && WellFormed(ds) && Place(ds, t, shape).Ok?
    ensures var offer := Offer(ds, t, shape, nodata, i, j);
      Layer(c, ds, t, shape, nodata, i, j) == if c != nodata || offer.None? then c else offer.value
  {
  }

  /** Reference definition: the first dataset, in list order, that offers a
      value for the cell gives it; nodata when none does. */
  function FirstOffer(datasets: seq<Dataset>, t: Affine, shape: Shape, nodata: Cell, i: int, j: int): Cell
    requires AxisAligned(t) && AllWellFormed(datasets) && AllPlaced(datasets, t, shape)
  {
    if |datasets| == 0 then nodata
    else
      var offer := Offer(datasets[0], t, shape, nodata, i, j);
      if offer.Some? then offer.value else FirstOffer(datasets[1..], t, shape, nodata, i, j)
  }

  lemma {:induction false} FirstOfferSnoc(datasets: seq<Dataset>, d: Dataset, t: Affine, shape: Shape, nodata: Cell, i: int, j: int)
    requires AxisAligned(t) && AllWellFormed(datasets) && WellFormed(d)
    requires AllPlaced(datasets, t, shape) && Place(d, t, shape).Ok?
    requires AllWellFormed(datasets + [d]) && AllPlaced(datasets + [d], t, shape)
    ensures var before := FirstOffer(datasets, t, shape, nodata, i, j);
      var offer := Offer(d, t, shape, nodata, i, j);
      FirstOffer(datasets + [d], t, shape, nodata, i, j)
        == if before != nodata || offer.None? then before else offer.value
  {
    var all := datasets + [d];
    if |datasets| > 0 {
      assert all[0] == datasets[0];
      assert all[1..] == datasets[1..] + [d];
      FirstOfferSnoc(datasets[1..], d, t, shape, nodata, i, j);
    } else {
      assert all[1..] == [];
    }
  }

  /** merge keeps the first offered value: the fold over the datasets equals
      the reference definition. */
  lemma {:induction false} MergedIsFirstOffer(datasets: seq<Dataset>, t: Affine, shape: Shape, nodata: Cell, i: int, j: int)
    requires AxisAligned(t) && AllWellFormed(datasets) && AllPlaced(datasets, t, shape)
    ensures MergedCell(datasets, t, shape, nodata, i, j) == FirstOffer(datasets, t, shape, nodata, i, j)
  {
    if |datasets| > 0 {
      var before := datasets[..|datasets| - 1];
      var last := datasets[|datasets| - 1];
      assert before + [last] == datasets;
      var c := MergedCell(before, t, shape, nodata, i, j);
      assert MergedCell(datasets, t, shape, nodata, i, j) == Layer(c, last, t, shape, nodata, i, j);
      MergedIsFirstOffer(before, t, shape, nodata, i, j);
      LayerIsOffer(c, last, t, shape, nodata, i, j);
      FirstOfferSnoc(before, last, t, shape, nodata, i, j);
    }
  }

  /** A merged cell keeps nodata exactly when no dataset offers a value for it. */
  lemma {:induction false} MergedNoDataIffNoOffer(datasets: seq<Dataset>, t: Affine, shape: Shape, nodata: Cell, i: int, j: int)
    requires AxisAligned(t) && AllWellFormed(datasets) && AllPlaced(datasets, t, shape)
    ensures MergedCell(datasets, t, shape, nodata, i, j) == nodata <==>
      forall k :: 0 <= k < |datasets| ==> Offer(datasets[k], t, shape, nodata, i, j).None?
  {
    if |datasets| > 0 {
      var n := |datasets| - 1;
      var before, last := datasets[..n], datasets[n];
      var prev := MergedCell(before, t, shape, nodata, i, j);
      MergedNoDataIffNoOffer(before, t, shape, nodata, i, j);
      LayerIsOffer(prev, last, t, shape, nodata, i, j);
      OfferIsNotNoData(last, t, shape, nodata, i, j);
      var offer := Offer(last, t, shape, nodata, i, j);
      var merged := MergedCell(datasets, t, shape, nodata, i, j);
      assert merged == if prev != nodata || offer.None? then prev else offer.value;
      if merged == nodata {
        forall k | 0 <= k < |datasets| ensures Offer(datasets[k], t, shape, nodata, i, j).None? {
          if k < n {
            assert before[k] == datasets[k];
          }
        }
      } else if prev != nodata {
        var k :| 0 <= k < n && Offer(before[k], t, shape, nodata, i, j).Some?;
        assert before[k] == datasets[k];
        assert Offer(datasets[k], t, shape, nodata, i, j).Some?;
      } else {
        assert Offer(datasets[n], t, shape, nodata, i, j).Some?;
      }
    }
  }

  /** An offered value is never the destination's nodata. */
  lemma OfferIsNotNoData(ds: Dataset, t: Affine, shape: Shape, nodata: Cell, i: int, j: int)
    requires AxisAligned(t) && WellFormed(ds) && Place(ds, t, shape).Ok?
    ensures Offer(ds, t, shape, nodata, i, j).Some? ==> Offer(ds, t, shape, nodata, i, j).value != nodata
  {
  }

  /** A cell that some prefix of the datasets has filled is never changed by
      the datasets after it. */
  lemma {:induction false} FilledCellKept(datasets: seq<Dataset>, k: nat, t: Affine, shape: Shape, nodata: Cell, i: int, j: int)
    requires AxisAligned(t) && AllWellFormed(datasets) && AllPlaced(datasets, t, shape)
    requires k <= |datasets|
    requires MergedCell(datasets[..k], t, shape, nodata, i, j) != nodata
    ensures MergedCell(datasets, t, shape, nodata, i, j) == MergedCell(datasets[..k], t, shape, nodata, i, j)
    decreases |datasets| - k
  {
    if k < |datasets| {
      var longer := datasets[..k + 1];
      assert longer[..k] == datasets[..k];
      assert MergedCell(longer, t, shape, nodata, i, j) == MergedCell(datasets[..k], t, shape, nodata, i, j);
      FilledCellKept(datasets, k + 1, t, shape, nodata, i, j);
    } else {
      assert datasets[..k] == datasets;
    }
  }

  /** A cell outside every destination window stays nodata. */
  lemma {:induction false} UncoveredStaysNoData(datasets: seq<Dataset>, t: Affine, shape: Shape, nodata: Cell, i: int, j: int)
    requires AxisAligned(t) && AllWellFormed(datasets) && AllPlaced(datasets, t, shape)
    requires forall k :: 0 <= k < |datasets| && Place(datasets[k], t, shape).value.Some? ==>
      !InWindow(i, j, Place(datasets[k], t, shape).value.value.dst)
    ensures MergedCell(datasets, t, shape, nodata, i, j) == nodata
  {
    if |datasets| > 0 {
      UncoveredStaysNoData(datasets[..|datasets| - 1], t, shape, nodata, i, j);
    }
  }

  /** Merging [a, b] keeps a's values where both offer one, and merging
      [b, a] keeps b's: the order of the list decides precedence. */
  lemma OverlapPrecedence(a: Dataset, b: Dataset, t: Affine, shape: Shape, nodata: Cell, i: int, j: int)
    requires AxisAligned(t) && WellFormed(a) && WellFormed(b)
    requires Place(a, t, shape).Ok? && Place(b, t, shape).Ok?
    requires Offer(a, t, shape, nodata, i, j).Some? && Offer(b, t, shape, nodata, i, j).Some?
    ensures MergedCell([a, b], t, shape, nodata, i, j) == Offer(a, t, shape, nodata, i, j).value
    ensures MergedCell([b, a], t, shape, nodata, i, j) == Offer(b, t, shape, nodata, i, j).value
  {
    MergedIsFirstOffer([a, b], t, shape, nodata, i, j);
    MergedIsFirstOffer([b, a], t, shape, nodata, i, j);
  }

  /** merge invents no values: a merged cell is nodata or a source value that
      some dataset offered for it. */
  lemma {:induction false} MergedCellOrigin(datasets: seq<Dataset>, t: Affine, shape: Shape, nodata: Cell, i: int, j: int)
    requires AxisAligned(t) && AllWellFormed(datasets) && AllPlaced(datasets, t, shape)
    ensures var c := MergedCell(datasets, t, shape, nodata, i, j);
      c == nodata || exists k :: 0 <= k < |datasets| && Offer(datasets[k], t, shape, nodata, i, j) == Some(c)
  {
    if |datasets| > 0 {
      var n := |datasets| - 1;
      var before, last := datasets[..n], datasets[n];
      var prev := MergedCell(before, t, shape, nodata, i, j);
      MergedCellOrigin(before, t, shape, nodata, i, j);
      LayerIsOffer(prev, last, t, shape, nodata, i, j);
      assert MergedCell(datasets, t, shape, nodata, i, j) == Layer(prev, last, t, shape, nodata, i, j);
      if prev != nodata {
        var k :| 0 <= k < |before| && Offer(before[k], t, shape, nodata, i, j) == Some(prev);
        assert before[k] == datasets[k];
      }
    }
  }

  // ---------------------------------------------------------------------
  // merge
  // ---------------------------------------------------------------------

  /** copyto(dst_region, tmp_array, mask_region, mask_tmp): in the destination
      window, copy the source cell where the destination is still nodata and
      the source is not; nothing outside the window changes. */
  method CopyTo(dst: array2<Cell>, ds: Dataset, p: Placement, shape: Shape, nodata: Cell)
    requires WellFormed(ds) && Fits(p, ds, shape)
    requires dst.Length0 == shape.rows && dst.Length1 == shape.cols
    modifies dst
    ensures forall i, j :: 0 <= i < dst.Length0 && 0 <= j < dst.Length1 ==>
      dst[i, j] == Composite(old(dst[i, j]), Painted(ds, p, shape, i, j), nodata)
  {
    var r := 0;
    while r < p.dst.h
      invariant 0 <= r <= p.dst.h
      invariant forall i, j :: 0 <= i < dst.Length0 && 0 <= j < dst.Length1 ==>
        dst[i, j] == if i < p.dst.row + r then Composite(old(dst[i, j]), Painted(ds, p, shape, i, j), nodata)
                     else old(dst[i, j])
    {
      var c := 0;
      while c < p.dst.w
        invariant 0 <= c <= p.dst.w
        invariant forall i, j :: 0 <= i < dst.Length0 && 0 <= j < dst.Length1 ==>
          dst[i, j] == if i < p.dst.row + r || (i == p.dst.row + r && j < p.dst.col + c)
                       then Composite(old(dst[i, j]), Painted(ds, p, shape, i, j), nodata)
                       else old(dst[i, j])
      {
        var i, j := p.dst.row + r, p.dst.col + c;
        var v := ds.data[p.src.row + r][p.src.col + c];
        if IsNoData(dst[i, j], nodata) && !IsNoData(v, ds.nodata) {
          dst[i, j] := v;
        }
        c := c + 1;
      }
      r := r + 1;
    }
  }

  /** merge: a shape-sized array filled with nodata, then each dataset's
      window copied in, in list order. */
  method Merge(datasets: seq<Dataset>, t: Affine, shape: Shape, nodata: Cell) returns (r: Result<array2<Cell>>)
    requires AxisAligned(t) && AllWellFormed(datasets)
    ensures r.Err? <==> shape.rows < 0 || shape.cols < 0 || !AllPlaced(datasets, t, shape)
    ensures r.Err? ==> if shape.rows < 0 || shape.cols < 0 then r.error == NegativeShape
                       else CheckPlacements(datasets, t, shape) == Err(r.error)
    ensures r.Ok? ==> fresh(r.value) && r.value.Length0 == shape.rows && r.value.Length1 == shape.cols
    ensures r.Ok? ==> AllPlaced(datasets, t, shape) && forall i, j :: 0 <= i < shape.rows && 0 <= j < shape.cols ==>
      r.value[i, j] == MergedCell(datasets, t, shape, nodata, i, j)
  {
    if shape.rows < 0 || shape.cols < 0 {
      return Err(NegativeShape);
    }
    var dst := new Cell[shape.rows, shape.cols]((i, j) => nodata);
    var k := 0;
    while k < |datasets|
      invariant 0 <= k <= |datasets|
      invariant AllPlaced(datasets[..k], t, shape)
      invariant forall i, j :: 0 <= i < shape.rows && 0 <= j < shape.cols ==>
        dst[i, j] == MergedCell(datasets[..k], t, shape, nodata, i, j)
    {
      var placed := Place(datasets[k], t, shape);
      if placed.Err? {
        CheckPlacementsFirstError(datasets, t, shape, k);
        return Err(placed.error);
      }
      MergedCellSnoc(datasets, k, t, shape, nodata);
      if placed.value.Some? {
        CopyTo(dst, datasets[k], placed.value.value, shape, nodata);
      }
      k := k + 1;
    }
    assert datasets[..k] == datasets;
    CheckPlacementsOk(datasets, t, shape);
    r := Ok(dst);
  }
}
