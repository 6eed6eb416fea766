/** to_ellipsoid: geoid heights to ellipsoidal heights, pixel by pixel. The
    two stages of the conversion of one height are parameters: pyproj's
    transform, and the rounding to five decimals with the cast back to the
    raster's dtype. */
module DatumShift {
  import opened PixelGrid
  import opened Mosaic

  /** Python's != on two floats: NaN differs from every value, itself included. */
  predicate Differs(a: Cell, b: Cell) { a.NaN? || b.NaN? || a != b }

  /** The centre of pixel (i, j): transform * (j + 0.5, i + 0.5). */
  function PixelCentre(t: Affine, i: int, j: int): (c: (real, real))
    // on the SRTM90 grid, the centre of pixel (i, j) lies j pixels east and
    // i pixels south of the centre of pixel (0, 0)
    ensures AxisAligned(t) && t.a == RES && t.e == -RES ==>
      c == (t.Apply(0.5, 0.5).0 + RES * j as real, t.Apply(0.5, 0.5).1 - RES * i as real)
  {
    t.Apply(j as real + 0.5, i as real + 0.5)
  }

  /** The conversion of one height: the transformer's output for the point
      (lon, lat) at height h, and the value stored back from a transformer
      output (np.around to five decimals, then astype of the input dtype). */
  datatype Conversion = Conversion(transform: (real, real, Cell) -> Cell, store: Cell -> Cell)

  /** The transformer's height for pixel (i, j), which held h: what
      to_ellipsoid compares with the input. */
  function RawAt(convert: Conversion, t: Affine, i: int, j: int, h: Cell): Cell
  {
    var centre := PixelCentre(t, i, j);
    convert.transform(centre.0, centre.1, h)
  }

  /** The height to_ellipsoid returns for pixel (i, j), which held h. */
  function ShiftAt(convert: Conversion, t: Affine, i: int, j: int, h: Cell): Cell
  {
    convert.store(RawAt(convert, t, i, j, h))
  }

  /** Some height of the raster changes under the transformer, before any
      rounding: what to_ellipsoid asserts before it returns. */
  predicate SomeHeightChanges(raster: array2<Cell>, t: Affine, convert: Conversion): (r: bool)
    reads raster
    // np.any over no heights is False: an empty raster never passes
    ensures r ==> raster.Length0 > 0 && raster.Length1 > 0
  {
    exists i, j :: 0 <= i < raster.Length0 && 0 <= j < raster.Length1 &&
      Differs(RawAt(convert, t, i, j, raster[i, j]), raster[i, j])
  }

  /** to_ellipsoid on the pixel centres of a raster: a new raster of the
      converted and rounded heights, and whether any transformer output
      differs from the input height. */
  method ToEllipsoid(raster: array2<Cell>, t: Affine, convert: Conversion)
      returns (shifted: array2<Cell>, changed: bool)
    ensures fresh(shifted) && shifted.Length0 == raster.Length0 && shifted.Length1 == raster.Length1
    ensures forall i, j :: 0 <= i < raster.Length0 && 0 <= j < raster.Length1 ==>
      shifted[i, j] == ShiftAt(convert, t, i, j, raster[i, j])
    ensures changed <==> SomeHeightChanges(raster, t, convert)
  {
    shifted := new Cell[raster.Length0, raster.Length1];
    changed := false;
    var i := 0;
    while i < raster.Length0
      invariant 0 <= i <= raster.Length0
      invariant forall i', j :: 0 <= i' < i && 0 <= j < raster.Length1 ==>
        shifted[i', j] == ShiftAt(convert, t, i', j, raster[i', j])
      invariant changed <==>
        exists i', j :: 0 <= i' < i && 0 <= j < raster.Length1 &&
          Differs(RawAt(convert, t, i', j, raster[i', j]), raster[i', j])
    {
      var j := 0;
      while j < raster.Length1
        invariant 0 <= j <= raster.Length1
        invariant forall i', j' :: 0 <= i' < i && 0 <= j' < raster.Length1 ==>
          shifted[i', j'] == ShiftAt(convert, t, i', j', raster[i', j'])
        invariant forall j' :: 0 <= j' < j ==> shifted[i, j'] == ShiftAt(convert, t, i, j', raster[i, j'])
        invariant changed <==>
          (exists i', j' :: 0 <= i' < i && 0 <= j' < raster.Length1 &&
             Differs(RawAt(convert, t, i', j', raster[i', j']), raster[i', j']))
          || (exists j' :: 0 <= j' < j && Differs(RawAt(convert, t, i, j', raster[i, j']), raster[i, j']))
      {
        var raw := RawAt(convert, t, i, j, raster[i, j]);
        shifted[i, j] := convert.store(raw);
        if Differs(raw, raster[i, j]) {
          changed := true;
        }
        j := j + 1;
      }
      i := i + 1;
    }
  }
}
