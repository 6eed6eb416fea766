# srtm4 crop, modelled in Dafny

This project models the grid and mosaic arithmetic behind `crop` in
`srtm4.py`, which cuts a georeferenced raster out of the SRTM90 elevation
tiles. Given a box (lon_min, lat_min, lon_max, lat_max), `crop` does the
following:

- It wraps both longitudes to [-180, 180), but only to decide whether to
  split. When the wrapped interval is reversed, it crops two halves: the
  western one from the wrapped start to just below 180, the eastern one from
  just above -180 to the wrapped end. Otherwise it crops the box exactly as
  given, unwrapped: (185, 0, 190, 5) is snapped and located at longitudes
  185 to 190.
- For each continuous span, it clips the latitudes to the coverage band
  [-60, 60].
- It snaps the box onto the 3-arc-second pixel grid (RES = 1/1200 degree).
- It asks a locator for the tiles at two corners and reads their ids from
  the names `srtm_LL_BB`.
- It visits every tile in the id rectangle, latitude-outer. A tile whose
  download raises `ConnectionError` is skipped.
- It merges the opened datasets into one array. The first dataset keeps a
  cell once it has written it.
- For the ellipsoidal datum, it converts every height at its pixel centre.

The model has seven modules, one file each:

| module | file | what it holds |
|---|---|---|
| `Outcomes` | `outcomes.dfy` | `Option`, `Result`, and `Failure`, which names each exception the code can raise |
| `TileNames` | `tile_names.dfy` | `id2name` / `name2id`, with `'{:02d}'`, `int()` and `str.split` written out |
| `Geometry` | `geometry.dfy` | intervals and boxes (`assert_interval`, `intersect_intervals`, `intersect_bounds`) and `wrap_lon` |
| `PixelGrid` | `pixel_grid.dfy` | `adjust_bounds_to_px_grid`, Python `round`, `special_round`, `from_bounds` and `get_px_region` |
| `Mosaic` | `mosaic.dfy` | `merge`: the placement of each dataset, `copyto` on an `array2`, and the loop |
| `DatumShift` | `datum_shift.dfy` | `to_ellipsoid` over a raster |
| `Crop` | `crop.dfy` | `crop_at_continous_lon_limits` (planning, the tile loop, merge and shift) and `crop` (split and `hstack`) |

Numbers are exact reals. A raster value is `NaN` or a real number.

The parts of the system outside the core are parameters of `Crop.Sources`:

- `locate`: the tile locator, which the source runs as the
  `srtm4_which_tile` binary.
- `fetch`: the download of one tile (`get_srtm_tile`), which either leaves
  the file on disk, raises `ConnectionError`, or raises anything else.
- `open`: `rasterio.open` of the tile file.
- `toEllipsoid`: the conversion of one height, in two stages. The first is
  pyproj's geoid-to-ellipsoid transform, whose output `to_ellipsoid` compares
  with the input. The second is `np.around(..., 5)` with the cast back to the
  raster's dtype, and its result is stored.

The code tests `assert_interval`'s condition inside `intersect_intervals`,
and `Geometry.IntersectIntervals` returns `NotAnInterval` exactly when that
condition fails.

Three points about the code are worth stating, because a reader could
expect otherwise:

- `special_round`'s docstring (srtm4.py:402-409) says the rounding error
  must stay below `eps`. The check at srtm4.py:414 only refuses a rounding
  that lands `eps` or more ABOVE the value, never one that lands below it.
  The model follows the check (`PixelGrid.SpecialRoundOneSided`).
- The tile loop catches only the builtin `ConnectionError` (srtm4.py:571).
  Any other download failure, such as `RetryError`, ends the crop.
- Both halves of an antimeridian crop share their latitudes, so they always
  get the same number of rows (`Crop.SameLatitudesSameRows`). `np.hstack` at
  srtm4.py:648 therefore never receives rasters of different heights.

## Model

| member | source | states |
|---|---|---|
| TileNames.Format02 | srtm4.py:273 | `'{:02d}'` gives at least two characters and never contains the separator `_` |
| TileNames.ParseInt | srtm4.py:259-260 | `int()` succeeds exactly on an optional sign followed by decimal digits; otherwise it raises (BadLiteral) |
| TileNames.ParseFormat02 | srtm4.py:273 | `int('{:02d}'.format(n)) == n` for every integer n, negative ones included |
| TileNames.Split | srtm4.py:258 | `str.split('_')`: at least one piece, none containing the separator |
| TileNames.JoinSplit | srtm4.py:258 | joining the pieces of `split('_')` with `_` gives back the name |
| TileNames.SplitId2Name | srtm4.py:264-273 | the name id2name builds splits into exactly "srtm" and the two formatted ids |
| TileNames.Name2Id | srtm4.py:247-261 | succeeds exactly when the name has at least three `_` fields and fields 1 and 2 are integer literals, and returns their values; otherwise fails with IndexError (MissingField) or ValueError (BadLiteral) |
| TileNames.Id2Name | srtm4.py:264-273 | the name starts with "srtm_", is at least ten characters long, and has `_` right after the longitude id and nowhere inside it |
| TileNames.NameRoundTrip | srtm4.py:247-273 | `name2id(id2name(lon, lat)) == (lon, lat)` for all integer ids |
| TileNames.Id2NameInjective | srtm4.py:264-273 | distinct tile ids get distinct names |
| TileNames.CanonicalNameShape | srtm4.py:264-273 | for ids below 100 the name is ten characters: "srtm_", two digits of lon_id, "_", two digits of lat_id |
| TileNames.CanonicalNameRoundTrip | srtm4.py:247-261 | every name of that shape is the id2name of what name2id reads from it |
| Geometry.IntersectIntervals | srtm4.py:276-310 | fails exactly when either input is not an interval (up > low); otherwise None exactly when one interval ends before the other starts, and else an interval inside both whose ends are ends of the inputs |
| Geometry.IntersectIntervalsMembership | srtm4.py:286-310 | a point lies in the intersection iff it lies in both intervals |
| Geometry.IntersectIntervalsEmpty | srtm4.py:303-307 | the result is None iff the intervals share no point |
| Geometry.IntersectIntervalsSymmetric | srtm4.py:286-310 | the order of the arguments does not matter |
| Geometry.TouchingIntervals | srtm4.py:303-310 | intervals that only touch give the one-point interval, not None |
| Geometry.IntersectBounds | srtm4.py:376-397 | fails exactly when an axis of either box is not an interval; the result lies inside both boxes; it is None iff either axis intersection is None |
| Geometry.IntersectBoundsMembership | srtm4.py:376-397 | a point lies in the intersection box iff it lies in both boxes |
| Geometry.IntersectBoundsEmpty | srtm4.py:376-397 | the result is None iff the boxes share no point |
| Geometry.IntersectBoundsSymmetric | srtm4.py:376-397 | the order of the boxes does not matter |
| Geometry.Mod360 | srtm4.py:609 | Python's `% 360` lies in [0, 360) and differs from its argument by a multiple of 360 |
| Geometry.WrapLon | srtm4.py:607-609 | the result lies in [-180, 180) and differs from lon by a whole number of turns |
| Geometry.WrapLonUnique | srtm4.py:607-609 | it is the only such longitude |
| Geometry.WrapLonIdentity | srtm4.py:607-609 | longitudes already in [-180, 180) are unchanged |
| Geometry.WrapLonPeriodic | srtm4.py:607-609 | adding whole turns does not change the result |
| PixelGrid.Ceil | srtm4.py:332-334 | `np.ceil`: the least integer at or above x |
| PixelGrid.AdjustBoundsToPxGrid | srtm4.py:313-346 | the snapped box encloses the input by less than one pixel per side and lies on the grid; the shape counts both end pixels; the transform maps the first and last pixel centres to the NW and SE corners |
| PixelGrid.AdjustOnGridFixpoint | srtm4.py:331-338 | a box already on the grid is its own snapped box |
| PixelGrid.AdjustIdempotent | srtm4.py:313-346 | snapping twice changes nothing |
| PixelGrid.AdjustShapeAtLeastTwo | srtm4.py:344 | a proper box yields at least two pixels along each axis |
| PixelGrid.PyRound | srtm4.py:413 | Python `round`: within 0.5 of the value, and even on a tie |
| PixelGrid.PyRoundNearest | srtm4.py:413 | no integer is nearer to the value |
| PixelGrid.PyRoundUnique | srtm4.py:413 | the two properties above determine round |
| PixelGrid.SpecialRound | srtm4.py:400-415 | succeeds exactly when Python's round(val) is less than eps above val, and then returns exactly round(val); otherwise BigRoundingError |
| PixelGrid.SpecialRoundOneSided | srtm4.py:413-414 | 2.4 passes with result 2 while 2.6 fails: only rounding upwards is checked |
| PixelGrid.SpecialRoundIntegral | srtm4.py:400-415 | an integral value is always accepted, unchanged |
| PixelGrid.FromBounds | srtm4.py:434 | from_bounds: the transform maps the window's corners onto the NW and SE corners of the box; a zero pixel size is refused |
| PixelGrid.GetPxRegion | srtm4.py:418-445 | succeeds exactly when from_bounds does and special_round accepts each of the four values; (col, row, w, h) are then Python's round of the column and row offsets less the half-pixel offset, and of the width and height; the failure is TransformNotInvertible when from_bounds fails, BigRoundingError otherwise |
| PixelGrid.OnGridWindow | srtm4.py:418-445 | for a box on the grid the window is exact: NW pixel offset and grid-step sizes, for both conventions |
| PixelGrid.AdjustedWindow | srtm4.py:313-346 | the snapped box read back through its own transform is the whole raster less its last row and column |
| Mosaic.DstBounds | srtm4.py:466-471 | a definition: its ensures only re-express the two corner computations (the first pixel centre and one pixel past the last); what the box means for a snapped grid is stated by DstBoundsOfAlignment and GridDstBounds |
| Mosaic.DstBoundsOfAlignment | srtm4.py:466-471 | for a snapped grid, dst_bounds is the snapped box grown by one pixel east and south |
| Mosaic.Place | srtm4.py:477-496 | None exactly when the dataset misses the destination; otherwise both windows lie inside their arrays and have the same size; errors are those of the placement |
| Mosaic.PlaceWindows | srtm4.py:477-496 | the windows Place returns are get_px_region of the intersection, area convention in the destination and point convention in the source; a dataset that meets the destination is placed exactly when both windows are computed and fit their arrays |
| Mosaic.GridDstBounds | srtm4.py:466-471 | on a grid whose area-convention origin is a pixel corner, dst_bounds is the box of the raster's pixels, one pixel wider to the east and south than its last centres |
| Mosaic.GridIntersection | srtm4.py:478 | that box meets the box of a tile on the same grid in a box of whole grid steps (the larger west and south edges, the smaller east and north ones), or not at all |
| Mosaic.GridDatasetPlaced | srtm4.py:477-496 | a tile on the 3-arc-second grid with a point-convention transform is always placed: never a rounding error or an out-of-range window, and its windows are the pixels both rasters cover (GridPlacement), or None when they do not meet |
| Mosaic.GridPlacementCentres | srtm4.py:490-505 | for such a placement, each destination cell is given the source cell whose centre is the same point: the half-pixel offsets of the two conventions cancel |
| Mosaic.IsNoData | srtm4.py:501-504 | the two masks agree: `np.isnan` for a NaN nodata value and `==` otherwise both come down to equality with the nodata value |
| Mosaic.Painted | srtm4.py:498-505 | a dataset only offers cells inside its destination window that are not its own nodata |
| Mosaic.CheckPlacements | srtm4.py:477-506 | the exception merge raises is a placement failure |
| Mosaic.CheckPlacementsOk | srtm4.py:477-506 | merge raises nothing iff every dataset can be placed |
| Mosaic.CheckPlacementsFirstError | srtm4.py:477-506 | the exception is that of the first dataset that cannot be placed |
| Mosaic.MergedCellSnoc | srtm4.py:477-506 | one more dataset applies one layer of copyto to every cell |
| Mosaic.Composite | srtm4.py:473-475 | copyto on one cell: a cell that does not hold nodata keeps its value; a nodata cell takes the offered value, if any |
| Mosaic.LayerIsOffer | srtm4.py:473-475 | copyto writes the dataset's offer into a cell that still holds nodata and leaves the rest alone |
| Mosaic.FirstOfferSnoc | srtm4.py:477-506 | appending a dataset changes the first-offer value only for a cell that was still nodata |
| Mosaic.MergedIsFirstOffer | srtm4.py:448-508 | every merged cell holds the value of the first dataset, in list order, that offers one, or nodata |
| Mosaic.MergedNoDataIffNoOffer | srtm4.py:477-506 | MergedCell, the loop as a fold of copyto layers, leaves a cell at nodata exactly when no dataset offers a value for it |
| Mosaic.FilledCellKept | srtm4.py:473-475 | a cell some prefix of the datasets has filled never changes afterwards |
| Mosaic.UncoveredStaysNoData | srtm4.py:463 | a cell outside every destination window stays nodata |
| Mosaic.OverlapPrecedence | srtm4.py:477-506 | where two datasets overlap, the one listed first wins |
| Mosaic.MergedCellOrigin | srtm4.py:448-508 | merge invents no values: each cell is nodata or a value some dataset offered for it |
| Mosaic.CopyTo | srtm4.py:473-506 | the masked copy: each cell in the window becomes the composite of old and offered value; nothing else changes |
| Mosaic.Merge | srtm4.py:448-508 | fails exactly on a negative shape or an unplaceable dataset, with the first such exception; otherwise returns a fresh shape-sized array whose every cell is the merged value |
| DatumShift.ToEllipsoid | srtm4.py:349-373 | a new raster where each height is transformed at its pixel centre `transform * (j + 0.5, i + 0.5)` and then rounded and cast; the flag says whether any transformed height, before rounding, differs from the input (NaN differs from everything) |
| DatumShift.PixelCentre | srtm4.py:588-595 | on the SRTM90 grid, the centre of pixel (i, j) lies j pixels east and i pixels south of the centre of pixel (0, 0) |
| DatumShift.SomeHeightChanges | srtm4.py:370-372 | the condition of to_ellipsoid's assertion; an empty raster never meets it, as `np.any` of nothing is False |
| Crop.ParseDatum | srtm4.py:529-530 | accepts exactly "ellipsoidal" and "orthometric" |
| Crop.ParseAll | srtm4.py:551 | name2id of every located name, failing with the first failure |
| Crop.ParseAllFirstError | srtm4.py:551 | the failure is that of the first name that does not parse |
| Crop.Corners | srtm4.py:546-547 | a definition: its ensures only re-express the lists lons = [lon_min, lon_max] and lats = [lat_max, lat_min] of the snapped box; its use is stated by PlanSpan |
| Crop.PlanSpan | srtm4.py:529-563 | None iff the datum is valid and the latitudes miss [-60, 60]; a covered span is planned exactly when the datum is valid, some latitudes are left, every located name parses, there are at least two, and both id pairs ascend; the plan's grid is the snapped clipped box and its ids those of the first two names; the exception is InvalidDatum, then NotAnInterval, then the first name's parse failure, then IndexError (MissingField) for fewer than two names, then the ascending-ids assertion |
| Crop.Row | srtm4.py:567 | the inner loop visits (lon0 + k, lat) for k = 0 .. lon1 - lon0 |
| Crop.TileOrder | srtm4.py:566-567 | the nested loop's tiles: one per id pair, (lon1 - lon0 + 1) * (lat1 - lat0 + 1) of them, none when a range is empty |
| Crop.TileOrderMembers | srtm4.py:566-567 | the loop visits exactly the tiles of the id rectangle |
| Crop.TileOrderSorted | srtm4.py:566-567 | it visits them latitude-outer, longitude-inner, in ascending order |
| Crop.TileOrderNoRepeats | srtm4.py:566-567 | no tile is visited twice |
| Crop.TileOrderPrefix | srtm4.py:566-567 | the tiles visited up to any point are a prefix of the whole visiting order |
| Crop.Visit | srtm4.py:568-577 | one loop body: skip on ConnectionError, the opened dataset, or the exception (other download failure or missing file) |
| Crop.Gather | srtm4.py:565-577 | the loop finishes iff every tile is fetched and opened or skipped; otherwise it ends in a download or open failure |
| Crop.GatherCount | srtm4.py:565-580 | at most one dataset per tile; none iff every download raised ConnectionError |
| Crop.GatherWellFormed | srtm4.py:576-577 | every gathered dataset is one that open returned |
| Crop.GatherAppend | srtm4.py:565-577 | visiting two runs of tiles in a row gathers the concatenation, or the first exception |
| Crop.GatherSkipsRefused | srtm4.py:571-572 | a tile refused with ConnectionError is as if it were not in the list |
| Crop.GatherFirstError | srtm4.py:568-577 | the exception is that of the first tile the loop cannot get past |
| Crop.GatherAllFetched | srtm4.py:565-577 | when every tile is fetched and opened, the datasets are the tiles' datasets in visiting order |
| Crop.GatherErrorPrefix | srtm4.py:565-577 | once the loop has raised, later tiles change nothing |
| Crop.CollectDatasets | srtm4.py:565-577 | the nested loop returns what Gather says for the visiting order |
| Crop.SpanInputs | srtm4.py:511-603 | None exactly when the datum is valid and the latitudes miss the coverage; a covered span is what Assemble gives for the plan; it fails exactly when the planning fails or Assemble does, with that exception |
| Crop.Assemble | srtm4.py:565-600 | succeeds exactly when the tile loop finishes with at least one dataset, the shape is not negative, merge can place every dataset and, for the ellipsoidal datum, some transformed height differs; the exception is the loop's, then ValueError, then NegativeShape, then merge's first placement failure, then to_ellipsoid's assertion (HeightsUnchanged) when no transformed height differs |
| Crop.NoDemFoundWhenAllRefused | srtm4.py:579-580 | "No DEM found on bounds" iff every tile of the span raised ConnectionError |
| Crop.SameLatitudesSameRows | srtm4.py:534-543 | two spans with the same latitudes agree on coverage and on the number of rows |
| Crop.MergedHeightsChange | srtm4.py:584-600 | to_ellipsoid's check on the merged raster is the check on the merged values |
| Crop.MergeSpan | srtm4.py:565-600 | the tile loop, merge and datum shift deliver the heights Assemble specifies, or its exception |
| Crop.CropSpan | srtm4.py:511-603 | the raster holds, at every pixel, the merged height (converted for the ellipsoidal datum) under the snapped grid's transform; or no coverage; or the exception |
| Crop.SplitAtAntimeridian | srtm4.py:632-641 | refuses lon_start > lon_end; splits iff the wrapped ends are reversed, into [wrapped start, 180 - RES - offset] and [-180 + offset, wrapped end] |
| Crop.SplitIffCrossesAntimeridian | srtm4.py:634-638 | for a box under a full turn wide, crop splits exactly when the box crosses a longitude 180 + 360m |
| Crop.HalvesMeetOnGrid | srtm4.py:640-641 | after snapping, the western half ends at 180 - RES and the eastern half starts at -180, so no seam pixel is repeated |
| Crop.HStack | srtm4.py:648 | `np.hstack`: western columns first, then the eastern ones, in a fresh array |
| Crop.Stitch | srtm4.py:648 | each half's heights keep their cells in the stacked raster, the eastern ones shifted right by the western width |
| Crop.CropHalves | srtm4.py:638-648 | the western half's exception, else the eastern half's, else no coverage, else both rasters side by side with the western transform |
| Crop.Crop | srtm4.py:612-653 | the whole entry point: the interval check, then one span or the two stacked halves |

## Left out

- The tile cache is not modelled: directories, file locks, the download over HTTP, unzipping, and the retrying session (srtm4.py:50-171). A download is an outcome that `Crop.Sources.fetch` chooses: the file is on disk, `ConnectionError`, or any other exception.
- The `srtm4_which_tile` binary and `lon_lats_str` (srtm4.py:174-214) are not modelled. The locator is `Crop.Sources.locate`.
- The point query `srtm4` and `write_crop_to_file` are not modelled; they are not used by `crop`.
- Raster I/O is not modelled. A dataset is its bounds, transform, nodata value and band-1 cells. `dataset.read` of a window is indexing into those cells. The datasets are never closed, as in the source.
- Crop.Sources: download and open are indexed by tile id rather than by file name. The code only names tiles through `id2name`, which is injective (`TileNames.Id2NameInjective`).
- DatumShift.ToEllipsoid: both stages of the conversion of one height are parameters. pyproj and the EGM96 grid are inside the transform; `np.around(..., 5)` and the float32 cast are inside the stored value.
- Float32 storage and floating-point rounding are not modelled: all arithmetic is on exact reals.
- PixelGrid.FromBounds: only transforms without rotation or shear are modelled, which are the only ones the core builds or reads.
- Mosaic.Place: refuses a window that does not lie inside its array (WindowOutOfRange). numpy would accept it: it clips a slice that runs past the end, and counts a negative start from the end, so `dst_array[-3:-1]` writes into the last rows. The model refuses the windows numpy would clip or wrap. For tiles on the 3-arc-second grid, Mosaic.GridDatasetPlaced proves that no such window arises; for other datasets this is not proved.
- TileNames.ParseInt: does not model the leading and trailing whitespace, underscores between digits, or non-ASCII digits that Python's `int()` also accepts.
- Crop.CropHalves: when neither half is covered, the source returns `np.hstack([None, None])` (an object array of two `None`s) with transform `None`. The model returns `NoCoverage`.
- Crop.Crop: the CRS the code returns is the constant EPSG:4326 and is not modelled.
- Python `print` warnings such as "crop will be skipped" are not modelled.
- Six of the failures the model raises come from a Python `assert`: NotAnInterval, BigRoundingError, TileIdsNotAscending, InvalidDatum, InvalidLonInterval and HeightsUnchanged. Under `python -O` these checks vanish. The model assumes assertions are enabled.
- Mosaic.IsNoData: a dataset whose `nodata` is None is not modelled. `np.isnan(None)` at srtm4.py:503-504 raises a TypeError; in the model every dataset has a nodata cell.
- Crop.Crop and Crop.CropSpan: the default datum arguments are not modelled. `crop` defaults to "orthometric" (srtm4.py:612) and `crop_at_continous_lon_limits` to "ellipsoidal" (srtm4.py:511); in the model the datum is always passed explicitly.
