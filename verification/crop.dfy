/** crop and crop_at_continous_lon_limits: from geographic bounds to the
    merged raster of the SRTM90 tiles that cover them, split in two at the
    antimeridian when the bounds cross it. */
module Crop {
  import opened Outcomes
  import opened Geometry
  import opened PixelGrid
  import opened TileNames
  import opened Mosaic
  import opened DatumShift

  // ---------------------------------------------------------------------
  // Collaborators
  // ---------------------------------------------------------------------

  /** The vertical reference the caller asks for. */
  datatype Datum = Ellipsoidal | Orthometric

  /** The datum check that opens crop_at_continous_lon_limits. */
  function ParseDatum(name: string): (r: Result<Datum>)
    ensures r.Ok? <==> name == "ellipsoidal" || name == "orthometric"
    ensures r == Ok(Ellipsoidal) <==> name == "ellipsoidal"
    ensures r.Err? ==> r.error == InvalidDatum
  {
    if name == "ellipsoidal" then Ok(Ellipsoidal)
    else if name == "orthometric" then Ok(Orthometric)
    else Err(InvalidDatum)
  }

  /** The latitudes SRTM90 covers. */
  const COVERAGE: Interval := Interval(-60.0, 60.0)

  /** What fetching one tile can do: leave the tile on disk, raise
      ConnectionError (the tile is skipped), or raise anything else, such as
      RetryError (the crop fails). */
  datatype FetchOutcome = Fetched | ConnectionRefused | FetchError

  /** The parts of the system outside the model: the tile locator
      (srtm4_which_tile), the download of tile id2name(lon, lat)
      (get_srtm_tile) and the opening of its file (rasterio.open, None when
      there is no such file), and the geoid-to-ellipsoid conversion of the
      height of one point (lon, lat) that to_ellipsoid applies. fetch and open
      are indexed by the tile id: the code only ever names a tile by id2name,
      which is injective (TileNames.Id2NameInjective). */
  datatype Sources = Sources(
    locate: seq<(real, real)> -> seq<string>,
    fetch: ((int, int)) -> FetchOutcome,
    open: ((int, int)) -> Option<Dataset>,
    toEllipsoid: Conversion)

  ghost predicate OpensWellFormed(src: Sources)
  {
    forall t :: src.open(t).Some? ==> WellFormed(src.open(t).value)
  }

  // ---------------------------------------------------------------------
  // From bounds to a range of tile ids
  // ---------------------------------------------------------------------

  /** name2id over every name the locator returned, stopping at the first failure. */
  function ParseAll(names: seq<string>): (r: Result<seq<(int, int)>>)
    ensures r.Ok? <==> forall k :: 0 <= k < |names| ==> Name2Id(names[k]).Ok?
    ensures r.Ok? ==> |r.value| == |names|
    ensures r.Ok? ==> forall k :: 0 <= k < |names| ==> Name2Id(names[k]) == Ok(r.value[k])
  {
    if |names| == 0 then Ok([])
    else
      var first :- Name2Id(names[0]);
      var rest :- ParseAll(names[1..]);
      Ok([first] + rest)
  }

  lemma {:induction false} ParseAllFirstError(names: seq<string>, k: nat)
    requires k < |names| && Name2Id(names[k]).Err?
    requires forall m :: 0 <= m < k ==> Name2Id(names[m]).Ok?
    ensures ParseAll(names) == Err(Name2Id(names[k]).error)
  {
    if k > 0 {
      ParseAllFirstError(names[1..], k - 1);
    }
  }

  /** The corner points handed to the locator: (lon_min, lat_max) and (lon_max, lat_min). */
  function Corners(b: Bounds): (points: seq<(real, real)>)
    ensures |points| == 2
    ensures [points[0].0, points[1].0] == [b.w, b.e] && [points[0].1, points[1].1] == [b.n, b.s]
  {
    [(b.w, b.n), (b.e, b.s)]
  }

  /** The ids read from the names the locator gives for the corners of the
      span whose latitudes are clipped to lat. */
  function LocatedIds(b: Bounds, lat: Interval, src: Sources): Result<seq<(int, int)>>
  {
    ParseAll(src.locate(Corners(AdjustBoundsToPxGrid(Bounds(b.w, lat.low, b.e, lat.up)).bounds)))
  }

  /** The grid of a span and the ranges of tile ids it needs. */
  datatype Plan = Plan(datum: Datum, grid: Alignment, lonIds: (int, int), latIds: (int, int))

  /** crop_at_continous_lon_limits up to the tile loop: check the datum,
      clip the latitudes to the coverage (None when nothing is left), snap to
      the pixel grid, locate the tiles of the two corners and read their
      ids, which must be ascending. */
  function PlanSpan(b: Bounds, datum: string, src: Sources): (r: Result<Option<Plan>>)
    ensures ParseDatum(datum).Err? ==> r == Err(InvalidDatum)
    ensures r == Ok(None) <==>
      ParseDatum(datum).Ok? && IntersectIntervals(LatAxis(b), COVERAGE) == Ok(None)
    ensures r.Ok? && r.value.Some? ==>
      var lat := IntersectIntervals(LatAxis(b), COVERAGE);
      var p := r.value.value;
      var names := src.locate(Corners(p.grid.bounds));
      && lat.Ok? && lat.value.Some?
      && ParseDatum(datum) == Ok(p.datum)
      && p.grid == AdjustBoundsToPxGrid(Bounds(b.w, lat.value.value.low, b.e, lat.value.value.up))
      && -60.0 - RES < p.grid.bounds.s <= p.grid.bounds.n < 60.0 + RES
      && p.grid.shape.rows >= 1
      && |names| >= 2
      && Name2Id(names[0]) == Ok((p.lonIds.0, p.latIds.0))
      && Name2Id(names[1]) == Ok((p.lonIds.1, p.latIds.1))
      && p.lonIds.0 <= p.lonIds.1 && p.latIds.0 <= p.latIds.1
    // a covered span is planned exactly when the datum is known, some
    // latitudes are left, the locator's first two names parse and their ids
    // ascend
    ensures r.Ok? && r.value.Some? <==>
      && ParseDatum(datum).Ok?
      && var lat := IntersectIntervals(LatAxis(b), COVERAGE);
      && lat.Ok? && lat.value.Some?
      && var ids := LocatedIds(b, lat.value.value, src);
      && ids.Ok? && |ids.value| >= 2
      && ids.value[0].0 <= ids.value[1].0 && ids.value[0].1 <= ids.value[1].1
    // the exceptions, in the order the code raises them
    ensures r.Err? ==>
      var lat := IntersectIntervals(LatAxis(b), COVERAGE);
      if ParseDatum(datum).Err? then r.error == InvalidDatum
      else if lat.Err? then r.error == NotAnInterval
      else
        && lat.value.Some?
        && var ids := LocatedIds(b, lat.value.value, src);
        && if ids.Err? then r.error == ids.error
           else if |ids.value| < 2 then r.error == MissingField
           else r.error == TileIdsNotAscending
  {
    var d :- ParseDatum(datum);
    var lat :- IntersectIntervals(LatAxis(b), COVERAGE);
    if lat.None? then Ok(None)
    else
      var g := AdjustBoundsToPxGrid(Bounds(b.w, lat.value.low, b.e, lat.value.up));
      var ids :- LocatedIds(b, lat.value, src);
      if |ids| < 2 then Err(MissingField)
      else if ids[0].0 > ids[1].0 then Err(TileIdsNotAscending)
      else if ids[0].1 > ids[1].1 then Err(TileIdsNotAscending)
      else Ok(Some(Plan(d, g, (ids[0].0, ids[1].0), (ids[0].1, ids[1].1))))
  }

  // ---------------------------------------------------------------------
  // The order in which the tiles are visited
  // ---------------------------------------------------------------------

  /** One row of the id grid: latitude id fixed, longitude ids ascending. */
  function Row(lon0: int, lon1: int, lat: int): (r: seq<(int, int)>)
    ensures |r| == if lon1 < lon0 then 0 else lon1 - lon0 + 1
    ensures forall k :: 0 <= k < |r| ==> r[k] == (lon0 + k, lat)
    decreases lon1 - lon0
  {
    if lon1 < lon0 then [] else Row(lon0, lon1 - 1, lat) + [(lon1, lat)]
  }

  /** Tile (lon, lat) comes before tile (lon', lat') in the loop. */
  predicate Precedes(a: (int, int), b: (int, int))
  {
    a.1 < b.1 || (a.1 == b.1 && a.0 < b.0)
  }

  /** Strictly increasing in the visiting order. */
  predicate VisitOrder(r: seq<(int, int)>)
  {
    forall p, q :: 0 <= p < q < |r| ==> Precedes(r[p], r[q])
  }

  /** The tiles in the order of the nested loop: latitude ids outer,
      longitude ids inner. */
  function TileOrder(lon0: int, lon1: int, lat0: int, lat1: int): (tiles: seq<(int, int)>)
    ensures |tiles| == if lon1 < lon0 || lat1 < lat0 then 0 else (lon1 - lon0 + 1) * (lat1 - lat0 + 1)
    decreases lat1 - lat0
  {
    if lat1 < lat0 then []
    else
      var before := TileOrder(lon0, lon1, lat0, lat1 - 1);
      assert lon0 <= lon1 ==> (lon1 - lon0 + 1) * (lat1 - lat0 + 1) == (lon1 - lon0 + 1) * (lat1 - 1 - lat0 + 1) + (lon1 - lon0 + 1);
      before + Row(lon0, lon1, lat1)
  }

  /** The loop visits exactly the tiles of the two id ranges. */
  lemma {:induction false} TileOrderMembers(lon0: int, lon1: int, lat0: int, lat1: int)
    ensures forall t :: t in TileOrder(lon0, lon1, lat0, lat1) <==> lon0 <= t.0 <= lon1 && lat0 <= t.1 <= lat1
    decreases lat1 - lat0
  {
    if lat0 <= lat1 {
      TileOrderMembers(lon0, lon1, lat0, lat1 - 1);
      var row := Row(lon0, lon1, lat1);
      forall t: (int, int) | t in row ensures lon0 <= t.0 <= lon1 && t.1 == lat1 {
        var k :| 0 <= k < |row| && row[k] == t;
      }
      forall t: (int, int) | lon0 <= t.0 <= lon1 && t.1 == lat1 ensures t in row {
        assert row[t.0 - lon0] == t;
      }
    }
  }

  /** The loop visits the tiles in increasing (lat, lon) order. */
  lemma {:induction false} TileOrderSorted(lon0: int, lon1: int, lat0: int, lat1: int)
    ensures VisitOrder(TileOrder(lon0, lon1, lat0, lat1))
    decreases lat1 - lat0
  {
    if lat0 <= lat1 {
      var before, row := TileOrder(lon0, lon1, lat0, lat1 - 1), Row(lon0, lon1, lat1);
      TileOrderSorted(lon0, lon1, lat0, lat1 - 1);
      TileOrderMembers(lon0, lon1, lat0, lat1 - 1);
      var r := before + row;
      assert r == TileOrder(lon0, lon1, lat0, lat1);
      forall p, q | 0 <= p < q < |r| ensures Precedes(r[p], r[q]) {
        if q < |before| {
          assert r[p] == before[p] && r[q] == before[q];
          assert Precedes(before[p], before[q]);
        } else if p >= |before| {
          assert r[p] == row[p - |before|] && r[q] == row[q - |before|];
          assert r[p].1 == lat1 && r[q].1 == lat1;
          assert Precedes(r[p], r[q]);
        } else {
          assert r[p] == before[p] && before[p] in before;
          assert r[p].1 < lat1;
          assert r[q] == row[q - |before|];
          assert Precedes(r[p], r[q]);
        }
      }
    }
  }

  /** No tile is visited twice. */
  lemma TileOrderNoRepeats(lon0: int, lon1: int, lat0: int, lat1: int)
    ensures var r := TileOrder(lon0, lon1, lat0, lat1);
      forall p, q :: 0 <= p < q < |r| ==> r[p] != r[q]
  {
    TileOrderSorted(lon0, lon1, lat0, lat1);
  }

  lemma PrefixExtend<T>(a: seq<T>, b: seq<T>, c: seq<T>)
    requires a <= b
    ensures a <= b + c
  {
    assert (b + c)[..|a|] == b[..|a|];
  }

  lemma PrefixUnderCommonStart<T>(x: seq<T>, a: seq<T>, b: seq<T>)
    requires a <= b
    ensures x + a <= x + b
  {
    assert (x + b)[..|x + a|] == x + b[..|a|];
  }

  lemma {:induction false} RowPrefix(lon0: int, lon: int, lon1: int, lat: int)
    requires lon <= lon1
    ensures Row(lon0, lon, lat) <= Row(lon0, lon1, lat)
  {
    var short, long := Row(lon0, lon, lat), Row(lon0, lon1, lat);
    assert short == long[..|short|];
  }

  /** The tiles the loop has visited before tile (lon, lat). */
  function Visited(lon0: int, lon1: int, lat0: int, lat: int, lon: int): seq<(int, int)>
  {
    TileOrder(lon0, lon1, lat0, lat - 1) + Row(lon0, lon - 1, lat)
  }

  /** What the loop has visited up to and including tile (lon, lat) is a
      prefix of the whole visiting order. */
  lemma {:induction false} TileOrderPrefix(lon0: int, lon1: int, lat0: int, lat1: int, lat: int, lon: int)
    requires lat0 <= lat <= lat1 && lon0 <= lon <= lon1
    ensures Visited(lon0, lon1, lat0, lat, lon + 1) <= TileOrder(lon0, lon1, lat0, lat1)
    decreases lat1 - lat
  {
    if lat1 == lat {
      RowPrefix(lon0, lon, lon1, lat);
      PrefixUnderCommonStart(TileOrder(lon0, lon1, lat0, lat - 1), Row(lon0, lon, lat), Row(lon0, lon1, lat));
    } else {
      TileOrderPrefix(lon0, lon1, lat0, lat1 - 1, lat, lon);
      PrefixExtend(Visited(lon0, lon1, lat0, lat, lon + 1), TileOrder(lon0, lon1, lat0, lat1 - 1), Row(lon0, lon1, lat1));
    }
  }

  lemma VisitedStart(lon0: int, lon1: int, lat0: int, lat: int)
    ensures Visited(lon0, lon1, lat0, lat, lon0) == TileOrder(lon0, lon1, lat0, lat - 1)
  {
    assert Row(lon0, lon0 - 1, lat) == [];
  }

  lemma VisitedStep(lon0: int, lon1: int, lat0: int, lat: int, lon: int)
    requires lon0 <= lon
    ensures Visited(lon0, lon1, lat0, lat, lon + 1) == Visited(lon0, lon1, lat0, lat, lon) + [(lon, lat)]
  {
    assert Row(lon0, lon, lat) == Row(lon0, lon - 1, lat) + [(lon, lat)];
  }

  lemma VisitedRowDone(lon0: int, lon1: int, lat0: int, lat: int, lon: int)
    requires lat0 <= lat && lon0 <= lon && (lon == lon1 + 1 || (lon == lon0 && lon1 < lon0))
    ensures Visited(lon0, lon1, lat0, lat, lon) == TileOrder(lon0, lon1, lat0, lat)
  {
    assert Row(lon0, lon - 1, lat) == Row(lon0, lon1, lat);
  }

  // ---------------------------------------------------------------------
  // Collecting the datasets
  // ---------------------------------------------------------------------


  /** A tile the loop gets past: fetched and opened, or skipped. */
  predicate Usable(t: (int, int), src: Sources)
  {
    match src.fetch(t)
    case Fetched => src.open(t).Some?
    case ConnectionRefused => true
    case FetchError => false
  }

  /** One visit of the loop body: None for a skipped tile, the opened
      dataset, or the exception. */
  function Visit(t: (int, int), src: Sources): (r: Result<Option<Dataset>>)
    ensures r.Ok? <==> Usable(t, src)
    ensures r.Ok? && r.value.Some? <==> src.fetch(t) == Fetched && src.open(t).Some?
    ensures r.Ok? && r.value.Some? ==> r.value.value == src.open(t).value
    ensures r.Err? ==> r.error == DownloadFailed(t.0, t.1) || r.error == OpenFailed(t.0, t.1)
  {
    match src.fetch(t)
    case ConnectionRefused => Ok(None)
    case FetchError => Err(DownloadFailed(t.0, t.1))
    case Fetched =>
      if src.open(t).None? then Err(OpenFailed(t.0, t.1)) else Ok(Some(src.open(t).value))
  }

  /** The datasets list after the loop has visited the given tiles, in
      order, or the exception that ended it. */
  function Gather(tiles: seq<(int, int)>, src: Sources): (r: Result<seq<Dataset>>)
    ensures r.Ok? <==> forall k :: 0 <= k < |tiles| ==> Usable(tiles[k], src)
    ensures r.Err? ==> r.error.DownloadFailed? || r.error.OpenFailed?
  {
    if |tiles| == 0 then Ok([])
    else
      var before :- Gather(tiles[..|tiles| - 1], src);
      var got :- Visit(tiles[|tiles| - 1], src);
      if got.None? then Ok(before) else Ok(before + [got.value])
  }

  /** At most one dataset per tile; none at all exactly when every download
      raised ConnectionError. */
  lemma {:induction false} GatherCount(tiles: seq<(int, int)>, src: Sources)
    requires Gather(tiles, src).Ok?
    ensures |Gather(tiles, src).value| <= |tiles|
    ensures Gather(tiles, src).value == [] <==>
      forall k :: 0 <= k < |tiles| ==> src.fetch(tiles[k]) == ConnectionRefused
  {
    if |tiles| > 0 {
      var front := tiles[..|tiles| - 1];
      GatherCount(front, src);
      assert forall k :: 0 <= k < |front| ==> front[k] == tiles[k];
    }
  }

  /** Every dataset gathered is one that open returned. */
  lemma {:induction false} GatherWellFormed(tiles: seq<(int, int)>, src: Sources)
    requires Gather(tiles, src).Ok? && OpensWellFormed(src)
    ensures AllWellFormed(Gather(tiles, src).value)
  {
    if |tiles| > 0 {
      GatherWellFormed(tiles[..|tiles| - 1], src);
      var got := Visit(tiles[|tiles| - 1], src);
      if got.value.Some? {
        assert WellFormed(got.value.value);
      }
    }
  }

  /** Visiting two runs of tiles one after the other. */
  lemma {:induction false} GatherAppend(a: seq<(int, int)>, b: seq<(int, int)>, src: Sources)
    ensures Gather(a + b, src) ==
      if Gather(a, src).Err? then Gather(a, src)
      else if Gather(b, src).Err? then Gather(b, src)
      else Ok(Gather(a, src).value + Gather(b, src).value)
    decreases |b|
  {
    if |b| == 0 {
      assert a + b == a;
      if Gather(a, src).Ok? {
        assert Gather(a, src).value + [] == Gather(a, src).value;
      }
    } else {
      var front := b[..|b| - 1];
      assert (a + b)[..|a + b| - 1] == a + front;
      assert (a + b)[|a + b| - 1] == b[|b| - 1];
      GatherAppend(a, front, src);
      if Gather(a, src).Ok? && Gather(front, src).Ok? {
        var got := Visit(b[|b| - 1], src);
        if got.Ok? && got.value.Some? {
          var x, y := Gather(a, src).value, Gather(front, src).value;
          assert x + y + [got.value.value] == x + (y + [got.value.value]);
        }
      }
    }
  }

  /** A tile whose download raises ConnectionError is as if it were not there. */
  lemma GatherSkipsRefused(a: seq<(int, int)>, t: (int, int), b: seq<(int, int)>, src: Sources)
    requires src.fetch(t) == ConnectionRefused
    ensures Gather(a + [t] + b, src) == Gather(a + b, src)
  {
    assert [t][..0] == [];
    GatherAppend(a, [t], src);
    GatherAppend(a + [t], b, src);
    GatherAppend(a, b, src);
  }

  /** The exception is that of the first tile the loop cannot get past. */
  lemma GatherFirstError(tiles: seq<(int, int)>, src: Sources, k: nat)
    requires k < |tiles| && !Usable(tiles[k], src)
    requires forall m :: 0 <= m < k ==> Usable(tiles[m], src)
    ensures var t := tiles[k];
      Gather(tiles, src) == Err(if src.fetch(t) == FetchError then DownloadFailed(t.0, t.1) else OpenFailed(t.0, t.1))
  {
    var before, rest := tiles[..k], tiles[k + 1..];
    assert tiles == before + [tiles[k]] + rest;
    assert [tiles[k]][..0] == [];
    GatherAppend(before, [tiles[k]], src);
    GatherAppend(before + [tiles[k]], rest, src);
  }

  /** When every tile is fetched and opened, the datasets are the tiles' datasets, in order. */
  lemma {:induction false} GatherAllFetched(tiles: seq<(int, int)>, src: Sources)
    requires forall k :: 0 <= k < |tiles| ==>
      src.fetch(tiles[k]) == Fetched && src.open(tiles[k]).Some?
    ensures Gather(tiles, src).Ok? && |Gather(tiles, src).value| == |tiles|
    ensures forall k :: 0 <= k < |tiles| ==> Gather(tiles, src).value[k] == src.open(tiles[k]).value
  {
    if |tiles| > 0 {
      GatherAllFetched(tiles[..|tiles| - 1], src);
    }
  }

  lemma GatherErrorPrefix(a: seq<(int, int)>, b: seq<(int, int)>, src: Sources)
    requires a <= b && Gather(a, src).Err?
    ensures Gather(b, src) == Gather(a, src)
  {
    assert b == a + b[|a|..];
    GatherAppend(a, b[|a|..], src);
  }

  /** One more tile visited. */
  lemma GatherSnoc(tiles: seq<(int, int)>, t: (int, int), src: Sources)
    ensures Gather(tiles + [t], src) ==
      if Gather(tiles, src).Err? then Gather(tiles, src)
      else if Visit(t, src).Err? then Err(Visit(t, src).error)
      else if Visit(t, src).value.None? then Gather(tiles, src)
      else Ok(Gather(tiles, src).value + [Visit(t, src).value.value])
  {
    assert (tiles + [t])[..|tiles|] == tiles;
  }

  /** An exception at tile (lon, lat) is the exception of the whole loop. */
  lemma GatherStopsEarly(lon0: int, lon1: int, lat0: int, lat1: int, lat: int, lon: int, src: Sources)
    requires lat0 <= lat <= lat1 && lon0 <= lon <= lon1
    requires Gather(Visited(lon0, lon1, lat0, lat, lon + 1), src).Err?
    ensures Gather(TileOrder(lon0, lon1, lat0, lat1), src) == Gather(Visited(lon0, lon1, lat0, lat, lon + 1), src)
  {
    TileOrderPrefix(lon0, lon1, lat0, lat1, lat, lon);
    GatherErrorPrefix(Visited(lon0, lon1, lat0, lat, lon + 1), TileOrder(lon0, lon1, lat0, lat1), src);
  }

  /** The nested loop of crop_at_continous_lon_limits: download each tile,
      skip it on ConnectionError, otherwise open it and append it. */
  method CollectDatasets(lonIds: (int, int), latIds: (int, int), src: Sources) returns (r: Result<seq<Dataset>>)
    ensures r == Gather(TileOrder(lonIds.0, lonIds.1, latIds.0, latIds.1), src)
  {
    var lon0, lon1, lat0, lat1 := lonIds.0, lonIds.1, latIds.0, latIds.1;
    var datasets: seq<Dataset> := [];
    var lat := lat0;
    while lat <= lat1
      invariant lat0 <= lat && (lat <= lat1 + 1 || lat == lat0)
      invariant Gather(TileOrder(lon0, lon1, lat0, lat - 1), src) == Ok(datasets)
    {
      var lon := lon0;
      VisitedStart(lon0, lon1, lat0, lat);
      while lon <= lon1
        invariant lon0 <= lon && (lon <= lon1 + 1 || lon == lon0)
        invariant Gather(Visited(lon0, lon1, lat0, lat, lon), src) == Ok(datasets)
      {
        VisitedStep(lon0, lon1, lat0, lat, lon);
        GatherSnoc(Visited(lon0, lon1, lat0, lat, lon), (lon, lat), src);
        var outcome := src.fetch((lon, lat));
        if outcome == FetchError {
          GatherStopsEarly(lon0, lon1, lat0, lat1, lat, lon, src);
          return Err(DownloadFailed(lon, lat));
        } else if outcome == Fetched {
          var db := src.open((lon, lat));
          if db.None? {
            GatherStopsEarly(lon0, lon1, lat0, lat1, lat, lon, src);
            return Err(OpenFailed(lon, lat));
          }
          datasets := datasets + [db.value];
        }
        lon := lon + 1;
      }
      VisitedRowDone(lon0, lon1, lat0, lat, lon);
      lat := lat + 1;
    }
    r := Ok(datasets);
  }

  // ---------------------------------------------------------------------
  // One span of continuous longitudes
  // ---------------------------------------------------------------------

  /** Everything crop_at_continous_lon_limits decides before it writes a
      cell: the grid and the opened datasets of the span, None when its
      latitudes miss the coverage, or the exception it raises. */
  function SpanInputs(b: Bounds, datum: string, src: Sources): (r: Result<Option<SpanData>>)
    requires OpensWellFormed(src)
    ensures r == Ok(None) <==>
      ParseDatum(datum).Ok? && IntersectIntervals(LatAxis(b), COVERAGE) == Ok(None)
    ensures r.Ok? && r.value.Some? ==>
      && PlanSpan(b, datum, src).Ok? && PlanSpan(b, datum, src).value.Some?
      && Assemble(PlanSpan(b, datum, src).value.value, src) == Ok(r.value.value)
    // an exception is the planning's, or else that of the rest of the span
    ensures var plan := PlanSpan(b, datum, src);
      r.Err? <==> plan.Err? || (plan.value.Some? && Assemble(plan.value.value, src).Err?)
    ensures var plan := PlanSpan(b, datum, src);
      r.Err? ==>
        || (plan.Err? && r.error == plan.error)
        || (plan.Ok? && plan.value.Some? && Assemble(plan.value.value, src) == Err(r.error))
  {
    var plan :- PlanSpan(b, datum, src);
    if plan.None? then Ok(None)
    else
      var inputs :- Assemble(plan.value, src);
      Ok(Some(inputs))
  }

  /** What determines the raster of a covered span: its grid, the datasets
      merged onto it, and the datum of the heights. */
  datatype SpanData = SpanData(grid: Alignment, datasets: seq<Dataset>, datum: Datum)

  predicate Mergeable(g: Alignment, datasets: seq<Dataset>)
  {
    AxisAligned(g.transform) && AllWellFormed(datasets) && AllPlaced(datasets, g.transform, g.shape)
  }

  /** Some merged height changes under the datum conversion. */
  predicate HeightsChange(g: Alignment, datasets: seq<Dataset>, convert: Conversion)
    requires Mergeable(g, datasets)
  {
    exists i, j :: 0 <= i < g.shape.rows && 0 <= j < g.shape.cols &&
      Differs(RawAt(convert, g.transform, i, j, MergedCell(datasets, g.transform, g.shape, NaN, i, j)),
              MergedCell(datasets, g.transform, g.shape, NaN, i, j))
  }

  /** The rest of crop_at_continous_lon_limits for a planned span: visit the
      tiles, fail when no dataset was opened, check that merge can place
      every dataset, and for the ellipsoidal datum that to_ellipsoid changes
      some height. */
  function Assemble(p: Plan, src: Sources): (r: Result<SpanData>)
    requires OpensWellFormed(src) && AxisAligned(p.grid.transform)
    ensures r.Ok? ==>
      var d := r.value;
      && d.grid == p.grid && d.datum == p.datum
      && Gather(TileOrder(p.lonIds.0, p.lonIds.1, p.latIds.0, p.latIds.1), src) == Ok(d.datasets)
      && d.datasets != [] && Mergeable(d.grid, d.datasets)
      && d.grid.shape.rows >= 0 && d.grid.shape.cols >= 0
      && (d.datum == Ellipsoidal ==> HeightsChange(d.grid, d.datasets, src.toEllipsoid))
    // the span succeeds exactly when the loop finishes with some dataset,
    // merge can place every one, and to_ellipsoid's assertion holds
    ensures var gathered := Gather(TileOrder(p.lonIds.0, p.lonIds.1, p.latIds.0, p.latIds.1), src);
      r.Ok? <==>
        && gathered.Ok? && gathered.value != []
        && p.grid.shape.rows >= 0 && p.grid.shape.cols >= 0
        && Mergeable(p.grid, gathered.value)
        && (p.datum == Ellipsoidal ==> HeightsChange(p.grid, gathered.value, src.toEllipsoid))
    // the exceptions, in the order the code raises them
    ensures var gathered := Gather(TileOrder(p.lonIds.0, p.lonIds.1, p.latIds.0, p.latIds.1), src);
      && (gathered.Err? ==> r == Err(gathered.error))
      && (gathered == Ok([]) ==> r == Err(NoDemFound))
      && ((gathered.Ok? && gathered.value != [] && (p.grid.shape.rows < 0 || p.grid.shape.cols < 0))
          ==> r == Err(NegativeShape))
      && ((gathered.Ok? && gathered.value != [] && p.grid.shape.rows >= 0 && p.grid.shape.cols >= 0
           && AllWellFormed(gathered.value) && !AllPlaced(gathered.value, p.grid.transform, p.grid.shape))
          ==> (var placed := CheckPlacements(gathered.value, p.grid.transform, p.grid.shape);
               placed.Err? && r == Err(placed.error)))
      && ((gathered.Ok? && gathered.value != [] && p.grid.shape.rows >= 0 && p.grid.shape.cols >= 0
           && Mergeable(p.grid, gathered.value) && p.datum == Ellipsoidal
           && !HeightsChange(p.grid, gathered.value, src.toEllipsoid))
          ==> r == Err(HeightsUnchanged))
    ensures r.Err? ==>
      || r.error.DownloadFailed? || r.error.OpenFailed? || r.error == NoDemFound
      || r.error == NegativeShape || PlacementFailure(r.error) || r.error == HeightsUnchanged
  {
    var tiles := TileOrder(p.lonIds.0, p.lonIds.1, p.latIds.0, p.latIds.1);
    var datasets :- Gather(tiles, src);
    GatherWellFormed(tiles, src);
    if datasets == [] then Err(NoDemFound)
    else if p.grid.shape.rows < 0 || p.grid.shape.cols < 0 then Err(NegativeShape)
    else if !AllPlaced(datasets, p.grid.transform, p.grid.shape) then
      CheckPlacementsOk(datasets, p.grid.transform, p.grid.shape);
      Err(CheckPlacements(datasets, p.grid.transform, p.grid.shape).error)
    else if p.datum == Ellipsoidal && !HeightsChange(p.grid, datasets, src.toEllipsoid) then
      Err(HeightsUnchanged)
    else Ok(SpanData(p.grid, datasets, p.datum))
  }

  /** "No DEM found on bounds" exactly when every tile of the span was
      skipped because its download raised ConnectionError. */
  lemma NoDemFoundWhenAllRefused(p: Plan, src: Sources)
    requires OpensWellFormed(src) && AxisAligned(p.grid.transform)
    ensures var tiles := TileOrder(p.lonIds.0, p.lonIds.1, p.latIds.0, p.latIds.1);
      Assemble(p, src) == Err(NoDemFound)
      <==> forall k :: 0 <= k < |tiles| ==> src.fetch(tiles[k]) == ConnectionRefused
  {
    var tiles := TileOrder(p.lonIds.0, p.lonIds.1, p.latIds.0, p.latIds.1);
    var gathered := Gather(tiles, src);
    if gathered.Err? {
      assert Assemble(p, src) == Err(gathered.error);
      var k :| 0 <= k < |tiles| && !Usable(tiles[k], src);
      assert src.fetch(tiles[k]) != ConnectionRefused;
    } else {
      GatherCount(tiles, src);
      if gathered.value == [] {
        assert Assemble(p, src) == Err(NoDemFound);
      } else {
        var g, datasets := p.grid, gathered.value;
        GatherWellFormed(tiles, src);
        if g.shape.rows >= 0 && g.shape.cols >= 0 && !AllPlaced(datasets, g.transform, g.shape) {
          CheckPlacementsOk(datasets, g.transform, g.shape);
          assert Assemble(p, src) == Err(CheckPlacements(datasets, g.transform, g.shape).error);
        }
      }
    }
  }

  /** Two spans with the same latitudes agree on whether they are covered,
      and when both are, their rasters have the same number of rows. */
  lemma SameLatitudesSameRows(b1: Bounds, b2: Bounds, datum: string, src: Sources)
    requires OpensWellFormed(src) && b1.s == b2.s && b1.n == b2.n
    ensures SpanInputs(b1, datum, src) == Ok(None) <==> SpanInputs(b2, datum, src) == Ok(None)
    ensures var r1, r2 := SpanInputs(b1, datum, src), SpanInputs(b2, datum, src);
      r1.Ok? && r1.value.Some? && r2.Ok? && r2.value.Some? ==>
      r1.value.value.grid.shape.rows == r2.value.value.grid.shape.rows
  {
    assert LatAxis(b1) == LatAxis(b2);
  }

  /** The height crop_at_continous_lon_limits returns for pixel (i, j): the
      merged value, converted at the pixel centre for the ellipsoidal datum. */
  function Height(d: SpanData, convert: Conversion, i: int, j: int): Cell
    requires Mergeable(d.grid, d.datasets)
  {
    var merged := MergedCell(d.datasets, d.grid.transform, d.grid.shape, NaN, i, j);
    if d.datum == Ellipsoidal then ShiftAt(convert, d.grid.transform, i, j, merged) else merged
  }

  /** The heights of span d sit in the columns of raster starting at col0. */
  predicate Shows(raster: array2<Cell>, d: SpanData, convert: Conversion, col0: int)
    reads raster
  {
    && Mergeable(d.grid, d.datasets)
    && raster.Length0 == d.grid.shape.rows && 0 <= col0 && col0 + d.grid.shape.cols <= raster.Length1
    && forall i, j :: 0 <= i < d.grid.shape.rows && 0 <= j < d.grid.shape.cols ==>
         raster[i, col0 + j] == Height(d, convert, i, j)
  }

  /** The result of a crop: nothing when the latitudes miss the coverage,
      otherwise the raster and its pixel-is-area transform. */
  datatype Span = NoCoverage | Covered(raster: array2<Cell>, transform: Affine)

  /** A span result agrees with what SpanInputs decided. */
  predicate Delivers(r: Result<Span>, spec: Result<Option<SpanData>>, convert: Conversion)
    reads if r.Ok? && r.value.Covered? then {r.value.raster} else {}
  {
    match spec
    case Err(e) => r == Err(e)
    case Ok(None) => r == Ok(NoCoverage)
    case Ok(Some(d)) =>
      && r.Ok? && r.value.Covered?
      && r.value.transform == d.grid.transform
      && r.value.raster.Length1 == d.grid.shape.cols
      && Shows(r.value.raster, d, convert, 0)
  }

  /** The heights to_ellipsoid is given are those of the merged raster. */
  lemma MergedHeightsChange(raster: array2<Cell>, g: Alignment, datasets: seq<Dataset>, convert: Conversion)
    requires Mergeable(g, datasets)
    requires raster.Length0 == g.shape.rows && raster.Length1 == g.shape.cols
    requires forall i, j :: 0 <= i < g.shape.rows && 0 <= j < g.shape.cols ==>
      raster[i, j] == MergedCell(datasets, g.transform, g.shape, NaN, i, j)
    ensures SomeHeightChanges(raster, g.transform, convert) <==> HeightsChange(g, datasets, convert)
  {
    if SomeHeightChanges(raster, g.transform, convert) {
      var i, j :| 0 <= i < raster.Length0 && 0 <= j < raster.Length1 &&
        Differs(RawAt(convert, g.transform, i, j, raster[i, j]), raster[i, j]);
      assert raster[i, j] == MergedCell(datasets, g.transform, g.shape, NaN, i, j);
    }
    if HeightsChange(g, datasets, convert) {
      var i, j :| 0 <= i < g.shape.rows && 0 <= j < g.shape.cols &&
        Differs(RawAt(convert, g.transform, i, j, MergedCell(datasets, g.transform, g.shape, NaN, i, j)),
                MergedCell(datasets, g.transform, g.shape, NaN, i, j));
      assert raster[i, j] == MergedCell(datasets, g.transform, g.shape, NaN, i, j);
    }
  }

  /** The tile loop, the merge and the datum conversion of a planned span. */
  method MergeSpan(p: Plan, src: Sources) returns (r: Result<array2<Cell>>)
    requires OpensWellFormed(src) && AxisAligned(p.grid.transform)
    ensures match Assemble(p, src)
      case Err(e) => r == Err(e)
      case Ok(d) =>
        && r.Ok? && fresh(r.value) && r.value.Length1 == d.grid.shape.cols
        && Shows(r.value, d, src.toEllipsoid, 0)
  {
    var datasets :- CollectDatasets(p.lonIds, p.latIds, src);
    GatherWellFormed(TileOrder(p.lonIds.0, p.lonIds.1, p.latIds.0, p.latIds.1), src);
    if datasets == [] {
      return Err(NoDemFound);
    }
    var merged := Merge(datasets, p.grid.transform, p.grid.shape, NaN);
    if merged.Err? {
      if !(p.grid.shape.rows < 0 || p.grid.shape.cols < 0) {
        CheckPlacementsOk(datasets, p.grid.transform, p.grid.shape);
      }
      return Err(merged.error);
    }
    var raster := merged.value;
    if p.datum == Ellipsoidal {
      var shifted, changed := ToEllipsoid(raster, p.grid.transform, src.toEllipsoid);
      MergedHeightsChange(raster, p.grid, datasets, src.toEllipsoid);
      if !changed {
        return Err(HeightsUnchanged);
      }
      raster := shifted;
    }
    return Ok(raster);
  }

  /** crop_at_continous_lon_limits. */
  method CropSpan(b: Bounds, datum: string, src: Sources) returns (r: Result<Span>)
    requires OpensWellFormed(src)
    ensures Delivers(r, SpanInputs(b, datum, src), src.toEllipsoid)
    ensures r.Ok? && r.value.Covered? ==> fresh(r.value.raster)
  {
    var plan :- PlanSpan(b, datum, src);
    if plan.None? {
      return Ok(NoCoverage);
    }
    var raster :- MergeSpan(plan.value, src);
    return Ok(Covered(raster, plan.value.grid.transform));
  }

  // ---------------------------------------------------------------------
  // crop: the antimeridian split
  // ---------------------------------------------------------------------

  /** How crop cuts the bounds: one span, or a western and an eastern span. */
  datatype Pieces = Whole(bounds: Bounds) | Halves(west: Bounds, east: Bounds)

  /** The inset that keeps each half strictly inside [-180, 180). */
  const OFFSET: real := 0.1 * RES

  function SplitAtAntimeridian(b: Bounds): (r: Result<Pieces>)
    ensures r.Err? <==> b.w > b.e
    ensures r.Err? ==> r.error == InvalidLonInterval
    ensures r.Ok? && r.value.Whole? ==> r.value.bounds == b && WrapLon(b.w) <= WrapLon(b.e)
    ensures r.Ok? && r.value.Halves? ==>
      && WrapLon(b.e) < WrapLon(b.w)
      && r.value.west == Bounds(WrapLon(b.w), b.s, 180.0 - RES - OFFSET, b.n)
      && r.value.east == Bounds(-180.0 + OFFSET, b.s, WrapLon(b.e), b.n)
  {
    if b.w > b.e then Err(InvalidLonInterval)
    else
      var start, end := WrapLon(b.w), WrapLon(b.e);
      if end < start then
        Ok(Halves(Bounds(start, b.s, 180.0 - RES - OFFSET, b.n), Bounds(-180.0 + OFFSET, b.s, end, b.n)))
      else Ok(Whole(b))
  }

  /** The number of the 360-degree band a longitude falls in, counting the
      band [-180, 180) as 0. */
  function Turn(lon: real): int { ((lon + 180.0) / 360.0).Floor }

  lemma TurnOfWrap(lon: real)
    ensures WrapLon(lon) == lon - 360.0 * Turn(lon) as real
  {
  }

  /** The bounds pass over the antimeridian 180 + 360m. */
  predicate CrossesAt(b: Bounds, m: int)
  {
    b.w < 180.0 + 360.0 * m as real <= b.e
  }

  lemma CrossingMovesToLaterTurn(b: Bounds, m: int)
    ensures CrossesAt(b, m) ==> Turn(b.w) <= m < Turn(b.e)
  {
    if CrossesAt(b, m) {
      var qw, qe := (b.w + 180.0) / 360.0, (b.e + 180.0) / 360.0;
      assert qw < (m + 1) as real <= qe;
    }
  }

  /** For bounds less than a full turn wide, crop splits exactly when the
      bounds pass over the antimeridian (a longitude 180 + 360m) after
      their western edge. */
  lemma SplitIffCrossesAntimeridian(b: Bounds)
    requires b.w <= b.e < b.w + 360.0
    ensures SplitAtAntimeridian(b).Ok?
    ensures SplitAtAntimeridian(b).value.Halves? <==> exists m: int :: CrossesAt(b, m)
  {
    var tw, te := Turn(b.w), Turn(b.e);
    TurnOfWrap(b.w);
    TurnOfWrap(b.e);
    var qw, qe := (b.w + 180.0) / 360.0, (b.e + 180.0) / 360.0;
    assert qw <= qe < qw + 1.0;
    assert tw <= te <= tw + 1;
    if te == tw + 1 {
      assert CrossesAt(b, tw);
    } else {
      forall m: int ensures CrossesAt(b, m) ==> tw < te {
        CrossingMovesToLaterTurn(b, m);
      }
    }
  }

  /** The two halves meet on the pixel grid: the western raster ends one
      pixel before longitude 180 and the eastern one starts at -180. */
  lemma HalvesMeetOnGrid(b: Bounds)
    requires SplitAtAntimeridian(b).Ok? && SplitAtAntimeridian(b).value.Halves?
    ensures AdjustBoundsToPxGrid(SplitAtAntimeridian(b).value.west).bounds.e == 180.0 - RES
    ensures AdjustBoundsToPxGrid(SplitAtAntimeridian(b).value.east).bounds.w == -180.0
  {
    var e := 180.0 - RES - OFFSET;
    var w := -180.0 + OFFSET;
    assert e / RES == 215998.9;
    assert Ceil(e / RES) == 215999;
    assert w / RES == -215999.9;
    assert (w / RES).Floor == -216000;
  }

  /** np.hstack of two rasters with the same number of rows. */
  method HStack(west: array2<Cell>, east: array2<Cell>) returns (c: array2<Cell>)
    requires west.Length0 == east.Length0
    ensures fresh(c) && c.Length0 == west.Length0 && c.Length1 == west.Length1 + east.Length1
    ensures forall i, j :: 0 <= i < c.Length0 && 0 <= j < c.Length1 ==>
      c[i, j] == if j < west.Length1 then west[i, j] else east[i, j - west.Length1]
  {
    c := new Cell[west.Length0, west.Length1 + east.Length1];
    var i := 0;
    while i < c.Length0
      invariant 0 <= i <= c.Length0
      invariant forall i', j :: 0 <= i' < i && 0 <= j < c.Length1 ==>
        c[i', j] == if j < west.Length1 then west[i', j] else east[i', j - west.Length1]
    {
      var j := 0;
      while j < c.Length1
        invariant 0 <= j <= c.Length1
        invariant forall i', j' :: 0 <= i' < i && 0 <= j' < c.Length1 ==>
          c[i', j'] == if j' < west.Length1 then west[i', j'] else east[i', j' - west.Length1]
        invariant forall j' :: 0 <= j' < j ==>
          c[i, j'] == if j' < west.Length1 then west[i, j'] else east[i, j' - west.Length1]
      {
        c[i, j] := if j < west.Length1 then west[i, j] else east[i, j - west.Length1];
        j := j + 1;
      }
      i := i + 1;
    }
  }

  /** The result of a split crop agrees with what SpanInputs decided for
      each half: the first exception, nothing, or both rasters side by side
      with the western transform. */
  predicate DeliversStitched(r: Result<Span>, west: Result<Option<SpanData>>, east: Result<Option<SpanData>>,
                             convert: Conversion)
    reads if r.Ok? && r.value.Covered? then {r.value.raster} else {}
  {
    match west
    case Err(e) => r == Err(e)
    case Ok(None) => r == Ok(NoCoverage)
    case Ok(Some(gw)) =>
      match east
      case Err(e) => r == Err(e)
      // Cannot arise: both halves have the same latitudes (SameLatitudesSameRows).
      case Ok(None) => false
      case Ok(Some(ge)) =>
        && r.Ok? && r.value.Covered?
        && r.value.transform == gw.grid.transform
        && r.value.raster.Length1 == gw.grid.shape.cols + ge.grid.shape.cols
        && Shows(r.value.raster, gw, convert, 0)
        && Shows(r.value.raster, ge, convert, gw.grid.shape.cols)
  }

  /** crop: check the longitude interval, wrap both ends, and when the
      wrapped interval is reversed crop the western and the eastern half
      and stack them; otherwise crop the bounds as given. */
  method Crop(b: Bounds, datum: string, src: Sources) returns (r: Result<Span>)
    requires OpensWellFormed(src)
    ensures match SplitAtAntimeridian(b)
      case Err(e) => r == Err(e)
      case Ok(Whole(whole)) => Delivers(r, SpanInputs(whole, datum, src), src.toEllipsoid)
      case Ok(Halves(west, east)) =>
        DeliversStitched(r, SpanInputs(west, datum, src), SpanInputs(east, datum, src), src.toEllipsoid)
    ensures r.Ok? && r.value.Covered? ==> fresh(r.value.raster)
  {
    var pieces :- SplitAtAntimeridian(b);
    if pieces.Whole? {
      r := CropSpan(pieces.bounds, datum, src);
    } else {
      r := CropHalves(pieces.west, pieces.east, datum, src);
    }
  }

  /** The split branch of crop: the western half, then the eastern half,
      stacked side by side under the western transform. */
  method CropHalves(west: Bounds, east: Bounds, datum: string, src: Sources) returns (r: Result<Span>)
    requires OpensWellFormed(src) && west.s == east.s && west.n == east.n
    ensures DeliversStitched(r, SpanInputs(west, datum, src), SpanInputs(east, datum, src), src.toEllipsoid)
    ensures r.Ok? && r.value.Covered? ==> fresh(r.value.raster)
  {
    var westSpan :- CropSpan(west, datum, src);
    var eastSpan :- CropSpan(east, datum, src);
    SameLatitudesSameRows(west, east, datum, src);
    if westSpan.NoCoverage? {
      return Ok(NoCoverage);
    }
    assert eastSpan.Covered?;
    var raster := Stitch(westSpan, eastSpan, SpanInputs(west, datum, src).value.value,
                         SpanInputs(east, datum, src).value.value, src.toEllipsoid);
    return Ok(Covered(raster, westSpan.transform));
  }

  /** np.hstack of the two covered halves: each half's mosaic keeps its
      cells, the eastern one shifted right by the width of the western one. */
  method Stitch(westSpan: Span, eastSpan: Span, ghost gw: SpanData, ghost ge: SpanData,
                ghost convert: Conversion)
      returns (raster: array2<Cell>)
    requires Delivers(Ok(westSpan), Ok(Some(gw)), convert) && Delivers(Ok(eastSpan), Ok(Some(ge)), convert)
    requires gw.grid.shape.rows == ge.grid.shape.rows
    ensures fresh(raster) && raster.Length1 == gw.grid.shape.cols + ge.grid.shape.cols
    ensures Shows(raster, gw, convert, 0) && Shows(raster, ge, convert, gw.grid.shape.cols)
  {
    raster := HStack(westSpan.raster, eastSpan.raster);
    var offset := westSpan.raster.Length1;
    forall i, j | 0 <= i < ge.grid.shape.rows && 0 <= j < ge.grid.shape.cols
      ensures raster[i, offset + j] == eastSpan.raster[i, j]
    {
      assert !(offset + j < offset);
    }
  }
}
