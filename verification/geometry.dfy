/** One-axis intervals, (w, s, e, n) boxes and longitude wrapping. */
module Geometry {
  import opened Outcomes

  /** A closed interval (low, up) on one axis. */
  datatype Interval = Interval(low: real, up: real)

  /** A geographic box (lon_min, lat_min, lon_max, lat_max), i.e. (w, s, e, n). */
  datatype Bounds = Bounds(w: real, s: real, e: real, n: real)

  function Max(a: real, b: real): real { if a >= b then a else b }

  function Min(a: real, b: real): real { if a <= b then a else b }

  /** What assert_interval accepts: the upper end strictly above the lower. */
  predicate IsInterval(i: Interval) { i.up > i.low }

  predicate InInterval(x: real, i: Interval) { i.low <= x <= i.up }

  function LonAxis(b: Bounds): Interval { Interval(b.w, b.e) }

  function LatAxis(b: Bounds): Interval { Interval(b.s, b.n) }

  predicate InBox(x: real, y: real, b: Bounds) { b.w <= x <= b.e && b.s <= y <= b.n }

  // ---------------------------------------------------------------------
  // intersect_intervals
  // ---------------------------------------------------------------------

  /** intersect_intervals: (max of the lows, min of the ups), or None when
      that pair is reversed. Touching intervals give a one-point interval. */
  function IntersectIntervals(one: Interval, two: Interval): (r: Result<Option<Interval>>)
    ensures r.Err? <==> !IsInterval(one) || !IsInterval(two)
    ensures r.Err? ==> r.error == NotAnInterval
    ensures r.Ok? ==> (r.value.None? <==> one.up < two.low || two.up < one.low)
    ensures r.Ok? && r.value.Some? ==>
      var x := r.value.value;
      && x.low <= x.up
      && one.low <= x.low && two.low <= x.low && x.up <= one.up && x.up <= two.up
      && (x.low == one.low || x.low == two.low) && (x.up == one.up || x.up == two.up)
  {
    if !IsInterval(one) || !IsInterval(two) then Err(NotAnInterval)
    else
      var low, up := Max(one.low, two.low), Min(one.up, two.up);
      if low > up then Ok(None) else Ok(Some(Interval(low, up)))
  }

  /** A point lies in the intersection exactly when it lies in both inputs. */
  lemma IntersectIntervalsMembership(one: Interval, two: Interval, x: real)
    requires IsInterval(one) && IsInterval(two)
    ensures (var r := IntersectIntervals(one, two); r.value.Some? && InInterval(x, r.value.value))
        <==> InInterval(x, one) && InInterval(x, two)
  {
  }

  /** The result is None exactly when the two inputs share no point. */
  lemma IntersectIntervalsEmpty(one: Interval, two: Interval)
    requires IsInterval(one) && IsInterval(two)
    ensures IntersectIntervals(one, two) == Ok(None)
        <==> forall x :: !(InInterval(x, one) && InInterval(x, two))
  {
    var r := IntersectIntervals(one, two);
    if r.value.Some? {
      var common := r.value.value.low;
      IntersectIntervalsMembership(one, two, common);
      assert InInterval(common, one) && InInterval(common, two);
    } else {
      forall x ensures !(InInterval(x, one) && InInterval(x, two)) {
        IntersectIntervalsMembership(one, two, x);
      }
    }
  }

  lemma IntersectIntervalsSymmetric(one: Interval, two: Interval)
    ensures IntersectIntervals(one, two) == IntersectIntervals(two, one)
  {
  }

  /** Intervals that only touch give the degenerate interval (x, x). */
  lemma TouchingIntervals(one: Interval, two: Interval)
    requires IsInterval(one) && IsInterval(two) && one.up == two.low
    ensures IntersectIntervals(one, two) == Ok(Some(Interval(two.low, two.low)))
  {
  }

  // ---------------------------------------------------------------------
  // intersect_bounds
  // ---------------------------------------------------------------------

  /** intersect_bounds: the per-axis intersections in (w, s, e, n) order, or
      None when either axis is empty. The longitude axis is checked first. */
  function IntersectBounds(one: Bounds, other: Bounds): (r: Result<Option<Bounds>>)
    ensures r.Err? <==>
      !IsInterval(LonAxis(one)) || !IsInterval(LonAxis(other))
      || !IsInterval(LatAxis(one)) || !IsInterval(LatAxis(other))
    ensures r.Err? ==> r.error == NotAnInterval
    ensures r.Ok? && r.value.Some? ==>
      var b := r.value.value;
      && b.w <= b.e && b.s <= b.n
      && one.w <= b.w && other.w <= b.w && b.e <= one.e && b.e <= other.e
      && one.s <= b.s && other.s <= b.s && b.n <= one.n && b.n <= other.n
    ensures r.Ok? ==> (r.value.None? <==>
      IntersectIntervals(LonAxis(one), LonAxis(other)) == Ok(None)
      || IntersectIntervals(LatAxis(one), LatAxis(other)) == Ok(None))
  {
    var lon :- IntersectIntervals(LonAxis(one), LonAxis(other));
    var lat :- IntersectIntervals(LatAxis(one), LatAxis(other));
    if lon.None? || lat.None? then Ok(None)
    else Ok(Some(Bounds(lon.value.low, lat.value.low, lon.value.up, lat.value.up)))
  }

  /** A point lies in the intersection box exactly when it lies in both boxes. */
  lemma IntersectBoundsMembership(one: Bounds, other: Bounds, x: real, y: real)
    requires IntersectBounds(one, other).Ok?
    ensures (var r := IntersectBounds(one, other); r.value.Some? && InBox(x, y, r.value.value))
        <==> InBox(x, y, one) && InBox(x, y, other)
  {
    IntersectIntervalsMembership(LonAxis(one), LonAxis(other), x);
    IntersectIntervalsMembership(LatAxis(one), LatAxis(other), y);
    var lon := IntersectIntervals(LonAxis(one), LonAxis(other));
    var lat := IntersectIntervals(LatAxis(one), LatAxis(other));
    if lon.value.Some? && lat.value.Some? {
      // The two axes are independent, so the box is the product of the axes.
    } else if InBox(x, y, one) && InBox(x, y, other) {
      IntersectIntervalsEmpty(LonAxis(one), LonAxis(other));
      IntersectIntervalsEmpty(LatAxis(one), LatAxis(other));
      assert false;
    }
  }

  /** The result is None exactly when the boxes share no point. */
  lemma IntersectBoundsEmpty(one: Bounds, other: Bounds)
    requires IntersectBounds(one, other).Ok?
    ensures IntersectBounds(one, other) == Ok(None)
        <==> forall x, y :: !(InBox(x, y, one) && InBox(x, y, other))
  {
    var r := IntersectBounds(one, other);
    if r.value.Some? {
      var b := r.value.value;
      IntersectBoundsMembership(one, other, b.w, b.s);
    } else {
      forall x, y ensures !(InBox(x, y, one) && InBox(x, y, other)) {
        IntersectBoundsMembership(one, other, x, y);
      }
    }
  }

  lemma IntersectBoundsSymmetric(one: Bounds, other: Bounds)
    ensures IntersectBounds(one, other) == IntersectBounds(other, one)
  {
    IntersectIntervalsSymmetric(LonAxis(one), LonAxis(other));
    IntersectIntervalsSymmetric(LatAxis(one), LatAxis(other));
  }

  // ---------------------------------------------------------------------
  // wrap_lon
  // ---------------------------------------------------------------------

  predicate MultipleOf360(x: real) { (x / 360.0).Floor as real == x / 360.0 }

  /** Python's float modulo by 360: the remainder takes the divisor's sign. */
  function Mod360(x: real): (r: real)
    ensures 0.0 <= r < 360.0 && MultipleOf360(x - r)
  {
    x - 360.0 * ((x / 360.0).Floor as real)
  }

  /** wrap_lon: (lon + 180) % 360 - 180. */
  function WrapLon(lon: real): (r: real)
    ensures -180.0 <= r < 180.0
    ensures MultipleOf360(lon - r)
  {
    Mod360(lon + 180.0) - 180.0
  }

  /** WrapLon picks the one longitude in [-180, 180) that differs from lon
      by a whole number of turns. */
  lemma WrapLonUnique(lon: real, y: real)
    requires -180.0 <= y < 180.0 && MultipleOf360(lon - y)
    ensures WrapLon(lon) == y
  {
    var r := WrapLon(lon);
    var k1, k2 := ((lon - y) / 360.0).Floor, ((lon - r) / 360.0).Floor;
    assert y - r == 360.0 * ((k2 - k1) as real);
    assert -1 < k2 - k1 < 1;
  }

  /** wrap_lon is the identity on [-180, 180). */
  lemma WrapLonIdentity(lon: real)
    requires -180.0 <= lon < 180.0
    ensures WrapLon(lon) == lon
  {
    WrapLonUnique(lon, lon);
  }

  /** wrap_lon does not see whole turns. */
  lemma WrapLonPeriodic(lon: real, turns: int)
    ensures WrapLon(lon + 360.0 * turns as real) == WrapLon(lon)
  {
    var r := WrapLon(lon);
    var shifted := lon + 360.0 * turns as real;
    var q := (lon - r) / 360.0;
    var m := q.Floor + turns;
    assert (shifted - r) / 360.0 == q + turns as real;
    assert (shifted - r) / 360.0 == m as real;
    assert ((m as real).Floor) == m;
    WrapLonUnique(lon + 360.0 * turns as real, r);
  }
}
