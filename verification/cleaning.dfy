/** Elevation tidying of a species record (after Busana et al.): repair
    inverted or missing bounds, clamp them into the plausible elevation
    range, and widen a too-narrow band to a minimum separation. Elevations
    are reals; a missing (NaN) bound is `None`. */
module Cleaning {
  import opened Wrappers

  /** The tunable constants: lowest and highest plausible elevation and the
      minimum band width. */
  datatype Bounds = Bounds(min: real, max: real, separation: real)

  /** ELEVATION_MIN, ELEVATION_MAX and ELEVATION_SEPERATION. */
  const DEFAULT_BOUNDS := Bounds(-500.0, 9000.0, 50.0)

  /** An elevation band as it is after tidying: both ends present. */
  datatype Band = Band(lower: real, upper: real)

  /** Bounds wide enough to hold any widened band: the widening can overshoot
      the separation by just under two metres because it rounds up per side. */
  predicate Roomy(b: Bounds)
  {
    b.separation >= 0.0 && b.max - b.min >= b.separation + 2.0
  }

  /** `math.ceil`. */
  function Ceil(x: real): (r: int)
    ensures x <= r as real < x + 1.0
  {
    -((-x).Floor)
  }

  /** Step 1: an inverted band (lower above upper) is reset to the whole range. */
  function ResetInverted(lower: Option<real>, upper: Option<real>, b: Bounds): (r: (Option<real>, Option<real>))
    ensures lower.Some? && upper.Some? && lower.value > upper.value ==> r == (Some(b.min), Some(b.max))
    ensures !(lower.Some? && upper.Some? && lower.value > upper.value) ==> r == (lower, upper)
  {
    if lower.Some? && upper.Some? && lower.value > upper.value then (Some(b.min), Some(b.max))
    else (lower, upper)
  }

  /** Step 2: a missing end takes the range limit on its side; if the other
      end then lies beyond that limit it is replaced by the opposite limit. */
  function FillMissing(lower: Option<real>, upper: Option<real>, b: Bounds): (r: Band)
    ensures lower.None? ==> r.lower == b.min
    ensures lower.None? && upper.Some? && upper.value < b.min ==> r.upper == b.max
    ensures upper.None? ==> r.upper == b.max
    ensures upper.None? && lower.Some? && lower.value > b.max ==> r.lower == b.min
    ensures lower.Some? && !(upper.None? && lower.value > b.max) ==> r.lower == lower.value
    ensures upper.Some? && !(lower.None? && upper.value < b.min) ==> r.upper == upper.value
  {
    var upper1 := if lower.None? && upper.Some? && upper.value < b.min then Some(b.max) else upper;
    var lower1 := lower.GetOr(b.min);
    var lower2 := if upper1.None? && lower1 > b.max then b.min else lower1;
    Band(lower2, upper1.GetOr(b.max))
  }

  /** Step 3: clamp the lower end up to the minimum and the upper end down to
      the maximum. */
  function Clamp(band: Band, b: Bounds): (r: Band)
    ensures r.lower >= b.min && r.upper <= b.max
    ensures r.lower == band.lower || r.lower == b.min
    ensures r.upper == band.upper || r.upper == b.max
    ensures band.lower >= b.min ==> r.lower == band.lower
    ensures band.upper <= b.max ==> r.upper == band.upper
  {
    Band(if band.lower < b.min then b.min else band.lower,
         if band.upper > b.max then b.max else band.upper)
  }

  /** Step 4: a band narrower than the separation is widened by
      `ceil((separation - width) / 2)` on each side; if that pushes one end past
      its limit, the widened band is shifted back as a unit. */
  function Widen(band: Band, b: Bounds): (r: Band)
  {
    var width := band.upper - band.lower;
    if width < b.separation then
      var adjust := Ceil((b.separation - width) / 2.0) as real;
      var lower := band.lower - adjust;
      var upper := band.upper + adjust;
      if lower < b.min then Band(b.min, upper + (b.min - lower))
      else if upper > b.max then Band(lower - (upper - b.max), b.max)
      else Band(lower, upper)
    else band
  }

  /** `tidy_data` with parameterised limits and separation. */
  function TidyData(lower: Option<real>, upper: Option<real>, b: Bounds): Band
  {
    var reset := ResetInverted(lower, upper, b);
    Widen(Clamp(FillMissing(reset.0, reset.1, b), b), b)
  }

  /** `tidy_data` of the top-level cleaning script, whose limits are fixed. */
  function TidyDataFixed(lower: Option<real>, upper: Option<real>): Band
  {
    TidyData(lower, upper, DEFAULT_BOUNDS)
  }

  /** A band already at least `separation` wide is left alone; a narrower one
      comes out exactly `width + 2 * ceil((separation - width) / 2)` wide, so
      at least `separation` wide, whether or not it had to be shifted. */
  lemma WidenSeparation(band: Band, b: Bounds)
    ensures band.upper - band.lower >= b.separation ==> Widen(band, b) == band
    ensures band.upper - band.lower < b.separation ==>
      var r := Widen(band, b);
      var width := band.upper - band.lower;
      && r.upper - r.lower == width + 2.0 * (Ceil((b.separation - width) / 2.0) as real)
      && r.upper - r.lower >= b.separation
  {
  }

  /** A widened band that crosses a limit is moved, not shrunk: it ends up
      touching the crossed limit. */
  lemma WidenShiftsBack(band: Band, b: Bounds)
    requires band.upper - band.lower < b.separation
    ensures
      var adjust := Ceil((b.separation - (band.upper - band.lower)) / 2.0) as real;
      && (band.lower - adjust < b.min ==> Widen(band, b).lower == b.min)
      && (band.lower - adjust >= b.min && band.upper + adjust > b.max ==> Widen(band, b).upper == b.max)
      && (band.lower - adjust >= b.min && band.upper + adjust <= b.max ==>
            Widen(band, b) == Band(band.lower - adjust, band.upper + adjust))
  {
  }

  /** Widening a clamped band keeps it inside roomy limits. */
  lemma WidenInBounds(band: Band, b: Bounds)
    requires Roomy(b)
    requires band.lower >= b.min && band.upper <= b.max
    ensures b.min <= Widen(band, b).lower <= Widen(band, b).upper <= b.max
    ensures Widen(band, b).upper - Widen(band, b).lower >= b.separation
  {
    var width := band.upper - band.lower;
    if width < b.separation {
      var adjust := Ceil((b.separation - width) / 2.0) as real;
      assert 2.0 * adjust < b.separation - width + 2.0;
      assert adjust > 0.0;
    }
  }

  /** The central promise of tidying: whatever the input (missing, inverted,
      out of range or too narrow), the band comes out inside the limits and at
      least `separation` wide. */
  lemma TidyDataInvariant(lower: Option<real>, upper: Option<real>, b: Bounds)
    requires Roomy(b)
    ensures var r := TidyData(lower, upper, b);
      b.min <= r.lower <= r.upper <= b.max && r.upper - r.lower >= b.separation
  {
    var reset := ResetInverted(lower, upper, b);
    WidenInBounds(Clamp(FillMissing(reset.0, reset.1, b), b), b);
  }

  /** A band already inside the limits and wide enough is returned unchanged. */
  lemma TidyDataKeepsGoodBand(lower: real, upper: real, b: Bounds)
    requires b.min <= lower && upper <= b.max && upper - lower >= b.separation && b.separation >= 0.0
    ensures TidyData(Some(lower), Some(upper), b) == Band(lower, upper)
  {
  }

  /** Inverted bounds become exactly the whole range when that range is at
      least the separation wide. */
  lemma TidyDataInverted(lower: real, upper: real, b: Bounds)
    requires lower > upper && b.max - b.min >= b.separation
    ensures TidyData(Some(lower), Some(upper), b) == Band(b.min, b.max)
  {
  }

  /** The fixed-constant variant: every input becomes a band within
      [-500, 9000] at least 50 m wide. */
  lemma TidyDataFixedInvariant(lower: Option<real>, upper: Option<real>)
    ensures var r := TidyDataFixed(lower, upper);
      -500.0 <= r.lower <= r.upper <= 9000.0 && r.upper - r.lower >= 50.0
  {
    TidyDataInvariant(lower, upper, DEFAULT_BOUNDS);
  }

  /** The parameterised test table with the default limits. */
  lemma TidyDataDefaultCases()
    ensures TidyData(Some(0.0), Some(100.0), DEFAULT_BOUNDS) == Band(0.0, 100.0)
    ensures TidyData(Some(0.0), Some(1.0), DEFAULT_BOUNDS) == Band(-25.0, 26.0)
    ensures TidyData(None, Some(1.0), DEFAULT_BOUNDS) == Band(-500.0, 1.0)
    ensures TidyData(Some(0.0), None, DEFAULT_BOUNDS) == Band(0.0, 9000.0)
    ensures TidyData(Some(10000.0), None, DEFAULT_BOUNDS) == Band(-500.0, 9000.0)
    ensures TidyData(None, Some(-600.0), DEFAULT_BOUNDS) == Band(-500.0, 9000.0)
    ensures TidyData(Some(1.0), Some(0.0), DEFAULT_BOUNDS) == Band(-500.0, 9000.0)
    ensures TidyData(Some(-1000.0), Some(1.0), DEFAULT_BOUNDS) == Band(-500.0, 1.0)
    ensures TidyData(Some(0.0), Some(10000.0), DEFAULT_BOUNDS) == Band(0.0, 9000.0)
    ensures TidyData(Some(1010.0), Some(1020.0), DEFAULT_BOUNDS) == Band(990.0, 1040.0)
    ensures TidyData(Some(-500.0), Some(-490.0), DEFAULT_BOUNDS) == Band(-500.0, -450.0)
    ensures TidyData(Some(-600.0), Some(-490.0), DEFAULT_BOUNDS) == Band(-500.0, -450.0)
  {
    assert Ceil(49.0 / 2.0) == 25;
    assert Ceil(40.0 / 2.0) == 20;
  }

  /** The parameterised test table with limits -427/8580 and separation 12. */
  lemma TidyDataCustomCases()
    ensures var b := Bounds(-427.0, 8580.0, 12.0);
      && TidyData(Some(0.0), Some(100.0), b) == Band(0.0, 100.0)
      && TidyData(Some(0.0), Some(1.0), b) == Band(-6.0, 7.0)
      && TidyData(None, Some(1.0), b) == Band(-427.0, 1.0)
      && TidyData(Some(0.0), None, b) == Band(0.0, 8580.0)
      && TidyData(Some(10000.0), None, b) == Band(-427.0, 8580.0)
      && TidyData(None, Some(-600.0), b) == Band(-427.0, 8580.0)
      && TidyData(Some(1.0), Some(0.0), b) == Band(-427.0, 8580.0)
      && TidyData(Some(-1000.0), Some(1.0), b) == Band(-427.0, 1.0)
      && TidyData(Some(0.0), Some(10000.0), b) == Band(0.0, 8580.0)
      && TidyData(Some(1010.0), Some(1020.0), b) == Band(1009.0, 1021.0)
      && TidyData(Some(-427.0), Some(-420.0), b) == Band(-427.0, -414.0)
      && TidyData(Some(-600.0), Some(-490.0), b) == Band(-427.0, -414.0)
  {
    assert Ceil(11.0 / 2.0) == 6;
    assert Ceil(2.0 / 2.0) == 1;
    assert Ceil(5.0 / 2.0) == 3;
    assert Ceil(85.0 / 2.0) == 43;
  }
}
