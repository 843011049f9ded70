/** The Area of Habitat derivation shared by the three calculators, once all
    layers sit on one common grid: the habitat stage (with its fallback to
    the range, gated by `force_habitat`), the elevation stage (with its
    fallback to the habitat, never gated) and the totals recorded in the
    manifest. */
module Derivation {
  import opened Wrappers
  import opened Grids
  import opened Species

  /** The five numbers a completed run records in its manifest. */
  datatype Totals = Totals(range: real, hab: real, dem: real, aoh: real, prevalence: real)

  /** What the habitat stage hands on: the range filtered by habitat, or
      nothing because forcing found no habitat, or an exception. */
  datatype HabitatStage = Filtered(grid: Grid) | Exhausted | Crashed(error: Exception)

  /** The AOH raster and its totals. */
  datatype Aoh = Aoh(raster: Grid, totals: Totals)

  /** How a calculator run ends: an exception, only a manifest (carrying an
      error), only a freshly created raster file of the given size whose
      pixels were never written, or an AOH raster with its manifest. */
  datatype Outcome = Raised(error: Exception) | ManifestOnly(manifest: Manifest) | EmptyRaster(w: nat, h: nat) | Written(raster: Grid, manifest: Manifest)

  const ATTRIBUTES_MISSING := "Species data missing one or more needed attributes"
  const NO_HABITATS := "No habitats found in crosswalk"
  const NO_HABITAT_LAYERS := "No matching habitat layers found"
  const NO_HABITAT_FORCED := "No habitat found and --force-habitat specified"

  /** A habitat layer file `lcc_{cls}.tif` found in the habitat directory. */
  datatype ClassLayer<T> = ClassLayer(cls: int, layer: T)

  /** The layers of the habitat classes that have a file, in directory
      order. */
  function SelectClasses<T(==,!new)>(dir: seq<ClassLayer<T>>, habitats: set<int>): (r: seq<T>)
    ensures |r| <= |dir|
    ensures forall x :: x in r <==> exists i :: 0 <= i < |dir| && dir[i].cls in habitats && dir[i].layer == x
    ensures |r| == 0 <==> forall i :: 0 <= i < |dir| ==> dir[i].cls !in habitats
  {
    if |dir| == 0 then []
    else
      var rest := SelectClasses(dir[1..], habitats);
      assert forall i :: 1 <= i < |dir| ==> dir[i] == dir[1..][i - 1];
      if dir[0].cls in habitats then [dir[0].layer] + rest else rest
  }

  /** The totals as recorded in the manifest. */
  function TotalsValues(t: Totals): (m: Manifest)
    ensures m.Keys == {"range_total", "hab_total", "dem_total", "aoh_total", "prevalence"}
  {
    map["range_total" := Num(t.range), "hab_total" := Num(t.hab), "dem_total" := Num(t.dem),
        "aoh_total" := Num(t.aoh), "prevalence" := Num(t.prevalence)]
  }

  /** The manifest holds exactly these totals under their keys. */
  predicate Records(m: Manifest, t: Totals)
  {
    forall k :: k in TotalsValues(t) ==> k in m && m[k] == TotalsValues(t)[k]
  }

  /** The root script's manifest values: it writes the prevalence of a zero
      range as the integer 0, where the packaged calculators write 0.0. */
  function RootTotalsValues(t: Totals): (m: Manifest)
    ensures m.Keys == TotalsValues(t).Keys
    ensures forall k :: k in m && k != "prevalence" ==> m[k] == TotalsValues(t)[k]
    ensures t.range == 0.0 ==> m["prevalence"] == Int(0)
    ensures t.range != 0.0 ==> m["prevalence"] == Num(t.prevalence)
  {
    TotalsValues(t)["prevalence" := if t.range != 0.0 then Num(t.prevalence) else Int(0)]
  }

  /** The manifest holds the root script's rendering of these totals. */
  predicate RootRecords(m: Manifest, t: Totals)
  {
    forall k :: k in RootTotalsValues(t) ==> k in m && m[k] == RootTotalsValues(t)[k]
  }

  /** The prevalence a root manifest records: the integer 0 exactly when the
      recorded range total is zero, otherwise the float whose product with
      the range total is `aoh`. */
  predicate RootPrevalence(m: Manifest, aoh: real)
  {
    && "range_total" in m && m["range_total"].Num? && "prevalence" in m
    && (m["prevalence"] == Int(0) <==> m["range_total"].x == 0.0)
    && (m["prevalence"] != Int(0) ==> m["prevalence"].Num? && m["prevalence"].x * m["range_total"].x == aoh)
  }

  /** A root manifest written from `Finish`'s totals records its
      prevalence as `RootPrevalence` describes. */
  lemma FinishRootPrevalence(m: Manifest, range: Grid, filtered: Grid, elevation: Grid, weights: Grid)
    requires |filtered| == |range| && |elevation| == |range| && |weights| == |range|
    ensures var a := Finish(range, filtered, elevation, weights);
      RootPrevalence(m + RootTotalsValues(a.totals), Sum(a.raster))
  {
    var t := Finish(range, filtered, elevation, weights).totals;
    var r := m + RootTotalsValues(t);
    assert r["range_total"] == Num(t.range);
  }

  /** The nesting of the totals: AOH within habitat within range, elevation
      within range, prevalence a fraction. */
  predicate Nested(t: Totals)
  {
    && 0.0 <= t.aoh <= t.hab <= t.range
    && 0.0 <= t.dem <= t.range
    && 0.0 <= t.prevalence <= 1.0
  }

  /** The manifest values when forcing found no habitat: the range total is
      kept, everything else is zero, and the error says why. */
  function ExhaustedValues(rangeTotal: real): (m: Manifest)
    ensures m.Keys == {"range_total", "hab_total", "dem_total", "aoh_total", "prevalence", "error"}
  {
    TotalsValues(Totals(rangeTotal, 0.0, 0.0, 0.0, 0.0))["error" := Str(NO_HABITAT_FORCED)]
  }

  predicate SameSize(gs: seq<Grid>, n: nat)
  {
    forall i :: 0 <= i < |gs| ==> |gs[i]| == n
  }

  /** The layers' values at pixel `p`, added up. */
  function PixelSum(gs: seq<Grid>, p: nat): real
    requires forall i :: 0 <= i < |gs| ==> p < |gs[i]|
  {
    if |gs| == 0 then 0.0 else PixelSum(gs[..|gs| - 1], p) + gs[|gs| - 1][p]
  }

  /** The layers' values at pixel `p`, multiplied together. */
  function PixelProduct(gs: seq<Grid>, p: nat): real
    requires forall i :: 0 <= i < |gs| ==> p < |gs[i]|
  {
    if |gs| == 0 then 1.0 else PixelProduct(gs[..|gs| - 1], p) * gs[|gs| - 1][p]
  }

  /** The first layer plus each further layer in turn. */
  function SumLayers(gs: seq<Grid>, n: nat): (r: Grid)
    requires |gs| >= 1 && SameSize(gs, n)
    ensures |r| == n
    ensures forall p :: 0 <= p < n ==> r[p] == PixelSum(gs, p)
  {
    if |gs| == 1 then
      assert gs[..0] == [];
      gs[0]
    else
      Add(SumLayers(gs[..|gs| - 1], n), gs[|gs| - 1])
  }

  /** `reduce(operator.mul, [base] + gs)`: the base layer times each further
      layer in turn. */
  function MulLayers(base: Grid, gs: seq<Grid>): (r: Grid)
    requires SameSize(gs, |base|)
    ensures |r| == |base|
    ensures forall p :: 0 <= p < |base| ==> r[p] == base[p] * PixelProduct(gs, p)
  {
    if |gs| == 0 then base else Mul(MulLayers(base, gs[..|gs| - 1]), gs[|gs| - 1])
  }

  /** The summed habitat layers clipped to at most 1.0. */
  function CombineHabitat(gs: seq<Grid>, n: nat): (r: Grid)
    requires |gs| >= 1 && SameSize(gs, n)
    ensures |r| == n
    ensures forall p :: 0 <= p < n ==> r[p] == if PixelSum(gs, p) > 1.0 then 1.0 else PixelSum(gs, p)
  {
    ClipMax(SumLayers(gs, n), 1.0)
  }

  /** `(min_dem <= upper) & (max_dem >= lower)`: 1.0 where the pixel's
      elevation span meets the species' band. */
  function ElevationMask(minDem: Grid, maxDem: Grid, lower: int, upper: int): (r: Grid)
    requires |minDem| == |maxDem|
    ensures |r| == |minDem|
    ensures forall p :: 0 <= p < |r| ==> (r[p] == 1.0 <==> minDem[p] <= upper as real && maxDem[p] >= lower as real)
    ensures forall p :: 0 <= p < |r| ==> r[p] == 0.0 || r[p] == 1.0
  {
    seq(|minDem|, p requires 0 <= p < |minDem| => Indicator(minDem[p] <= upper as real && maxDem[p] >= lower as real))
  }

  /** A layer whose every pixel lies in [0, 1]. */
  predicate Fraction(g: Grid)
  {
    NonNegative(g) && AtMost(g, 1.0)
  }

  /** `aoh / range if range else 0`. */
  function Prevalence(aoh: real, range: real): (p: real)
    ensures range != 0.0 ==> p * range == aoh
    ensures range == 0.0 ==> p == 0.0
  {
    if range != 0.0 then aoh / range else 0.0
  }

  /** The zero-habitat rule: a habitat-filtered range with no area falls back
      to the whole range, unless forcing, where the run stops. */
  function HabitatGate(range: Grid, filtered: Grid, force: bool): (r: HabitatStage)
    ensures r.Exhausted? <==> force && Sum(filtered) == 0.0
    ensures !r.Crashed?
    ensures Sum(filtered) != 0.0 ==> r == Filtered(filtered)
    ensures !force && Sum(filtered) == 0.0 ==> r == Filtered(range)
  {
    if Sum(filtered) == 0.0 then (if force then Exhausted else Filtered(range))
    else Filtered(filtered)
  }

  /** The habitat stage of the calculators that take one layer per class:
      without layers the range is used as it is, unless forcing, where the
      first layer is read regardless (an IndexError when there is none). */
  function HabitatFromMaps(range: Grid, maps: seq<Grid>, force: bool): (r: HabitatStage)
    requires SameSize(maps, |range|)
    ensures r.Crashed? <==> force && |maps| == 0
    ensures r.Crashed? ==> r.error == IndexError
    ensures |maps| == 0 && !force ==> r == Filtered(range)
    ensures |maps| >= 1 ==> r == HabitatGate(range, Mul(range, CombineHabitat(maps, |range|)), force)
  {
    if |maps| > 0 || force then
      if |maps| == 0 then Crashed(IndexError)
      else HabitatGate(range, Mul(range, CombineHabitat(maps, |range|)), force)
    else Filtered(range)
  }

  /** The elevation stage and the totals: the habitat-filtered range is
      masked by elevation, unless that leaves nothing, in which case the mask
      is ignored; the result is weighted pixelwise and summed. */
  function Finish(range: Grid, filtered: Grid, elevation: Grid, weights: Grid): (r: Aoh)
    requires |filtered| == |range| && |elevation| == |range| && |weights| == |range|
    ensures |r.raster| == |range|
    ensures r.totals.aoh == Sum(r.raster)
    ensures r.totals.range == Sum(Mul(range, weights)) && r.totals.hab == Sum(Mul(filtered, weights))
    ensures Sum(Mul(elevation, filtered)) == 0.0 ==> r.raster == Mul(filtered, weights) && r.totals.aoh == r.totals.hab
    ensures Sum(Mul(elevation, filtered)) != 0.0 ==> r.raster == Mul(Mul(elevation, filtered), weights)
    ensures r.totals.range != 0.0 ==> r.totals.prevalence * r.totals.range == r.totals.aoh
    ensures r.totals.range == 0.0 ==> r.totals.prevalence == 0.0
  {
    var rangeTotal := Sum(Mul(range, weights));
    var hab := Sum(Mul(filtered, weights));
    var dem := Sum(Mul(Mul(elevation, range), weights));
    var masked := Mul(elevation, filtered);
    var both := if Sum(masked) == 0.0 then filtered else masked;
    var weighted := Mul(both, weights);
    var aoh := Sum(weighted);
    Aoh(weighted, Totals(rangeTotal, hab, dem, aoh, Prevalence(aoh, rangeTotal)))
  }

  /** The elevation total is measured against the range, not the habitat:
      it is the same whatever the habitat stage produced. */
  lemma DemIgnoresHabitat(range: Grid, f1: Grid, f2: Grid, elevation: Grid, weights: Grid)
    requires |f1| == |range| && |f2| == |range| && |elevation| == |range| && |weights| == |range|
    ensures Finish(range, f1, elevation, weights).totals.dem == Finish(range, f2, elevation, weights).totals.dem
    ensures Finish(range, f1, elevation, weights).totals.dem == Sum(Mul(Mul(elevation, range), weights))
  {
  }

  /** Pixelwise, a layer below another stays below it once both are weighted
      by the same non-negative layer. */
  lemma WeightedBelow(a: Grid, b: Grid, w: Grid)
    requires |a| == |b| == |w| && Below(a, b) && NonNegative(a) && NonNegative(w)
    ensures Below(Mul(a, w), Mul(b, w)) && NonNegative(Mul(a, w))
  {
    forall p | 0 <= p < |a|
      ensures Mul(a, w)[p] <= Mul(b, w)[p] && Mul(a, w)[p] >= 0.0
    {
      ScaleMonotone(a[p], b[p], w[p]);
    }
  }

  lemma ScaleMonotone(x: real, y: real, f: real)
    requires 0.0 <= x <= y && f >= 0.0
    ensures 0.0 <= x * f <= y * f
  {
  }

  /** A [0, 1] mask applied to a non-negative layer stays below that layer. */
  lemma MaskedBelow(m: Grid, a: Grid)
    requires |m| == |a| && Fraction(m) && NonNegative(a)
    ensures Below(Mul(m, a), a) && NonNegative(Mul(m, a))
  {
    forall p | 0 <= p < |a|
      ensures Mul(m, a)[p] <= a[p] && Mul(m, a)[p] >= 0.0
    {
      var f, x := m[p], a[p];
      MulFactor(x, f);
      assert Mul(m, a)[p] == f * x;
    }
  }

  /** Weighting preserves "below" in the totals. */
  lemma WeightedSumBelow(a: Grid, b: Grid, w: Grid)
    requires |a| == |b| == |w| && Below(a, b) && NonNegative(a) && NonNegative(w)
    ensures 0.0 <= Sum(Mul(a, w)) <= Sum(Mul(b, w))
  {
    WeightedBelow(a, b, w);
    SumMonotone(Mul(a, w), Mul(b, w));
    SumNonNegative(Mul(a, w));
  }

  /** The layer the elevation stage weights: the masked habitat, or the
      habitat itself when the mask leaves nothing; either way inside the
      habitat. */
  lemma ElevationStageBelow(filtered: Grid, elevation: Grid)
    requires |elevation| == |filtered| && Fraction(elevation) && NonNegative(filtered)
    ensures var masked := Mul(elevation, filtered);
      var both := if Sum(masked) == 0.0 then filtered else masked;
      Below(both, filtered) && NonNegative(both)
  {
    MaskedBelow(elevation, filtered);
  }

  /** A total within a positive total gives a ratio in [0, 1]. */
  lemma PrevalenceFraction(aoh: real, range: real)
    requires 0.0 <= aoh <= range
    ensures 0.0 <= Prevalence(aoh, range) <= 1.0
  {
  }

  /** The nesting the manifest totals obey: with a non-negative range and
      weights, a habitat-filtered range inside the range and an elevation
      mask in [0, 1], the AOH is within the habitat total, both it and the
      elevation total are within the range total, and the prevalence is a
      fraction. */
  lemma TotalsNested(range: Grid, filtered: Grid, elevation: Grid, weights: Grid)
    requires |filtered| == |range| && |elevation| == |range| && |weights| == |range|
    requires NonNegative(range) && NonNegative(weights) && NonNegative(filtered) && Below(filtered, range)
    requires Fraction(elevation)
    ensures Nested(Finish(range, filtered, elevation, weights).totals)
  {
    var t := Finish(range, filtered, elevation, weights).totals;
    WeightedSumBelow(filtered, range, weights);
    MaskedBelow(elevation, range);
    WeightedSumBelow(Mul(elevation, range), range, weights);
    ElevationStageBelow(filtered, elevation);
    var masked := Mul(elevation, filtered);
    var both := if Sum(masked) == 0.0 then filtered else masked;
    WeightedSumBelow(both, filtered, weights);
    assert t.aoh == Sum(Mul(both, weights));
    PrevalenceFraction(t.aoh, t.range);
  }

  /** A value summed over non-negative layers is non-negative. */
  lemma {:induction false} PixelSumNonNegative(gs: seq<Grid>, p: nat)
    requires forall i :: 0 <= i < |gs| ==> p < |gs[i]| && gs[i][p] >= 0.0
    ensures PixelSum(gs, p) >= 0.0
  {
    if |gs| > 0 {
      PixelSumNonNegative(gs[..|gs| - 1], p);
    }
  }

  /** A product of non-negative values is non-negative. */
  lemma {:induction false} PixelProductNonNegative(gs: seq<Grid>, p: nat)
    requires forall i :: 0 <= i < |gs| ==> p < |gs[i]| && gs[i][p] >= 0.0
    ensures PixelProduct(gs, p) >= 0.0
  {
    if |gs| > 0 {
      PixelProductNonNegative(gs[..|gs| - 1], p);
    }
  }

  /** Combining non-negative habitat layers gives a fraction per pixel. */
  lemma CombineHabitatFraction(gs: seq<Grid>, n: nat)
    requires |gs| >= 1 && SameSize(gs, n) && forall i :: 0 <= i < |gs| ==> NonNegative(gs[i])
    ensures Fraction(CombineHabitat(gs, n))
  {
    forall p | 0 <= p < n
      ensures PixelSum(gs, p) >= 0.0
    {
      PixelSumNonNegative(gs, p);
    }
  }

  /** Whatever the habitat stage passes on lies inside the range, provided
      the range and the habitat layers are non-negative. */
  lemma HabitatStageBelowRange(range: Grid, maps: seq<Grid>, force: bool)
    requires SameSize(maps, |range|) && NonNegative(range)
    requires forall i :: 0 <= i < |maps| ==> NonNegative(maps[i])
    ensures HabitatFromMaps(range, maps, force).Filtered? ==>
      var f := HabitatFromMaps(range, maps, force).grid;
      |f| == |range| && NonNegative(f) && Below(f, range)
  {
    if |maps| >= 1 {
      var c := CombineHabitat(maps, |range|);
      CombineHabitatFraction(maps, |range|);
      MulBelow(range, c);
    }
  }

  /** The uniform case of the test suite on `n` pixels: a full range, one
      habitat layer at 0.5 everywhere, every pixel inside the elevation band
      and unit weights give range `n`, habitat and AOH `n / 2`, and a
      prevalence of 0.5 (with n = 60: 60, 30, 30, 0.5). */
  lemma UniformHalfHabitat(n: nat)
    requires n >= 1
    ensures var range, ones := Const(n, 1.0), Const(n, 1.0);
      var stage := HabitatFromMaps(range, [Const(n, 0.5)], false);
      && stage == Filtered(Const(n, 0.5))
      && Finish(range, stage.grid, ones, ones) ==
           Aoh(Const(n, 0.5), Totals(n as real, n as real / 2.0, n as real, n as real / 2.0, 0.5))
  {
    var range, ones, half := Const(n, 1.0), Const(n, 1.0), Const(n, 0.5);
    assert CombineHabitat([half], n) == half;
    assert Mul(range, half) == half;
    SumConst(n, 0.5);
    assert HabitatFromMaps(range, [half], false) == Filtered(half);
    assert Mul(range, ones) == range;
    assert Mul(half, ones) == half;
    assert Mul(Mul(ones, range), ones) == range;
    assert Mul(ones, half) == half;
    SumConst(n, 1.0);
  }

  /** Without habitat layers and without forcing, the AOH is the whole range:
      prevalence 1 (the no-habitat case of the test suite). */
  lemma NoHabitatIsRange(n: nat)
    requires n >= 1
    ensures var range := Const(n, 1.0);
      var stage := HabitatFromMaps(range, [], false);
      && stage == Filtered(range)
      && Finish(range, stage.grid, range, range) == Aoh(range, Totals(n as real, n as real, n as real, n as real, 1.0))
  {
    var range := Const(n, 1.0);
    assert Mul(range, range) == range;
    assert Mul(Mul(range, range), range) == range;
    SumConst(n, 1.0);
  }
}
