/** `aohcalc_simple`: the AOH calculator that takes one classified habitat
    raster (a class value per pixel), one DEM and optional weight layers, all
    on one common grid. */
module AohSimple {
  import opened Wrappers
  import opened Grids
  import opened Crosswalk
  import opened Species
  import opened Derivation

  datatype Input = Input(
    id: int,
    season: Option<string>,
    features: seq<Record>,
    rows: seq<Row>,
    classes: Grid,
    dem: Grid,
    range: Grid,
    weights: seq<Grid>,
    force: bool)

  /** Every layer lies on the range's grid. */
  predicate OnGrid(input: Input)
  {
    |input.classes| == |input.range| && |input.dem| == |input.range| && SameSize(input.weights, |input.range|)
  }

  /** `habitat_map.isin(habitat_list)`: 1.0 where the pixel's class is one of
      the species' classes. */
  function MembershipMask(classes: Grid, habitats: set<int>): (r: Grid)
    ensures |r| == |classes|
    ensures forall p :: 0 <= p < |r| ==> (r[p] == 1.0 <==> exists c :: c in habitats && classes[p] == c as real)
    ensures forall p :: 0 <= p < |r| ==> r[p] == 0.0 || r[p] == 1.0
  {
    seq(|classes|, p requires 0 <= p < |classes| => Indicator(classes[p] == classes[p].Floor as real && classes[p].Floor in habitats))
  }

  /** The species record loaded from the input's features. */
  function Loaded(input: Input): Result<SpeciesInfo>
  {
    Load(input.id, input.season, input.features, input.rows)
  }

  /** Both elevation bounds, when both are usable numbers. */
  function Bounds(info: SpeciesInfo): Option<(int, int)>
  {
    var lower, upper := FloorOf(Column(info, "elevation_lower")), FloorOf(Column(info, "elevation_upper"));
    if lower.Success? && upper.Success? then Some((lower.value, upper.value)) else None
  }

  /** A full run. As written the function refers to two names it never
      defines, `logger` and `area_path`, and its handler for the elevation
      properties catches the wrong exception types; `asWritten` false gives
      the evidently intended behaviour: the elevation error is recorded, the
      forced exit saves its manifest, and the weight layers are multiplied
      together. */
  function Calculate(input: Input, asWritten: bool): (o: Outcome)
    requires OnGrid(input)
  {
    match Loaded(input)
    case Failure(e) => Raised(e)
    case Success(info) =>
      var lower := ElevationLower(info);
      if lower.0.Failure? then ElevationFailure(lower.1, lower.0.error, asWritten)
      else
        var upper := ElevationUpper(lower.1);
        if upper.0.Failure? then ElevationFailure(upper.1, upper.0.error, asWritten)
        else AfterElevation(input, upper.1, lower.0.value, upper.0.value, asWritten)
  }

  /** As written the property's ValueError passes the handler (whose body
      would itself fail on `logger`); as intended the manifest is saved. The
      OverflowError of a bound written as an infinity escapes either way. */
  function ElevationFailure(info: SpeciesInfo, error: Exception, asWritten: bool): (o: Outcome)
  {
    if asWritten || error != ValueError then Raised(error) else ManifestOnly(SavedManifest(info, Some(ATTRIBUTES_MISSING)))
  }

  /** The habitat list, the forced exit and the weights. */
  function AfterElevation(input: Input, info: SpeciesInfo, lower: int, upper: int, asWritten: bool): (o: Outcome)
    requires OnGrid(input)
  {
    var habitats := HabitatList(info);
    if habitats.Failure? then Raised(ValueError)
    else if input.force && |habitats.value| == 0 then
      if asWritten then Raised(NameError) else ManifestOnly(SavedManifest(info, Some(NO_HABITATS)))
    else if |input.weights| > 0 && asWritten then Raised(NameError)
    else Derive(input, info, habitats.value, lower, upper)
  }

  /** The product of the weight layers, 1.0 everywhere when there are none. */
  function Weights(input: Input): (w: Grid)
    requires OnGrid(input)
    ensures |w| == |input.range|
    ensures forall p :: 0 <= p < |w| ==> w[p] == PixelProduct(input.weights, p)
  {
    MulLayers(Const(|input.range|, 1.0), input.weights)
  }

  /** The derivation proper: range total (asserted non-negative), the
      membership habitat stage and the single-DEM elevation stage. */
  function Derive(input: Input, info: SpeciesInfo, habitats: set<int>, lower: int, upper: int): (o: Outcome)
    requires OnGrid(input)
  {
    var w := Weights(input);
    var rangeTotal := Sum(Mul(input.range, w));
    if rangeTotal < 0.0 then Raised(AssertionError)
    else match HabitatGate(input.range, Mul(input.range, MembershipMask(input.classes, habitats)), input.force)
      case Crashed(e) => Raised(e)
      case Exhausted => ManifestOnly(SavedManifest(UpdateManifest(info, ExhaustedValues(rangeTotal)), None))
      case Filtered(f) =>
        var a := Finish(input.range, f, ElevationMask(input.dem, input.dem, lower, upper), w);
        Written(a.raster, SavedManifest(UpdateManifest(info, TotalsValues(a.totals)), None))
  }

  /** With one DEM the elevation mask is the band test `lower <= e <= upper`. */
  lemma SingleDemMask(dem: Grid, lower: int, upper: int)
    ensures forall p :: 0 <= p < |dem| ==>
      (ElevationMask(dem, dem, lower, upper)[p] == 1.0 <==> lower as real <= dem[p] <= upper as real)
  {
  }

  /** As written, an unusable elevation bound escapes as a ValueError, or
      as OverflowError when it is written as an infinity. */
  lemma ElevationErrorEscapes(input: Input)
    requires OnGrid(input) && Loaded(input).Success? && Bounds(Loaded(input).value).None?
    ensures Calculate(input, true) == Raised(if OverflowingBounds(Loaded(input).value) then OverflowError else ValueError)
  {
  }

  /** As intended, the manifest is saved with the missing-attributes error,
      unless the failing bound is an infinity. */
  lemma ElevationErrorRecorded(input: Input)
    requires OnGrid(input) && Loaded(input).Success? && Bounds(Loaded(input).value).None?
    ensures OverflowingBounds(Loaded(input).value) ==> Calculate(input, false) == Raised(OverflowError)
    ensures !OverflowingBounds(Loaded(input).value) ==> var o := Calculate(input, false);
      && o.ManifestOnly?
      && "error" in o.manifest && o.manifest["error"] == Str(ATTRIBUTES_MISSING)
      && forall k :: k in Loaded(input).value.manifest && k != "error" ==> k in o.manifest && o.manifest[k] == Loaded(input).value.manifest[k]
  {
  }

  /** As written, forcing with no crosswalked habitat fails on the undefined
      `logger` before any manifest is saved. */
  lemma ForcedExitNameError(input: Input)
    requires OnGrid(input) && Loaded(input).Success? && Bounds(Loaded(input).value).Some?
    requires HabitatList(Loaded(input).value) == Success({}) && input.force
    ensures Calculate(input, true) == Raised(NameError)
  {
  }

  /** As intended, the same run saves only the manifest, with the
      no-habitats error. */
  lemma ForcedWithoutHabitats(input: Input)
    requires OnGrid(input) && Loaded(input).Success? && Bounds(Loaded(input).value).Some?
    requires HabitatList(Loaded(input).value) == Success({}) && input.force
    ensures Calculate(input, false) == ManifestOnly(Loaded(input).value.manifest["error" := Str(NO_HABITATS)])
  {
  }

  /** As written, any weight layer makes the run fail on the undefined
      `area_path` once the habitat checks pass. */
  lemma WeightLayerNameError(input: Input)
    requires OnGrid(input) && Loaded(input).Success? && Bounds(Loaded(input).value).Some?
    requires HabitatList(Loaded(input).value).Success? && !(input.force && |HabitatList(Loaded(input).value).value| == 0)
    ensures |input.weights| > 0 <==> Calculate(input, true) == Raised(NameError)
  {
  }

  /** Without forcing, a species whose classes are absent from the habitat
      raster (including one with no crosswalked class at all) keeps its
      whole range as habitat. */
  lemma NoHabitatFallsBack(input: Input, info: SpeciesInfo, habitats: set<int>, lower: int, upper: int)
    requires OnGrid(input) && !input.force
    requires forall p :: 0 <= p < |input.classes| ==> MembershipMask(input.classes, habitats)[p] == 0.0
    ensures Derive(input, info, habitats, lower, upper) == Derive(input, info, {}, lower, upper)
  {
    var m := MembershipMask(input.classes, habitats);
    var e := MembershipMask(input.classes, {});
    assert Mul(input.range, m) == Mul(input.range, e);
  }

  /** Forcing when no pixel of the range has one of the species' classes
      saves only the manifest: the range total, zero for everything else and
      the forced-habitat error. */
  lemma ForcedZeroHabitat(input: Input, info: SpeciesInfo, habitats: set<int>, lower: int, upper: int)
    requires OnGrid(input) && input.force && NonNegative(input.range)
    requires forall i :: 0 <= i < |input.weights| ==> NonNegative(input.weights[i])
    requires Sum(Mul(input.range, MembershipMask(input.classes, habitats))) == 0.0
    ensures Derive(input, info, habitats, lower, upper) ==
      ManifestOnly(info.manifest + ExhaustedValues(Sum(Mul(input.range, Weights(input)))))
  {
    WeightsNonNegative(input);
  }

  lemma WeightsNonNegative(input: Input)
    requires OnGrid(input) && NonNegative(input.range)
    requires forall i :: 0 <= i < |input.weights| ==> NonNegative(input.weights[i])
    ensures NonNegative(Weights(input)) && Sum(Mul(input.range, Weights(input))) >= 0.0
  {
    var w := Weights(input);
    forall p | 0 <= p < |w|
      ensures w[p] >= 0.0
    {
      PixelProductNonNegative(input.weights, p);
    }
    WeightedSumBelow(input.range, input.range, w);
  }

  /** A completed run records nested totals whose AOH total is the sum of
      the written raster. */
  lemma WrittenTotalsNested(input: Input, asWritten: bool)
    requires OnGrid(input) && NonNegative(input.range)
    requires forall i :: 0 <= i < |input.weights| ==> NonNegative(input.weights[i])
    ensures var o := Calculate(input, asWritten);
      o.Written? ==> exists t :: Records(o.manifest, t) && Nested(t) && t.aoh == Sum(o.raster)
  {
    if Loaded(input).Success? {
      var info := Loaded(input).value;
      var lower := ElevationLower(info);
      if lower.0.Success? {
        var upper := ElevationUpper(lower.1);
        if upper.0.Success? {
          var habitats := HabitatList(upper.1);
          if habitats.Success? {
            DeriveTotalsNested(input, upper.1, habitats.value, lower.0.value, upper.0.value);
          }
        }
      }
    }
  }

  lemma DeriveTotalsNested(input: Input, info: SpeciesInfo, habitats: set<int>, lower: int, upper: int)
    requires OnGrid(input) && NonNegative(input.range)
    requires forall i :: 0 <= i < |input.weights| ==> NonNegative(input.weights[i])
    ensures var o := Derive(input, info, habitats, lower, upper);
      o.Written? ==> exists t :: Records(o.manifest, t) && Nested(t) && t.aoh == Sum(o.raster)
  {
    var o := Derive(input, info, habitats, lower, upper);
    if o.Written? {
      var m := MembershipMask(input.classes, habitats);
      MulBelow(input.range, m);
      var stage := HabitatGate(input.range, Mul(input.range, m), input.force);
      assert stage.Filtered?;
      FilteredTotalsNested(input, info, stage.grid, lower, upper);
    }
  }

  /** The written branch of `Derive`, for any habitat stage within the range. */
  lemma FilteredTotalsNested(input: Input, info: SpeciesInfo, f: Grid, lower: int, upper: int)
    requires OnGrid(input) && NonNegative(input.range)
    requires forall i :: 0 <= i < |input.weights| ==> NonNegative(input.weights[i])
    requires |f| == |input.range| && NonNegative(f) && Below(f, input.range)
    ensures var a := Finish(input.range, f, ElevationMask(input.dem, input.dem, lower, upper), Weights(input));
      Records(SavedManifest(UpdateManifest(info, TotalsValues(a.totals)), None), a.totals)
      && Nested(a.totals) && a.totals.aoh == Sum(a.raster)
  {
    var w := Weights(input);
    WeightsNonNegative(input);
    var mask := ElevationMask(input.dem, input.dem, lower, upper);
    TotalsNested(input.range, f, mask, w);
  }
}
