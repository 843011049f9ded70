/** `aohcalc_fractional`: the AOH calculator that takes one fractional
    raster per habitat class, an elevation source (one DEM, or a min/max
    pair), optional weight layers and an optional area-per-pixel layer. All
    layers are on one common grid. Rasters, the species record and the
    crosswalk rows arrive as values; nothing is read or written. */
module AohFractional {
  import opened Wrappers
  import opened Grids
  import opened Crosswalk
  import opened Species
  import opened Derivation

  /** The elevation argument: one DEM, or a tuple of DEMs that should hold
      exactly the min and the max DEM. */
  datatype Elevation = SinglePath(dem: Grid) | PathTuple(dems: seq<Grid>)

  datatype Input = Input(
    id: int,
    season: Option<string>,
    features: seq<Record>,
    rows: seq<Row>,
    directory: seq<ClassLayer<Grid>>,
    elevation: Elevation,
    range: Grid,
    areaPerPixel: Option<Grid>,
    weights: seq<Grid>,
    force: bool)

  /** Every layer lies on the range's grid. */
  predicate OnGrid(input: Input)
  {
    var n := |input.range|;
    && (forall i :: 0 <= i < |input.directory| ==> |input.directory[i].layer| == n)
    && (input.elevation.SinglePath? ==> |input.elevation.dem| == n)
    && (input.elevation.PathTuple? ==> SameSize(input.elevation.dems, n))
    && (input.areaPerPixel.Some? ==> |input.areaPerPixel.value| == n)
    && SameSize(input.weights, n)
  }

  /** The elevation argument is one DEM or a pair. */
  predicate ShapeOk(input: Input)
  {
    input.elevation.PathTuple? ==> |input.elevation.dems| == 2
  }

  /** `weights_map`: the area per pixel (1.0 unless requested) multiplied by
      every weight layer. */
  function Weights(input: Input): (w: Grid)
    requires OnGrid(input)
    ensures |w| == |input.range|
    ensures input.areaPerPixel.None? ==> forall p :: 0 <= p < |w| ==> w[p] == PixelProduct(input.weights, p)
    ensures input.areaPerPixel.Some? ==> forall p :: 0 <= p < |w| ==> w[p] == input.areaPerPixel.value[p] * PixelProduct(input.weights, p)
  {
    MulLayers(input.areaPerPixel.GetOr(Const(|input.range|, 1.0)), input.weights)
  }

  /** The min and max DEMs: a single DEM serves as both. */
  function Dems(input: Input): (d: (Grid, Grid))
    requires OnGrid(input) && ShapeOk(input)
    ensures |d.0| == |input.range| && |d.1| == |input.range|
    ensures input.elevation.SinglePath? ==> d.0 == d.1 == input.elevation.dem
  {
    match input.elevation
    case SinglePath(dem) => (dem, dem)
    case PathTuple(dems) => (dems[0], dems[1])
  }

  /** The species record loaded from the input's features. */
  function Loaded(input: Input): Result<SpeciesInfo>
  {
    Load(input.id, input.season, input.features, input.rows)
  }

  /** Both elevation bounds, when both are usable numbers. */
  function Bounds(info: SpeciesInfo): Option<(int, int)>
  {
    var lower, upper := FloorOf(Column(info, "elevation_lower")), FloorOf(Column(info, "elevation_upper"));
    if lower.Success? && upper.Success? then Some((lower.value, upper.value)) else None
  }

  /** A full run. `asWritten` selects between the code as it stands and the
      evidently intended code, which differ in two places: a bad elevation
      bound escapes as ValueError instead of being recorded, and a forced
      exit for a species without a season raises AttributeError while
      logging instead of writing its manifest. */
  function Calculate(input: Input, asWritten: bool): (o: Outcome)
    requires OnGrid(input)
  {
    if input.elevation.PathTuple? && |input.elevation.dems| != 2 then Raised(ValueError)
    else match Loaded(input)
      case Failure(e) => Raised(e)
      case Success(info) => AfterLoad(input, info, asWritten)
  }

  /** The elevation properties, read lower then upper. */
  function AfterLoad(input: Input, info: SpeciesInfo, asWritten: bool): (o: Outcome)
    requires OnGrid(input) && ShapeOk(input)
  {
    var lower := ElevationLower(info);
    if lower.0.Failure? then ElevationFailure(lower.1, lower.0.error, asWritten)
    else
      var upper := ElevationUpper(lower.1);
      if upper.0.Failure? then ElevationFailure(upper.1, upper.0.error, asWritten)
      else AfterElevation(input, upper.1, lower.0.value, upper.0.value, asWritten)
  }

  /** A property failed: as written its ValueError passes the handler, which
      only catches AttributeError and TypeError; as intended the manifest is
      saved with the missing-attributes error. The OverflowError of a bound
      written as an infinity escapes either way. */
  function ElevationFailure(info: SpeciesInfo, error: Exception, asWritten: bool): (o: Outcome)
  {
    if asWritten || error != ValueError then Raised(error) else ManifestOnly(SavedManifest(info, Some(ATTRIBUTES_MISSING)))
  }

  /** A forced exit: the manifest is saved with `message`; as written, the
      log line before it reads the season, which a species without a season
      column does not have. */
  function ForcedExit(info: SpeciesInfo, message: string, asWritten: bool): (o: Outcome)
  {
    if asWritten && info.season.None? then Raised(AttributeError)
    else ManifestOnly(SavedManifest(info, Some(message)))
  }

  /** The habitat list and the two forced exits. */
  function AfterElevation(input: Input, info: SpeciesInfo, lower: int, upper: int, asWritten: bool): (o: Outcome)
    requires OnGrid(input) && ShapeOk(input)
  {
    var habitats := HabitatList(info);
    if habitats.Failure? then Raised(ValueError)
    else if input.force && |habitats.value| == 0 then ForcedExit(info, NO_HABITATS, asWritten)
    else
      var maps := SelectClasses(input.directory, habitats.value);
      if input.force && |maps| == 0 then ForcedExit(info, NO_HABITAT_LAYERS, asWritten)
      else
        SelectedOnGrid(input, habitats.value);
        Derive(input, info, maps, lower, upper)
  }

  /** The derivation proper: weights, the range total (asserted
      non-negative), the habitat stage and the elevation stage. */
  function Derive(input: Input, info: SpeciesInfo, maps: seq<Grid>, lower: int, upper: int): (o: Outcome)
    requires OnGrid(input) && ShapeOk(input) && SameSize(maps, |input.range|)
  {
    var w := Weights(input);
    var rangeTotal := Sum(Mul(input.range, w));
    if rangeTotal < 0.0 then Raised(AssertionError)
    else match HabitatFromMaps(input.range, maps, input.force)
      case Crashed(e) => Raised(e)
      case Exhausted => ManifestOnly(SavedManifest(UpdateManifest(info, ExhaustedValues(rangeTotal)), None))
      case Filtered(f) =>
        var dems := Dems(input);
        var a := Finish(input.range, f, ElevationMask(dems.0, dems.1, lower, upper), w);
        Written(a.raster, SavedManifest(UpdateManifest(info, TotalsValues(a.totals)), None))
  }

  lemma SelectedOnGrid(input: Input, habitats: set<int>)
    requires OnGrid(input)
    ensures SameSize(SelectClasses(input.directory, habitats), |input.range|)
  {
    var maps := SelectClasses(input.directory, habitats);
    forall i | 0 <= i < |maps|
      ensures |maps[i]| == |input.range|
    {
      assert maps[i] in maps;
    }
  }

  /** An elevation tuple that is not a pair is rejected before anything else. */
  lemma TupleRejected(input: Input, asWritten: bool)
    requires OnGrid(input) && input.elevation.PathTuple? && |input.elevation.dems| != 2
    ensures Calculate(input, asWritten) == Raised(ValueError)
  {
  }

  /** A species file with other than exactly one feature is rejected. */
  lemma SingleFeatureRequired(input: Input, asWritten: bool)
    requires OnGrid(input) && ShapeOk(input)
    ensures |input.features| != 1 <==> Calculate(input, asWritten) == Raised(ValueError) && Loaded(input).Failure?
  {
  }

  /** As written, an unusable elevation bound (absent, null, NaN or text
      that spells no number) always escapes as a ValueError and no manifest
      is saved; a bound written as an infinity escapes as OverflowError. */
  lemma ElevationErrorEscapes(input: Input)
    requires OnGrid(input) && ShapeOk(input) && Loaded(input).Success?
    requires Bounds(Loaded(input).value).None?
    ensures Calculate(input, true) == Raised(if OverflowingBounds(Loaded(input).value) then OverflowError else ValueError)
  {
  }

  /** As intended, the same input saves the manifest with the
      missing-attributes error and every other loaded value, unless the
      failing bound is an infinity, whose OverflowError no handler catches. */
  lemma ElevationErrorRecorded(input: Input)
    requires OnGrid(input) && ShapeOk(input) && Loaded(input).Success?
    requires Bounds(Loaded(input).value).None?
    ensures OverflowingBounds(Loaded(input).value) ==> Calculate(input, false) == Raised(OverflowError)
    ensures !OverflowingBounds(Loaded(input).value) ==> var o := Calculate(input, false);
      && o.ManifestOnly?
      && "error" in o.manifest && o.manifest["error"] == Str(ATTRIBUTES_MISSING)
      && forall k :: k in Loaded(input).value.manifest && k != "error" ==> k in o.manifest && o.manifest[k] == Loaded(input).value.manifest[k]
  {
    var info := Loaded(input).value;
    assert Calculate(input, false) == AfterLoad(input, info, false);
    ElevationFailureRecorded(input, info);
  }

  lemma ElevationFailureRecorded(input: Input, info: SpeciesInfo)
    requires OnGrid(input) && ShapeOk(input) && Bounds(info).None?
    ensures OverflowingBounds(info) ==> AfterLoad(input, info, false) == Raised(OverflowError)
    ensures !OverflowingBounds(info) ==> var o := AfterLoad(input, info, false);
      && o.ManifestOnly?
      && "error" in o.manifest && o.manifest["error"] == Str(ATTRIBUTES_MISSING)
      && forall k :: k in info.manifest && k != "error" ==> k in o.manifest && o.manifest[k] == info.manifest[k]
  {
    var lower := ElevationLower(info);
    if lower.0.Success? {
      var upper := ElevationUpper(lower.1);
      assert upper.0.Failure?;
    }
  }

  /** Once the bounds are usable, the habitat codes must be text: otherwise
      the ValueError of the habitat property escapes (in both versions). */
  lemma HabitatErrorEscapes(input: Input, asWritten: bool)
    requires OnGrid(input) && ShapeOk(input) && Loaded(input).Success?
    requires Bounds(Loaded(input).value).Some? && HabitatList(Loaded(input).value).Failure?
    ensures Calculate(input, asWritten) == Raised(ValueError)
  {
  }

  /** Forcing with no crosswalked habitat saves only the manifest, with the
      no-habitats error; as written this holds only for a species with a
      season, and one without raises AttributeError instead. */
  lemma ForcedWithoutHabitats(input: Input, asWritten: bool)
    requires OnGrid(input) && ShapeOk(input) && Loaded(input).Success?
    requires Bounds(Loaded(input).value).Some?
    requires HabitatList(Loaded(input).value) == Success({}) && input.force
    ensures asWritten && input.season.None? ==> Calculate(input, asWritten) == Raised(AttributeError)
    ensures !(asWritten && input.season.None?) ==>
      Calculate(input, asWritten) == ManifestOnly(Loaded(input).value.manifest["error" := Str(NO_HABITATS)])
  {
  }

  /** Forcing when none of the crosswalked classes has a habitat layer saves
      only the manifest, with the no-layers error (same season caveat). */
  lemma ForcedWithoutLayers(input: Input, asWritten: bool)
    requires OnGrid(input) && ShapeOk(input) && Loaded(input).Success?
    requires Bounds(Loaded(input).value).Some?
    requires HabitatList(Loaded(input).value).Success? && |HabitatList(Loaded(input).value).value| > 0 && input.force
    requires forall i :: 0 <= i < |input.directory| ==> input.directory[i].cls !in HabitatList(Loaded(input).value).value
    ensures asWritten && input.season.None? ==> Calculate(input, asWritten) == Raised(AttributeError)
    ensures !(asWritten && input.season.None?) ==>
      Calculate(input, asWritten) == ManifestOnly(Loaded(input).value.manifest["error" := Str(NO_HABITAT_LAYERS)])
  {
  }

  /** The forced exits guarantee that the habitat stage always has a first
      layer to read when forcing: no run ends in IndexError. */
  lemma NeverIndexError(input: Input, asWritten: bool)
    requires OnGrid(input)
    ensures Calculate(input, asWritten) != Raised(IndexError)
  {
    if !(input.elevation.PathTuple? && |input.elevation.dems| != 2) && Loaded(input).Success? {
      var info := Loaded(input).value;
      assert Calculate(input, asWritten) == AfterLoad(input, info, asWritten);
      var lower := ElevationLower(info);
      if lower.0.Success? {
        var upper := ElevationUpper(lower.1);
        if upper.0.Success? {
          AfterElevationNoIndexError(input, upper.1, lower.0.value, upper.0.value, asWritten);
        }
      }
    }
  }

  lemma AfterElevationNoIndexError(input: Input, info: SpeciesInfo, lower: int, upper: int, asWritten: bool)
    requires OnGrid(input) && ShapeOk(input)
    ensures AfterElevation(input, info, lower, upper, asWritten) != Raised(IndexError)
  {
    var habitats := HabitatList(info);
    if habitats.Success? {
      SelectedOnGrid(input, habitats.value);
      var maps := SelectClasses(input.directory, habitats.value);
      if !(input.force && |maps| == 0) {
        DeriveNoIndexError(input, info, maps, lower, upper);
      }
    }
  }

  lemma DeriveNoIndexError(input: Input, info: SpeciesInfo, maps: seq<Grid>, lower: int, upper: int)
    requires OnGrid(input) && ShapeOk(input) && SameSize(maps, |input.range|)
    requires input.force ==> |maps| > 0
    ensures Derive(input, info, maps, lower, upper) != Raised(IndexError)
  {
    assert HabitatFromMaps(input.range, maps, input.force).Crashed? <==> false;
  }

  /** Non-negative layers: the range, the habitat layers, the area and the
      weights. */
  predicate NonNegativeLayers(input: Input)
  {
    && NonNegative(input.range)
    && (forall i :: 0 <= i < |input.directory| ==> NonNegative(input.directory[i].layer))
    && (input.areaPerPixel.Some? ==> NonNegative(input.areaPerPixel.value))
    && (forall i :: 0 <= i < |input.weights| ==> NonNegative(input.weights[i]))
  }

  /** Non-negative inputs give non-negative weights, so the range total
      assertion holds. */
  lemma WeightsNonNegative(input: Input)
    requires OnGrid(input) && NonNegativeLayers(input)
    ensures NonNegative(Weights(input))
    ensures Sum(Mul(input.range, Weights(input))) >= 0.0
  {
    var w := Weights(input);
    forall p | 0 <= p < |w|
      ensures w[p] >= 0.0
    {
      PixelProductNonNegative(input.weights, p);
      if input.areaPerPixel.Some? {
        ScaleMonotone(0.0, input.areaPerPixel.value[p], PixelProduct(input.weights, p));
      }
    }
    WeightedSumBelow(input.range, input.range, w);
  }

  /** The layers the crosswalked classes select are among the non-negative
      habitat layers. */
  lemma SelectedNonNegative(input: Input, habitats: set<int>)
    requires OnGrid(input) && NonNegativeLayers(input)
    ensures forall i :: 0 <= i < |SelectClasses(input.directory, habitats)| ==> NonNegative(SelectClasses(input.directory, habitats)[i])
  {
    var maps := SelectClasses(input.directory, habitats);
    forall i | 0 <= i < |maps|
      ensures NonNegative(maps[i])
    {
      assert maps[i] in maps;
    }
  }

  /** A completed run records totals that nest (AOH within habitat within
      range, elevation within range, prevalence a fraction), and its AOH
      total is the sum of the written raster. */
  lemma WrittenTotalsNested(input: Input, asWritten: bool)
    requires OnGrid(input) && NonNegativeLayers(input)
    ensures var o := Calculate(input, asWritten);
      o.Written? ==> exists t :: Records(o.manifest, t) && Nested(t) && t.aoh == Sum(o.raster)
  {
    if ShapeOk(input) && Loaded(input).Success? {
      var info := Loaded(input).value;
      var lower := ElevationLower(info);
      if lower.0.Success? {
        var upper := ElevationUpper(lower.1);
        if upper.0.Success? {
          var habitats := HabitatList(upper.1);
          if habitats.Success? {
            var maps := SelectClasses(input.directory, habitats.value);
            SelectedOnGrid(input, habitats.value);
            SelectedNonNegative(input, habitats.value);
            DeriveTotalsNested(input, upper.1, maps, lower.0.value, upper.0.value);
          }
        }
      }
    }
  }

  lemma DeriveTotalsNested(input: Input, info: SpeciesInfo, maps: seq<Grid>, lower: int, upper: int)
    requires OnGrid(input) && ShapeOk(input) && SameSize(maps, |input.range|) && NonNegativeLayers(input)
    requires forall i :: 0 <= i < |maps| ==> NonNegative(maps[i])
    ensures var o := Derive(input, info, maps, lower, upper);
      o.Written? ==> exists t :: Records(o.manifest, t) && Nested(t) && t.aoh == Sum(o.raster)
  {
    var o := Derive(input, info, maps, lower, upper);
    var stage := HabitatFromMaps(input.range, maps, input.force);
    if o.Written? {
      var w := Weights(input);
      WeightsNonNegative(input);
      HabitatStageBelowRange(input.range, maps, input.force);
      var dems := Dems(input);
      var mask := ElevationMask(dems.0, dems.1, lower, upper);
      var a := Finish(input.range, stage.grid, mask, w);
      TotalsNested(input.range, stage.grid, mask, w);
      assert Records(o.manifest, a.totals);
    }
  }

  /** Forcing when the habitat layers leave no habitat in the range saves
      only the manifest: the range total, zero for every other total and for
      the prevalence, and the forced-habitat error. */
  lemma ForcedZeroHabitat(input: Input, info: SpeciesInfo, maps: seq<Grid>, lower: int, upper: int)
    requires OnGrid(input) && ShapeOk(input) && SameSize(maps, |input.range|) && NonNegativeLayers(input)
    requires input.force && |maps| >= 1 && Sum(Mul(input.range, CombineHabitat(maps, |input.range|))) == 0.0
    ensures Derive(input, info, maps, lower, upper) ==
      ManifestOnly(info.manifest + ExhaustedValues(Sum(Mul(input.range, Weights(input)))))
  {
    WeightsNonNegative(input);
  }

  /** Without forcing, habitat layers that leave no habitat in the range are
      treated as no habitat layers at all: the AOH is derived from the whole
      range. */
  lemma ZeroHabitatFallsBack(input: Input, info: SpeciesInfo, maps: seq<Grid>, lower: int, upper: int)
    requires OnGrid(input) && ShapeOk(input) && SameSize(maps, |input.range|)
    requires !input.force && |maps| >= 1 && Sum(Mul(input.range, CombineHabitat(maps, |input.range|))) == 0.0
    ensures Derive(input, info, maps, lower, upper) == Derive(input, info, [], lower, upper)
  {
  }
}
