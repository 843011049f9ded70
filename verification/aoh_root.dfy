/** The top-level `aohcalc`: the AOH calculator on windowed layers (one per
    habitat class, a min and a max DEM, the rasterised range and an optional
    area layer). The layers are cut to their common intersection before the
    shared derivation runs; its own attribute parsing rounds the upper
    elevation bound up. */
module AohRoot {
  import opened Wrappers
  import opened Grids
  import opened Windows
  import opened Layers
  import opened Crosswalk
  import opened Species
  import opened Derivation
  import Cleaning
  import Floats

  datatype Input = Input(
    id: int,
    season: Option<string>,
    features: seq<Record>,
    rows: seq<Row>,
    directory: seq<ClassLayer<Layer>>,
    minDem: Layer,
    maxDem: Layer,
    range: Layer,
    area: Option<Layer>,
    force: bool)

  const NO_INTERSECTION := "Failed to find intersection"

  /** `math.ceil(float(v))`, with the error taxonomy of `FloorOf`. */
  function CeilOf(v: Option<Value>): (r: Result<int>)
    ensures r.Success? <==> FloorOf(v).Success?
    ensures r.Failure? ==> r == FloorOf(v)
    ensures v.Some? && v.value.Int? ==> r == Success(v.value.i)
    ensures v.Some? && v.value.Num? ==> r.Success? && r.value as real - 1.0 < v.value.x <= r.value as real
    ensures v.Some? && v.value.Str? && Floats.ParseFloat(v.value.s).Finite? ==>
      r.Success? && r.value as real - 1.0 < Floats.ParseFloat(v.value.s).x <= r.value as real
  {
    match v
    case Some(Num(x)) => Success(Cleaning.Ceil(x))
    case Some(Str(s)) =>
      (match Floats.ParseFloat(s)
       case Finite(x) => Success(Cleaning.Ceil(x))
       case _ => FloorOf(v))
    case _ => FloorOf(v)
  }

  /** A failure the attribute handler does not catch: anything but an
      AttributeError or a TypeError. */
  predicate Unhandled(r: Result<int>)
  {
    r.Failure? && r.error != AttributeError && r.error != TypeError
  }

  /** The three attributes the run needs, or why they are unusable: a
      missing attribute (AttributeError or TypeError, which the run records)
      or an invalid number (ValueError, or OverflowError for an infinity,
      which escapes). */
  datatype Parsed = Parsed(lower: int, upper: int, raw: set<string>) | Missing | Invalid(error: Exception)

  /** Lower bound floored, upper bound rounded up, habitat codes split; read
      in that order, so the first failure decides. */
  function ParseAttributes(info: SpeciesInfo): (r: Parsed)
    ensures r.Parsed? <==> (FloorOf(Column(info, "elevation_lower")).Success?
      && CeilOf(Column(info, "elevation_upper")).Success? && SplitCodes(Column(info, "full_habitat_code")).Success?)
    ensures r.Invalid? <==> (Unhandled(FloorOf(Column(info, "elevation_lower")))
      || (FloorOf(Column(info, "elevation_lower")).Success? && Unhandled(CeilOf(Column(info, "elevation_upper")))))
    ensures r.Invalid? && FloorOf(Column(info, "elevation_lower")).Failure? ==> r.error == FloorOf(Column(info, "elevation_lower")).error
    ensures r.Invalid? && FloorOf(Column(info, "elevation_lower")).Success? ==> r.error == CeilOf(Column(info, "elevation_upper")).error
    ensures r.Invalid? ==> r.error == ValueError || r.error == OverflowError
    ensures r.Parsed? ==> (r.lower == FloorOf(Column(info, "elevation_lower")).value
      && r.upper == CeilOf(Column(info, "elevation_upper")).value
      && r.raw == SplitCodes(Column(info, "full_habitat_code")).value)
  {
    var lower := FloorOf(Column(info, "elevation_lower"));
    var upper := CeilOf(Column(info, "elevation_upper"));
    var raw := SplitCodes(Column(info, "full_habitat_code"));
    if lower.Failure? then (if Unhandled(lower) then Invalid(lower.error) else Missing)
    else if upper.Failure? then (if Unhandled(upper) then Invalid(upper.error) else Missing)
    else if raw.Failure? then Missing
    else Parsed(lower.value, upper.value, raw.value)
  }

  /** The windows whose intersection the layers are cut to; the constant
      area layer used when no area file is given has no window. */
  function LayerWindows(input: Input, maps: seq<Layer>): (ws: seq<Window>)
    ensures |ws| >= 3
  {
    WindowsOf(maps) + [input.minDem.window, input.maxDem.window, input.range.window]
      + (if input.area.Some? then [input.area.value.window] else [])
  }

  /** The area layer seen through `win`: 1.0 everywhere when there is none. */
  function AreaIn(input: Input, win: Window): (g: Grid)
    ensures |g| == win.w * win.h
  {
    if input.area.Some? then Crop(input.area.value, win) else Const(win.w * win.h, 1.0)
  }

  /** The manifest values when the layers do not intersect: the range total
      stands in for the AOH, with prevalence 1 and the error recorded. */
  function NoIntersectionValues(rangeTotal: real): (m: Manifest)
    ensures m.Keys == {"range_total", "hab_total", "dem_total", "aoh_total", "prevalence", "error"}
  {
    map["range_total" := Num(rangeTotal), "hab_total" := Int(0), "dem_total" := Int(0),
        "aoh_total" := Num(rangeTotal), "prevalence" := Num(1.0), "error" := Str(NO_INTERSECTION)]
  }

  /** A full run. */
  function Calculate(input: Input): (o: Outcome)
  {
    if |input.features| != 1 then Raised(AssertionError)
    else
      var info := Load(input.id, input.season, input.features, input.rows).value;
      match ParseAttributes(info)
      case Invalid(e) => Raised(e)
      case Missing => ManifestOnly(info.manifest["error" := Str(ATTRIBUTES_MISSING)])
      case Parsed(lower, upper, raw) =>
        var habitats := Crosswalked(info.table, raw);
        if input.force && |habitats| == 0 then ManifestOnly(info.manifest["error" := Str(NO_HABITATS)])
        else
          var maps := SelectClasses(input.directory, habitats);
          if input.force && |maps| == 0 then ManifestOnly(info.manifest["error" := Str(NO_HABITAT_LAYERS)])
          else Derive(input, info.manifest, maps, lower, upper)
  }

  /** The layers cut to their intersection and the shared derivation; when
      they do not intersect, the range times the area is written instead.
      When forcing leaves no habitat the run stops without writing a
      manifest. */
  function Derive(input: Input, manifest: Manifest, maps: seq<Layer>, lower: int, upper: int): (o: Outcome)
  {
    match IntersectAll(LayerWindows(input, maps))
    case None => Unintersected(input, manifest)
    case Some(win) => Intersected(input, manifest, maps, lower, upper, win)
  }

  /** The range times the area over the range's own window. */
  function Unintersected(input: Input, manifest: Manifest): (o: Outcome)
  {
    var raster := Mul(Crop(input.range, input.range.window), AreaIn(input, input.range.window));
    Written(raster, manifest + NoIntersectionValues(Sum(raster)))
  }

  /** Every layer of the list seen through `win`. */
  function CropAll(ls: seq<Layer>, win: Window): (gs: seq<Grid>)
    ensures |gs| == |ls|
    ensures forall i :: 0 <= i < |gs| ==> gs[i] == Crop(ls[i], win)
  {
    seq(|ls|, i requires 0 <= i < |ls| => Crop(ls[i], win))
  }

  /** The shared derivation on the intersection `win`. */
  function Intersected(input: Input, manifest: Manifest, maps: seq<Layer>, lower: int, upper: int, win: Window): (o: Outcome)
    ensures o.Written? ==> RootPrevalence(o.manifest, Sum(o.raster))
  {
    var range := Crop(input.range, win);
    match HabitatFromMaps(range, CropAll(maps, win), input.force)
    case Crashed(e) => Raised(e)
    case Exhausted => EmptyRaster(win.w, win.h)
    case Filtered(f) =>
      var mask := ElevationMask(Crop(input.minDem, win), Crop(input.maxDem, win), lower, upper);
      FinishRootPrevalence(manifest, range, f, mask, AreaIn(input, win));
      var a := Finish(range, f, mask, AreaIn(input, win));
      Written(a.raster, manifest + RootTotalsValues(a.totals))
  }

  /** The loaded species record of a one-feature file. */
  function Info(input: Input): SpeciesInfo
    requires |input.features| == 1
  {
    Load(input.id, input.season, input.features, input.rows).value
  }

  /** The file must hold exactly one feature (an assertion). */
  lemma OneFeatureAsserted(input: Input)
    ensures |input.features| != 1 <==> Calculate(input) == Raised(AssertionError)
  {
    if |input.features| == 1 {
      match ParseAttributes(Info(input))
      case Invalid(_) =>
      case Missing =>
      case Parsed(lower, upper, raw) =>
        var habitats := Crosswalked(Info(input).table, raw);
        var maps := SelectClasses(input.directory, habitats);
        NeverIndexError(input);
    }
  }

  /** A missing or null attribute writes the manifest with the
      missing-attributes error and nothing else; an elevation bound that is
      NaN or unreadable text escapes as ValueError, and one written as an
      infinity as OverflowError. */
  lemma AttributeErrors(input: Input)
    requires |input.features| == 1
    ensures ParseAttributes(Info(input)).Missing? ==>
      Calculate(input) == ManifestOnly(Info(input).manifest["error" := Str(ATTRIBUTES_MISSING)])
    ensures ParseAttributes(Info(input)).Invalid? ==>
      Calculate(input) == Raised(ParseAttributes(Info(input)).error)
      && (Calculate(input) == Raised(OverflowError) <==> OverflowingBounds(Info(input)))
  {
  }

  /** Forcing with no crosswalked habitat, or with no layer file for any of
      them, writes only the manifest with the matching error. */
  lemma ForcedExits(input: Input)
    requires |input.features| == 1 && ParseAttributes(Info(input)).Parsed? && input.force
    ensures var habitats := Crosswalked(Info(input).table, ParseAttributes(Info(input)).raw);
      && (|habitats| == 0 ==> Calculate(input) == ManifestOnly(Info(input).manifest["error" := Str(NO_HABITATS)]))
      && (|habitats| > 0 && (forall i :: 0 <= i < |input.directory| ==> input.directory[i].cls !in habitats) ==>
            Calculate(input) == ManifestOnly(Info(input).manifest["error" := Str(NO_HABITAT_LAYERS)]))
  {
  }

  /** When no pixel is common to all layers, the derivation never looks at
      habitat or elevation: it takes the no-intersection path over the
      range's own window. */
  lemma NoIntersection(input: Input, manifest: Manifest, maps: seq<Layer>, lower: int, upper: int)
    requires forall px, py :: !Common(LayerWindows(input, maps), px, py)
    ensures Derive(input, manifest, maps, lower, upper) == Unintersected(input, manifest)
  {
    NoCommonPixel(LayerWindows(input, maps));
  }

  /** The outcome without a common pixel is a written range-area raster
      whose manifest records it as both totals, no habitat or elevation
      area, prevalence 1.0 and the intersection error. */
  lemma UnintersectedRecorded(input: Input, manifest: Manifest)
    ensures var o := Unintersected(input, manifest);
      && o.Written?
      && (forall k :: k in ["aoh_total", "range_total", "hab_total", "dem_total", "prevalence", "error"] ==> k in o.manifest)
      && o.manifest["aoh_total"] == o.manifest["range_total"] == Num(Sum(o.raster))
      && o.manifest["hab_total"] == o.manifest["dem_total"] == Int(0)
      && o.manifest["prevalence"] == Num(1.0)
      && o.manifest["error"] == Str(NO_INTERSECTION)
  {
    var o := Unintersected(input, manifest);
    NoIntersectionRecorded(manifest, Sum(o.raster));
  }

  lemma NoCommonPixel(ws: seq<Window>)
    requires |ws| >= 2 && forall px, py :: !Common(ws, px, py)
    ensures IntersectAll(ws).None?
  {
    IntersectAllExact(ws);
  }

  lemma NoIntersectionRecorded(manifest: Manifest, total: real)
    ensures var m := manifest + NoIntersectionValues(total);
      && m["aoh_total"] == m["range_total"] == Num(total)
      && m["hab_total"] == m["dem_total"] == Int(0)
      && m["prevalence"] == Num(1.0)
      && m["error"] == Str(NO_INTERSECTION)
  {
  }

  /** With intersecting layers the AOH is derived on the intersection, and
      forcing with no habitat there stops after the result raster of the
      intersection's size has been created: no pixel and no manifest is
      written. */
  lemma ForcedZeroHabitat(input: Input, manifest: Manifest, maps: seq<Layer>, lower: int, upper: int, win: Window)
    requires IntersectAll(LayerWindows(input, maps)) == Some(win) && input.force && |maps| >= 1
    requires Sum(Mul(Crop(input.range, win), CombineHabitat(CropAll(maps, win), win.w * win.h))) == 0.0
    ensures Derive(input, manifest, maps, lower, upper) == EmptyRaster(win.w, win.h)
  {
  }

  /** The forced exits guarantee a first habitat layer whenever forcing
      reaches the habitat stage: no run ends in IndexError. */
  lemma NeverIndexError(input: Input)
    ensures Calculate(input) != Raised(IndexError)
  {
  }

  /** On layers with non-negative values, a run completed on the
      intersection records nested totals whose AOH total is the sum of the
      written raster (with the prevalence of a zero range as the integer 0). */
  lemma IntersectedTotalsNested(input: Input, manifest: Manifest, maps: seq<Layer>, lower: int, upper: int, win: Window)
    requires forall px, py :: At(input.range, px, py) >= 0.0
    requires input.area.Some? ==> forall px, py :: At(input.area.value, px, py) >= 0.0
    requires forall i, px, py :: 0 <= i < |maps| ==> At(maps[i], px, py) >= 0.0
    ensures var o := Intersected(input, manifest, maps, lower, upper, win);
      o.Written? ==> exists t :: RootRecords(o.manifest, t) && Nested(t) && t.aoh == Sum(o.raster)
  {
    var o := Intersected(input, manifest, maps, lower, upper, win);
    if o.Written? {
      var range := Crop(input.range, win);
      var grids := CropAll(maps, win);
      var area := AreaIn(input, win);
      CropNonNegative(input.range, win);
      AreaNonNegative(input, win);
      forall i | 0 <= i < |grids|
        ensures NonNegative(grids[i])
      {
        CropNonNegative(maps[i], win);
      }
      HabitatStageBelowRange(range, grids, input.force);
      var f := HabitatFromMaps(range, grids, input.force).grid;
      var mask := ElevationMask(Crop(input.minDem, win), Crop(input.maxDem, win), lower, upper);
      TotalsNested(range, f, mask, area);
      assert RootRecords(o.manifest, Finish(range, f, mask, area).totals);
    }
  }

  lemma CropNonNegative(l: Layer, win: Window)
    requires forall px, py :: At(l, px, py) >= 0.0
    ensures NonNegative(Crop(l, win))
  {
  }

  lemma AreaNonNegative(input: Input, win: Window)
    requires input.area.Some? ==> forall px, py :: At(input.area.value, px, py) >= 0.0
    ensures NonNegative(AreaIn(input, win))
  {
    if input.area.Some? {
      CropNonNegative(input.area.value, win);
    }
  }
}
