/** Occurrence validation of one species' AOH (`process_species`): GBIF
    points that fall inside the species' range are snapped to the AOH grid,
    at most one point per pixel is kept, and each kept point is a match when
    the 2x2 block of AOH pixels it sits among has a positive sum. The species
    is classified from the number of kept points and the share that match. */
module Occurrences {
  import opened Wrappers
  import opened Seqs
  import opened Text
  import Species

  /** One GBIF row: the taxon id, whether the point lies within the species'
      range polygon (the spatial join is foreign), and its position in AOH
      pixel units, i.e. after the projection transform and the division by
      the pixel step (lines 87-89). The range is taken to be one feature:
      the inner `within` join (line 72) repeats a point once for every range
      feature containing it, and `process_species` does not check how many
      features the range file holds. */
  datatype Occurrence = Occurrence(taxon: int, inRange: bool, alignedX: real, alignedY: real)

  datatype Pixel = Pixel(x: int, y: int)

  /** The result row of `process_species`. */
  datatype Record = Record(
    taxon: int,
    totalRecords: nat,
    clippedPoints: nat,
    uniquePoints: nat,
    matches: nat,
    pointPrevalence: Option<real>,
    modelPrevalence: Species.Value,
    isValid: bool,
    isOutlier: Option<bool>)

  /** The JSON manifest beside the AOH raster, as `json.load` reads it:
      absent (FileNotFoundError), not JSON (a JSONDecodeError, which is a
      ValueError), or an object. */
  datatype AohData = NoManifest | MalformedManifest | Manifest(fields: map<string, Species.Value>)

  /** Fewer kept points than this make the species invalid. */
  const MIN_POINTS: nat := 10

  /** Snapping of one coordinate: the floor, moved one pixel back when the
      point lies in the first half of its pixel. */
  function SnapAxis(a: real): (p: int)
    ensures p == a.Floor || p == a.Floor - 1
    ensures p == a.Floor <==> a - a.Floor as real >= 0.5
  {
    var f := a.Floor;
    if a - f as real < 0.5 then f - 1 else f
  }

  /** The snapped pixel is the first of the two pixels whose centres
      (at p + 0.5 and p + 1.5) enclose the coordinate, and it is the only
      pixel that is: the 2x2 block read at the snapped pixel holds the four
      cells nearest to the point. */
  lemma SnapEncloses(a: real, p: int)
    ensures p == SnapAxis(a) <==> (p as real + 0.5 <= a < p as real + 1.5)
  {
  }

  function Snap(o: Occurrence): (px: Pixel)
    ensures px.x == SnapAxis(o.alignedX) && px.y == SnapAxis(o.alignedY)
  {
    Pixel(SnapAxis(o.alignedX), SnapAxis(o.alignedY))
  }

  /** The points kept by the inner spatial join with the range, in order. */
  function Clip(occs: seq<Occurrence>): (r: seq<Occurrence>)
    ensures |r| <= |occs|
    ensures forall o :: o in r <==> o in occs && o.inRange
  {
    if |occs| == 0 then []
    else (if occs[0].inRange then [occs[0]] else []) + Clip(occs[1..])
  }

  function Snapped(occs: seq<Occurrence>): (r: seq<Pixel>)
    ensures |r| == |occs|
    ensures forall i :: 0 <= i < |occs| ==> r[i] == Snap(occs[i])
  {
    if |occs| == 0 then [] else [Snap(occs[0])] + Snapped(occs[1..])
  }

  /** One point per pixel: a pixel already seen is skipped (lines 103-105). */
  function Dedup(ps: seq<Pixel>): seq<Pixel>
  {
    if |ps| == 0 then []
    else
      var init := Dedup(ps[..|ps| - 1]);
      if ps[|ps| - 1] in init then init else init + [ps[|ps| - 1]]
  }

  /** The kept pixels are pairwise different and are exactly the pixels of
      the input, each sampled once, and never more than there were points. */
  lemma {:induction false} DedupSpec(ps: seq<Pixel>)
    ensures Distinct(Dedup(ps))
    ensures forall p :: p in Dedup(ps) <==> p in ps
    ensures |Dedup(ps)| <= |ps|
  {
    if |ps| > 0 {
      var init := ps[..|ps| - 1];
      DedupSpec(init);
      assert ps == init + [ps[|ps| - 1]];
    }
  }

  /** Input without repeated pixels is kept whole: deduplication removes
      repetitions only. */
  lemma {:induction false} DedupDistinct(ps: seq<Pixel>)
    requires Distinct(ps)
    ensures Dedup(ps) == ps
  {
    if |ps| > 0 {
      var init := ps[..|ps| - 1];
      DedupDistinct(init);
      DedupSpec(init);
      assert ps == init + [ps[|ps| - 1]];
    }
  }

  /** Deduplicating twice is deduplicating once. */
  lemma DedupIdempotent(ps: seq<Pixel>)
    ensures Dedup(Dedup(ps)) == Dedup(ps)
  {
    DedupSpec(ps);
    DedupDistinct(Dedup(ps));
  }

  /** Sum of the 2x2 block of AOH values whose top-left pixel is `p`. */
  function BlockSum(aoh: (int, int) -> real, p: Pixel): real
  {
    aoh(p.x, p.y) + aoh(p.x + 1, p.y) + aoh(p.x, p.y + 1) + aoh(p.x + 1, p.y + 1)
  }

  function Hits(ps: seq<Pixel>, aoh: (int, int) -> real): (r: seq<bool>)
    ensures |r| == |ps|
    ensures forall i :: 0 <= i < |ps| ==> (r[i] <==> BlockSum(aoh, ps[i]) > 0.0)
  {
    if |ps| == 0 then [] else [BlockSum(aoh, ps[0]) > 0.0] + Hits(ps[1..], aoh)
  }

  function CountTrue(bs: seq<bool>): (n: nat)
    ensures n <= |bs|
    ensures n == 0 <==> forall i :: 0 <= i < |bs| ==> !bs[i]
    ensures n == |bs| <==> forall i :: 0 <= i < |bs| ==> bs[i]
  {
    if |bs| == 0 then 0 else (if bs[0] then 1 else 0) + CountTrue(bs[1..])
  }

  /** One more pixel either repeats a kept one or is kept at the end. */
  lemma DedupStep(ps: seq<Pixel>, p: Pixel)
    ensures Dedup(ps + [p]) == if p in Dedup(ps) then Dedup(ps) else Dedup(ps) + [p]
  {
    assert (ps + [p])[..|ps|] == ps;
  }

  lemma {:induction false} HitsAppend(ps: seq<Pixel>, p: Pixel, aoh: (int, int) -> real)
    ensures Hits(ps + [p], aoh) == Hits(ps, aoh) + [BlockSum(aoh, p) > 0.0]
  {
    var h := Hits(ps + [p], aoh);
    assert |h| == |ps| + 1;
    assert forall i :: 0 <= i < |ps| ==> (ps + [p])[i] == ps[i];
  }

  /** The sampling loop of lines 80-113: the pixel set decides which points
      are skipped, and each kept pixel contributes one match flag. */
  method Sample(points: seq<Occurrence>, aoh: (int, int) -> real) returns (results: seq<bool>)
    ensures results == Hits(Dedup(Snapped(points)), aoh)
  {
    var pixelSet: set<Pixel> := {};
    results := [];
    ghost var snapped := Snapped(points);
    ghost var kept: seq<Pixel> := [];
    var i := 0;
    while i < |points|
      invariant 0 <= i <= |points|
      invariant kept == Dedup(snapped[..i])
      invariant forall p :: p in pixelSet <==> p in kept
      invariant results == Hits(kept, aoh)
    {
      var px := Snap(points[i]);
      assert px == snapped[i];
      assert snapped[..i + 1] == snapped[..i] + [px];
      DedupStep(snapped[..i], px);
      if px !in pixelSet {
        assert Dedup(snapped[..i + 1]) == kept + [px];
        pixelSet := pixelSet + {px};
        HitsAppend(kept, px, aoh);
        kept := kept + [px];
        results := results + [BlockSum(aoh, px) > 0.0];
      } else {
        assert Dedup(snapped[..i + 1]) == kept;
      }
      i := i + 1;
    }
    assert snapped[..|points|] == snapped;
  }

  /** Every row carries the same taxon id (`unique()` has one entry). */
  predicate SingleTaxon(occs: seq<Occurrence>)
  {
    forall i :: 0 <= i < |occs| ==> occs[i].taxon == occs[0].taxon
  }

  /** A file name matched by the glob `{id}_*{suffix}`. */
  predicate GlobMatch(name: string, id: int, suffix: string)
  {
    var prefix := ShowInt(id) + "_";
    && |prefix| + |suffix| <= |name|
    && name[..|prefix|] == prefix
    && name[|name| - |suffix|..] == suffix
  }

  /** Number of names in a directory tree listing matched by the glob. */
  function GlobCount(names: seq<string>, id: int, suffix: string): (n: nat)
    ensures n <= |names|
    ensures n == 0 <==> forall i :: 0 <= i < |names| ==> !GlobMatch(names[i], id, suffix)
  {
    if |names| == 0 then 0
    else (if GlobMatch(names[0], id, suffix) then 1 else 0) + GlobCount(names[1..], id, suffix)
  }

  /** `p < v` for the stored model prevalence `v`: a number compares as a
      number, NaN compares false, and null or text cannot be compared with
      a float (TypeError). */
  function Below(p: real, v: Species.Value): (r: Result<bool>)
    ensures r.Failure? <==> v.Null? || v.Str?
    ensures r.Failure? ==> r.error == TypeError
    ensures v.Int? ==> r == Success(p < v.i as real)
    ensures v.Num? ==> r == Success(p < v.x)
    ensures v.NaN? ==> r == Success(false)
  {
    match v
    case Int(i) => Success(p < i as real)
    case Num(x) => Success(p < x)
    case NaN => Success(false)
    case _ => Failure(TypeError)
  }

  /** The stored prevalence as a number, when it is one. */
  predicate Numeric(v: Species.Value)
  {
    v.Int? || v.Num?
  }

  function AsReal(v: Species.Value): real
    requires Numeric(v)
  {
    if v.Int? then v.i as real else v.x
  }

  /** The classification of lines 117-137 from the per-pixel match flags.
      The outlier test short-circuits: the model prevalence is compared only
      when not every kept point matches. */
  function Classify(taxon: int, total: nat, clipped: nat, results: seq<bool>, model: Species.Value): (r: Result<Record>)
    ensures r.Failure? <==> |results| >= MIN_POINTS && CountTrue(results) < |results| && (model.Null? || model.Str?)
    ensures r.Failure? ==> r.error == TypeError
    ensures r.Success? ==> r.value.uniquePoints == |results| && r.value.matches <= r.value.uniquePoints
    ensures r.Success? ==> r.value.matches == CountTrue(results) && r.value.modelPrevalence == model
    ensures r.Success? ==> (r.value.isValid <==> |results| >= MIN_POINTS)
    ensures r.Success? ==> (r.value.pointPrevalence.Some? <==> r.value.isValid)
    ensures r.Success? ==> (r.value.isOutlier.Some? <==> r.value.isValid)
    ensures r.Success? && r.value.isValid ==> 0.0 <= r.value.pointPrevalence.value <= 1.0
    ensures r.Success? && r.value.isValid && Numeric(model) ==> (r.value.isOutlier.value <==>
      r.value.pointPrevalence.value != 1.0 && r.value.pointPrevalence.value < AsReal(model))
    ensures r.Success? && r.value.isValid && Numeric(model) ==> (r.value.isOutlier.value <==>
      r.value.matches < r.value.uniquePoints && FewerThanExpected(r.value.matches, r.value.uniquePoints, AsReal(model)))
    ensures r.Success? && r.value.isValid && model.NaN? ==> r.value.isOutlier == Some(false)
  {
    var matches := CountTrue(results);
    if |results| >= MIN_POINTS then
      var p := matches as real / |results| as real;
      ShareBounds(matches, |results|);
      if p == 1.0 then Success(Record(taxon, total, clipped, |results|, matches, Some(p), model, true, Some(false)))
      else match Below(p, model)
        case Failure(e) => Failure(e)
        case Success(below) =>
          ShareBelow(matches, |results|, if Numeric(model) then AsReal(model) else 0.0);
          Success(Record(taxon, total, clipped, |results|, matches, Some(p), model, true, Some(below)))
    else
      Success(Record(taxon, total, clipped, |results|, matches, None, model, false, None))
  }

  /** `process_species`. The listings are the file names under the AOH and
      species-data directories; `data` is the manifest beside the AOH raster
      and `aoh` reads one pixel of the AOH raster. */
  function ProcessSpecies(occs: seq<Occurrence>, aohNames: seq<string>, data: AohData, rangeNames: seq<string>,
                          aoh: (int, int) -> real): (r: Result<Record>)
    ensures r.Success? ==>
      (&& |occs| > 0 && SingleTaxon(occs)
       && GlobCount(aohNames, occs[0].taxon, ".tif") == 1
       && data.Manifest? && "prevalence" in data.fields
       && GlobCount(rangeNames, occs[0].taxon, ".geojson") == 1)
    ensures r.Success? ==> r.value.taxon == occs[0].taxon && r.value.totalRecords == |occs|
    ensures r.Success? ==> r.value.uniquePoints <= r.value.clippedPoints <= r.value.totalRecords
    ensures r.Success? ==> r.value.modelPrevalence == data.fields["prevalence"]
  {
    if |occs| == 0 then Failure(ValueError)
    else if !SingleTaxon(occs) then Failure(ValueError)
    else
      var taxon := occs[0].taxon;
      var found := GlobCount(aohNames, taxon, ".tif");
      if found == 0 then Failure(FileNotFoundError)
      else if found > 1 then Failure(NotImplementedError)
      else if data.NoManifest? then Failure(FileNotFoundError)
      else if data.MalformedManifest? then Failure(ValueError)
      else if GlobCount(rangeNames, taxon, ".geojson") != 1 then Failure(RuntimeError)
      else
        var clipped := Clip(occs);
        var pixels := Dedup(Snapped(clipped));
        DedupSpec(Snapped(clipped));
        if "prevalence" !in data.fields then Failure(KeyError)
        else Classify(taxon, |occs|, |clipped|, Hits(pixels, aoh), data.fields["prevalence"])
  }

  /** The match flags of the kept pixels. */
  function Kept(occs: seq<Occurrence>, aoh: (int, int) -> real): seq<bool>
  {
    Hits(Dedup(Snapped(Clip(occs))), aoh)
  }

  /** Every check before the sampling passes: rows of one taxon, one AOH
      raster with a readable manifest, and one range file. */
  predicate Located(occs: seq<Occurrence>, aohNames: seq<string>, data: AohData, rangeNames: seq<string>)
  {
    && |occs| > 0 && SingleTaxon(occs)
    && GlobCount(aohNames, occs[0].taxon, ".tif") == 1
    && data.Manifest?
    && GlobCount(rangeNames, occs[0].taxon, ".geojson") == 1
  }

  /** The failures, in the order the checks run: no rows or several taxa
      (ValueError), no AOH (FileNotFoundError), several seasonal AOHs
      (NotImplementedError), no manifest beside the AOH (FileNotFoundError)
      or one that is not JSON (ValueError), anything but one range file
      (RuntimeError); after sampling, a manifest without a prevalence
      (KeyError), and a prevalence that cannot be compared (TypeError). */
  lemma ErrorTaxonomy(occs: seq<Occurrence>, aohNames: seq<string>, data: AohData, rangeNames: seq<string>,
                      aoh: (int, int) -> real)
    ensures |occs| == 0 ==> ProcessSpecies(occs, aohNames, data, rangeNames, aoh) == Failure(ValueError)
    ensures |occs| > 0 && !SingleTaxon(occs) ==> ProcessSpecies(occs, aohNames, data, rangeNames, aoh) == Failure(ValueError)
    ensures (|occs| > 0 && SingleTaxon(occs) && GlobCount(aohNames, occs[0].taxon, ".tif") == 0 ==>
      ProcessSpecies(occs, aohNames, data, rangeNames, aoh) == Failure(FileNotFoundError))
    ensures (|occs| > 0 && SingleTaxon(occs) && GlobCount(aohNames, occs[0].taxon, ".tif") > 1 ==>
      ProcessSpecies(occs, aohNames, data, rangeNames, aoh) == Failure(NotImplementedError))
    ensures (|occs| > 0 && SingleTaxon(occs) && GlobCount(aohNames, occs[0].taxon, ".tif") == 1 && data.NoManifest? ==>
      ProcessSpecies(occs, aohNames, data, rangeNames, aoh) == Failure(FileNotFoundError))
    ensures (|occs| > 0 && SingleTaxon(occs) && GlobCount(aohNames, occs[0].taxon, ".tif") == 1 && data.MalformedManifest? ==>
      ProcessSpecies(occs, aohNames, data, rangeNames, aoh) == Failure(ValueError))
    ensures ((|occs| > 0 && SingleTaxon(occs) && GlobCount(aohNames, occs[0].taxon, ".tif") == 1 && data.Manifest?
       && GlobCount(rangeNames, occs[0].taxon, ".geojson") != 1) ==>
      ProcessSpecies(occs, aohNames, data, rangeNames, aoh) == Failure(RuntimeError))
    ensures Located(occs, aohNames, data, rangeNames) && "prevalence" !in data.fields ==>
      ProcessSpecies(occs, aohNames, data, rangeNames, aoh) == Failure(KeyError)
    ensures (Located(occs, aohNames, data, rangeNames) && "prevalence" in data.fields ==>
      (ProcessSpecies(occs, aohNames, data, rangeNames, aoh) == Failure(TypeError) <==>
        |Kept(occs, aoh)| >= MIN_POINTS && CountTrue(Kept(occs, aoh)) < |Kept(occs, aoh)|
        && (data.fields["prevalence"].Null? || data.fields["prevalence"].Str?)))
  {
  }

  /** A found species is classified from its kept points: valid exactly with
      ten or more distinct pixels, and then its point prevalence is the share
      of them that match and it is an outlier exactly when that share is
      below the model prevalence without being 1. */
  lemma Classification(occs: seq<Occurrence>, aohNames: seq<string>, data: AohData, rangeNames: seq<string>,
                       aoh: (int, int) -> real)
    requires ProcessSpecies(occs, aohNames, data, rangeNames, aoh).Success?
    ensures var r := ProcessSpecies(occs, aohNames, data, rangeNames, aoh).value;
      && r.uniquePoints == |Dedup(Snapped(Clip(occs)))|
      && r.matches == CountTrue(Kept(occs, aoh))
      && (r.isValid <==> r.uniquePoints >= MIN_POINTS)
      && (r.isValid ==> r.pointPrevalence == Some(r.matches as real / r.uniquePoints as real))
      && (!r.isValid ==> r.pointPrevalence.None? && r.isOutlier.None?)
      && (r.isValid && Numeric(r.modelPrevalence) ==> (r.isOutlier.value <==>
            r.pointPrevalence.value != 1.0 && r.pointPrevalence.value < AsReal(r.modelPrevalence)))
  {
  }

  /** Two points in one pixel count once: the unique count is the number of
      distinct snapped pixels among the in-range points. */
  lemma UniqueIsDistinctPixels(occs: seq<Occurrence>)
    ensures forall p :: p in Dedup(Snapped(Clip(occs))) <==> exists i :: 0 <= i < |occs| && occs[i].inRange && Snap(occs[i]) == p
  {
    var c := Clip(occs);
    DedupSpec(Snapped(c));
    forall p
      ensures p in Snapped(c) <==> exists i :: 0 <= i < |occs| && occs[i].inRange && Snap(occs[i]) == p
    {
      if p in Snapped(c) {
        var k :| 0 <= k < |c| && Snapped(c)[k] == p;
        assert c[k] in occs;
      }
      if exists i :: 0 <= i < |occs| && occs[i].inRange && Snap(occs[i]) == p {
        var i :| 0 <= i < |occs| && occs[i].inRange && Snap(occs[i]) == p;
        assert occs[i] in c;
        var k :| 0 <= k < |c| && c[k] == occs[i];
        assert Snapped(c)[k] == p;
      }
    }
  }

  /** A valid species whose kept points all match has point prevalence 1 and
      is never an outlier, whatever the model prevalence, including 1, and
      even one that could not be compared. */
  lemma AllMatchNotOutlier(taxon: int, total: nat, clipped: nat, results: seq<bool>, model: Species.Value)
    requires |results| >= MIN_POINTS
    requires forall i :: 0 <= i < |results| ==> results[i]
    ensures Classify(taxon, total, clipped, results, model).Success?
    ensures Classify(taxon, total, clipped, results, model).value.pointPrevalence == Some(1.0)
    ensures Classify(taxon, total, clipped, results, model).value.isOutlier == Some(false)
  {
  }

  /** `m` matches out of `n` points fall short of the `k * n` matches the
      model prevalence `k` predicts. */
  predicate FewerThanExpected(m: nat, n: nat, k: real)
  {
    (m as real) < k * (n as real)
  }

  /** The share m/n is below k exactly when m falls short of k * n. */
  lemma ShareBelow(m: nat, n: nat, k: real)
    requires n > 0
    ensures (m as real) / (n as real) < k <==> FewerThanExpected(m, n, k)
  {
    var p := (m as real) / (n as real);
    assert p * (n as real) == m as real;
    if p < k {
      assert p * (n as real) < k * (n as real);
    }
    if FewerThanExpected(m, n, k) {
      assert (k - p) * (n as real) > 0.0;
    }
  }

  /** A share of at most all points lies in [0, 1] and is 1 only for all. */
  lemma ShareBounds(m: nat, n: nat)
    requires 0 <= m <= n && n > 0
    ensures 0.0 <= (m as real) / (n as real) <= 1.0
    ensures (m as real) / (n as real) == 1.0 <==> m == n
  {
  }

  /** The file a season-less species' AOH is saved under, `{id}.tif`, is not
      matched by the glob `{id}_*.tif`, so such a species always fails with
      FileNotFoundError. */
  lemma SeasonlessNotFound(id: int, occs: seq<Occurrence>, data: AohData, rangeNames: seq<string>,
                           aoh: (int, int) -> real)
    requires |occs| > 0 && SingleTaxon(occs) && occs[0].taxon == id
    ensures ProcessSpecies(occs, [ShowInt(id) + ".tif"], data, rangeNames, aoh) == Failure(FileNotFoundError)
  {
    var name := ShowInt(id) + ".tif";
    assert |ShowInt(id) + "_"| + 4 > |name|;
    assert !GlobMatch(name, id, ".tif");
  }

  /** `process_species_wrapper`: the four expected exceptions become "no
      record"; any other exception propagates. */
  function Wrapper(r: Result<Record>): (w: Result<Option<Record>>)
    ensures r.Success? ==> w == Success(Some(r.value))
    ensures (r.Failure? ==> (w == Success(None) <==>
      r.error in {ValueError, FileNotFoundError, RuntimeError, NotImplementedError}))
    ensures w.Failure? ==> r.Failure? && w.error == r.error
  {
    match r
    case Success(rec) => Success(Some(rec))
    case Failure(e) =>
      if e == ValueError || e == FileNotFoundError || e == RuntimeError || e == NotImplementedError
      then Success(None)
      else Failure(e)
  }

  /** The wrapper catches every failure of the checks before sampling; only
      the KeyError of a manifest without a prevalence and the TypeError of
      a prevalence that cannot be compared escape it. Otherwise it gives no
      record exactly when the species is rejected. */
  lemma WrapperTotal(occs: seq<Occurrence>, aohNames: seq<string>, data: AohData, rangeNames: seq<string>,
                     aoh: (int, int) -> real)
    ensures var r := ProcessSpecies(occs, aohNames, data, rangeNames, aoh);
      Wrapper(r).Failure? <==> r.Failure? && (r.error == KeyError || r.error == TypeError)
    ensures Wrapper(ProcessSpecies(occs, aohNames, data, rangeNames, aoh)).Failure? ==>
      Located(occs, aohNames, data, rangeNames)
    ensures var r := ProcessSpecies(occs, aohNames, data, rangeNames, aoh);
      Wrapper(r).Success? ==> (Wrapper(r).value.None? <==> r.Failure?)
  {
  }
}
