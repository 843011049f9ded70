/** Endemism: for each species, the log of each pixel's share of the
    species' total AOH (the geometric-mean trick), the two seasons of a
    migratory species combined by a pixelwise maximum, the shares summed over
    all species by a worker pool, and finally `exp(sum / richness)` on the
    overlap with the richness raster. `log` and `exp` are parameters; NaN is
    `None`. */
module Endemism {
  import opened Wrappers
  import opened Grids
  import opened Windows
  import opened Layers
  import opened Seqs

  /** The seasonal AOH rasters of one species, grouped by file name. */
  type Species = seq<Layer>

  /** A raster whose pixels may be NaN. */
  type NanRaster = Raster<Option<real>>

  /** The total of all pixel values of a raster, row by row. */
  function RowsTotal(rows: seq<seq<real>>): real
  {
    if |rows| == 0 then 0.0 else RowsTotal(rows[..|rows| - 1]) + Sum(rows[|rows| - 1])
  }

  function Total(l: Layer): real
  {
    RowsTotal(l.rows)
  }

  /** `log(v / total)` where the pixel is positive; NaN where it is 0 (set
      explicitly) or negative (the logarithm's domain). */
  function Share(v: real, total: real, ln: real -> real): (r: Option<real>)
    requires total > 0.0
    ensures r.Some? <==> v > 0.0
  {
    if v > 0.0 then Some(ln(v / total)) else None
  }

  /** `geometric_sum`: the per-pixel log shares, or `None` when the raster's
      total is not positive. */
  function GeometricSum(r: Layer, ln: real -> real): (s: Option<NanRaster>)
    ensures s.None? <==> Total(r) <= 0.0
    ensures s.Some? ==> Valid(s.value) && s.value.window == r.window
    ensures s.Some? ==> forall px, py :: r.window.Contains(px, py) ==>
      (At(r, px, py) > 0.0 ==> Get(s.value, px, py, None) == Some(ln(At(r, px, py) / Total(r))))
      && (At(r, px, py) <= 0.0 ==> Get(s.value, px, py, None).None?)
  {
    var total := Total(r);
    if total > 0.0 then Some(Tabulate(r.window, (px, py) => Share(At(r, px, py), total, ln))) else None
  }

  /** `nan_to_num()`: NaN becomes 0. */
  function NanToNum(a: Option<real>): (x: real)
    ensures a.Some? ==> x == a.value
    ensures a.None? ==> x == 0.0
  {
    a.GetOr(0.0)
  }

  /** The value of a possibly missing log-share raster at a pixel: NaN when
      the season was skipped or the pixel is NaN or outside the raster. */
  function PixelOf(s: Option<NanRaster>, px: int, py: int): Option<real>
  {
    if s.None? then None else Get(s.value, px, py, None)
  }

  /** The extended reals that the two-season combination passes through:
      NaN is levelled to negative infinity before the maximum and negative
      infinity becomes 0 after it. */
  datatype Levelled = NegInf | Finite(x: real)

  function Level(a: Option<real>): Levelled
  {
    if a.None? then NegInf else Finite(a.value)
  }

  function LevelledMax(a: Levelled, b: Levelled): Levelled
  {
    match (a, b)
    case (NegInf, _) => b
    case (_, NegInf) => a
    case (Finite(x), Finite(y)) => Finite(if x >= y then x else y)
  }

  function Unlevel(a: Levelled): real
  {
    if a.NegInf? then 0.0 else a.x
  }

  /** The two-season combination at one pixel: both NaN gives 0, one NaN
      gives the other, and otherwise the larger share; seasons are never
      added. */
  function Combine(a: Option<real>, b: Option<real>): (r: real)
    ensures a.None? ==> r == NanToNum(b)
    ensures b.None? ==> r == NanToNum(a)
    ensures a.Some? && b.Some? ==> (r == a.value || r == b.value) && r >= a.value && r >= b.value
  {
    Unlevel(LevelledMax(Level(a), Level(b)))
  }

  /** The order of the seasons does not matter. */
  lemma CombineCommutative(a: Option<real>, b: Option<real>)
    ensures Combine(a, b) == Combine(b, a)
  {
  }

  /** A species seen twice is not counted twice. */
  lemma CombineNotSummed(a: Option<real>)
    ensures Combine(a, a) == NanToNum(a)
  {
  }

  /** One species' contribution to the summed shares: `None` when it is
      skipped, a ValueError for more than two seasons. */
  function Contribution(rasters: Species, ln: real -> real): (r: Result<Option<Layer>>)
    requires |rasters| >= 1
    ensures r.Failure? <==> |rasters| > 2
    ensures r.Failure? ==> r.error == ValueError
    ensures r.Success? && r.value.Some? ==> Valid(r.value.value)
  {
    if |rasters| == 2 then
      var u := Union(rasters[0].window, rasters[1].window);
      var s0 := GeometricSum(Realign(rasters[0], u), ln);
      var s1 := GeometricSum(Realign(rasters[1], u), ln);
      if s0.None? && s1.None? then Success(None)
      else Success(Some(Tabulate(u, (px, py) => Combine(PixelOf(s0, px, py), PixelOf(s1, px, py)))))
    else if |rasters| == 1 then
      var s := GeometricSum(rasters[0], ln);
      if s.None? then Success(None)
      else Success(Some(Tabulate(rasters[0].window, (px, py) => NanToNum(PixelOf(s, px, py)))))
    else Failure(ValueError)
  }

  /** A single season with no positive total is skipped; otherwise its log
      shares are kept over its own window, NaN as 0. */
  lemma OneSeason(r: Layer, ln: real -> real)
    ensures Total(r) <= 0.0 <==> Contribution([r], ln) == Success(None)
    ensures Total(r) > 0.0 ==> var c := Contribution([r], ln).value.value;
      && c.window == r.window
      && forall px, py :: r.window.Contains(px, py) ==>
        At(c, px, py) == (if At(r, px, py) > 0.0 then ln(At(r, px, py) / Total(r)) else 0.0)
  {
  }

  /** Two seasons: skipped only when neither has a positive total; with one
      season skipped the other's shares are used, NaN as 0, over the union
      of the two windows. */
  lemma TwoSeasons(a: Layer, b: Layer, ln: real -> real)
    ensures var u := Union(a.window, b.window);
      Contribution([a, b], ln) == Success(None) <==> Total(Realign(a, u)) <= 0.0 && Total(Realign(b, u)) <= 0.0
    ensures var u := Union(a.window, b.window);
      var c := Contribution([a, b], ln);
      Total(Realign(a, u)) > 0.0 && Total(Realign(b, u)) <= 0.0 ==>
        c.value.Some? && c.value.value.window == u
        && forall px, py :: u.Contains(px, py) ==>
          At(c.value.value, px, py) == NanToNum(PixelOf(GeometricSum(Realign(a, u), ln), px, py))
  {
  }

  /** With both seasons kept, each pixel holds the larger of the two shares
      where both are numbers, and never their sum. */
  lemma TwoSeasonsMax(a: Layer, b: Layer, ln: real -> real, px: int, py: int)
    requires var u := Union(a.window, b.window);
      Total(Realign(a, u)) > 0.0 && Total(Realign(b, u)) > 0.0
    requires At(a, px, py) > 0.0 && At(b, px, py) > 0.0
    ensures var u := Union(a.window, b.window);
      var sa, sb := ln(At(a, px, py) / Total(Realign(a, u))), ln(At(b, px, py) / Total(Realign(b, u)));
      At(Contribution([a, b], ln).value.value, px, py) == (if sa >= sb then sa else sb)
  {
    var u := Union(a.window, b.window);
    assert a.window.Contains(px, py) && b.window.Contains(px, py);
  }

  /** Every species has one or two seasons. */
  predicate AtMostTwo(species: seq<Species>)
  {
    forall i :: 0 <= i < |species| ==> 1 <= |species[i]| <= 2
  }

  /** The contribution of a species as a list: empty when it is skipped. */
  function Part(s: Species, ln: real -> real): (p: seq<Layer>)
    requires 1 <= |s| <= 2
    ensures |p| <= 1
  {
    var c := Contribution(s, ln).value;
    if c.Some? then [c.value] else []
  }

  /** The layers a worker accumulates for the species it took, in order. */
  function Contribs(species: seq<Species>, ln: real -> real): (cs: seq<Layer>)
    requires AtMostTwo(species)
    ensures |cs| <= |species|
  {
    if |species| == 0 then []
    else
      var init := species[..|species| - 1];
      assert AtMostTwo(init) by {
        forall i | 0 <= i < |init| ensures 1 <= |init[i]| <= 2 { assert init[i] == species[i]; }
      }
      Contribs(init, ln) + Part(species[|species| - 1], ln)
  }

  lemma AtMostTwoAppend(a: seq<Species>, b: seq<Species>)
    ensures AtMostTwo(a + b) <==> AtMostTwo(a) && AtMostTwo(b)
  {
    if AtMostTwo(a + b) {
      forall i | 0 <= i < |a| ensures 1 <= |a[i]| <= 2 { assert (a + b)[i] == a[i]; }
      forall i | 0 <= i < |b| ensures 1 <= |b[i]| <= 2 { assert (a + b)[|a| + i] == b[i]; }
    }
    if AtMostTwo(a) && AtMostTwo(b) {
      forall i | 0 <= i < |a + b| ensures 1 <= |(a + b)[i]| <= 2
      {
        if i >= |a| { assert (a + b)[i] == b[i - |a|]; }
      }
    }
  }

  lemma {:induction false} ContribsAppend(a: seq<Species>, b: seq<Species>, ln: real -> real)
    requires AtMostTwo(a) && AtMostTwo(b)
    ensures AtMostTwo(a + b) && Contribs(a + b, ln) == Contribs(a, ln) + Contribs(b, ln)
    decreases |b|
  {
    AtMostTwoAppend(a, b);
    if |b| == 0 {
      assert a + b == a;
    } else {
      var init := b[..|b| - 1];
      assert b == init + [b[|b| - 1]];
      AtMostTwoAppend(init, [b[|b| - 1]]);
      assert (a + b)[..|a + b| - 1] == a + init;
      ContribsAppend(a, init, ln);
    }
  }

  /** Taking species `k` out takes its contribution out. */
  lemma ContribsRemove(ys: seq<Species>, k: nat, ln: real -> real)
    requires AtMostTwo(ys) && k < |ys|
    ensures AtMostTwo(ys[..k] + ys[k + 1..])
    ensures multiset(Contribs(ys, ln)) == multiset(Contribs(ys[..k] + ys[k + 1..], ln)) + multiset(Part(ys[k], ln))
  {
    var front, x, back := ys[..k], ys[k], ys[k + 1..];
    SplitAt(ys, k);
    AtMostTwoAppend(front + [x], back);
    AtMostTwoAppend(front, [x]);
    AtMostTwoAppend(front, back);
    ContribsAppend(front + [x], back, ln);
    ContribsAppend(front, [x], ln);
    ContribsAppend(front, back, ln);
    ContribsOne(x, ln);
  }

  lemma ContribsOne(x: Species, ln: real -> real)
    requires 1 <= |x| <= 2
    ensures AtMostTwo([x]) && Contribs([x], ln) == Part(x, ln)
  {
    assert [x][..0] == [];
  }

  /** The order of the species does not change which layers are
      accumulated. */
  lemma {:induction false} ContribsPermutation(xs: seq<Species>, ys: seq<Species>, ln: real -> real)
    requires AtMostTwo(xs) && AtMostTwo(ys) && multiset(xs) == multiset(ys)
    ensures multiset(Contribs(xs, ln)) == multiset(Contribs(ys, ln))
    decreases |xs|
  {
    if |xs| == 0 {
      assert |ys| == |multiset(ys)| == 0;
    } else {
      var x := xs[|xs| - 1];
      var xi := xs[..|xs| - 1];
      var k := FindIn(x, ys);
      var yr := ys[..k] + ys[k + 1..];
      ContribsRemove(ys, k, ln);
      MultisetRemoveMatch(xs, ys, k);
      assert AtMostTwo(xi) by {
        forall i | 0 <= i < |xi| ensures 1 <= |xi[i]| <= 2 { assert xi[i] == xs[i]; }
      }
      ContribsPermutation(xi, yr, ln);
      assert Contribs(xs, ln) == Contribs(xi, ln) + Part(x, ln);
    }
  }

  /** One worker's partial sum; `None` (no file) when it kept nothing. */
  function Worker(taken: seq<Species>, ln: real -> real): (r: Option<Layer>)
    requires AtMostTwo(taken)
    ensures r.None? <==> |Contribs(taken, ln)| == 0
  {
    FoldAdd(Contribs(taken, ln))
  }

  /** A worker fails on its first species with more than two seasons; the
      pool then stops and the script exits with the worker's status 1. */
  function StageOne(parts: seq<seq<Species>>, ln: real -> real): (r: Result<seq<Layer>>)
    requires forall w, i :: 0 <= w < |parts| && 0 <= i < |parts[w]| ==> |parts[w][i]| >= 1
    ensures r.Failure? <==> exists w, i :: 0 <= w < |parts| && 0 <= i < |parts[w]| && |parts[w][i]| > 2
    ensures r.Failure? ==> r.error == SystemExit(1)
  {
    if exists w, i :: 0 <= w < |parts| && 0 <= i < |parts[w]| && |parts[w][i]| > 2 then Failure(SystemExit(1))
    else Success(Partials(parts, ln))
  }

  /** The partial files: one per worker that kept at least one species. */
  function Partials(parts: seq<seq<Species>>, ln: real -> real): (ps: seq<Layer>)
    requires forall w :: 0 <= w < |parts| ==> AtMostTwo(parts[w])
    ensures |ps| <= |parts|
  {
    if |parts| == 0 then []
    else
      var last := parts[|parts| - 1];
      var w := Worker(last, ln);
      Partials(parts[..|parts| - 1], ln) + (if w.None? then [] else [w.value])
  }

  lemma {:induction false} ConcatAtMostTwo(parts: seq<seq<Species>>)
    requires forall w :: 0 <= w < |parts| ==> AtMostTwo(parts[w])
    ensures AtMostTwo(Concat(parts))
  {
    if |parts| > 0 {
      ConcatAtMostTwo(parts[..|parts| - 1]);
      AtMostTwoAppend(Concat(parts[..|parts| - 1]), parts[|parts| - 1]);
    }
  }

  /** Stage 2 over the partial files gives the accumulation of every kept
      species in worker order. */
  lemma {:induction false} PartialsFlatten(parts: seq<seq<Species>>, ln: real -> real)
    requires forall w :: 0 <= w < |parts| ==> AtMostTwo(parts[w])
    ensures AtMostTwo(Concat(parts))
    ensures FoldAdd(Partials(parts, ln)) == FoldAdd(Contribs(Concat(parts), ln))
  {
    ConcatAtMostTwo(parts);
    if |parts| > 0 {
      var init, last := parts[..|parts| - 1], parts[|parts| - 1];
      ConcatAtMostTwo(init);
      PartialsFlatten(init, ln);
      ContribsAppend(Concat(init), last, ln);
      StepPartial(parts, ln);
    }
  }

  lemma StepPartial(parts: seq<seq<Species>>, ln: real -> real)
    requires |parts| >= 1 && forall w :: 0 <= w < |parts| ==> AtMostTwo(parts[w])
    requires AtMostTwo(Concat(parts[..|parts| - 1]))
    requires FoldAdd(Partials(parts[..|parts| - 1], ln)) == FoldAdd(Contribs(Concat(parts[..|parts| - 1]), ln))
    ensures AtMostTwo(Concat(parts))
    ensures FoldAdd(Partials(parts, ln)) == FoldAdd(Contribs(Concat(parts), ln))
  {
    var init, last := parts[..|parts| - 1], parts[|parts| - 1];
    ContribsAppend(Concat(init), last, ln);
    var a, b := Contribs(Concat(init), ln), Contribs(last, ln);
    var pi := Partials(init, ln);
    assert Contribs(Concat(parts), ln) == a + b;
    if |b| == 0 {
      IdleStep(parts, ln);
    } else if |pi| == 0 {
      FirstStep(parts, ln);
    } else {
      NextStep(parts, ln);
    }
  }

  lemma IdleStep(parts: seq<seq<Species>>, ln: real -> real)
    requires |parts| >= 1 && forall w :: 0 <= w < |parts| ==> AtMostTwo(parts[w])
    requires AtMostTwo(Concat(parts[..|parts| - 1])) && AtMostTwo(Concat(parts))
    requires |Contribs(parts[|parts| - 1], ln)| == 0
    requires Contribs(Concat(parts), ln) == Contribs(Concat(parts[..|parts| - 1]), ln) + Contribs(parts[|parts| - 1], ln)
    ensures Partials(parts, ln) == Partials(parts[..|parts| - 1], ln)
    ensures Contribs(Concat(parts), ln) == Contribs(Concat(parts[..|parts| - 1]), ln)
  {
    var init := parts[..|parts| - 1];
    assert Partials(parts, ln) == Partials(init, ln) + [];
  }

  lemma FirstStep(parts: seq<seq<Species>>, ln: real -> real)
    requires |parts| >= 1 && forall w :: 0 <= w < |parts| ==> AtMostTwo(parts[w])
    requires AtMostTwo(Concat(parts[..|parts| - 1])) && AtMostTwo(Concat(parts))
    requires |Contribs(parts[|parts| - 1], ln)| > 0 && |Partials(parts[..|parts| - 1], ln)| == 0
    requires FoldAdd(Partials(parts[..|parts| - 1], ln)) == FoldAdd(Contribs(Concat(parts[..|parts| - 1]), ln))
    requires Contribs(Concat(parts), ln) == Contribs(Concat(parts[..|parts| - 1]), ln) + Contribs(parts[|parts| - 1], ln)
    ensures FoldAdd(Partials(parts, ln)) == FoldAdd(Contribs(Concat(parts), ln))
  {
    var init, last := parts[..|parts| - 1], parts[|parts| - 1];
    var a := Contribs(Concat(init), ln);
    assert |a| == 0 && a + Contribs(last, ln) == Contribs(last, ln);
    var v := Worker(last, ln).value;
    assert Partials(parts, ln) == [] + [v];
    SavedValid(v);
  }

  lemma NextStep(parts: seq<seq<Species>>, ln: real -> real)
    requires |parts| >= 1 && forall w :: 0 <= w < |parts| ==> AtMostTwo(parts[w])
    requires AtMostTwo(Concat(parts[..|parts| - 1])) && AtMostTwo(Concat(parts))
    requires |Contribs(parts[|parts| - 1], ln)| > 0 && |Partials(parts[..|parts| - 1], ln)| > 0
    requires FoldAdd(Partials(parts[..|parts| - 1], ln)) == FoldAdd(Contribs(Concat(parts[..|parts| - 1]), ln))
    requires Contribs(Concat(parts), ln) == Contribs(Concat(parts[..|parts| - 1]), ln) + Contribs(parts[|parts| - 1], ln)
    ensures FoldAdd(Partials(parts, ln)) == FoldAdd(Contribs(Concat(parts), ln))
  {
    var init, last := parts[..|parts| - 1], parts[|parts| - 1];
    var pi, v := Partials(init, ln), Worker(last, ln).value;
    assert Partials(parts, ln) == pi + [v];
    assert (pi + [v])[..|pi|] == pi;
    assert |Contribs(Concat(init), ln)| > 0;
    FoldAddAppend(Contribs(Concat(init), ln), Contribs(last, ln));
  }

  /** The summed shares do not depend on how the species were split among
      the workers, in what order each took them, or in what order stage 2
      reads the partial files; each pixel is the sum of the kept species'
      shares there. */
  lemma PartitionIndependent(species: seq<Species>, parts: seq<seq<Species>>, files: seq<Layer>, ln: real -> real)
    requires AtMostTwo(species)
    requires forall w :: 0 <= w < |parts| ==> AtMostTwo(parts[w])
    requires multiset(Concat(parts)) == multiset(species)
    requires multiset(files) == multiset(Partials(parts, ln))
    ensures FoldAdd(files) == FoldAdd(Contribs(species, ln))
    ensures FoldAdd(files).Some? ==> forall px, py :: At(FoldAdd(files).value, px, py) == SumAt(Contribs(species, ln), px, py)
  {
    FoldAddPermutation(files, Partials(parts, ln));
    PartialsFlatten(parts, ln);
    ContribsPermutation(Concat(parts), species, ln);
    FoldAddPermutation(Contribs(Concat(parts), ln), Contribs(species, ln));
    if FoldAdd(files).Some? {
      FoldAddSpec(Contribs(species, ln));
    }
  }

  /** The final raster: over the overlap of the summed shares and the
      richness raster, `exp(sum / richness)` where the richness is positive
      and NaN elsewhere (including richness read back as nodata); no overlap
      is a ValueError. */
  function Finish(summed: Layer, richness: Layer, exp: real -> real): (r: Result<NanRaster>)
    ensures r.Failure? <==> Intersection(summed.window, richness.window).None?
    ensures r.Failure? ==> r.error == ValueError
    ensures r.Success? ==> Valid(r.value) && Some(r.value.window) == Intersection(summed.window, richness.window)
    ensures r.Success? ==> forall px, py :: r.value.window.Contains(px, py) ==>
      (At(richness, px, py) > 0.0 ==> Get(r.value, px, py, None) == Some(exp(At(summed, px, py) / At(richness, px, py))))
      && (At(richness, px, py) <= 0.0 ==> Get(r.value, px, py, None).None?)
  {
    match Intersection(summed.window, richness.window)
    case None => Failure(ValueError)
    case Some(win) =>
      Success(Tabulate(win, (px, py) =>
        if At(richness, px, py) > 0.0 then Some(exp(At(summed, px, py) / At(richness, px, py))) else None))
  }

  /** No pixel of the result lies outside either input. */
  lemma FinishInside(summed: Layer, richness: Layer, exp: real -> real, px: int, py: int)
    requires Finish(summed, richness, exp).Success?
    requires Get(Finish(summed, richness, exp).value, px, py, None).Some?
    ensures summed.window.Contains(px, py) && richness.window.Contains(px, py)
  {
    var win := Intersection(summed.window, richness.window).value;
    IntersectionExact(summed.window, richness.window);
    assert win.Contains(px, py);
  }

  /** Stage 2 and the final step over the partial files. Stage 2 saves
      `summed_proportion.tif` only when it read at least one partial, so
      with none the final step's open of that file fails; otherwise each
      result pixel is `exp` of the pixel's summed shares over the
      richness. */
  function Run(files: seq<Layer>, richness: Layer, exp: real -> real): (r: Result<NanRaster>)
    ensures |files| == 0 ==> r == Failure(FileNotFoundError)
    ensures r.Failure? <==> |files| == 0 || Intersection(UnionAll(WindowsOf(files)), richness.window).None?
    ensures |files| > 0 && r.Failure? ==> r.error == ValueError
    ensures r.Success? ==> forall px, py :: r.value.window.Contains(px, py) && At(richness, px, py) > 0.0 ==>
      Get(r.value, px, py, None) == Some(exp(SumAt(files, px, py) / At(richness, px, py)))
  {
    if |files| == 0 then Failure(FileNotFoundError)
    else
      FoldAddSpec(files);
      Finish(FoldAdd(files).value, richness, exp)
  }

  /** A whole run after stage 1: whatever the split and the file order, it
      fails to open the summed file exactly when no species contributes a
      share, raises ValueError when the shares miss the richness raster,
      and otherwise finishes the shares of every kept species. */
  lemma RunOfSpecies(species: seq<Species>, parts: seq<seq<Species>>, files: seq<Layer>, richness: Layer,
                     ln: real -> real, exp: real -> real)
    requires AtMostTwo(species)
    requires forall w :: 0 <= w < |parts| ==> AtMostTwo(parts[w])
    requires multiset(Concat(parts)) == multiset(species)
    requires multiset(files) == multiset(Partials(parts, ln))
    ensures Run(files, richness, exp) == Run(Contribs(species, ln), richness, exp)
    ensures Run(files, richness, exp) == Failure(FileNotFoundError) <==> |Contribs(species, ln)| == 0
    ensures Run(files, richness, exp) == Failure(ValueError) <==>
      |Contribs(species, ln)| > 0 && Intersection(FoldAdd(Contribs(species, ln)).value.window, richness.window).None?
  {
    var cs := Contribs(species, ln);
    PartitionIndependent(species, parts, files, ln);
    assert |files| == 0 <==> |cs| == 0;
    if |cs| > 0 {
      assert Run(files, richness, exp) == Finish(FoldAdd(files).value, richness, exp);
      assert Run(cs, richness, exp) == Finish(FoldAdd(cs).value, richness, exp);
    }
  }
}
