/** The LIFE scenario maps: each rewrites a habitat-class raster pixel by
    pixel, using the crosswalk to find the map classes of a fixed list of
    IUCN habitat codes. An unknown code in that list is a KeyError. */
module LifeMaps {
  import opened Wrappers
  import opened Windows
  import opened Layers
  import opened Crosswalk

  /** Habitats left in place by the arable conversion scenario. */
  const ARTIFICIAL_CODES: seq<string> := ["14", "14.3", "14.4", "14.5", "14.6"]
  /** Habitats the current map keeps at IUCN level 2. */
  const PRESERVE_CODES: seq<string> := ["14", "14.1", "14.2", "14.3", "14.4", "14.5", "14.6"]
  /** Habitats the restoration scenario returns to natural vegetation. */
  const REPLACEMENT_CODES: seq<string> := ["14.1", "14.2"]
  /** The class every converted pixel gets in the arable scenario. */
  const ARABLE_CODE := 1401

  type Map = Raster<int>

  /** `a` is a map class of one of `codes` in the crosswalk. */
  predicate ClassOf(table: Table, codes: seq<string>, a: int)
  {
    exists i :: 0 <= i < |codes| && codes[i] in table && a in table[codes[i]]
  }

  /** Every code of the list is in the crosswalk. */
  predicate AllKnown(table: Table, codes: seq<string>)
  {
    forall i :: 0 <= i < |codes| ==> codes[i] in table
  }

  function ArablePixel(keep: seq<int>, a: int): int
  {
    if a in keep then a else ARABLE_CODE
  }

  /** `make_arable_map`: artificial habitats stay, every other pixel
      becomes arable land. */
  function MakeArableMap(current: Map, table: Table): (r: Result<Map>)
    requires Valid(current)
    ensures r.Failure? <==> !AllKnown(table, ARTIFICIAL_CODES)
    ensures r.Failure? ==> r.error == KeyError
    ensures r.Success? ==> Valid(r.value) && r.value.window == current.window
    ensures r.Success? ==> forall px, py :: current.window.Contains(px, py) ==>
      var a := Get(current, px, py, 0);
      Get(r.value, px, py, 0) == if ClassOf(table, ARTIFICIAL_CODES, a) then a else ARABLE_CODE
  {
    var keep :- LookupCodes(table, ARTIFICIAL_CODES);
    Success(MapPixels(current, a => ArablePixel(keep, a)))
  }

  /** Level-1 class of a map class: the value rounded down to a multiple of
      100 (floor division, also for negative values). */
  function LevelOne(a: int): (r: int)
    ensures r % 100 == 0 && r <= a < r + 100
  {
    (a / 100) * 100
  }

  function CurrentPixel(keep: seq<int>, a: int): int
  {
    if a in keep then a else LevelOne(a)
  }

  /** The current-map step: artificial habitats keep their level-2 class,
      every other pixel is reduced to its level-1 class. */
  function MakeCurrentMap(current: Map, table: Table): (r: Result<Map>)
    requires Valid(current)
    ensures r.Failure? <==> !AllKnown(table, PRESERVE_CODES)
    ensures r.Failure? ==> r.error == KeyError
    ensures r.Success? ==> Valid(r.value) && r.value.window == current.window
    ensures r.Success? ==> forall px, py :: current.window.Contains(px, py) ==>
      var a := Get(current, px, py, 0);
      Get(r.value, px, py, 0) == if ClassOf(table, PRESERVE_CODES, a) then a else LevelOne(a)
  {
    var keep :- LookupCodes(table, PRESERVE_CODES);
    Success(MapPixels(current, a => CurrentPixel(keep, a)))
  }

  function RestorePixel(replace: seq<int>, a: int, b: int): int
  {
    if a in replace then b else a
  }

  /** `make_restore_map`: both maps are cut to their common extent, and
      arable and pasture pixels of the current map take the potential
      natural vegetation's class. Disjoint maps are a ValueError. */
  function MakeRestoreMap(pnv: Map, current: Map, table: Table): (r: Result<Map>)
    ensures r.Failure? <==> !AllKnown(table, REPLACEMENT_CODES) || Intersection(pnv.window, current.window).None?
    ensures r.Failure? ==> r.error == if AllKnown(table, REPLACEMENT_CODES) then ValueError else KeyError
    ensures r.Success? ==> Valid(r.value) && r.value.window == Intersection(pnv.window, current.window).value
    ensures r.Success? ==> forall px, py :: r.value.window.Contains(px, py) ==>
      var a := Get(current, px, py, 0);
      Get(r.value, px, py, 0) == if ClassOf(table, REPLACEMENT_CODES, a) then Get(pnv, px, py, 0) else a
  {
    var replace :- LookupCodes(table, REPLACEMENT_CODES);
    var common := Intersection(pnv.window, current.window);
    if common.None? then Failure(ValueError)
    else Success(Tabulate(common.value, (px, py) => RestorePixel(replace, Get(current, px, py, 0), Get(pnv, px, py, 0))))
  }

  /** With the codes known, every pixel the two input maps share is a
      pixel of the restored map. */
  lemma RestoreCoversCommon(pnv: Map, current: Map, table: Table, px: int, py: int)
    requires AllKnown(table, REPLACEMENT_CODES)
    requires pnv.window.Contains(px, py) && current.window.Contains(px, py)
    ensures MakeRestoreMap(pnv, current, table).Success?
    ensures MakeRestoreMap(pnv, current, table).value.window.Contains(px, py)
  {
    IntersectionExact(pnv.window, current.window);
  }

  /** Arable conversion is idempotent: converting a converted map changes
      nothing. */
  lemma ArableIdempotent(current: Map, table: Table)
    requires Valid(current) && MakeArableMap(current, table).Success?
    ensures MakeArableMap(MakeArableMap(current, table).value, table) == MakeArableMap(current, table)
  {
    var once := MakeArableMap(current, table).value;
    var twice := MakeArableMap(once, table).value;
    assert forall px, py :: once.window.Contains(px, py) ==> Get(twice, px, py, 0) == Get(once, px, py, 0);
    Extensionality(twice, once, 0);
  }

  /** Every pixel of the arable map is an artificial class or arable land. */
  lemma ArableValues(current: Map, table: Table, px: int, py: int)
    requires Valid(current) && MakeArableMap(current, table).Success?
    requires current.window.Contains(px, py)
    ensures var v := Get(MakeArableMap(current, table).value, px, py, 0);
      ClassOf(table, ARTIFICIAL_CODES, v) || v == ARABLE_CODE
  {
  }

  /** The current-map step is idempotent: a level-1 class reduces to
      itself, and a preserved class stays. */
  lemma CurrentIdempotent(current: Map, table: Table)
    requires Valid(current) && MakeCurrentMap(current, table).Success?
    ensures MakeCurrentMap(MakeCurrentMap(current, table).value, table) == MakeCurrentMap(current, table)
  {
    var once := MakeCurrentMap(current, table).value;
    var twice := MakeCurrentMap(once, table).value;
    forall px, py | once.window.Contains(px, py)
      ensures Get(twice, px, py, 0) == Get(once, px, py, 0)
    {
      var a := Get(current, px, py, 0);
      LevelOneFixed(a);
    }
    Extensionality(twice, once, 0);
  }

  lemma LevelOneFixed(a: int)
    ensures LevelOne(LevelOne(a)) == LevelOne(a)
  {
  }

  /** A pixel the current-map step changes ends up as the multiple of 100
      just below it. */
  lemma CurrentChangesOnlyToLevelOne(current: Map, table: Table, px: int, py: int)
    requires Valid(current) && MakeCurrentMap(current, table).Success?
    requires current.window.Contains(px, py)
    ensures var a, v := Get(current, px, py, 0), Get(MakeCurrentMap(current, table).value, px, py, 0);
      v == a || (v % 100 == 0 && v <= a < v + 100 && !ClassOf(table, PRESERVE_CODES, a))
  {
  }

  /** Restoration is idempotent: restored pixels hold natural vegetation,
      and restoring them again takes the same vegetation class. */
  lemma RestoreIdempotent(pnv: Map, current: Map, table: Table)
    requires MakeRestoreMap(pnv, current, table).Success?
    ensures var once := MakeRestoreMap(pnv, current, table).value;
      MakeRestoreMap(pnv, once, table).Success? && MakeRestoreMap(pnv, once, table).value == once
  {
    var once := MakeRestoreMap(pnv, current, table).value;
    var common := Intersection(pnv.window, current.window).value;
    IntersectionExact(pnv.window, current.window);
    IntersectionExact(pnv.window, once.window);
    assert Intersection(pnv.window, once.window) == Some(common) by {
      assert pnv.window.Covers(common);
    }
    var twice := MakeRestoreMap(pnv, once, table).value;
    forall px, py | common.Contains(px, py)
      ensures Get(twice, px, py, 0) == Get(once, px, py, 0)
    {
    }
    Extensionality(twice, once, 0);
  }

  /** Restoration leaves every pixel outside arable and pasture classes as
      it was. */
  lemma RestoreKeepsOthers(pnv: Map, current: Map, table: Table, px: int, py: int)
    requires MakeRestoreMap(pnv, current, table).Success?
    requires MakeRestoreMap(pnv, current, table).value.window.Contains(px, py)
    requires !ClassOf(table, REPLACEMENT_CODES, Get(current, px, py, 0))
    ensures Get(MakeRestoreMap(pnv, current, table).value, px, py, 0) == Get(current, px, py, 0)
  {
  }
}
