/** The species record of one GeoJSON file (`SpeciesInfo`): the attribute
    values, the manifest that accumulates results, and the derived elevation
    bounds, habitat codes and output file names. */
module Species {
  import opened Wrappers
  import opened Text
  import opened Floats
  import opened Crosswalk

  /** A JSON attribute value. */
  datatype Value = Null | NaN | Int(i: int) | Num(x: real) | Str(s: string)

  /** Attribute columns of a record; a column that is absent is a key that
      is absent. */
  type Record = map<string, Value>

  /** The JSON object written next to each AOH raster. */
  type Manifest = map<string, Value>

  /** A loaded species: its id and season (absent when the record has no
      season column), its attributes, its manifest and the crosswalk table. */
  datatype SpeciesInfo = SpeciesInfo(id: int, season: Option<string>, attributes: Record, manifest: Manifest, table: Table)

  const ELEVATION_LOWER_MISSING := "Species data missing or corrupt elevation lower"
  const ELEVATION_UPPER_MISSING := "Species data missing or corrupt elevation upper"
  const HABITAT_MISSING := "Species data missing or corrupt habitat data"

  /** Loading a GeoJSON file: exactly one feature is accepted; its attributes
      without the geometry become both the record and the initial manifest. */
  function Load(id: int, season: Option<string>, features: seq<Record>, rows: seq<Row>): (r: Result<SpeciesInfo>)
    ensures r.Success? <==> |features| == 1
    ensures r.Failure? ==> r.error == ValueError
    ensures r.Success? ==> "geometry" !in r.value.attributes && "geometry" !in r.value.manifest
    ensures r.Success? ==> forall k :: k in features[0] && k != "geometry" ==> k in r.value.manifest && r.value.manifest[k] == features[0][k]
    ensures r.Success? ==> r.value.table == LoadCrosswalkTable(rows)
  {
    if |features| != 1 then Failure(ValueError)
    else
      var attributes := features[0] - {"geometry"};
      Success(SpeciesInfo(id, season, attributes, attributes, LoadCrosswalkTable(rows)))
  }

  /** `math.floor(float(v))` on a column that may be absent: an absent column
      is an AttributeError, a null a TypeError; text is read as `float()`
      reads it, so NaN and text that spells no number are a ValueError and
      an infinity (which `math.floor` cannot convert) an OverflowError. */
  function FloorOf(v: Option<Value>): (r: Result<int>)
    ensures r.Success? <==> v.Some? && (v.value.Int? || v.value.Num? || (v.value.Str? && ParseFloat(v.value.s).Finite?))
    ensures v.Some? && v.value.Int? ==> r == Success(v.value.i)
    ensures v.Some? && v.value.Num? ==> r.Success? && r.value as real <= v.value.x < r.value as real + 1.0
    ensures v.Some? && v.value.Str? && ParseFloat(v.value.s).Finite? ==>
      r.Success? && r.value as real <= ParseFloat(v.value.s).x < r.value as real + 1.0
    ensures v.None? ==> r == Failure(AttributeError)
    ensures v == Some(Null) ==> r == Failure(TypeError)
    ensures v == Some(NaN) ==> r == Failure(ValueError)
    ensures v.Some? && v.value.Str? && ParseFloat(v.value.s) in {NotANumber, Malformed} ==> r == Failure(ValueError)
    ensures InfiniteText(v) ==> r == Failure(OverflowError)
  {
    match v
    case None => Failure(AttributeError)
    case Some(Null) => Failure(TypeError)
    case Some(NaN) => Failure(ValueError)
    case Some(Str(s)) =>
      (match ParseFloat(s)
       case Finite(x) => Success(x.Floor)
       case Infinite => Failure(OverflowError)
       case _ => Failure(ValueError))
    case Some(Int(i)) => Success(i)
    case Some(Num(x)) => Success(x.Floor)
  }

  /** An elevation stored as the text of an integer, such as "1200", floors
      to that integer, just as the number itself does. */
  lemma NumericTextFloors(n: int)
    ensures FloorOf(Some(Str(ShowInt(n)))) == Success(n)
    ensures FloorOf(Some(Str(ShowInt(n)))) == FloorOf(Some(Int(n)))
  {
    ParseShowInt(n);
    TextFloors(ShowInt(n), n as real);
  }

  /** Text read as a finite number floors as that number does. */
  lemma TextFloors(s: string, x: real)
    requires ParseFloat(s) == Finite(x)
    ensures FloorOf(Some(Str(s))) == Success(x.Floor)
  {
  }

  /** A column holding text that `float()` reads as an infinity. */
  predicate InfiniteText(v: Option<Value>)
  {
    v.Some? && v.value.Str? && ParseFloat(v.value.s) == Infinite
  }

  /** An elevation bound written as an infinity, read before any other
      unusable bound (the lower bound is read first). */
  predicate OverflowingBounds(info: SpeciesInfo)
  {
    InfiniteText(Column(info, "elevation_lower"))
      || (FloorOf(Column(info, "elevation_lower")).Success? && InfiniteText(Column(info, "elevation_upper")))
  }

  function Column(info: SpeciesInfo, key: string): Option<Value>
  {
    if key in info.attributes then Some(info.attributes[key]) else None
  }

  /** The shared body of the two elevation properties: the floored value;
      an absent or null column records `message` as the manifest's error and
      raises ValueError, while the ValueError of NaN or unreadable text and
      the OverflowError of an infinity pass through the handler with the
      manifest untouched. */
  function FlooredProperty(info: SpeciesInfo, key: string, message: string): (r: (Result<int>, SpeciesInfo))
    ensures r.0.Failure? ==> r.0.error == ValueError || r.0.error == OverflowError
    ensures r.0.Success? <==> FloorOf(Column(info, key)).Success?
    ensures r.0.Success? ==> r.0 == FloorOf(Column(info, key)) && r.1 == info
    ensures FloorOf(Column(info, key)) in {Failure(AttributeError), Failure(TypeError)} ==>
      r == (Failure(ValueError), info.(manifest := info.manifest["error" := Str(message)]))
    ensures FloorOf(Column(info, key)) in {Failure(ValueError), Failure(OverflowError)} ==> r == (FloorOf(Column(info, key)), info)
    ensures forall k :: k in info.manifest && k != "error" ==> k in r.1.manifest && r.1.manifest[k] == info.manifest[k]
  {
    var floored := FloorOf(Column(info, key));
    if floored.Success? then (floored, info)
    else if floored.error == AttributeError || floored.error == TypeError then
      (Failure(ValueError), info.(manifest := info.manifest["error" := Str(message)]))
    else (floored, info)
  }

  /** `SpeciesInfo.elevation_lower`. */
  function ElevationLower(info: SpeciesInfo): (r: (Result<int>, SpeciesInfo))
    ensures r.0.Failure? ==> r.0.error == ValueError || r.0.error == OverflowError
    ensures r.0 == Failure(OverflowError) <==> InfiniteText(Column(info, "elevation_lower"))
    ensures r.0.Success? <==> FloorOf(Column(info, "elevation_lower")).Success?
    ensures r.0.Success? ==> r.0 == FloorOf(Column(info, "elevation_lower")) && r.1 == info
    ensures Column(info, "elevation_lower") in {None, Some(Null)} ==>
      r.1.manifest == info.manifest["error" := Str(ELEVATION_LOWER_MISSING)]
    ensures forall k :: k in info.manifest && k != "error" ==> k in r.1.manifest && r.1.manifest[k] == info.manifest[k]
  {
    FlooredProperty(info, "elevation_lower", ELEVATION_LOWER_MISSING)
  }

  /** `SpeciesInfo.elevation_upper`: also floored, unlike the root script,
      which rounds the upper bound up. */
  function ElevationUpper(info: SpeciesInfo): (r: (Result<int>, SpeciesInfo))
    ensures r.0.Failure? ==> r.0.error == ValueError || r.0.error == OverflowError
    ensures r.0 == Failure(OverflowError) <==> InfiniteText(Column(info, "elevation_upper"))
    ensures r.0.Success? <==> FloorOf(Column(info, "elevation_upper")).Success?
    ensures r.0.Success? ==> r.0 == FloorOf(Column(info, "elevation_upper")) && r.1 == info
    ensures Column(info, "elevation_upper") in {None, Some(Null)} ==>
      r.1.manifest == info.manifest["error" := Str(ELEVATION_UPPER_MISSING)]
    ensures forall k :: k in info.manifest && k != "error" ==> k in r.1.manifest && r.1.manifest[k] == info.manifest[k]
  {
    FlooredProperty(info, "elevation_upper", ELEVATION_UPPER_MISSING)
  }

  /** `str.split('|')` of a text column, or AttributeError for anything that
      is not text (absent, null, NaN or a number). */
  function SplitCodes(v: Option<Value>): (r: Result<set<string>>)
    ensures r.Success? <==> v.Some? && v.value.Str?
    ensures r.Failure? ==> r.error == AttributeError
    ensures r.Success? ==> forall c :: c in r.value <==> c in Split(v.value.s, '|')
  {
    if v.Some? && v.value.Str? then Success(set c | c in Split(v.value.s, '|')) else Failure(AttributeError)
  }

  /** `SpeciesInfo.raw_habitats`: the distinct '|'-separated codes of
      `full_habitat_code`; otherwise the manifest error is set and ValueError
      raised. */
  function RawHabitats(info: SpeciesInfo): (r: (Result<set<string>>, SpeciesInfo))
    ensures r.0.Success? <==> Column(info, "full_habitat_code").Some? && Column(info, "full_habitat_code").value.Str?
    ensures r.0.Success? ==> r.1 == info && forall c :: c in r.0.value <==> c in Split(info.attributes["full_habitat_code"].s, '|')
    ensures r.0.Failure? ==> r.0.error == ValueError && r.1.manifest == info.manifest["error" := Str(HABITAT_MISSING)]
  {
    var codes := SplitCodes(Column(info, "full_habitat_code"));
    if codes.Success? then (codes, info)
    else (Failure(ValueError), info.(manifest := info.manifest["error" := Str(HABITAT_MISSING)]))
  }

  /** `SpeciesInfo.habitat_list`: the raw habitat codes resolved through the
      crosswalk. */
  function HabitatList(info: SpeciesInfo): (r: Result<set<int>>)
    ensures r.Failure? <==> RawHabitats(info).0.Failure?
    ensures r.Failure? ==> r.error == ValueError
    ensures r.Success? ==> forall v :: v in r.value <==>
      exists code :: code in RawHabitats(info).0.value && code in info.table && v in info.table[code]
  {
    var raw := RawHabitats(info).0;
    if raw.Failure? then Failure(ValueError) else Success(Crosswalked(info.table, raw.value))
  }

  /** The file name stem of a species' outputs: `{id}_{season}`, or `{id}`
      when there is no season. */
  function Stem(id: int, season: Option<string>): (r: string)
    ensures season.None? ==> r == ShowInt(id)
    ensures season.Some? ==> r == ShowInt(id) + "_" + season.value
  {
    if season.Some? then ShowInt(id) + "_" + season.value else ShowInt(id)
  }

  /** `SpeciesInfo.filenames`: the raster and manifest names share the stem. */
  function Filenames(info: SpeciesInfo): (r: (string, string))
    ensures r.0 == Stem(info.id, info.season) + ".tif" && r.1 == Stem(info.id, info.season) + ".json"
  {
    var stem := Stem(info.id, info.season);
    (stem + ".tif", stem + ".json")
  }

  /** The species key of an output raster (its name up to the first '_') is
      the species id for a seasonal raster, so the summaries group the
      seasons of one species together; a raster without a season keeps its
      whole name, `{id}.tif`, as its key. */
  lemma FilenameKey(info: SpeciesInfo)
    ensures info.season.Some? ==> SpeciesKey(Filenames(info).0) == ShowInt(info.id)
    ensures info.season.None? ==> SpeciesKey(Filenames(info).0) == ShowInt(info.id) + ".tif"
  {
    var id := ShowInt(info.id);
    DigitsHaveNoUnderscore(info.id);
    if info.season.Some? {
      assert Filenames(info).0 == id + "_" + (info.season.value + ".tif");
      SpeciesKeyOfStem(id, info.season.value + ".tif");
    } else {
      assert '_' !in id + ".tif";
    }
  }

  /** Rendered integers hold no underscore. */
  lemma DigitsHaveNoUnderscore(n: int)
    ensures '_' !in ShowInt(n)
  {
    var s := ShowInt(n);
    if n < 0 {
      assert s == "-" + Digits(-n);
      forall i | 0 <= i < |s| ensures s[i] != '_' {
        if i > 0 {
          assert s[i] == Digits(-n)[i - 1];
        }
      }
    }
  }

  /** `save_manifest`: the manifest written to disk, with `error` set only
      when a message is given. */
  function SavedManifest(info: SpeciesInfo, message: Option<string>): (m: Manifest)
    ensures message.Some? ==> "error" in m && m["error"] == Str(message.value)
    ensures forall k :: k in info.manifest && (k != "error" || message.None?) ==> k in m && m[k] == info.manifest[k]
    ensures forall k :: k in m ==> k in info.manifest || (k == "error" && message.Some?)
  {
    if message.Some? then info.manifest["error" := Str(message.value)] else info.manifest
  }

  /** `update_manifest`: the given keys are overwritten, all other keys kept. */
  function UpdateManifest(info: SpeciesInfo, values: Manifest): (r: SpeciesInfo)
    ensures forall k :: k in values ==> k in r.manifest && r.manifest[k] == values[k]
    ensures forall k :: k in info.manifest && k !in values ==> k in r.manifest && r.manifest[k] == info.manifest[k]
    ensures r.manifest.Keys == info.manifest.Keys + values.Keys
    ensures r.(manifest := info.manifest) == info
  {
    info.(manifest := info.manifest + values)
  }
}
