# Area of Habitat calculator: a verified functional model

This project models the deterministic core of the aoh-calculator pipeline in Dafny 4.11.

The pipeline computes each species' Area of Habitat (AOH, after Brooks et al. 2019). The range polygon is filtered by the habitat classes the IUCN habitat codes crosswalk to and by the species' elevation band. Every such raster is accompanied by a JSON manifest of totals. The model covers:

- the species record and its cleaning;
- the three AOH calculators;
- the richness and endemism summaries;
- occurrence validation;
- manifest collation;
- habitat-class enumeration and worker sizing;
- the STAR crosswalk conversion;
- the three LIFE scenario maps.

Rasters, records, crosswalk rows, directory listings and points already projected onto the AOH grid all arrive as values. Nothing is read or written.

Module layout, one module per file:

- `Wrappers`: `Option`, `Result` and the Python exceptions involved.
- `Text`: `str.split`, `join`, `str(int)` and the species key of a file name.
- `Floats`: Python's `float()` applied to text.
- `Seqs`: distinctness, multiset facts and the concatenation of a list of parts.
- `Grids`: one flat raster on the common grid, with pixelwise algebra and `sum()`.
- `Windows`: pixel windows with union, the bounding box, and intersection.
- `Layers`: windowed rasters, realignment to a window, and the union-then-add accumulation.
- `Cleaning`: `tidy_data`, in both versions.
- `Crosswalk`: `load_crosswalk_table`, `crosswalk_habitats`, and the KeyError lookup of the LIFE scripts.
- `Species`: `SpeciesInfo`.
- `Derivation`: the habitat and elevation stages and the totals shared by the calculators.
- `AohRoot`: `aohcalc.py`.
- `AohFractional`: `aohcalc_fractional`.
- `AohSimple`: `aohcalc_simple`.
- `Richness`: both `species_richness` scripts.
- `Endemism`: `summaries/endemism.py`.
- `Occurrences`: `process_species` and its wrapper.
- `Collate`: both `collate_data` variants.
- `HabitatProcess`: both `habitat_process` scripts.
- `StarCrosswalk`: `convert_crosswalk`.
- `LifeMaps`: the arable, current and restore maps.

The following are function parameters rather than interpreted functions:

- `log` and `exp`;
- the AOH pixel reader of occurrence validation;
- Python's iteration order over a set of keys.

NaN is `None`.

## Model

| member | source | states |
|---|---|---|
| Cleaning.ResetInverted | aoh/cleaning.py:17-21 | both bounds present with lower above upper become exactly (min, max); anything else is untouched |
| Cleaning.FillMissing | aoh/cleaning.py:23-31 | a missing lower becomes min, and then an upper below min becomes max; a missing upper becomes max, and then a lower above max becomes min; present values are otherwise kept |
| Cleaning.Clamp | aoh/cleaning.py:33-35 | the band is clamped into [min, max] on each side |
| Cleaning.WidenSeparation | aoh/cleaning.py:37-44 | a band narrower than the separation is widened by ceil(spare/2) per side, so afterwards it is at least the separation wide; a wide band is unchanged |
| Cleaning.WidenShiftsBack | aoh/cleaning.py:45-52 | a widened band crossing a limit is shifted back as a unit, keeping its width |
| Cleaning.WidenInBounds | aoh/cleaning.py:37-52 | widening a clamped band inside roomy limits ends inside the limits |
| Cleaning.TidyData | aoh/cleaning.py:9-54 | the packaged tidying of a species' elevation band; its partner `TidyDataInvariant` states the band it returns |
| Cleaning.TidyDataInvariant | aoh/cleaning.py:9-54 | for any input (missing, inverted, out of range, narrow) the tidied band lies in [min, max] and is at least the separation wide |
| Cleaning.TidyDataKeepsGoodBand | aoh/cleaning.py:17-52 | a band already inside the limits and wide enough is returned unchanged |
| Cleaning.TidyDataInverted | aoh/cleaning.py:17-21 | inverted bounds become exactly (min, max) |
| Cleaning.TidyDataFixed | cleaning.py:8-48 | the root script's tidying, which is `TidyData` with the fixed bounds; its partner `TidyDataFixedInvariant` states the band it returns |
| Cleaning.TidyDataFixedInvariant | cleaning.py:8-48 | the fixed-constant version gives a band in [-500, 9000] at least 50 wide |
| Cleaning.TidyDataDefaultCases | tests/test_tidying.py:6-23 | the default-limit test table holds row by row |
| Cleaning.TidyDataCustomCases | tests/test_tidying.py:26-52 | the custom-limit test table holds row by row |
| Crosswalk.LoadCrosswalkTable | aoh/_internal/speciesinfo.py:9-18 | a code is a key exactly when some row carries it |
| Crosswalk.LoadCrosswalkTableValues | aoh/_internal/speciesinfo.py:12-17 | each code's list is exactly its rows' values in row order, duplicates kept |
| Crosswalk.LoadCrosswalkTableStep | aohcalc.py:28-33 | one more row appends its value to its code's list, or creates the list |
| Crosswalk.LoadCrosswalkTableExample | aoh/_internal/speciesinfo.py:9-18 | for two distinct codes in interleaved rows, each code's list keeps its own row order, and any other code is absent |
| Crosswalk.ValuesForMembers | aoh/_internal/speciesinfo.py:9-18 | a value is listed for a code exactly when some row pairs them |
| Crosswalk.CrosswalkHabitats | aoh/_internal/speciesinfo.py:20-28 | the loop yields exactly the values of the known codes among the raw codes; unknown codes are skipped |
| Crosswalk.CrosswalkedUnion | aohcalc.py:36-44 | resolving a union of code sets is the union of the resolutions |
| Crosswalk.CrosswalkedUnknown | aoh/_internal/speciesinfo.py:23-26 | an unknown code adds nothing, and no codes give no classes |
| Crosswalk.CrosswalkedExamples | tests/test_crosswalk.py:46-55 | the resolution cases of the crosswalk test |
| Crosswalk.LookupCodes | LIFE/make_arable_map.py:91 | succeeds exactly when every listed code is known; otherwise KeyError; its values are exactly those of the listed codes |
| Text.JoinSplit | aoh/_internal/speciesinfo.py:73 | joining the pieces of a split gives back the text |
| Text.SplitJoin | aoh/validation/collate_data.py:54 | splitting a join of separator-free pieces gives back the pieces |
| Text.Split | aoh/_internal/speciesinfo.py:73 | one more piece than separators, and no piece holds the separator |
| Text.SpeciesKeyOfStem | aoh/summaries/species_richness.py:74 | the key of `id_rest` is `id` when `id` holds no underscore |
| Text.ShowIntInjective | aoh/_internal/speciesinfo.py:82 | different ids render as different names |
| Species.Load | aoh/_internal/speciesinfo.py:33-44 | exactly one feature loads, otherwise ValueError; the manifest is the feature's attributes without the geometry |
| Floats.ParseShowInt | aoh/_internal/speciesinfo.py:57 | the text `str(n)` of any integer reads as n |
| Floats.FractionRead | aoh/_internal/speciesinfo.py:57 | digits, a point and a fraction `w.f` read as w + f / 10^len(f) |
| Floats.PaddingIgnored | aoh/_internal/speciesinfo.py:57 | whitespace around a text does not change what it reads as |
| Floats.WordsRead | aoh/_internal/speciesinfo.py:57 | `nan`, `inf` and `infinity` in any case, after an optional sign, read as NaN or an infinity |
| Floats.FiniteHasDigit | aoh/_internal/speciesinfo.py:57 | a text reads as a finite number only if it holds a digit |
| Floats.BlankMalformed | aoh/_internal/speciesinfo.py:57 | empty or blank text is not a number (ValueError) |
| Species.FloorOf | aoh/_internal/speciesinfo.py:57 | floor of an int, a number, or text read as a finite number; AttributeError if absent, TypeError if null, ValueError for NaN or text that spells no number, OverflowError for text spelling an infinity |
| Species.NumericTextFloors | aoh/_internal/speciesinfo.py:57 | an elevation stored as the text of an integer, such as "1200", floors to that integer, as the number does |
| Species.ElevationLower | aoh/_internal/speciesinfo.py:54-60 | the floored lower bound, or ValueError, or OverflowError exactly when the value is text spelling an infinity; for an absent or null value the manifest records the lower-bound error |
| Species.ElevationUpper | aoh/_internal/speciesinfo.py:62-68 | the upper bound, floored as well, or ValueError with the upper-bound error recorded for an absent or null value, or OverflowError exactly for an infinity |
| Species.SplitCodes | aoh/_internal/speciesinfo.py:73 | the set of '|'-separated pieces of a text value; AttributeError for anything else |
| Species.RawHabitats | aoh/_internal/speciesinfo.py:70-76 | the distinct habitat codes, or ValueError with the habitat error in the manifest |
| Species.HabitatList | aoh/_internal/speciesinfo.py:108-110 | the crosswalked classes of the raw codes, or ValueError |
| Species.Stem | aoh/_internal/speciesinfo.py:78-87 | `{id}_{season}`, or `{id}` without a season |
| Species.Filenames | aoh/_internal/speciesinfo.py:78-89 | raster and manifest names share the stem, with `.tif` and `.json` |
| Species.FilenameKey | aoh/summaries/species_richness.py:74 | a seasonal raster's species key is its id; a season-less one's key is `{id}.tif` |
| Species.SavedManifest | aoh/_internal/speciesinfo.py:91-103 | `error` is set only when a message is given; every other key is kept and none is added |
| Species.UpdateManifest | aoh/_internal/speciesinfo.py:105-106 | the given keys are overwritten, all other keys and fields kept |
| Windows.Union | summaries/species_richness.py:29 | the union covers both windows |
| Windows.UnionLeast | summaries/species_richness.py:45 | a window covers the union exactly when it covers both |
| Windows.IntersectionExact | LIFE/make_restore_map.py:38 | the intersection holds exactly the common pixels, and is missing exactly when there are none |
| Windows.UnionAllIsHull | summaries/species_richness.py:29-31 | the folded union is the bounding box of all windows |
| Windows.UnionAllOrderFree | summaries/species_richness.py:79 | the folded union does not depend on window order |
| Windows.IntersectAllExact | aohcalc.py:128-131 | the folded intersection holds exactly the pixels every layer holds, and fails only when there is none |
| Layers.Tabulate | summaries/species_richness.py:37-38 | a raster over the window with the given pixel values, padded outside |
| Layers.MapPixels | LIFE/make_arable_map.py:96-98 | pixelwise application keeps the window and maps every pixel |
| Layers.Extensionality | summaries/species_richness.py:50-52 | rasters with the same window and pixels are equal |
| Layers.Realign | summaries/species_richness.py:30-31 | a layer seen through a wider window keeps its pixels and reads 0 outside its extent |
| Layers.AddUnion | summaries/species_richness.py:43-52 | the sum spans the union window and adds the two zero-padded layers |
| Layers.AddUnionCommutative | summaries/species_richness.py:49 | the union-add does not depend on operand order |
| Layers.AddUnionAssociative | summaries/species_richness.py:40-52 | the union-add is associative |
| Layers.FoldAdd | summaries/species_richness.py:40-56 | the workers' accumulation of layers by `+`: nothing exactly for no layer, otherwise a well-formed raster; `FoldAddSpec` and `FoldAddPermutation` state its pixels and its independence of order |
| Layers.FoldAddSpec | summaries/species_richness.py:40-56 | the accumulated raster spans the union of the layers and holds their zero-padded sum at every pixel |
| Layers.FoldAddPermutation | summaries/species_richness.py:145-148 | accumulating the same layers in any order gives the same raster |
| Layers.FoldAddAppend | summaries/species_richness.py:72-86 | accumulating a concatenation equals union-adding the two accumulations |
| Grids.SumNonNegative | aoh/_internal/aoh_fractional.py:211-214 | a non-negative layer has a non-negative total |
| Grids.SumZeroIsZero | aohcalc.py:180 | a non-negative layer with zero total is zero everywhere |
| Derivation.SelectClasses | aoh/_internal/aoh_fractional.py:168-176 | the layers of exactly the crosswalked classes that have an `lcc_{x}` file |
| Derivation.CombineHabitat | aoh/_internal/aoh_fractional.py:224-227 | the per-pixel sum of the habitat layers, clipped to at most 1.0 |
| Derivation.CombineHabitatFraction | aoh/_internal/aoh_fractional.py:224-227 | non-negative habitat layers combine to a fraction in [0, 1] at every pixel |
| Derivation.ElevationMask | aohcalc.py:195 | 1.0 exactly where min DEM <= upper and max DEM >= lower |
| Derivation.Prevalence | aoh/_internal/aoh_fractional.py:271 | aoh/range when range is non-zero, else the float 0.0 |
| Derivation.RootTotalsValues | aohcalc.py:207-214 | the root script's manifest values agree with the packaged ones on every key but the prevalence, which is the integer 0 for a zero range |
| Derivation.FinishRootPrevalence | aohcalc.py:213 | a root manifest written from the derived totals holds the integer 0 exactly for a zero range total, otherwise a float times the range total giving the AOH sum |
| Derivation.HabitatGate | aoh/_internal/aoh_fractional.py:229-242 | a zero-total filtered range falls back to the range without forcing, and is exhausted with forcing |
| Derivation.HabitatFromMaps | aohcalc.py:174-187 | no layers and no forcing gives the range; otherwise the clipped habitat sum times the range, through the zero-habitat gate |
| Derivation.Finish | aoh/_internal/aoh_fractional.py:250-271 | hab and dem totals, the elevation fallback to habitat when elevation and habitat leave nothing, the AOH raster, and prevalence |
| Derivation.DemIgnoresHabitat | aoh/_internal/aoh_fractional.py:254 | the elevation total does not depend on the habitat filter |
| Derivation.PrevalenceFraction | aohcalc.py:213 | an AOH total within a positive range total gives prevalence in [0, 1] |
| Derivation.TotalsNested | aohcalc.py:193-213 | with non-negative layers and a fractional elevation mask: aoh <= hab <= range, dem <= range, prevalence in [0, 1] |
| Derivation.HabitatStageBelowRange | aohcalc.py:174-187 | whatever the habitat stage passes on lies pixelwise within the range |
| Derivation.ElevationStageBelow | aohcalc.py:195-201 | the elevation stage, with its fallback, stays within the habitat-filtered range and non-negative |
| Derivation.UniformHalfHabitat | tests/test_aohcalc.py:175-181 | a full range with half habitat gives hab = aoh = half the range and prevalence 0.5 |
| Derivation.NoHabitatIsRange | aohcalc.py:174-201 | without habitat layers or forcing, the AOH equals the range |
| AohRoot.CeilOf | aohcalc.py:84 | the ceiling of a number or of text read as a finite number; otherwise the floor's error |
| AohRoot.ParseAttributes | aohcalc.py:82-86 | lower floored, upper ceiled, codes split; missing or null attributes are reported; any other failure of the first failing bound (ValueError, or OverflowError for an infinity) is invalid and keeps its error |
| AohRoot.Calculate | aohcalc.py:46-217 | the root script's whole run; its error and exit paths, its no-intersection path and its written totals are stated by the `AohRoot` lemmas below it |
| AohRoot.OneFeatureAsserted | aohcalc.py:66 | a file with other than one feature fails the assertion |
| AohRoot.AttributeErrors | aohcalc.py:82-91 | a missing attribute writes only the manifest with the attributes error; an invalid bound escapes with its own error, OverflowError exactly when the first failing bound is an infinity |
| AohRoot.ForcedExits | aohcalc.py:93-109 | forcing with no crosswalked habitat, or no layer file, writes only the manifest with the matching error |
| AohRoot.NoIntersection | aohcalc.py:128-132 | layers with no common pixel take the no-intersection path, whatever the habitat maps, elevation bounds or force flag |
| AohRoot.UnintersectedRecorded | aohcalc.py:132-153 | that path still writes a raster, recording aoh = range = its sum, hab = dem = 0, prevalence 1.0 and the intersection error |
| AohRoot.NoIntersectionRecorded | aohcalc.py:142-149 | the no-intersection manifest records exactly those values |
| AohRoot.ForcedZeroHabitat | aohcalc.py:160-183 | forcing with zero habitat stops after creating the result raster of the intersection's size: no pixel and no manifest is written |
| AohRoot.NeverIndexError | aohcalc.py:174-175 | the forced exits guarantee a first habitat layer, so no run raises IndexError |
| AohRoot.IntersectedTotalsNested | aohcalc.py:193-214 | a run on the intersection records nested totals whose aoh is the raster's sum, with the prevalence of a zero range written as the integer 0 |
| AohRoot.Intersected | aohcalc.py:155-214 | a run written on the intersection records the prevalence as the integer 0 exactly when its range total is zero, and otherwise as a float whose product with the range total is the raster's sum |
| AohFractional.Calculate | aoh/_internal/aoh_fractional.py:16-273 | the fractional calculator's whole run, as written or as intended; its error paths, forced exits and written totals are stated by the `AohFractional` lemmas below it |
| AohFractional.Weights | aoh/_internal/aoh_fractional.py:191-209 | every pixel weight is the area per pixel times every weight layer |
| AohFractional.DeriveTotalsNested | aoh/_internal/aoh_fractional.py:223-273 | once the habitat layers are chosen, a written run records nested totals whose aoh is the raster's sum |
| AohFractional.Dems | aoh/_internal/aoh_fractional.py:178-185 | both DEM grids lie on the range's grid, and a single DEM serves as both the min and the max |
| AohFractional.TupleRejected | aoh/_internal/aoh_fractional.py:137-139 | an elevation tuple not of length 2 raises ValueError |
| AohFractional.SingleFeatureRequired | aoh/_internal/aoh_fractional.py:151 | a file with other than one feature raises ValueError |
| AohFractional.ElevationErrorEscapes | aoh/_internal/aoh_fractional.py:153-159 | as written, an unusable elevation bound escapes as ValueError, or as OverflowError when the first failing bound is an infinity |
| AohFractional.ElevationErrorRecorded | aoh/_internal/aoh_fractional.py:153-159 | as intended, it saves the manifest with the attributes error and every other loaded value; an infinity still escapes as OverflowError |
| AohFractional.HabitatErrorEscapes | aoh/_internal/aoh_fractional.py:161 | non-text habitat codes escape as ValueError |
| AohFractional.ForcedWithoutHabitats | aoh/_internal/aoh_fractional.py:161-166 | forcing with no crosswalked habitat saves only the no-habitats manifest; as written, a species without a season raises AttributeError in the log line |
| AohFractional.ForcedWithoutLayers | aoh/_internal/aoh_fractional.py:168-174 | forcing with no class layer saves only the no-layers manifest, with the same season caveat |
| AohFractional.NeverIndexError | aoh/_internal/aoh_fractional.py:223-224 | no run raises IndexError at the first habitat layer |
| AohFractional.WeightsNonNegative | aoh/_internal/aoh_fractional.py:211-214 | non-negative inputs give non-negative weights, so the asserted range total holds |
| AohFractional.WrittenTotalsNested | aoh/_internal/aoh_fractional.py:250-273 | a written run records nested totals whose aoh is the raster's sum |
| AohFractional.ForcedZeroHabitat | aoh/_internal/aoh_fractional.py:229-240 | forcing with zero habitat saves the range total, zeros, prevalence 0 and the error, and no raster |
| AohFractional.ZeroHabitatFallsBack | aoh/_internal/aoh_fractional.py:241-242 | without forcing, zero habitat falls back to the range |
| AohSimple.Calculate | aoh/_internal/aoh_simple.py:9-141 | the simple calculator's whole run, as written or as intended; its error paths, forced exits and written totals are stated by the `AohSimple` lemmas below it |
| AohSimple.MembershipMask | aoh/_internal/aoh_simple.py:95 | 1.0 exactly where the pixel's class is one of the habitats |
| AohSimple.Weights | aoh/_internal/aoh_simple.py:75-80 | as intended, the product of the weight layers, 1.0 with none |
| AohSimple.SingleDemMask | aoh/_internal/aoh_simple.py:118 | the elevation mask is lower <= e <= upper on the one DEM |
| AohSimple.ElevationErrorEscapes | aoh/_internal/aoh_simple.py:52-58 | as written, an unusable elevation bound escapes as ValueError, or as OverflowError when the first failing bound is an infinity |
| AohSimple.ElevationErrorRecorded | aoh/_internal/aoh_simple.py:52-58 | as intended, the attributes error is recorded in the manifest; an infinity still escapes as OverflowError |
| AohSimple.ForcedExitNameError | aoh/_internal/aoh_simple.py:61-64 | as written, forcing with no habitat fails on the undefined `logger` |
| AohSimple.ForcedWithoutHabitats | aoh/_internal/aoh_simple.py:61-64 | as intended, it saves only the no-habitats manifest |
| AohSimple.WeightLayerNameError | aoh/_internal/aoh_simple.py:76-80 | as written, any weight layer fails on the undefined `area_path` |
| AohSimple.NoHabitatFallsBack | aoh/_internal/aoh_simple.py:109-110 | without forcing, absent classes, including an empty habitat list, give the range |
| AohSimple.ForcedZeroHabitat | aoh/_internal/aoh_simple.py:97-108 | forcing with zero habitat saves the range total, zeros and the error, and no raster |
| AohSimple.WrittenTotalsNested | aoh/_internal/aoh_simple.py:116-139 | a written run records nested totals whose aoh is the raster's sum |
| Richness.Presence | summaries/species_richness.py:26-36 | over the union of the seasons, 1.0 exactly where some season is non-zero, else 0.0 |
| Richness.Worker | aoh/summaries/species_richness.py:28-40 | a worker writes a file exactly when it took a species |
| Richness.RichnessCounts | aoh/summaries/species_richness.py:35-37 | the accumulated presences count the species present at each pixel |
| Richness.RichnessRaster | summaries/species_richness.py:40-52 | the accumulation spans the union of all seasons and counts species per pixel |
| Richness.PartitionIndependent | aoh/summaries/species_richness.py:114-117 | any split of the species among workers, and any order of partial files, gives the same raster |
| Richness.PartitionedRichness | aoh/summaries/species_richness.py:82-93 | under any split, every pixel holds the number of species present |
| Richness.SentinelProtocol | aoh/summaries/species_richness.py:90-93 | in any run of the pool, the workers take every species group exactly once and each gets one sentinel |
| Richness.Enqueue | aoh/summaries/species_richness.py:90-93 | the queue holds every species group in order, then exactly one sentinel per worker |
| Richness.RichnessOfAnyRun | aoh/summaries/species_richness.py:78-117 | any run of the pool followed by stage 2 gives the plain accumulation of all species |
| Richness.SentinelOnly | aoh/summaries/species_richness.py:39-40 | a worker given only its sentinel writes no file |
| Richness.GroupBySpeciesSpec | aoh/summaries/species_richness.py:72-75 | each key that occurs has a group holding exactly the names with that key |
| Richness.GroupsPartition | summaries/species_richness.py:103-106 | groups are non-empty and disjoint |
| Richness.EmptyPixelsMissing | aoh/summaries/species_richness.py:59-60 | with nodata 0, a pixel reads as missing exactly when no species is present |
| Richness.ReadBack | aoh/summaries/species_richness.py:60 | with nodata 0, a zero pixel reads back as missing and any other pixel as itself |
| Endemism.Share | summaries/endemism.py:21 | a log share exists exactly for a positive pixel |
| Endemism.GeometricSum | summaries/endemism.py:18-22 | None exactly when the total is not positive; otherwise log(v/total) at positive pixels and NaN elsewhere |
| Endemism.NanToNum | summaries/endemism.py:68 | NaN becomes 0, numbers are kept |
| Endemism.Combine | summaries/endemism.py:48-59 | one NaN gives the other NaN-as-0; two numbers give their maximum |
| Endemism.CombineCommutative | summaries/endemism.py:55-59 | season order does not matter |
| Endemism.CombineNotSummed | summaries/endemism.py:55-59 | the same share twice is counted once |
| Endemism.Contribution | summaries/endemism.py:40-72 | ValueError exactly for more than two seasons |
| Endemism.Worker | summaries/endemism.py:74-86 | a worker produces a partial exactly when one of its species contributes |
| Endemism.OneSeason | summaries/endemism.py:64-70 | one season is skipped exactly when its total is not positive; otherwise it gives its log shares with NaN as 0 |
| Endemism.TwoSeasons | summaries/endemism.py:42-54 | two seasons are skipped only when both are; one skipped season gives the other over the union |
| Endemism.TwoSeasonsMax | summaries/endemism.py:55-59 | two kept seasons give the larger share per pixel |
| Endemism.ContribsPermutation | summaries/endemism.py:33-86 | species order does not change which layers are accumulated |
| Endemism.StageOne | summaries/endemism.py:71-72 | stage 1 fails, with exit status 1, exactly when some species has more than two seasons |
| Endemism.PartialsFlatten | summaries/endemism.py:101-120 | stage 2 over the partials equals accumulating every kept species in worker order |
| Endemism.PartitionIndependent | summaries/endemism.py:145-184 | the summed shares do not depend on the split or on either order |
| Endemism.Finish | summaries/endemism.py:198-212 | ValueError for disjoint rasters; otherwise, on the intersection, exp(sum/richness) where richness > 0 and NaN elsewhere |
| Endemism.FinishInside | summaries/endemism.py:201-203 | every result pixel lies in both inputs |
| Endemism.Run | summaries/endemism.py:99-213 | stage 2 and the final step: FileNotFoundError exactly when no partial exists, since no summed file is saved; ValueError exactly when the summed raster misses the richness; otherwise exp(sum/richness) where richness > 0 |
| Endemism.RunOfSpecies | summaries/endemism.py:145-213 | the whole run after stage 1 is independent of how species are split among workers, and fails with FileNotFoundError exactly when no species contributes |
| Occurrences.SnapAxis | aoh/validation/validate_occurences.py:90-99 | the floor, minus 1 when the fraction is below 0.5 |
| Occurrences.SnapEncloses | aoh/validation/validate_occurences.py:88-99 | the snapped pixel p is the unique one with p + 0.5 <= a < p + 1.5 |
| Occurrences.Clip | aoh/validation/validate_occurences.py:72 | exactly the occurrences inside the range are kept |
| Occurrences.Dedup | aoh/validation/validate_occurences.py:103-105 | `drop_duplicates` on the sampled pixels; `DedupSpec` and `DedupIdempotent` state what it keeps |
| Occurrences.DedupSpec | aoh/validation/validate_occurences.py:103-105 | kept pixels are distinct, are exactly the input's pixels, and are no more than the points |
| Occurrences.DedupDistinct | aoh/validation/validate_occurences.py:103-105 | input without repeats is kept whole |
| Occurrences.DedupIdempotent | aoh/validation/validate_occurences.py:103-105 | deduplicating twice equals deduplicating once |
| Occurrences.Sample | aoh/validation/validate_occurences.py:74-113 | the pixel-set loop gives one match flag per distinct snapped pixel, in first-seen order |
| Occurrences.Below | aoh/validation/validate_occurences.py:134 | `point_prevalence < model_prevalence` on a JSON value: compared as numbers, never true against NaN, TypeError against null or text |
| Occurrences.Classify | aoh/validation/validate_occurences.py:117-150 | valid iff at least 10 unique points; a prevalence exactly when valid; outlier iff not all match and the share falls short of a numeric model prevalence; TypeError exactly when a null or text model prevalence has to be compared |
| Occurrences.ProcessSpecies | aoh/validation/validate_occurences.py:27-150 | succeeds only with rows of one taxon, one AOH raster whose manifest parses and holds a prevalence, and one range file; the record keeps the taxon and the stored model prevalence, and unique <= clipped <= total records |
| Occurrences.ErrorTaxonomy | aoh/validation/validate_occurences.py:33-134 | checked in source order: no rows or several taxa: ValueError; no AOH: FileNotFoundError; several: NotImplementedError; no manifest: FileNotFoundError; a manifest that is not JSON: ValueError; not one GeoJSON: RuntimeError; no `prevalence` key: KeyError; an uncomparable prevalence: TypeError exactly when ten or more points do not all match |
| Occurrences.Classification | aoh/validation/validate_occurences.py:117-137 | a found species is classified from its distinct in-range pixels, against the prevalence its manifest stores |
| Occurrences.UniqueIsDistinctPixels | aoh/validation/validate_occurences.py:101-105 | the unique count is the number of distinct snapped in-range pixels |
| Occurrences.AllMatchNotOutlier | aoh/validation/validate_occurences.py:128-134 | all points matching is never an outlier and never compares the model prevalence, whatever it holds |
| Occurrences.ShareBelow | aoh/validation/validate_occurences.py:122-134 | m/n < k exactly when m < k*n |
| Occurrences.ShareBounds | aoh/validation/validate_occurences.py:122 | a point prevalence lies in [0, 1] and is 1 only when all match |
| Occurrences.SeasonlessNotFound | aoh/validation/validate_occurences.py:41-45 | a season-less AOH `{id}.tif` is never matched, so the species fails with FileNotFoundError |
| Occurrences.Wrapper | aoh/validation/validate_occurences.py:152-163 | exactly the four caught exception types become None |
| Occurrences.WrapperTotal | aoh/validation/validate_occurences.py:119-163 | only the KeyError of a manifest without `prevalence` and the TypeError of an uncomparable one escape the wrapper, and only for a located species; otherwise None exactly when processing fails |
| Collate.HabitatCount | aoh/validation/collate_data.py:54 | the number of '|'-separated parts; KeyError if missing, AttributeError if not text |
| Collate.CollateData | aoh/validation/collate_data.py:27-57 | no manifests: exit status -1; a missing required column: AssertionError; otherwise the collated table |
| Collate.HeaderDistinct | aoh/validation/collate_data.py:47 | the header repeats no name |
| Collate.HeaderCovers | aoh/validation/collate_data.py:44-47 | every manifest key is a header column |
| Collate.CollatedRows | aoh/validation/collate_data.py:48-55 | one row per manifest, each with the value or a blank per column and then the count |
| Collate.Collated | aoh/validation/collate_data.py:47-56 | succeeds iff every manifest has a text habitat code; the header is the columns, the extra keys and the count; one row per manifest; a failure is some manifest's error |
| Collate.CollatedFaithful | aoh/validation/collate_data.py:39-56 | the table is faithful to the manifests |
| Collate.CollateDataTable | aoh/validation/collate_data.py:27-57 | a successful collation is faithful when no manifest has an `n_habitats` key |
| Collate.CollateDataHabitatError | aoh/validation/collate_data.py:52-54 | a missing or non-text habitat code stops the run despite the blank policy |
| Collate.CollateFixed | validation/collate_data.py:9-42 | the fixed variant: exit -1 on no manifests, else one row per manifest, or the error of the first manifest whose row fails |
| Collate.FixedRowsFirstFailure | validation/collate_data.py:35-42 | a failed row pass carries the error of a manifest all of whose predecessors produced rows |
| Collate.FixedRow | validation/collate_data.py:33-40 | a row exists iff the manifest has every fixed column and a text habitat code; a missing column is KeyError; the row holds the columns' values, then the count |
| Collate.CollateFixedMissingColumn | validation/collate_data.py:37-38 | a manifest lacking a fixed column fails the run; when every earlier manifest produced its row, with KeyError |
| Collate.CollateFixedTable | validation/collate_data.py:33-41 | each row holds the manifest's values under the twelve columns, then its count |
| HabitatProcess.Trunc | aoh/habitat_process.py:29 | `int(x)` truncates toward zero |
| HabitatProcess.BlocksPartition | aoh/habitat_process.py:25-38 | the 512-row blocks tile the rows, each row in exactly one block |
| HabitatProcess.EnumerateSubset | aoh/habitat_process.py:19-30 | a block's distinct truncated non-NaN values |
| HabitatProcess.UnionOfBlocksPrefix | aoh/habitat_process.py:42-44 | the union of the first n blocks is the values of their rows |
| HabitatProcess.EnumerateTerrainTypes | habitat_process.py:35-48 | the union of the classes found in every block of the map; `EnumerateTerrainTypesExact` states it is exactly the map's truncated values |
| HabitatProcess.EnumerateTerrainTypesExact | habitat_process.py:35-48 | the union of the blocks is every truncated non-NaN value of the map, 0 included |
| HabitatProcess.EnumerateClasses | aoh/habitat_process.py:32-49 | the same values with 0 removed |
| HabitatProcess.ClassLayersPartition | aoh/habitat_process.py:84 | on whole-numbered maps, the class layers partition the non-zero pixels |
| HabitatProcess.LccNameInjective | aoh/habitat_process.py:107 | different classes are saved under different `lcc_{v}.tif` names |
| HabitatProcess.PixelSize | habitat_process.py:107-115 | 1, 2, 4 or 8 bytes by data type, 8 by default |
| HabitatProcess.Sizing | habitat_process.py:101-124 | a map with no pixels divides by zero |
| HabitatProcess.SizingBounds | habitat_process.py:116-139 | a pool has 1 to requested workers and their copies fit in half the memory; the run is sequential iff four copies do not fit; it fails iff a pool is due but fewer than 1 worker is requested |
| HabitatProcess.FloorShare | habitat_process.py:119-122 | at least 2 copies fit in half the memory exactly when 4 fit in all of it |
| StarCrosswalk.Expand | STAR/convert_crosswalk.py:40-43 | the expansion starts with the key itself; an unknown key expands to itself alone |
| StarCrosswalk.SchemeStartsWithKey | STAR/convert_crosswalk.py:6-25 | every scheme entry lists its own code first |
| StarCrosswalk.Times | STAR/convert_crosswalk.py:38 | a product is whole exactly when both factors are |
| StarCrosswalk.Codes | STAR/convert_crosswalk.py:38-39 | exactly the non-zero whole products of the class and weight columns |
| StarCrosswalk.ColumnRowsLayout | STAR/convert_crosswalk.py:45-47 | pairs are habitat-major: habitat i, code j sits at i*n + j |
| StarCrosswalk.ConvertCrosswalk | STAR/convert_crosswalk.py:27-50 | the conversion of a wide crosswalk to `(code, value)` rows; `ConvertMembers` and `ColumnRowsLayout` state which rows it outputs and in what order |
| StarCrosswalk.ConvertMembers | STAR/convert_crosswalk.py:33-47 | a row is output iff some `H_` column's expansion holds its code and the column yields its value |
| StarCrosswalk.ColumnRoundTrip | STAR/convert_crosswalk.py:45-50 | reading a distinct-habitat column's output gives each habitat exactly the codes, in order |
| StarCrosswalk.ConvertLoaded | STAR/convert_crosswalk.py:27-50 | loading the converted rows of one `H_` column in memory (no CSV round trip) lists, for each expanded code, exactly the column's values |
| StarCrosswalk.ConvertExample | STAR/convert_crosswalk.py:33-47 | a three-row sheet with `H_2` converts to the expected six rows |
| LifeMaps.MakeArableMap | LIFE/make_arable_map.py:88-104 | KeyError iff an artificial code is unknown; same grid; a pixel is kept iff it is an artificial class, else 1401 |
| LifeMaps.ArableIdempotent | LIFE/make_arable_map.py:96-98 | converting a converted map changes nothing |
| LifeMaps.LevelOne | LIFE/make_current_map.py:38 | the multiple of 100 at or just below the value |
| LifeMaps.MakeCurrentMap | LIFE/make_current_map.py:27-45 | KeyError iff a preserved code is unknown; same grid; preserved classes kept, others reduced to level 1 |
| LifeMaps.CurrentIdempotent | LIFE/make_current_map.py:37-39 | reducing a reduced map changes nothing |
| LifeMaps.MakeRestoreMap | LIFE/make_restore_map.py:26-51 | KeyError for an unknown code, else ValueError for disjoint maps; on the intersection, a pixel takes the PNV class iff it is arable or pasture |
| LifeMaps.RestoreCoversCommon | LIFE/make_restore_map.py:38-40 | every pixel the two maps share is in the restored map |
| LifeMaps.RestoreIdempotent | LIFE/make_restore_map.py:42-45 | restoring a restored map against the same PNV changes nothing |

## Left out

- Process pools, queues, liveness polling, kill-on-failure and file-descriptor limits. The richness pool is modelled as a schedule that says which worker took each queue item. Endemism's failing worker becomes the exit status.
- All raster and vector I/O is left out: GeoTIFF and GeoJSON reads and writes, polygon rasterisation, GDAL warping and reprojection, pyproj transforms, and progress bars. Ranges, class rasters and projected coordinates are inputs.
- Floating point: values are exact reals; `log` and `exp` are uninterpreted parameters; a raster's NaN pixel is `None`, while a JSON NaN is a value of its own.
- Species.FloorOf: `float()` on text is modelled for ASCII spellings only. Underscores between digits, non-ASCII digits and spaces, and rounding to a double are not modelled, so a finite text too large for a double, which Python reads as an infinity, is read here as a finite number.
- AohRoot.CeilOf: reads text with the same model of `float()` as Species.FloorOf, with the same gaps.
- Occurrences.Clip: the range is taken to be a single feature. With several overlapping features the inner `within` join (aoh/validation/validate_occurences.py:72) repeats a point once per containing feature, so the clipped count could exceed the GBIF rows; `process_species` does not check the feature count.
- Endemism.Run: the open of the missing `summed_proportion.tif` is modelled as FileNotFoundError; the exception type the raster library actually raises is not part of this model.
- Occurrences.ProcessSpecies: a manifest that is valid JSON but not an object, and a boolean `prevalence`, are not modelled.
- pandas type inference of CSV columns: crosswalk codes arrive as text.
- SQL extractors, network downloaders, statistical model fitting, CLI argument parsing and package `__init__` files.
- HabitatProcess.Sizing: the memory share uses exact integer floor division, not the float product `available * 0.5`.
- Exit statuses: the statuses of `sys.exit()` after a written manifest are not modelled; the manifest is the outcome.
- AohRoot.NoIntersection: the source creates the failure raster with `empty_raster_layer_like(area_map, ...)` (aohcalc.py:133-137), so it takes the area layer's extent, or the extent of the `ConstantLayer(1.0)` when no area path is given. The model gives it the range's own window instead, and the constant area layer takes no part in the intersection.
- Richness.Worker: the packaged script adds layers of differing extent through the library's implicit union. The model gives it the same union-then-add rule as the explicit script.
- Collate.CollateData: the order of the extra keys is a parameter, because Python's set iteration order is unspecified.
- Collate.CollateData: a statement relating the packaged and fixed variants on the same manifests is not stated.
- Occurrences.Sample: the 2x2 read of the AOH is a total function of the top-left pixel, with the pixel values as a parameter.
- LIFE/make_current_map.py and LIFE/make_restore_map.py import the package as `yirgacheffer`. The model assumes the library every other script imports.
- make_current_map's `main` reads an argument it never defines; only the map function is modelled.
- LifeMaps.MakeArableMap: the output raster's data type is not modelled, so a class such as 1401 that overflows a byte-typed map is not caught.
- StarCrosswalk.ConvertLoaded: the property is about the converted rows in memory. Writing them to CSV and reading them back is not modelled, nor is pandas turning a whole-number code into text such as `1.0` on that read (tests/test_crosswalk.py:25-32).
- StarCrosswalk.ConvertLoaded: the IUCN scheme's expansions are not proved free of repeats, so the exact per-code list is stated only for an expansion without repeats; membership is stated for all.
- StarCrosswalk.Codes: pandas' inference of whole versus fractional cells is an input (`Whole` or `Float`), not derived from the sheet's text.
- LIFE/generate_crosswalk.py, LIFE/species_prep.py, validate.py and the map-prevalence validation are data preparation and statistics outside this model; aoh/aohcalc.py is argument parsing only: it calls an `aohcalc` that it neither defines nor imports (line 76), with the root aohcalc.py's argument list, so it is not modelled.
- The test suite differs from the code in places; the model follows the code:
  - tests/test_occurences.py names AOH files `{id}.tif`, but the code globs `{id}_*.tif` (see `Occurrences.SeasonlessNotFound`);
  - tests/test_collate_data.py expects FileNotFoundError for an empty directory, but the code exits with status -1;
  - tests/test_habitat_process.py imports `_make_single_type_map`, which is not defined under that name.

## Findings

| source | as written | input that shows it | evidently intended | confidence | as-written member | corrected member |
|---|---|---|---|---|---|---|
| aoh/_internal/aoh_fractional.py:153-159 | the handler catches AttributeError and TypeError, but the elevation properties raise ValueError | a species whose `elevation_lower` is null | save the manifest with the missing-attributes error | high, not executed | AohFractional.ElevationErrorEscapes | AohFractional.ElevationErrorRecorded |
| aoh/_internal/aoh_simple.py:52-58 | the handler catches AttributeError and TypeError, but the elevation properties raise ValueError (and its body would fail on the undefined `logger`) | a species whose `elevation_upper` is absent | save the manifest with the missing-attributes error | high, not executed | AohSimple.ElevationErrorEscapes | AohSimple.ElevationErrorRecorded |
| aoh/_internal/aoh_simple.py:56-64 | `logger` is never defined in the module | force_habitat with no crosswalked habitat | log and save the no-habitats manifest | high, not executed | AohSimple.ForcedExitNameError | AohSimple.ForcedWithoutHabitats |
| aoh/_internal/aoh_simple.py:76-80 | `area_path` is never defined; the weight layers are ignored | any non-empty weight layer list | multiply the weight layers together | high, not executed | AohSimple.WeightLayerNameError | AohSimple.Weights |
| aoh/_internal/aoh_fractional.py:161-166 | the log line of the forced exit reads `species_info.season` | force_habitat with no habitats for a species without a season column | save the manifest regardless of season | medium, not executed | AohFractional.ForcedWithoutHabitats (first ensures, `asWritten` true) | AohFractional.ForcedWithoutHabitats (second ensures, `asWritten` false) |
