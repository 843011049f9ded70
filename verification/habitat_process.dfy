/** Preparation of the per-class habitat layers (`habitat_process`): the
    classes present in the combined habitat map are enumerated block by
    block, each class becomes its own 0/1 layer saved as `lcc_{class}.tif`,
    and the older script sizes its worker pool from the map's memory
    footprint. Reprojection and resampling of each layer are foreign. */
module HabitatProcess {
  import opened Wrappers
  import opened Text

  /** Rows of the combined habitat map; `None` is a NaN pixel. */
  type HabitatMap = seq<seq<Option<real>>>

  /** Number of rows each enumeration worker reads. */
  const BLOCKSIZE: nat := 512

  /** Python's `int(x)` for a float: truncation toward zero. */
  function Trunc(x: real): (n: int)
    ensures x >= 0.0 ==> 0 <= n && n as real <= x < n as real + 1.0
    ensures x < 0.0 ==> n <= 0 && n as real - 1.0 < x <= n as real
  {
    if x >= 0.0 then x.Floor else -((-x).Floor)
  }

  /** The distinct truncated non-NaN values of one row. */
  function RowValues(row: seq<Option<real>>): set<int>
  {
    set p | p in row && p.Some? :: Trunc(p.value)
  }

  /** The distinct truncated non-NaN values of a run of rows. */
  function ValuesIn(rows: HabitatMap): set<int>
  {
    if |rows| == 0 then {} else ValuesIn(rows[..|rows| - 1]) + RowValues(rows[|rows| - 1])
  }

  /** Some pixel of `rows` is a number whose truncation is `v`. */
  predicate HasValue(rows: HabitatMap, v: int)
  {
    exists y, x :: 0 <= y < |rows| && 0 <= x < |rows[y]| && rows[y][x].Some? && Trunc(rows[y][x].value) == v
  }

  lemma {:induction false} ValuesInExact(rows: HabitatMap, v: int)
    ensures v in ValuesIn(rows) <==> HasValue(rows, v)
  {
    if |rows| > 0 {
      var init, last := rows[..|rows| - 1], rows[|rows| - 1];
      ValuesInExact(init, v);
      if v in RowValues(last) {
        var p :| p in last && p.Some? && Trunc(p.value) == v;
        var x :| 0 <= x < |last| && last[x] == p;
        assert rows[|rows| - 1][x] == p;
      }
      if HasValue(rows, v) {
        var y, x :| 0 <= y < |rows| && 0 <= x < |rows[y]| && rows[y][x].Some? && Trunc(rows[y][x].value) == v;
        if y < |init| {
          assert init[y][x] == rows[y][x];
        } else {
          assert last[x] in last;
        }
      }
      if HasValue(init, v) {
        var y, x :| 0 <= y < |init| && 0 <= x < |init[y]| && init[y][x].Some? && Trunc(init[y][x].value) == v;
        assert rows[y][x] == init[y][x];
      }
    }
  }

  lemma {:induction false} ValuesInAppend(a: HabitatMap, b: HabitatMap)
    ensures ValuesIn(a + b) == ValuesIn(a) + ValuesIn(b)
    decreases |b|
  {
    if |b| > 0 {
      ValuesInAppend(a, b[..|b| - 1]);
      assert (a + b)[..|a + b| - 1] == a + b[..|b| - 1];
    } else {
      assert a + b == a;
    }
  }

  /** Number of blocks, `len(range(0, ysize, BLOCKSIZE))`. */
  function BlockCount(ysize: nat): nat
  {
    (ysize + BLOCKSIZE - 1) / BLOCKSIZE
  }

  /** Height of the block starting at `offset`: `min(BLOCKSIZE, ysize - offset)`. */
  function BlockHeight(ysize: nat, offset: nat): nat
    requires offset <= ysize
  {
    if BLOCKSIZE <= ysize - offset then BLOCKSIZE else ysize - offset
  }

  /** The blocks tile the rows: every row lies in exactly one block, and
      every block lies inside the map. */
  lemma BlocksPartition(ysize: nat, y: nat, k: nat)
    requires y < ysize
    ensures k < BlockCount(ysize) ==> k * BLOCKSIZE < ysize && k * BLOCKSIZE + BlockHeight(ysize, k * BLOCKSIZE) <= ysize
    ensures (k < BlockCount(ysize) && k * BLOCKSIZE <= y < k * BLOCKSIZE + BlockHeight(ysize, k * BLOCKSIZE))
      <==> k == y / BLOCKSIZE
  {
  }

  /** `_enumerate_subset`: the values of the block starting at `offset`. */
  function EnumerateSubset(m: HabitatMap, offset: nat): (r: set<int>)
    requires offset <= |m|
    ensures forall v :: v in r <==> HasValue(m[offset..offset + BlockHeight(|m|, offset)], v)
  {
    var block := m[offset..offset + BlockHeight(|m|, offset)];
    assert forall v :: v in ValuesIn(block) <==> HasValue(block, v) by {
      forall v {
        ValuesInExact(block, v);
      }
    }
    ValuesIn(block)
  }

  /** Union of the first `n` block results. */
  function UnionOfBlocks(m: HabitatMap, n: nat): set<int>
    requires n <= BlockCount(|m|)
  {
    if n == 0 then {} else UnionOfBlocks(m, n - 1) + EnumerateSubset(m, (n - 1) * BLOCKSIZE)
  }

  lemma {:induction false} UnionOfBlocksPrefix(m: HabitatMap, n: nat)
    requires n <= BlockCount(|m|)
    ensures n * BLOCKSIZE <= |m| ==> UnionOfBlocks(m, n) == ValuesIn(m[..n * BLOCKSIZE])
    ensures n * BLOCKSIZE > |m| ==> UnionOfBlocks(m, n) == ValuesIn(m)
  {
    if n > 0 {
      UnionOfBlocksPrefix(m, n - 1);
      BlockStep(|m|, n);
      var off := (n - 1) * BLOCKSIZE;
      var end := off + BlockHeight(|m|, off);
      assert UnionOfBlocks(m, n - 1) == ValuesIn(m[..off]);
      assert EnumerateSubset(m, off) == ValuesIn(m[off..end]);
      PrefixJoin(m, off, end);
      assert UnionOfBlocks(m, n) == ValuesIn(m[..end]);
      if n * BLOCKSIZE > |m| {
        assert m[..end] == m;
      }
    }
  }

  /** The values of a prefix are those of its two parts. */
  lemma PrefixJoin(m: HabitatMap, off: nat, end: nat)
    requires off <= end <= |m|
    ensures ValuesIn(m[..end]) == ValuesIn(m[..off]) + ValuesIn(m[off..end])
  {
    ValuesInAppend(m[..off], m[off..end]);
    assert m[..off] + m[off..end] == m[..end];
  }

  /** The `n`-th block starts inside the map, right after the first `n - 1`
      blocks, and ends at `n * BLOCKSIZE` or at the last row. */
  lemma BlockStep(ysize: nat, n: nat)
    requires 0 < n <= BlockCount(ysize)
    ensures (n - 1) * BLOCKSIZE < ysize
    ensures (n - 1) * BLOCKSIZE <= (n - 1) * BLOCKSIZE + BlockHeight(ysize, (n - 1) * BLOCKSIZE) <= ysize
    ensures n * BLOCKSIZE <= ysize ==> (n - 1) * BLOCKSIZE + BlockHeight(ysize, (n - 1) * BLOCKSIZE) == n * BLOCKSIZE
    ensures n * BLOCKSIZE > ysize ==> (n - 1) * BLOCKSIZE + BlockHeight(ysize, (n - 1) * BLOCKSIZE) == ysize
  {
    assert (n - 1) * BLOCKSIZE + BLOCKSIZE == n * BLOCKSIZE;
  }

  /** `enumerate_terrain_types` of the older script: the union of the block
      results. */
  function EnumerateTerrainTypes(m: HabitatMap): set<int>
  {
    UnionOfBlocks(m, BlockCount(|m|))
  }

  /** The union of the block results is every truncated non-NaN value of
      the map, 0 included: no value is lost between blocks. */
  lemma EnumerateTerrainTypesExact(m: HabitatMap, v: int)
    ensures v in EnumerateTerrainTypes(m) <==> HasValue(m, v)
  {
    UnionOfBlocksPrefix(m, BlockCount(|m|));
    if BlockCount(|m|) * BLOCKSIZE <= |m| {
      assert m[..BlockCount(|m|) * BLOCKSIZE] == m;
    }
    ValuesInExact(m, v);
  }

  /** The packaged `enumerate_terrain_types`: the same union with class 0
      removed. */
  function EnumerateClasses(m: HabitatMap): (r: set<int>)
    ensures forall v :: v in r <==> v != 0 && HasValue(m, v)
  {
    assert forall v :: v in EnumerateTerrainTypes(m) <==> HasValue(m, v) by {
      forall v {
        EnumerateTerrainTypesExact(m, v);
      }
    }
    EnumerateTerrainTypes(m) - {0}
  }

  /** The layer for one class before reprojection: 1 where the pixel equals
      the class value, 0 elsewhere, NaN included. */
  function ClassMask(m: HabitatMap, v: int): (r: seq<seq<real>>)
    ensures |r| == |m|
    ensures forall y :: 0 <= y < |m| ==> |r[y]| == |m[y]|
    ensures (forall y, x :: 0 <= y < |m| && 0 <= x < |m[y]| ==>
      (r[y][x] == 1.0 <==> m[y][x] == Some(v as real)) && (r[y][x] == 0.0 <==> m[y][x] != Some(v as real)))
  {
    seq(|m|, y requires 0 <= y < |m| => seq(|m[y]|, x requires 0 <= x < |m[y]| =>
      if m[y][x] == Some(v as real) then 1.0 else 0.0))
  }

  /** A map whose numbers are all whole. */
  predicate Integral(m: HabitatMap)
  {
    forall y, x :: 0 <= y < |m| && 0 <= x < |m[y]| && m[y][x].Some? ==> m[y][x].value == m[y][x].value.Floor as real
  }

  /** On a map of whole class numbers, the per-class layers of the
      enumerated classes partition the non-zero pixels: each such pixel is
      1 in the layer of its own class, which is enumerated, and 0 in every
      other class's layer. */
  lemma ClassLayersPartition(m: HabitatMap, y: int, x: int, w: int)
    requires Integral(m)
    requires 0 <= y < |m| && 0 <= x < |m[y]| && m[y][x].Some? && m[y][x].value != 0.0
    ensures Trunc(m[y][x].value) in EnumerateClasses(m)
    ensures ClassMask(m, Trunc(m[y][x].value))[y][x] == 1.0
    ensures w != Trunc(m[y][x].value) ==> ClassMask(m, w)[y][x] == 0.0
  {
    var r := m[y][x].value;
    assert r == r.Floor as real;
    assert Trunc(r) as real == r;
    assert HasValue(m, Trunc(r));
  }

  /** The file a class layer is saved under. */
  function LccName(v: int): (name: string)
    ensures name == "lcc_" + ShowInt(v) + ".tif"
  {
    "lcc_" + ShowInt(v) + ".tif"
  }

  /** Different classes are saved under different names, so no layer
      overwrites another and the AOH step finds each class under its own
      name. */
  lemma LccNameInjective(a: int, b: int)
    requires LccName(a) == LccName(b)
    ensures a == b
  {
    var sa, sb := ShowInt(a), ShowInt(b);
    assert LccName(a)[4..|LccName(a)| - 4] == sa;
    assert LccName(b)[4..|LccName(b)| - 4] == sb;
    ShowIntInjective(a, b);
  }

  /** GDAL pixel data types. */
  datatype DataType =
    | Byte | Int8 | CInt16 | Int16 | UInt16 | CFloat32 | CInt32 | Float32 | Int32
    | UInt32 | Int64 | UInt64 | Float64 | CFloat64 | Unknown

  /** Bytes per pixel assumed for a data type; anything not listed takes 8. */
  function PixelSize(t: DataType): (n: nat)
    ensures n in {1, 2, 4, 8}
    ensures n == 1 <==> t in {Byte, Int8}
    ensures n == 2 <==> t in {CInt16, Int16, UInt16}
    ensures n == 4 <==> t in {CFloat32, CInt32, Float32, Int32}
  {
    match t
    case Byte | Int8 => 1
    case CInt16 | Int16 | UInt16 => 2
    case CFloat32 | CInt32 | Float32 | Int32 => 4
    case _ => 8
  }

  /** How the classes are processed: one at a time, or on a pool of workers. */
  datatype Plan = Sequential | Pooled(workers: nat)

  /** The sizing of lines 101-139: an estimate of one copy of the map, the
      number of copies that fit in half the available memory (at least 1),
      and a pool only when more than one copy fits. An empty map divides by
      zero; a pool of fewer than one worker is refused by the pool. */
  function Sizing(t: DataType, xsize: nat, ysize: nat, available: nat, requested: int): (r: Result<Plan>)
    ensures xsize * ysize == 0 ==> r == Failure(ZeroDivisionError)
  {
    var estimate := PixelSize(t) * (xsize * ysize);
    if estimate == 0 then Failure(ZeroDivisionError)
    else
      var fits := available / (2 * estimate);
      var maxCopies := if fits == 0 then 1 else fits;
      var processCount := if maxCopies <= requested then maxCopies else requested;
      if maxCopies > 1 then
        if processCount < 1 then Failure(ValueError) else Success(Pooled(processCount))
      else Success(Sequential)
  }

  /** A pool never holds more workers than were requested, and its workers'
      copies of the map fit together in half the available memory; the
      classes run one at a time exactly when two copies would not fit. */
  lemma SizingBounds(t: DataType, xsize: nat, ysize: nat, available: nat, requested: int)
    requires xsize * ysize > 0
    ensures var estimate := PixelSize(t) * (xsize * ysize);
      var r := Sizing(t, xsize, ysize, available, requested);
      && (r.Success? && r.value.Pooled? ==>
            1 <= r.value.workers <= requested && 2 * (r.value.workers * estimate) <= available)
      && (r == Success(Sequential) <==> available < 4 * estimate)
      && (r.Failure? <==> 4 * estimate <= available && requested < 1)
  {
    var estimate := PixelSize(t) * (xsize * ysize);
    FloorShare(available, estimate);
    var r := Sizing(t, xsize, ysize, available, requested);
    if r.Success? && r.value.Pooled? {
      MulBound(r.value.workers, available / (2 * estimate), estimate);
    }
  }

  /** The number of copies that fit in half the memory is at least 2
      exactly when four copies fit in all of it, and that many copies do fit
      in half of it. */
  lemma FloorShare(available: nat, estimate: nat)
    requires estimate > 0
    ensures var f := available / (2 * estimate);
      && (f >= 2 <==> 4 * estimate <= available)
      && 2 * (f * estimate) <= available
  {
    var d := 2 * estimate;
    var f := available / d;
    DivFacts(available, d);
    assert f * d == 2 * (f * estimate);
    if 4 * estimate <= available && f < 2 {
      MulBound(f, 1, d);
    }
    if f >= 2 {
      MulBound(2, f, d);
    }
  }

  lemma DivFacts(a: nat, d: nat)
    requires d > 0
    ensures (a / d) * d <= a < (a / d) * d + d
  {
  }

  lemma MulBound(n: int, f: int, e: nat)
    requires 0 <= n <= f
    ensures n * e <= f * e
  {
  }
}
