/** Collation of the AOH manifests into one table (`collate_data`), in the
    packaged variant (required columns first, then every other key found,
    missing values left blank) and the older fixed-column variant. Each row
    ends with the number of habitat codes of the species. */
module Collate {
  import opened Wrappers
  import opened Seqs
  import opened Text
  import opened Species

  /** One table cell: a manifest value, the blank written for a missing key,
      or the `n_habitats` count. */
  datatype Cell = Field(v: Value) | Blank | Count(n: nat)

  datatype Table = Table(header: seq<string>, rows: seq<seq<Cell>>)

  const HABITAT_KEY := "full_habitat_code"
  const N_HABITATS := "n_habitats"

  /** The required columns of the packaged variant, in output order. */
  const COLUMNS: seq<string> := [
    "id_no", "assessment_id", "class_name", "family_name", "scientific_name",
    HABITAT_KEY, "category", "season", "elevation_upper", "elevation_lower",
    "range_total", "hab_total", "dem_total", "aoh_total", "prevalence"]

  /** The columns of the fixed variant, in output order. */
  const FIXED_COLUMNS: seq<string> := [
    "id_no", "class_name", "family_name", "season", "elevation_upper",
    "elevation_lower", HABITAT_KEY, "range_total", "dem_total", "hab_total",
    "aoh_total", "prevalence"]

  /** Every key of any manifest. */
  function AllKeys(ms: seq<Manifest>): (r: set<string>)
    ensures forall k :: k in r <==> exists i :: 0 <= i < |ms| && k in ms[i]
  {
    if |ms| == 0 then {}
    else
      var rest := AllKeys(ms[1..]);
      assert forall k, i :: 1 <= i < |ms| ==> (k in ms[i] <==> k in ms[1..][i - 1]);
      ms[0].Keys + rest
  }

  /** `order` lists the set `s` once each, in the (unspecified) order in
      which Python iterates it. */
  predicate Enumerates(order: seq<string>, s: set<string>)
  {
    Distinct(order) && (forall k :: k in order ==> k in s) && (forall k :: k in s ==> k in order)
  }

  /** The keys found in some manifest beyond the columns `cols`. */
  function Extras(ms: seq<Manifest>, cols: seq<string>): set<string>
  {
    AllKeys(ms) - set c | c in cols
  }

  /** Every column of `cols` is a key of some manifest. */
  predicate HasColumns(ms: seq<Manifest>, cols: seq<string>)
  {
    forall c :: c in cols ==> c in AllKeys(ms)
  }

  /** `len(code.split('|'))`, which needs the habitat value to be text. */
  function HabitatCount(m: Manifest): (r: Result<nat>)
    ensures r.Success? <==> HABITAT_KEY in m && m[HABITAT_KEY].Str?
    ensures HABITAT_KEY !in m ==> r == Failure(KeyError)
    ensures HABITAT_KEY in m && !m[HABITAT_KEY].Str? ==> r == Failure(AttributeError)
    ensures r.Success? ==> r.value == Text.Count(m[HABITAT_KEY].s, '|') + 1
  {
    if HABITAT_KEY !in m then Failure(KeyError)
    else if !m[HABITAT_KEY].Str? then Failure(AttributeError)
    else Success(|Split(m[HABITAT_KEY].s, '|')|)
  }

  /** `data.get(k, '')` for each key in turn. */
  function Cells(m: Manifest, keys: seq<string>): (r: seq<Cell>)
    ensures |r| == |keys|
    ensures forall j :: 0 <= j < |keys| ==> r[j] == (if keys[j] in m then Field(m[keys[j]]) else Blank)
  {
    if |keys| == 0 then [] else [if keys[0] in m then Field(m[keys[0]]) else Blank] + Cells(m, keys[1..])
  }

  /** One row of the packaged variant. */
  function Row(m: Manifest, keys: seq<string>): (r: Result<seq<Cell>>)
    ensures r.Success? <==> HabitatCount(m).Success?
    ensures r.Failure? ==> r.error == HabitatCount(m).error
  {
    var n :- HabitatCount(m);
    Success(Cells(m, keys) + [Count(n)])
  }

  /** The rows in manifest order; the first manifest that cannot be counted
      stops the run with its exception. */
  function Rows(ms: seq<Manifest>, keys: seq<string>): (r: Result<seq<seq<Cell>>>)
    ensures r.Success? <==> forall i :: 0 <= i < |ms| ==> HabitatCount(ms[i]).Success?
    ensures r.Success? ==> |r.value| == |ms|
    ensures r.Success? ==> forall i :: 0 <= i < |ms| ==> Row(ms[i], keys) == Success(r.value[i])
    ensures r.Failure? ==> exists i :: 0 <= i < |ms| && HabitatCount(ms[i]) == Failure(r.error)
  {
    if |ms| == 0 then Success([])
    else
      var row :- Row(ms[0], keys);
      var rest :- Rows(ms[1..], keys);
      assert forall i :: 1 <= i < |ms| ==> ms[i] == ms[1..][i - 1];
      Success([row] + rest)
  }

  /** The header and rows once the checks have passed: `cols` then `order`
      as columns, and the habitat count last. */
  function Collated(ms: seq<Manifest>, cols: seq<string>, order: seq<string>): (r: Result<Table>)
    ensures r.Success? <==> forall i :: 0 <= i < |ms| ==> HabitatCount(ms[i]).Success?
    ensures r.Success? ==> r.value.header == cols + order + [N_HABITATS] && |r.value.rows| == |ms|
    ensures r.Failure? ==> exists i :: 0 <= i < |ms| && HabitatCount(ms[i]) == Failure(r.error)
  {
    var rows :- Rows(ms, cols + order);
    Success(Table(cols + order + [N_HABITATS], rows))
  }

  /** The packaged `collate_data`; `order` is the iteration order of the keys
      beyond the required columns. No manifest at all exits with status -1,
      a required column that no manifest holds fails the assertion, and a
      manifest without a textual habitat code fails the habitat count. */
  function CollateData(ms: seq<Manifest>, order: seq<string>): (r: Result<Table>)
    requires Enumerates(order, Extras(ms, COLUMNS))
    ensures |ms| == 0 ==> r == Failure(SystemExit(-1))
    ensures |ms| > 0 && !HasColumns(ms, COLUMNS) ==> r == Failure(AssertionError)
    ensures |ms| > 0 && HasColumns(ms, COLUMNS) ==> r == Collated(ms, COLUMNS, order)
  {
    if |ms| == 0 then Failure(SystemExit(-1))
    else if !HasColumns(ms, COLUMNS) then Failure(AssertionError)
    else Collated(ms, COLUMNS, order)
  }

  lemma ColumnsDistinct()
    ensures Distinct(COLUMNS) && Distinct(FIXED_COLUMNS)
    ensures N_HABITATS !in COLUMNS && N_HABITATS !in FIXED_COLUMNS
  {
  }

  /** Required columns, then the other keys, then `n_habitats` repeat no
      name when the parts are repetition-free and the count is in neither. */
  lemma HeaderDistinct(cols: seq<string>, order: seq<string>)
    requires Distinct(cols) && Distinct(order) && N_HABITATS !in cols && N_HABITATS !in order
    requires forall k :: k in order ==> k !in cols
    ensures Distinct(cols + order + [N_HABITATS])
  {
    var h := cols + order + [N_HABITATS];
    forall i, j | 0 <= i < j < |h|
      ensures h[i] != h[j]
    {
      if j < |cols| {
        assert h[i] == cols[i] && h[j] == cols[j];
      } else if i >= |cols| && j < |cols| + |order| {
        assert h[i] == order[i - |cols|] && h[j] == order[j - |cols|];
      } else if j < |cols| + |order| {
        assert h[j] == order[j - |cols|] && h[i] == cols[i];
        assert order[j - |cols|] in order;
      } else if i < |cols| {
        assert h[i] == cols[i] && h[j] == N_HABITATS;
        assert cols[i] in cols;
      } else {
        assert h[i] == order[i - |cols|] && h[j] == N_HABITATS;
        assert order[i - |cols|] in order;
      }
    }
  }

  /** Every key of a manifest is a required column or one of the others. */
  lemma HeaderCovers(ms: seq<Manifest>, cols: seq<string>, order: seq<string>, i: int, k: string)
    requires Enumerates(order, Extras(ms, cols))
    requires 0 <= i < |ms| && k in ms[i]
    ensures k in cols + order
  {
    assert k in AllKeys(ms);
  }

  /** A table row faithful to its manifest: under each column the
      manifest's value, or a blank when the manifest lacks that key, and
      under the last the number of '|'-separated habitat codes. */
  predicate RowFaithful(header: seq<string>, row: seq<Cell>, m: Manifest)
  {
    && |row| == |header| >= 1
    && (forall j :: 0 <= j < |header| - 1 ==> row[j] == if header[j] in m then Field(m[header[j]]) else Blank)
    && HABITAT_KEY in m && m[HABITAT_KEY].Str?
    && row[|header| - 1] == Count(Text.Count(m[HABITAT_KEY].s, '|') + 1)
  }

  /** Each collated row is faithful to its manifest. */
  lemma CollatedRows(ms: seq<Manifest>, cols: seq<string>, order: seq<string>, i: int)
    requires Collated(ms, cols, order).Success? && 0 <= i < |ms|
    ensures var t := Collated(ms, cols, order).value;
      RowFaithful(t.header, t.rows[i], ms[i])
  {
    var t := Collated(ms, cols, order).value;
    var rows := Rows(ms, cols + order);
    assert Row(ms[i], cols + order) == Success(t.rows[i]);
  }

  /** The collated table's header repeats no name and holds every key of
      every manifest, and each row is faithful to its manifest. */
  predicate Faithful(t: Table, ms: seq<Manifest>)
  {
    && |t.rows| == |ms|
    && Distinct(t.header)
    && (forall i, k :: 0 <= i < |ms| && k in ms[i] ==> k in t.header)
    && (forall i :: 0 <= i < |ms| ==> RowFaithful(t.header, t.rows[i], ms[i]))
  }

  lemma CollatedFaithful(ms: seq<Manifest>, cols: seq<string>, order: seq<string>)
    requires Enumerates(order, Extras(ms, cols))
    requires Distinct(cols) && N_HABITATS !in cols && N_HABITATS !in AllKeys(ms)
    requires Collated(ms, cols, order).Success?
    ensures Faithful(Collated(ms, cols, order).value, ms)
  {
    var t := Collated(ms, cols, order).value;
    HeaderDistinct(cols, order);
    forall i, k | 0 <= i < |ms| && k in ms[i]
      ensures k in t.header
    {
      HeaderCovers(ms, cols, order, i, k);
    }
    forall i | 0 <= i < |ms|
      ensures RowFaithful(t.header, t.rows[i], ms[i])
    {
      CollatedRows(ms, cols, order, i);
    }
  }

  /** A successful packaged collation is faithful to the manifests, as long
      as no manifest already holds an `n_habitats` key. */
  lemma CollateDataTable(ms: seq<Manifest>, order: seq<string>)
    requires Enumerates(order, Extras(ms, COLUMNS))
    requires N_HABITATS !in AllKeys(ms)
    requires CollateData(ms, order).Success?
    ensures Faithful(CollateData(ms, order).value, ms)
  {
    ColumnsDistinct();
    CollatedFaithful(ms, COLUMNS, order);
  }

  /** A manifest whose habitat code is missing or not text stops the run
      even when it passed the column assertion: the missing-key policy
      covers the table cells only. */
  lemma CollateDataHabitatError(ms: seq<Manifest>, order: seq<string>, i: int)
    requires Enumerates(order, Extras(ms, COLUMNS))
    requires 0 <= i < |ms| && HabitatCount(ms[i]).Failure?
    ensures CollateData(ms, order).Failure?
  {
  }

  /** The fixed variant's row: every fixed column must be present (KeyError
      otherwise), then the habitat count. */
  function FixedRow(m: Manifest): (r: Result<seq<Cell>>)
    ensures r.Success? <==> (forall c :: c in FIXED_COLUMNS ==> c in m) && m[HABITAT_KEY].Str?
    ensures (exists c :: c in FIXED_COLUMNS && c !in m) ==> r == Failure(KeyError)
    ensures r.Success? ==> |r.value| == |FIXED_COLUMNS| + 1
    ensures (r.Success? ==> forall j :: 0 <= j < |FIXED_COLUMNS| ==>
      r.value[j] == Field(m[FIXED_COLUMNS[j]]))
    ensures r.Success? ==> r.value[|FIXED_COLUMNS|] == Count(Text.Count(m[HABITAT_KEY].s, '|') + 1)
  {
    if !(forall c :: c in FIXED_COLUMNS ==> c in m) then Failure(KeyError)
    else
      assert HABITAT_KEY in m by { assert FIXED_COLUMNS[6] == HABITAT_KEY; }
      var n :- HabitatCount(m);
      Success(Cells(m, FIXED_COLUMNS) + [Count(n)])
  }

  function FixedRows(ms: seq<Manifest>): (r: Result<seq<seq<Cell>>>)
    ensures r.Success? <==> forall i :: 0 <= i < |ms| ==> FixedRow(ms[i]).Success?
    ensures r.Success? ==> |r.value| == |ms|
    ensures r.Success? ==> forall i :: 0 <= i < |ms| ==> FixedRow(ms[i]) == Success(r.value[i])
  {
    if |ms| == 0 then Success([])
    else
      var row :- FixedRow(ms[0]);
      var rest :- FixedRows(ms[1..]);
      assert forall i :: 1 <= i < |ms| ==> ms[i] == ms[1..][i - 1];
      Success([row] + rest)
  }

  /** Row `i` is the first whose fixed row fails, and it fails with `e`. */
  predicate FirstFailure(ms: seq<Manifest>, i: int, e: Exception)
  {
    && 0 <= i < |ms|
    && FixedRow(ms[i]) == Failure(e)
    && forall j :: 0 <= j < i ==> FixedRow(ms[j]).Success?
  }

  /** The rows are built in manifest order, so a failure is the first
      failing manifest's. */
  lemma {:induction false} FixedRowsFirstFailure(ms: seq<Manifest>)
    requires FixedRows(ms).Failure?
    ensures exists i :: FirstFailure(ms, i, FixedRows(ms).error)
  {
    if FixedRow(ms[0]).Failure? {
      assert FirstFailure(ms, 0, FixedRows(ms).error);
    } else {
      FixedRowsFirstFailure(ms[1..]);
      var k :| FirstFailure(ms[1..], k, FixedRows(ms[1..]).error);
      forall j | 0 <= j < k + 1
        ensures FixedRow(ms[j]).Success?
      {
        if j > 0 {
          assert ms[j] == ms[1..][j - 1];
        }
      }
      assert ms[k + 1] == ms[1..][k];
      assert FirstFailure(ms, k + 1, FixedRows(ms).error);
    }
  }

  /** The fixed-column `collate_data`: one row per manifest, in manifest
      order, under the twelve columns and `n_habitats`. */
  function CollateFixed(ms: seq<Manifest>): (r: Result<Table>)
    ensures |ms| == 0 ==> r == Failure(SystemExit(-1))
    ensures r.Success? <==> |ms| > 0 && forall i :: 0 <= i < |ms| ==> FixedRow(ms[i]).Success?
    ensures r.Success? ==> r.value.header == FIXED_COLUMNS + [N_HABITATS]
    ensures r.Success? ==> |r.value.rows| == |ms|
    ensures r.Failure? && |ms| > 0 ==> exists i :: FirstFailure(ms, i, r.error)
  {
    if |ms| == 0 then Failure(SystemExit(-1))
    else match FixedRows(ms)
      case Failure(e) =>
        FixedRowsFirstFailure(ms);
        Failure(e)
      case Success(rows) => Success(Table(FIXED_COLUMNS + [N_HABITATS], rows))
  }

  /** A manifest lacking a fixed column makes the run fail; when every
      earlier manifest gives a row, the failure is that manifest's
      KeyError. */
  lemma CollateFixedMissingColumn(ms: seq<Manifest>, i: int, c: string)
    requires 0 <= i < |ms| && c in FIXED_COLUMNS && c !in ms[i]
    ensures CollateFixed(ms).Failure?
    ensures (forall j :: 0 <= j < i ==> FixedRow(ms[j]).Success?) ==> CollateFixed(ms) == Failure(KeyError)
  {
    var r := CollateFixed(ms);
    var k :| FirstFailure(ms, k, r.error);
    if forall j :: 0 <= j < i ==> FixedRow(ms[j]).Success? {
      assert k == i;
    }
  }

  /** A successful fixed collation holds, for each manifest in order, its
      value under each fixed column and then its habitat count. */
  lemma CollateFixedTable(ms: seq<Manifest>, i: int)
    requires CollateFixed(ms).Success? && 0 <= i < |ms|
    ensures var row := CollateFixed(ms).value.rows[i];
      && |row| == |FIXED_COLUMNS| + 1
      && (forall k :: 0 <= k < |FIXED_COLUMNS| ==> FIXED_COLUMNS[k] in ms[i] && row[k] == Field(ms[i][FIXED_COLUMNS[k]]))
      && row[|FIXED_COLUMNS|] == Count(Text.Count(ms[i][HABITAT_KEY].s, '|') + 1)
  {
    assert FixedRow(ms[i]) == Success(CollateFixed(ms).value.rows[i]);
  }
}
