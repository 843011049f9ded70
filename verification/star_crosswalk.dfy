/** Conversion of the STAR crosswalk spreadsheet to the two-column
    `code,value` crosswalk the AOH step loads (`convert_crosswalk`). Each
    `H_{key}` column weights the `CGLS100_value` column; the non-zero whole
    products are the map classes of the habitat `key`, and a level-1 key
    stands for itself and all of its IUCN sub-habitats. */
module StarCrosswalk {
  import opened Wrappers
  import opened Seqs
  import opened Crosswalk

  /** A spreadsheet number: whole, or a float (any column holding NaN). */
  datatype Number = Whole(i: int) | Float(x: real)

  /** One spreadsheet column: its header and its values, one per row. */
  datatype Column = Column(name: string, values: seq<Number>)

  /** The IUCN habitat classification scheme: each level-1 code with the
      codes it covers, itself first. */
  function IucnHabitatCodes(): map<string, seq<string>>
  {
    map[
      "1" := ["1", "1.1", "1.2", "1.3", "1.4", "1.5", "1.6", "1.7", "1.8", "1.9"],
      "2" := ["2", "2.1", "2.2"],
      "3" := ["3", "3.1", "3.2", "3.3", "3.4", "3.5", "3.6", "3.7", "3.8"],
      "4" := ["4", "4.1", "4.2", "4.3", "4.4", "4.5", "4.6", "4.7"],
      "5" := ["5", "5.1", "5.2", "5.3", "5.4", "5.5", "5.6", "5.7", "5.8", "5.9", "5.10", "5.11", "5.12",
              "5.13", "5.14", "5.15", "5.16", "5.17", "5.18"],
      "6" := ["6"],
      "7" := ["7", "7.1", "7.2"],
      "8" := ["8", "8.1", "8.2", "8.3"],
      "9" := ["9", "9.1", "9.2", "9.3", "9.4", "9.5", "9.6", "9.7", "9.8", "9.9", "9.10", "9.8.1", "9.8.2",
              "9.8.3", "9.8.4", "9.8.5", "9.8.6"],
      "10" := ["10", "10.1", "10.2", "10.3", "10.4"],
      "11" := ["11", "11.1", "11.1.1", "11.1.2", "11.2", "11.3", "11.4", "11.5", "11.6"],
      "12" := ["12", "12.1", "12.2", "12.3", "12.4", "12.5", "12.6", "12.7"],
      "13" := ["13", "13.1", "13.2", "13.3", "13.4", "13.5"],
      "14" := ["14", "14.1", "14.2", "14.3", "14.4", "14.5", "14.6"],
      "15" := ["15", "15.1", "15.2", "15.3", "15.4", "15.5", "15.6", "15.7", "15.8", "15.9", "15.10",
               "15.11", "15.12", "15.13"],
      "16" := ["16"],
      "17" := ["17"],
      "18" := ["18"]
    ]
  }

  const PREFIX := "H_"

  /** The codes a habitat column stands for: its scheme entry, or the key
      alone when the scheme does not list it. */
  function Expand(key: string): (r: seq<string>)
    ensures |r| >= 1 && r[0] == key
    ensures key !in IucnHabitatCodes() ==> r == [key]
  {
    if key in IucnHabitatCodes() then ExpandKnown(key) else [key]
  }

  function ExpandKnown(key: string): (r: seq<string>)
    requires key in IucnHabitatCodes()
    ensures r == IucnHabitatCodes()[key] && |r| >= 1 && r[0] == key
  {
    SchemeStartsWithKey();
    IucnHabitatCodes()[key]
  }

  /** Every scheme entry lists its own key first, so expanding never drops
      the level-1 code itself. */
  lemma SchemeStartsWithKey()
    ensures forall k :: k in IucnHabitatCodes() ==> |IucnHabitatCodes()[k]| >= 1 && IucnHabitatCodes()[k][0] == k
  {
  }

  /** `a * b` on spreadsheet numbers: whole only when both are whole. */
  function Times(a: Number, b: Number): (r: Number)
    ensures r.Whole? <==> a.Whole? && b.Whole?
    ensures r.Whole? ==> r.i == a.i * b.i
  {
    match (a, b)
    case (Whole(x), Whole(y)) => Whole(x * y)
    case (Whole(x), Float(y)) => Float(x as real * y)
    case (Float(x), Whole(y)) => Float(x * y as real)
    case (Float(x), Float(y)) => Float(x * y)
  }

  /** The non-zero whole products of the class column and one weight
      column, in row order. */
  function Codes(cgls: seq<Number>, weights: seq<Number>): (r: seq<int>)
    requires |weights| == |cgls|
    ensures forall c :: c in r <==> c != 0 && exists i :: 0 <= i < |cgls| && Times(cgls[i], weights[i]) == Whole(c)
    ensures |r| <= |cgls|
  {
    if |cgls| == 0 then []
    else
      var p := Times(cgls[0], weights[0]);
      var rest := Codes(cgls[1..], weights[1..]);
      assert forall i :: 1 <= i < |cgls| ==> cgls[i] == cgls[1..][i - 1] && weights[i] == weights[1..][i - 1];
      (if p.Whole? && p.i != 0 then [p.i] else []) + rest
  }

  /** Every (habitat, code) pair of one column, habitat-major. */
  function ColumnRows(habs: seq<string>, codes: seq<int>): (r: seq<Row>)
    ensures |r| == |habs| * |codes|
  {
    if |habs| == 0 then []
    else seq(|codes|, j requires 0 <= j < |codes| => Row(habs[0], codes[j])) + ColumnRows(habs[1..], codes)
  }

  /** The pairs are laid out habitat by habitat, each habitat followed by
      every code in row order. */
  lemma {:induction false} ColumnRowsLayout(habs: seq<string>, codes: seq<int>, i: int, j: int)
    requires 0 <= i < |habs| && 0 <= j < |codes|
    ensures i * |codes| + j < |ColumnRows(habs, codes)|
    ensures ColumnRows(habs, codes)[i * |codes| + j] == Row(habs[i], codes[j])
  {
    var n := |codes|;
    assert (i + 1) * n == i * n + n;
    MulMono(i + 1, |habs|, n);
    if i > 0 {
      ColumnRowsLayout(habs[1..], codes, i - 1, j);
      assert (i - 1) * n + j + n == i * n + j;
    }
  }

  lemma MulMono(a: nat, b: nat, n: nat)
    requires a <= b
    ensures a * n <= b * n
  {
  }

  predicate IsWeightColumn(c: Column)
  {
    |c.name| >= |PREFIX| && c.name[..|PREFIX|] == PREFIX
  }

  /** All weight columns have one value per spreadsheet row. */
  predicate Rectangular(cgls: seq<Number>, columns: seq<Column>)
  {
    forall k :: 0 <= k < |columns| ==> |columns[k].values| == |cgls|
  }

  /** The rows contributed by one column (none for a non-weight column). */
  function ColumnOutput(cgls: seq<Number>, c: Column): seq<Row>
    requires |c.values| == |cgls|
  {
    if IsWeightColumn(c) then ColumnRows(Expand(c.name[|PREFIX|..]), Codes(cgls, c.values)) else []
  }

  /** `convert_crosswalk`: the output rows, column by column in spreadsheet
      order. */
  function ConvertCrosswalk(cgls: seq<Number>, columns: seq<Column>): seq<Row>
    requires Rectangular(cgls, columns)
  {
    if |columns| == 0 then []
    else ColumnOutput(cgls, columns[0]) + ConvertCrosswalk(cgls, columns[1..])
  }

  /** Column `c` yields `row`: it is an `H_` column whose key expands to
      the row's habitat code, and the row's class value is one of its
      non-zero whole products. */
  predicate Yields(cgls: seq<Number>, c: Column, row: Row)
    requires |c.values| == |cgls|
  {
    IsWeightColumn(c) && row.code in Expand(c.name[|PREFIX|..]) && row.value in Codes(cgls, c.values)
  }

  /** A row is in the output exactly when some column yields it. */
  lemma {:induction false} ConvertMembers(cgls: seq<Number>, columns: seq<Column>, row: Row)
    requires Rectangular(cgls, columns)
    ensures row in ConvertCrosswalk(cgls, columns) <==> exists k :: 0 <= k < |columns| && Yields(cgls, columns[k], row)
  {
    if |columns| > 0 {
      var tail := columns[1..];
      ConvertMembers(cgls, tail, row);
      ColumnOutputMembers(cgls, columns[0], row);
      assert ConvertCrosswalk(cgls, columns) == ColumnOutput(cgls, columns[0]) + ConvertCrosswalk(cgls, tail);
      if exists k :: 0 <= k < |columns| && Yields(cgls, columns[k], row) {
        var k :| 0 <= k < |columns| && Yields(cgls, columns[k], row);
        if k > 0 {
          assert tail[k - 1] == columns[k];
        }
      }
      if exists k :: 0 <= k < |tail| && Yields(cgls, tail[k], row) {
        var k :| 0 <= k < |tail| && Yields(cgls, tail[k], row);
        assert columns[k + 1] == tail[k];
      }
    }
  }

  lemma ColumnOutputMembers(cgls: seq<Number>, c: Column, row: Row)
    requires |c.values| == |cgls|
    ensures row in ColumnOutput(cgls, c) <==> Yields(cgls, c, row)
  {
    if IsWeightColumn(c) {
      ColumnRowsMembers(Expand(c.name[|PREFIX|..]), Codes(cgls, c.values), row);
    }
  }

  lemma {:induction false} ColumnRowsMembers(habs: seq<string>, codes: seq<int>, row: Row)
    ensures row in ColumnRows(habs, codes) <==> row.code in habs && row.value in codes
  {
    if |habs| > 0 {
      ColumnRowsMembers(habs[1..], codes, row);
      var head := seq(|codes|, j requires 0 <= j < |codes| => Row(habs[0], codes[j]));
      assert row in head <==> row.code == habs[0] && row.value in codes by {
        if row.code == habs[0] && row.value in codes {
          var j :| 0 <= j < |codes| && codes[j] == row.value;
          assert head[j] == row;
        }
      }
      assert habs == [habs[0]] + habs[1..];
    }
  }

  lemma {:induction false} ValuesForConcat(a: seq<Row>, b: seq<Row>, code: string)
    ensures ValuesFor(a + b, code) == ValuesFor(a, code) + ValuesFor(b, code)
  {
    if |a| > 0 {
      assert (a + b)[0] == a[0] && (a + b)[1..] == a[1..] + b;
      ValuesForConcat(a[1..], b, code);
      assert ValuesFor(a + b, code) == (if a[0].code == code then [a[0].value] else []) + ValuesFor(a[1..] + b, code);
    } else {
      assert a + b == b;
    }
  }

  lemma {:induction false} ValuesForOneHabitat(h: string, codes: seq<int>, code: string)
    ensures ValuesFor(seq(|codes|, j requires 0 <= j < |codes| => Row(h, codes[j])), code) == if h == code then codes else []
  {
    var rows := seq(|codes|, j requires 0 <= j < |codes| => Row(h, codes[j]));
    if |codes| > 0 {
      ValuesForOneHabitat(h, codes[1..], code);
      assert rows[1..] == seq(|codes[1..]|, j requires 0 <= j < |codes[1..]| => Row(h, codes[1..][j]));
      assert codes == [codes[0]] + codes[1..];
    }
  }

  /** Loading one converted column back with the AOH step's crosswalk
      loader gives each of the column's habitat codes exactly the column's
      class values, in row order, and no other code any value. */
  lemma {:induction false} ColumnRoundTrip(habs: seq<string>, codes: seq<int>, code: string)
    requires Distinct(habs)
    ensures ValuesFor(ColumnRows(habs, codes), code) == if code in habs then codes else []
  {
    if |habs| > 0 {
      var head := seq(|codes|, j requires 0 <= j < |codes| => Row(habs[0], codes[j]));
      ValuesForConcat(head, ColumnRows(habs[1..], codes), code);
      ValuesForOneHabitat(habs[0], codes, code);
      assert Distinct(habs[1..]) by {
        forall i, j | 0 <= i < j < |habs[1..]|
          ensures habs[1..][i] != habs[1..][j]
        {
          assert habs[1..][i] == habs[i + 1] && habs[1..][j] == habs[j + 1];
        }
      }
      ColumnRoundTrip(habs[1..], codes, code);
      if code == habs[0] {
        assert code !in habs[1..] by {
          forall i | 0 <= i < |habs[1..]|
            ensures habs[1..][i] != code
          {
            assert habs[1..][i] == habs[i + 1];
          }
        }
      }
      assert habs == [habs[0]] + habs[1..];
    }
  }

  /** Converting a spreadsheet with one `H_` column and loading the result
      with the AOH step's loader lists, for every code the column expands
      to, exactly the column's class values (in row order when the
      expansion lists no code twice), and lists no other code. */
  lemma ConvertLoaded(cgls: seq<Number>, c: Column, code: string)
    requires |c.values| == |cgls| && IsWeightColumn(c)
    ensures Rectangular(cgls, [c])
    ensures var t := LoadCrosswalkTable(ConvertCrosswalk(cgls, [c]));
      var habs, codes := Expand(c.name[|PREFIX|..]), Codes(cgls, c.values);
      && (code in t <==> code in habs && |codes| > 0)
      && (code in t ==> forall v :: v in t[code] <==> v in codes)
      && (code in t && Distinct(habs) ==> t[code] == codes)
  {
    var habs, codes := Expand(c.name[|PREFIX|..]), Codes(cgls, c.values);
    ConvertOne(cgls, c);
    LoadedColumn(habs, codes, code);
  }

  lemma ConvertOne(cgls: seq<Number>, c: Column)
    requires |c.values| == |cgls| && IsWeightColumn(c)
    ensures Rectangular(cgls, [c])
    ensures ConvertCrosswalk(cgls, [c]) == ColumnRows(Expand(c.name[|PREFIX|..]), Codes(cgls, c.values))
  {
    assert [c][1..] == [];
    assert ConvertCrosswalk(cgls, [c]) == ColumnOutput(cgls, c) + [];
  }

  lemma LoadedColumn(habs: seq<string>, codes: seq<int>, code: string)
    ensures var t := LoadCrosswalkTable(ColumnRows(habs, codes));
      && (code in t <==> code in habs && |codes| > 0)
      && (code in t ==> forall v :: v in t[code] <==> v in codes)
      && (code in t && Distinct(habs) ==> t[code] == codes)
  {
    var rows := ColumnRows(habs, codes);
    LoadCrosswalkTableValues(rows);
    var t := LoadCrosswalkTable(rows);
    if code in habs && |codes| > 0 {
      ColumnRowsMembers(habs, codes, Row(code, codes[0]));
      var i :| 0 <= i < |rows| && rows[i] == Row(code, codes[0]);
    }
    if code in t {
      var i :| 0 <= i < |rows| && rows[i].code == code;
      ColumnRowsMembers(habs, codes, rows[i]);
      forall v
        ensures v in t[code] <==> v in codes
      {
        ValuesForMembers(rows, code, v);
        ColumnRowsMembers(habs, codes, Row(code, v));
      }
      if Distinct(habs) {
        ColumnRoundTrip(habs, codes, code);
      }
    }
  }

  /** A concrete column: class values 10, 20, 30 weighted 1, 0, 1 under
      `H_2` give classes 10 and 30 for each of "2", "2.1" and "2.2", listed
      habitat by habitat; the class column itself contributes nothing. */
  lemma ConvertExample()
    ensures ConvertCrosswalk([Whole(10), Whole(20), Whole(30)],
      [Column("CGLS100_value", [Whole(10), Whole(20), Whole(30)]), Column("H_2", [Whole(1), Whole(0), Whole(1)])])
      == [Row("2", 10), Row("2", 30), Row("2.1", 10), Row("2.1", 30), Row("2.2", 10), Row("2.2", 30)]
  {
    var cgls := [Whole(10), Whole(20), Whole(30)];
    var first := Column("CGLS100_value", cgls);
    var c := Column("H_2", [Whole(1), Whole(0), Whole(1)]);
    var columns := [first, c];
    ColumnOutputExample();
    ConvertTwo(cgls, first, c);
  }

  lemma ConvertTwo(cgls: seq<Number>, a: Column, b: Column)
    requires |a.values| == |cgls| && |b.values| == |cgls|
    ensures Rectangular(cgls, [a, b])
    ensures ConvertCrosswalk(cgls, [a, b]) == ColumnOutput(cgls, a) + ColumnOutput(cgls, b)
  {
    var columns := [a, b];
    ConvertStep(cgls, columns);
    assert columns[1..] == [b];
    ConvertStep(cgls, [b]);
    assert [b][1..] == [];
    assert ColumnOutput(cgls, b) + [] == ColumnOutput(cgls, b);
  }

  lemma ConvertStep(cgls: seq<Number>, columns: seq<Column>)
    requires Rectangular(cgls, columns) && |columns| > 0
    ensures Rectangular(cgls, columns[1..])
    ensures ConvertCrosswalk(cgls, columns) == ColumnOutput(cgls, columns[0]) + ConvertCrosswalk(cgls, columns[1..])
  {
  }

  lemma ColumnOutputExample()
    ensures ColumnOutput([Whole(10), Whole(20), Whole(30)], Column("CGLS100_value", [Whole(10), Whole(20), Whole(30)])) == []
    ensures ColumnOutput([Whole(10), Whole(20), Whole(30)], Column("H_2", [Whole(1), Whole(0), Whole(1)]))
      == [Row("2", 10), Row("2", 30), Row("2.1", 10), Row("2.1", 30), Row("2.2", 10), Row("2.2", 30)]
  {
    var cgls := [Whole(10), Whole(20), Whole(30)];
    var c := Column("H_2", [Whole(1), Whole(0), Whole(1)]);
    assert "CGLS100_value"[..|PREFIX|] == "CG" != PREFIX;
    assert c.name[|PREFIX|..] == "2";
    CodesExample();
    ExpandExample();
    ColumnRowsExample();
  }

  lemma ExpandExample()
    ensures Expand("2") == ["2", "2.1", "2.2"]
    ensures Expand("20") == ["20"]
  {
  }

  lemma CodesExample()
    ensures Codes([Whole(10), Whole(20), Whole(30)], [Whole(1), Whole(0), Whole(1)]) == [10, 30]
  {
    var a, b := [Whole(10), Whole(20), Whole(30)], [Whole(1), Whole(0), Whole(1)];
    assert a[1..] == [Whole(20), Whole(30)] && b[1..] == [Whole(0), Whole(1)];
    CodesExampleTail();
  }

  lemma CodesExampleTail()
    ensures Codes([Whole(20), Whole(30)], [Whole(0), Whole(1)]) == [30]
  {
    var a, b := [Whole(20), Whole(30)], [Whole(0), Whole(1)];
    assert a[1..] == [Whole(30)] && b[1..] == [Whole(1)];
    assert Codes([Whole(30)], [Whole(1)]) == [30];
  }

  lemma ColumnRowsExample()
    ensures ColumnRows(["2", "2.1", "2.2"], [10, 30])
      == [Row("2", 10), Row("2", 30), Row("2.1", 10), Row("2.1", 30), Row("2.2", 10), Row("2.2", 30)]
  {
    var habs: seq<string> := ["2", "2.1", "2.2"];
    assert habs[1..] == ["2.1", "2.2"] && habs[1..][1..] == ["2.2"] && habs[1..][1..][1..] == [];
  }
}
