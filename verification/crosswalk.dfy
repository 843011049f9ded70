/** The IUCN-habitat-code to map-class crosswalk: loading the CSV rows into
    a code -> values table, and resolving a species' habitat codes to the set
    of map classes. Codes arrive already rendered as text (the CSV reader's
    type inference is not modelled). */
module Crosswalk {
  import opened Wrappers

  /** One CSV row: an IUCN habitat code and a map class value. */
  datatype Row = Row(code: string, value: int)

  type Table = map<string, seq<int>>

  /** The values listed for `code`, in row order. */
  function ValuesFor(rows: seq<Row>, code: string): seq<int>
  {
    if |rows| == 0 then []
    else (if rows[0].code == code then [rows[0].value] else []) + ValuesFor(rows[1..], code)
  }

  /** `load_crosswalk_table`: rows are visited in order; a row's value is
      appended to its code's list, which is created on first sight. */
  function LoadCrosswalkTable(rows: seq<Row>): (t: Table)
    ensures forall code :: code in t <==> exists i :: 0 <= i < |rows| && rows[i].code == code
  {
    if |rows| == 0 then map[]
    else
      var t := LoadCrosswalkTable(rows[..|rows| - 1]);
      var row := rows[|rows| - 1];
      assert forall i :: 0 <= i < |rows| - 1 ==> rows[..|rows| - 1][i] == rows[i];
      if row.code in t then t[row.code := t[row.code] + [row.value]] else t[row.code := [row.value]]
  }

  lemma {:induction false} ValuesForAppend(rows: seq<Row>, row: Row, code: string)
    ensures ValuesFor(rows + [row], code) == ValuesFor(rows, code) + (if row.code == code then [row.value] else [])
  {
    if |rows| > 0 {
      assert (rows + [row])[1..] == rows[1..] + [row];
      ValuesForAppend(rows[1..], row, code);
    }
  }

  lemma {:induction false} ValuesForAbsent(rows: seq<Row>, code: string)
    requires forall i :: 0 <= i < |rows| ==> rows[i].code != code
    ensures ValuesFor(rows, code) == []
  {
    if |rows| > 0 {
      ValuesForAbsent(rows[1..], code);
    }
  }

  /** A value is listed for a code exactly when a row pairs them. */
  lemma {:induction false} ValuesForMembers(rows: seq<Row>, code: string, v: int)
    ensures v in ValuesFor(rows, code) <==> Row(code, v) in rows
  {
    if |rows| > 0 {
      ValuesForMembers(rows[1..], code, v);
      assert rows == [rows[0]] + rows[1..];
    }
  }
  /** The loaded table lists, for every code that occurs, exactly the values
      of that code's rows in row order, duplicates included. */
  lemma {:induction false} LoadCrosswalkTableValues(rows: seq<Row>)
    ensures forall code :: code in LoadCrosswalkTable(rows) ==> LoadCrosswalkTable(rows)[code] == ValuesFor(rows, code)
  {
    if |rows| > 0 {
      var init, row := rows[..|rows| - 1], rows[|rows| - 1];
      LoadCrosswalkTableValues(init);
      assert rows == init + [row];
      forall code | code in LoadCrosswalkTable(rows)
        ensures LoadCrosswalkTable(rows)[code] == ValuesFor(rows, code)
      {
        ValuesForAppend(init, row, code);
        if code == row.code && code !in LoadCrosswalkTable(init) {
          ValuesForAbsent(init, code);
        }
      }
    }
  }

  /** One more row appends its value to its code's list. */
  lemma LoadCrosswalkTableStep(rows: seq<Row>, row: Row)
    ensures LoadCrosswalkTable(rows + [row]) ==
      var t := LoadCrosswalkTable(rows);
      if row.code in t then t[row.code := t[row.code] + [row.value]] else t[row.code := [row.value]]
  {
    assert (rows + [row])[..|rows|] == rows;
  }

  /** Interleaved codes: each code's list keeps the order of its rows, and
      a code with no row is not in the table. */
  lemma LoadCrosswalkTableExample(c: string, d: string, e: string, x: int, y: int, z: int, w: int)
    requires c != d && e != c && e != d
    ensures var t := LoadCrosswalkTable([Row(c, x), Row(d, y), Row(c, z), Row(d, w)]);
      && c in t && t[c] == [x, z]
      && d in t && t[d] == [y, w]
      && e !in t
  {
    InterleavedValues(c, d, x, y, z, w);
    InterleavedAbsent(c, d, e, x, y, z, w);
  }

  lemma InterleavedValues(c: string, d: string, x: int, y: int, z: int, w: int)
    requires c != d
    ensures var t := LoadCrosswalkTable([Row(c, x), Row(d, y), Row(c, z), Row(d, w)]);
      && c in t && t[c] == [x, z]
      && d in t && t[d] == [y, w]
  {
    var rows := [Row(c, x), Row(d, y), Row(c, z), Row(d, w)];
    LoadCrosswalkTableValues(rows);
    InterleavedRows(c, d, x, y, z, w);
    assert rows[0].code == c && rows[1].code == d;
  }

  lemma InterleavedRows(c: string, d: string, x: int, y: int, z: int, w: int)
    requires c != d
    ensures ValuesFor([Row(c, x), Row(d, y), Row(c, z), Row(d, w)], c) == [x, z]
    ensures ValuesFor([Row(c, x), Row(d, y), Row(c, z), Row(d, w)], d) == [y, w]
  {
    ValuesForFour(Row(c, x), Row(d, y), Row(c, z), Row(d, w), c);
    ValuesForFour(Row(c, x), Row(d, y), Row(c, z), Row(d, w), d);
  }

  function ValueIf(row: Row, code: string): seq<int>
  {
    if row.code == code then [row.value] else []
  }

  lemma ValuesForFour(a: Row, b: Row, c: Row, d: Row, code: string)
    ensures ValuesFor([a, b, c, d], code) == ValueIf(a, code) + (ValueIf(b, code) + (ValueIf(c, code) + ValueIf(d, code)))
  {
    assert [a, b, c, d] == [a] + ([b] + ([c] + [d]));
    ValuesForCons(a, [b] + ([c] + [d]), code);
    ValuesForCons(b, [c] + [d], code);
    ValuesForCons(c, [d], code);
    ValuesForCons(d, [], code);
    assert [d] + [] == [d];
  }

  lemma ValuesForCons(row: Row, rows: seq<Row>, code: string)
    ensures ValuesFor([row] + rows, code) == ValueIf(row, code) + ValuesFor(rows, code)
  {
    assert ([row] + rows)[1..] == rows;
  }

  lemma InterleavedAbsent(c: string, d: string, e: string, x: int, y: int, z: int, w: int)
    requires e != c && e != d
    ensures e !in LoadCrosswalkTable([Row(c, x), Row(d, y), Row(c, z), Row(d, w)])
  {
    var rows := [Row(c, x), Row(d, y), Row(c, z), Row(d, w)];
    forall i | 0 <= i < |rows|
      ensures rows[i].code != e
    {
      assert rows[i].code in {c, d};
    }
  }

  /** The map classes the given habitat codes resolve to; codes absent from
      the table contribute nothing. */
  function Crosswalked(table: Table, raw: set<string>): (r: set<int>)
  {
    set code, v | code in raw && code in table && v in table[code] :: v
  }

  /** `crosswalk_habitats`: visit the codes one by one, skip unknown codes
      and add the classes of known ones. */
  method CrosswalkHabitats(table: Table, raw: set<string>) returns (result: set<int>)
    ensures forall v :: v in result <==> exists code :: code in raw && code in table && v in table[code]
    ensures result == Crosswalked(table, raw)
  {
    result := {};
    var todo := raw;
    while todo != {}
      invariant todo <= raw
      invariant forall v :: v in result <==> exists code :: code in raw - todo && code in table && v in table[code]
      decreases |todo|
    {
      var code :| code in todo;
      if code in table {
        result := result + set v | v in table[code];
      }
      todo := todo - {code};
    }
    assert forall v :: v in result <==> v in Crosswalked(table, raw);
  }

  /** Resolving the union of two code sets is the union of the resolutions. */
  lemma CrosswalkedUnion(table: Table, a: set<string>, b: set<string>)
    ensures Crosswalked(table, a + b) == Crosswalked(table, a) + Crosswalked(table, b)
  {
  }

  /** An unknown code changes nothing, and no codes give no classes. */
  lemma CrosswalkedUnknown(table: Table, raw: set<string>, code: string)
    requires code !in table
    ensures Crosswalked(table, raw + {code}) == Crosswalked(table, raw)
    ensures Crosswalked(table, {}) == {}
  {
  }

  /** The resolution cases of the coverage test. */
  lemma CrosswalkedExamples()
    ensures var t := map["1.0" := [100, 101, 102], "1.1" := [100, 101], "1.2" := [100, 102],
                         "2.0" := [200, 201, 202], "2.1" := [200, 201], "2.2" := [200, 202]];
      && Crosswalked(t, {"1.0"}) == {100, 101, 102}
      && Crosswalked(t, {"1.1", "2.1"}) == {100, 101, 200, 201}
      && Crosswalked(t, {}) == {}
      && Crosswalked(t, {"foo"}) == {}
      && Crosswalked(t, {"1.2", "foo"}) == {100, 102}
  {
    var t := map["1.0" := [100, 101, 102], "1.1" := [100, 101], "1.2" := [100, 102],
                 "2.0" := [200, 201, 202], "2.1" := [200, 201], "2.2" := [200, 202]];
    assert Crosswalked(t, {"1.0"}) == {100, 101, 102} by {
      assert forall v :: v in Crosswalked(t, {"1.0"}) <==> v in t["1.0"];
    }
    assert Crosswalked(t, {"1.1", "2.1"}) == {100, 101, 200, 201} by {
      assert forall v :: v in Crosswalked(t, {"1.1", "2.1"}) <==> v in t["1.1"] || v in t["2.1"];
    }
    assert Crosswalked(t, {"1.2", "foo"}) == {100, 102} by {
      assert forall v :: v in Crosswalked(t, {"1.2", "foo"}) <==> v in t["1.2"];
    }
  }

  /** A lookup that raises KeyError for an unknown code, as the LIFE scripts
      do when collecting the values of a fixed list of codes. */
  function LookupCodes(table: Table, codes: seq<string>): (r: Result<seq<int>>)
    ensures r.Success? <==> forall i :: 0 <= i < |codes| ==> codes[i] in table
    ensures r.Failure? ==> r.error == KeyError
    ensures r.Success? ==> forall v :: v in r.value <==> exists i :: 0 <= i < |codes| && v in table[codes[i]]
  {
    if |codes| == 0 then Success([])
    else if codes[0] !in table then Failure(KeyError)
    else
      var rest := LookupCodes(table, codes[1..]);
      if rest.Failure? then Failure(KeyError) else Success(table[codes[0]] + rest.value)
  }
}
