/** `_collect` / `_Collect` (schedule/database.py:329-356 and
    gtfs_data/database.py:266-290): grouping loaded rows by the value of one
    column, either keeping the last row per value or all rows in input order. */
module Tables {
  import opened Wrappers
  import opened Dicts
  import Loader

  type Row = Loader.Row

  /** `row[key]`, which raises KeyError when the column is absent. */
  function Field(row: Row, key: string): (r: Result<string, Error>)
    ensures r.Success? <==> key in row
    ensures r.Success? ==> r.value == row[key]
    ensures r.Failure? ==> r.error == KeyError(key)
  {
    if key in row then Success(row[key]) else Failure(KeyError(key))
  }

  /** Some row lacks the key column. */
  predicate SomeRowLacks(rows: seq<Row>, keyName: string) {
    exists i :: 0 <= i < |rows| && keyName !in rows[i]
  }

  /** Every row has the key column. */
  predicate AllHave(rows: seq<Row>, keyName: string) {
    forall i :: 0 <= i < |rows| ==> keyName in rows[i]
  }

  /** Single mode: `ret[key] = row` for every row; None when a row lacks the key. */
  function GroupLast(rows: seq<Row>, keyName: string): (r: Option<Dict<Row>>)
    ensures r.Some? ==> Valid(r.value)
  {
    if |rows| == 0 then Some(Empty())
    else
      var groups :- GroupLast(rows[..|rows| - 1], keyName);
      var row := rows[|rows| - 1];
      if keyName !in row then None else Some(Put(groups, row[keyName], row))
  }

  /** Multi mode: every row is appended to the list of its key value. */
  function GroupAll(rows: seq<Row>, keyName: string): (r: Option<Dict<seq<Row>>>)
    ensures r.Some? ==> Valid(r.value)
  {
    if |rows| == 0 then Some(Empty())
    else
      var groups :- GroupAll(rows[..|rows| - 1], keyName);
      var row := rows[|rows| - 1];
      if keyName !in row then None
      else
        var key := row[keyName];
        Some(Put(groups, key, (if key in groups.entries then groups.entries[key] else []) + [row]))
  }

  /** The rows whose key column holds `v`, in input order. */
  function RowsWith(rows: seq<Row>, keyName: string, v: string): seq<Row> {
    if |rows| == 0 then []
    else
      var row := rows[|rows| - 1];
      RowsWith(rows[..|rows| - 1], keyName, v) + if keyName in row && row[keyName] == v then [row] else []
  }

  /** Grouping fails exactly when some row lacks the key column. */
  lemma {:induction false} GroupLastFails(rows: seq<Row>, keyName: string)
    ensures GroupLast(rows, keyName).None? <==> SomeRowLacks(rows, keyName)
  {
    if |rows| > 0 {
      var init := rows[..|rows| - 1];
      GroupLastFails(init, keyName);
      if SomeRowLacks(init, keyName) {
        var i :| 0 <= i < |init| && keyName !in init[i];
        assert keyName !in rows[i];
      }
      if SomeRowLacks(rows, keyName) && keyName in rows[|rows| - 1] {
        var i :| 0 <= i < |rows| && keyName !in rows[i];
        assert keyName !in init[i];
      }
    }
  }

  lemma {:induction false} GroupAllFails(rows: seq<Row>, keyName: string)
    ensures GroupAll(rows, keyName).None? <==> SomeRowLacks(rows, keyName)
  {
    if |rows| > 0 {
      var init := rows[..|rows| - 1];
      GroupAllFails(init, keyName);
      if SomeRowLacks(init, keyName) {
        var i :| 0 <= i < |init| && keyName !in init[i];
        assert keyName !in rows[i];
      }
      if SomeRowLacks(rows, keyName) && keyName in rows[|rows| - 1] {
        var i :| 0 <= i < |rows| && keyName !in rows[i];
        assert keyName !in init[i];
      }
    }
  }

  /** The values the key column takes. */
  function ColumnValues(rows: seq<Row>, keyName: string): set<string> {
    if |rows| == 0 then {}
    else
      var row := rows[|rows| - 1];
      ColumnValues(rows[..|rows| - 1], keyName) + if keyName in row then {row[keyName]} else {}
  }

  lemma {:induction false} ColumnValuesMembers(rows: seq<Row>, keyName: string)
    requires AllHave(rows, keyName)
    ensures forall v :: v in ColumnValues(rows, keyName) <==> exists i :: 0 <= i < |rows| && rows[i][keyName] == v
  {
    if |rows| > 0 {
      var init := rows[..|rows| - 1];
      assert forall i :: 0 <= i < |init| ==> init[i] == rows[i];
      ColumnValuesMembers(init, keyName);
    }
  }

  /** Both modes: the keys are exactly the values the column takes. */
  lemma {:induction false} GroupedKeys(rows: seq<Row>, keyName: string)
    requires AllHave(rows, keyName)
    ensures GroupLast(rows, keyName).Some? && GroupAll(rows, keyName).Some?
    ensures GroupLast(rows, keyName).value.entries.Keys == ColumnValues(rows, keyName)
    ensures GroupAll(rows, keyName).value.entries.Keys == ColumnValues(rows, keyName)
  {
    if |rows| > 0 {
      var init := rows[..|rows| - 1];
      assert AllHave(init, keyName) by {
        assert forall i :: 0 <= i < |init| ==> init[i] == rows[i];
      }
      GroupedKeys(init, keyName);
    }
  }

  /** Single mode: the entry of the value in row `i` is row `i` when no later
      row holds the same value. */
  lemma {:induction false} GroupLastAt(rows: seq<Row>, keyName: string, i: int)
    requires AllHave(rows, keyName) && 0 <= i < |rows|
    requires forall j :: i < j < |rows| ==> rows[j][keyName] != rows[i][keyName]
    ensures GroupLast(rows, keyName).Some?
    ensures var d := GroupLast(rows, keyName).value;
            rows[i][keyName] in d.entries && d.entries[rows[i][keyName]] == rows[i]
  {
    var init := rows[..|rows| - 1];
    var last := rows[|rows| - 1];
    assert AllHave(init, keyName) by {
      assert forall k :: 0 <= k < |init| ==> init[k] == rows[k];
    }
    GroupLastFails(init, keyName);
    if i < |init| {
      assert init[i] == rows[i];
      assert forall j :: i < j < |init| ==> init[j][keyName] != init[i][keyName] by {
        assert forall j :: i < j < |init| ==> init[j] == rows[j];
      }
      GroupLastAt(init, keyName, i);
      assert rows[i][keyName] != last[keyName];
    }
  }

  /** Single mode: each key maps to the last row holding it. */
  lemma GroupLastKeepsLast(rows: seq<Row>, keyName: string)
    requires AllHave(rows, keyName)
    ensures GroupLast(rows, keyName).Some?
    ensures var d := GroupLast(rows, keyName).value;
            forall i :: 0 <= i < |rows| && (forall j :: i < j < |rows| ==> rows[j][keyName] != rows[i][keyName]) ==>
              rows[i][keyName] in d.entries && d.entries[rows[i][keyName]] == rows[i]
  {
    GroupedKeys(rows, keyName);
    forall i | 0 <= i < |rows| && (forall j :: i < j < |rows| ==> rows[j][keyName] != rows[i][keyName])
      ensures var d := GroupLast(rows, keyName).value;
              rows[i][keyName] in d.entries && d.entries[rows[i][keyName]] == rows[i]
    {
      GroupLastAt(rows, keyName, i);
    }
  }

  /** Multi mode: each key maps to all rows holding it, in input order. */
  lemma {:induction false} GroupAllInOrder(rows: seq<Row>, keyName: string, v: string)
    requires AllHave(rows, keyName)
    ensures GroupAll(rows, keyName).Some?
    ensures var d := GroupAll(rows, keyName).value;
            v in d.entries ==> d.entries[v] == RowsWith(rows, keyName, v)
  {
    GroupAllFails(rows, keyName);
    if |rows| > 0 {
      var init := rows[..|rows| - 1];
      var last := rows[|rows| - 1];
      var key := last[keyName];
      assert AllHave(init, keyName) by {
        assert forall i :: 0 <= i < |init| ==> init[i] == rows[i];
      }
      GroupAllInOrder(init, keyName, v);
      var d0 := GroupAll(init, keyName).value;
      if v == key && key !in d0.entries {
        GroupedKeys(init, keyName);
        ColumnValuesMembers(init, keyName);
        RowsWithAbsent(init, keyName, key);
      }
    }
  }

  /** A value the column never takes has no rows. */
  lemma {:induction false} RowsWithAbsent(rows: seq<Row>, keyName: string, v: string)
    requires AllHave(rows, keyName)
    requires forall i :: 0 <= i < |rows| ==> rows[i][keyName] != v
    ensures RowsWith(rows, keyName, v) == []
  {
    if |rows| > 0 {
      var init := rows[..|rows| - 1];
      assert AllHave(init, keyName) by {
        assert forall i :: 0 <= i < |init| ==> init[i] == rows[i];
      }
      RowsWithAbsent(init, keyName, v);
    }
  }

  /** `_collect(data, key_name)`: None data gives an empty dict (the legacy
      `_Collect` has no such branch, and neither version is ever given None). */
  method CollectLast(data: Option<seq<Row>>, keyName: string) returns (r: Option<Dict<Row>>)
    ensures data.None? ==> r == Some(Empty())
    ensures data.Some? ==> r == GroupLast(data.value, keyName)
  {
    if data.None? {
      return Some(Empty());
    }
    var rows := data.value;
    var ret: Dict<Row> := Empty();
    var duplicates := 0;
    for i := 0 to |rows|
      invariant GroupLast(rows[..i], keyName) == Some(ret)
    {
      assert rows[..i + 1][..i] == rows[..i];
      var row := rows[i];
      if keyName !in row {
        GroupLastFails(rows, keyName);
        return None;
      }
      var key := row[keyName];
      if key in ret.entries {
        duplicates := duplicates + 1;
      }
      ret := Put(ret, key, row);
    }
    assert rows[..|rows|] == rows;
    return Some(ret);
  }

  /** `_collect(data, key_name, multi=True)`. */
  method CollectAll(data: Option<seq<Row>>, keyName: string) returns (r: Option<Dict<seq<Row>>>)
    ensures data.None? ==> r == Some(Empty())
    ensures data.Some? ==> r == GroupAll(data.value, keyName)
  {
    if data.None? {
      return Some(Empty());
    }
    var rows := data.value;
    var ret: Dict<seq<Row>> := Empty();
    for i := 0 to |rows|
      invariant GroupAll(rows[..i], keyName) == Some(ret)
    {
      assert rows[..i + 1][..i] == rows[..i];
      var row := rows[i];
      if keyName !in row {
        GroupAllFails(rows, keyName);
        return None;
      }
      var key := row[keyName];
      var lst := if key in ret.entries then ret.entries[key] else [];
      lst := lst + [row];
      ret := Put(ret, key, lst);
    }
    assert rows[..|rows|] == rows;
    return Some(ret);
  }
}
