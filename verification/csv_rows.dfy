/** Reading the CSV table into rows and grouping the rows by well key. The
    tokenisation of the file into cells is not modelled: the input is the
    table of cells `csv.reader` yields, header line first. */
module CsvRows {
  import opened Wrappers
  import opened Text

  /** Rows shorter than this are skipped. */
  const MinColumns: nat := 21

  /** A kept data row: the stripped name, well key and date fields, and the
      full list of cells for the positional lookups that follow. */
  datatype Row = Row(name: string, wellKey: string, year: string, month: string, day: string, cells: seq<string>)

  /** `row[i].strip() if len(row) > i else ''`. */
  function StrippedCell(cells: seq<string>, i: nat): (r: string)
    ensures i < |cells| ==> r == Strip(cells[i])
    ensures i >= |cells| ==> r == ""
  {
    if |cells| > i then Strip(cells[i]) else ""
  }

  function ToRow(cells: seq<string>): Row {
    Row(StrippedCell(cells, 0), StrippedCell(cells, 1), StrippedCell(cells, 2),
        StrippedCell(cells, 3), StrippedCell(cells, 4), cells)
  }

  predicate Long(cells: seq<string>) {
    |cells| >= MinColumns
  }

  /** The data lines that are long enough, in order. */
  function LongLines(lines: seq<seq<string>>): (r: seq<seq<string>>)
    ensures |r| <= |lines|
    ensures forall k | 0 <= k < |r| :: Long(r[k])
  {
    if |lines| == 0 then []
    else (if Long(lines[0]) then [lines[0]] else []) + LongLines(lines[1..])
  }

  /** Every line kept comes from the input. */
  lemma {:induction false} LongLinesSound(lines: seq<seq<string>>)
    ensures forall k | 0 <= k < |LongLines(lines)| :: LongLines(lines)[k] in lines
  {
    if |lines| > 0 {
      LongLinesSound(lines[1..]);
      var r, rest := LongLines(lines), LongLines(lines[1..]);
      forall k | 0 <= k < |r| ensures r[k] in lines {
        if k >= |r| - |rest| {
          assert r[k] == rest[k - (|r| - |rest|)];
          assert rest[k - (|r| - |rest|)] in lines[1..];
        }
      }
    }
  }

  /** Every line long enough is kept. */
  lemma {:induction false} LongLinesComplete(lines: seq<seq<string>>)
    ensures forall i | 0 <= i < |lines| && Long(lines[i]) :: lines[i] in LongLines(lines)
  {
    if |lines| > 0 {
      LongLinesComplete(lines[1..]);
      var r, rest := LongLines(lines), LongLines(lines[1..]);
      assert r == (if Long(lines[0]) then [lines[0]] else []) + rest;
      forall i | 1 <= i < |lines| && Long(lines[i]) ensures lines[i] in r {
        assert lines[i] == lines[1..][i - 1];
        assert lines[i] in rest;
      }
    }
  }

  /** The long data lines turned into rows, in order. */
  function KeepRows(lines: seq<seq<string>>): (r: seq<Row>)
    ensures |r| == |LongLines(lines)|
    ensures forall k | 0 <= k < |r| :: r[k].cells == LongLines(lines)[k] && Long(r[k].cells)
    ensures forall k | 0 <= k < |r| :: r[k] == ToRow(LongLines(lines)[k])
    ensures forall k | 0 <= k < |r| ::
      && r[k].name == Strip(r[k].cells[0]) && r[k].wellKey == Strip(r[k].cells[1])
      && r[k].year == Strip(r[k].cells[2]) && r[k].month == Strip(r[k].cells[3]) && r[k].day == Strip(r[k].cells[4])
  {
    var ls := LongLines(lines);
    seq(|ls|, k requires 0 <= k < |ls| => ToRow(ls[k]))
  }

  /** Every kept row is read from an input line long enough, and every line
      long enough is read into a kept row. */
  lemma KeepRowsExactly(lines: seq<seq<string>>)
    ensures forall k | 0 <= k < |KeepRows(lines)| :: KeepRows(lines)[k].cells in lines
    ensures forall i | 0 <= i < |lines| && Long(lines[i]) :: ToRow(lines[i]) in KeepRows(lines)
  {
    LongLinesSound(lines);
    LongLinesComplete(lines);
    var ls, r := LongLines(lines), KeepRows(lines);
    forall i | 0 <= i < |lines| && Long(lines[i]) ensures ToRow(lines[i]) in r {
      var k :| 0 <= k < |ls| && ls[k] == lines[i];
      assert r[k] == ToRow(ls[k]);
    }
  }

  /** The rows of a table: none at all when there is not even a header line
      (reading it fails), otherwise the long data lines after the header. */
  function ReadRows(table: seq<seq<string>>): (r: Option<seq<Row>>)
    ensures r.None? <==> |table| == 0
    ensures r.Some? ==> r.value == KeepRows(table[1..])
    ensures r.Some? ==> forall k | 0 <= k < |r.value| :: |r.value[k].cells| >= MinColumns
  {
    if |table| == 0 then None else Some(KeepRows(table[1..]))
  }

  /** On a kept row every field lookup finds its cell. */
  lemma KeptRowFields(cells: seq<string>)
    requires Long(cells)
    ensures ToRow(cells).name == Strip(cells[0]) && ToRow(cells).wellKey == Strip(cells[1])
    ensures ToRow(cells).year == Strip(cells[2]) && ToRow(cells).month == Strip(cells[3])
    ensures ToRow(cells).day == Strip(cells[4])
  {
  }

  // ---------------------------------------------------------------------
  // Grouping by well key
  // ---------------------------------------------------------------------

  /** Some row carries well key `k`. */
  predicate Occurs(rows: seq<Row>, k: string) {
    exists p :: 0 <= p < |rows| && rows[p].wellKey == k
  }

  /** The distinct non-empty well keys, in order of first appearance. */
  function KeysInOrder(rows: seq<Row>): seq<string>
    decreases |rows|
  {
    if |rows| == 0 then []
    else
      var ks := KeysInOrder(rows[..|rows| - 1]);
      var k := rows[|rows| - 1].wellKey;
      if k == "" || k in ks then ks else ks + [k]
  }

  /** The rows with well key `k`, in their original order. */
  function RowsWithKey(rows: seq<Row>, k: string): (r: seq<Row>)
    ensures forall i | 0 <= i < |r| :: r[i].wellKey == k && r[i] in rows
    ensures |r| > 0 <==> Occurs(rows, k)
    decreases |rows|
  {
    if |rows| == 0 then []
    else
      var init := rows[..|rows| - 1];
      var last := rows[|rows| - 1];
      assert forall p | 0 <= p < |init| :: init[p] == rows[p];
      RowsWithKey(init, k) + (if last.wellKey == k then [last] else [])
  }

  datatype Group = Group(key: string, rows: seq<Row>)

  /** The grouping `group_data_by_well` produces, as a reference: one group
      per distinct non-empty key, in order of first appearance, holding that
      key's rows in order. */
  function Grouping(rows: seq<Row>): (gs: seq<Group>) {
    var ks := KeysInOrder(rows);
    seq(|ks|, i requires 0 <= i < |ks| => Group(ks[i], RowsWithKey(rows, ks[i])))
  }

  function GroupKeys(gs: seq<Group>): (r: seq<string>)
    ensures |r| == |gs| && forall i | 0 <= i < |gs| :: r[i] == gs[i].key
  {
    if |gs| == 0 then [] else GroupKeys(gs[..|gs| - 1]) + [gs[|gs| - 1].key]
  }

  /** Index of the group with key `k`, if there is one. */
  function FindGroup(gs: seq<Group>, k: string): (r: Option<nat>)
    ensures r.Some? ==> r.value < |gs| && gs[r.value].key == k
    ensures r.None? ==> forall i | 0 <= i < |gs| :: gs[i].key != k
  {
    if |gs| == 0 then None
    else if gs[|gs| - 1].key == k then Some(|gs| - 1)
    else FindGroup(gs[..|gs| - 1], k)
  }

  /** One step of the grouping loop: a row with an empty key is dropped;
      otherwise it is appended to its key's list, which is created at the
      end when the key is new. */
  function Insert(gs: seq<Group>, row: Row): seq<Group> {
    if row.wellKey == "" then gs
    else match FindGroup(gs, row.wellKey)
      case Some(j) => gs[j := Group(row.wellKey, gs[j].rows + [row])]
      case None => gs + [Group(row.wellKey, [row])]
  }

  /** `group_data_by_well`: the dictionary loop, which computes the
      reference grouping. */
  method GroupByWell(rows: seq<Row>) returns (groups: seq<Group>)
    ensures groups == Grouping(rows)
  {
    groups := [];
    var i := 0;
    while i < |rows|
      invariant 0 <= i <= |rows|
      invariant groups == Grouping(rows[..i])
    {
      GroupingSnoc(rows[..i], rows[i]);
      assert rows[..i + 1] == rows[..i] + [rows[i]];
      groups := Insert(groups, rows[i]);
      i := i + 1;
    }
    assert rows[..i] == rows;
  }

  /** Facts about the key list: keys are non-empty and distinct, and a key
      is listed exactly when some row carries it. */
  lemma {:induction false} KeysFacts(rows: seq<Row>)
    ensures forall i | 0 <= i < |KeysInOrder(rows)| :: KeysInOrder(rows)[i] != ""
    ensures forall i, j | 0 <= i < j < |KeysInOrder(rows)| :: KeysInOrder(rows)[i] != KeysInOrder(rows)[j]
    ensures forall k :: k in KeysInOrder(rows) <==> k != "" && Occurs(rows, k)
    decreases |rows|
  {
    if |rows| > 0 {
      var init := rows[..|rows| - 1];
      KeysFacts(init);
      forall k ensures Occurs(rows, k) <==> Occurs(init, k) || rows[|rows| - 1].wellKey == k {
        if Occurs(init, k) {
          var p :| 0 <= p < |init| && init[p].wellKey == k;
          assert rows[p] == init[p];
        }
        if Occurs(rows, k) && rows[|rows| - 1].wellKey != k {
          var p :| 0 <= p < |rows| && rows[p].wellKey == k;
          assert init[p] == rows[p];
        }
      }
    }
  }

  lemma RowsWithKeySnoc(rows: seq<Row>, row: Row, c: string)
    ensures RowsWithKey(rows + [row], c) == RowsWithKey(rows, c) + (if row.wellKey == c then [row] else [])
  {
    assert (rows + [row])[..|rows|] == rows;
  }

  lemma KeysSnoc(rows: seq<Row>, row: Row)
    ensures KeysInOrder(rows + [row]) ==
      if row.wellKey == "" || row.wellKey in KeysInOrder(rows) then KeysInOrder(rows)
      else KeysInOrder(rows) + [row.wellKey]
  {
    assert (rows + [row])[..|rows|] == rows;
  }

  /** Appending one row changes the reference grouping as one loop step does. */
  lemma GroupingSnoc(rows: seq<Row>, row: Row)
    ensures Grouping(rows + [row]) == Insert(Grouping(rows), row)
  {
    KeysFacts(rows);
    KeysSnoc(rows, row);
    var gs := Grouping(rows);
    var k := row.wellKey;
    if k == "" {
      SnocUnkeyed(rows, row);
    } else {
      match FindGroup(gs, k)
      case Some(j) => SnocKnown(rows, row, j);
      case None => SnocNew(rows, row);
    }
  }

  lemma SnocUnkeyed(rows: seq<Row>, row: Row)
    requires row.wellKey == ""
    ensures Grouping(rows + [row]) == Grouping(rows)
  {
    KeysFacts(rows);
    KeysSnoc(rows, row);
    var ks := KeysInOrder(rows);
    forall i | 0 <= i < |ks| ensures RowsWithKey(rows + [row], ks[i]) == RowsWithKey(rows, ks[i]) {
      RowsWithKeySnoc(rows, row, ks[i]);
    }
  }

  lemma SnocKnown(rows: seq<Row>, row: Row, j: nat)
    requires j < |Grouping(rows)| && Grouping(rows)[j].key == row.wellKey
    ensures Grouping(rows + [row]) ==
      Grouping(rows)[j := Group(row.wellKey, Grouping(rows)[j].rows + [row])]
  {
    KeysFacts(rows);
    KeysSnoc(rows, row);
    var ks := KeysInOrder(rows);
    var gs := Grouping(rows);
    var gs' := gs[j := Group(row.wellKey, gs[j].rows + [row])];
    forall i | 0 <= i < |gs| ensures Grouping(rows + [row])[i] == gs'[i] {
      RowsWithKeySnoc(rows, row, ks[i]);
    }
  }

  lemma SnocNew(rows: seq<Row>, row: Row)
    requires row.wellKey != ""
    requires forall i | 0 <= i < |Grouping(rows)| :: Grouping(rows)[i].key != row.wellKey
    ensures Grouping(rows + [row]) == Grouping(rows) + [Group(row.wellKey, [row])]
  {
    var ks := KeysInOrder(rows);
    var k := row.wellKey;
    var gs := Grouping(rows);
    assert k !in ks by {
      forall i | 0 <= i < |ks| ensures ks[i] != k {
        assert gs[i].key == ks[i];
      }
    }
    KeysSnoc(rows, row);
    NewKeyRows(rows, k);
    RowsWithKeySnoc(rows, row, k);
    var gs2, want := Grouping(rows + [row]), gs + [Group(k, [row])];
    assert KeysInOrder(rows + [row]) == ks + [k];
    assert |gs2| == |want|;
    forall i | 0 <= i < |want| ensures gs2[i] == want[i] {
      if i < |ks| {
        RowsWithKeySnoc(rows, row, ks[i]);
      } else {
        assert RowsWithKey(rows + [row], k) == [row];
      }
    }
  }

  /** A key not yet listed has no rows. */
  lemma NewKeyRows(rows: seq<Row>, k: string)
    requires k != "" && k !in KeysInOrder(rows)
    ensures RowsWithKey(rows, k) == []
  {
    KeysFacts(rows);
  }

  /** Every group is non-empty and holds only rows of its key; keys are
      non-empty, distinct and exactly the keys some row carries. */
  lemma GroupingShape(rows: seq<Row>)
    ensures forall i | 0 <= i < |Grouping(rows)| ::
      Grouping(rows)[i].key != "" && |Grouping(rows)[i].rows| > 0 &&
      forall r | r in Grouping(rows)[i].rows :: r.wellKey == Grouping(rows)[i].key && r in rows
    ensures forall i, j | 0 <= i < j < |Grouping(rows)| :: Grouping(rows)[i].key != Grouping(rows)[j].key
    ensures forall k :: k in GroupKeys(Grouping(rows)) <==> k != "" && Occurs(rows, k)
  {
    KeysFacts(rows);
    var gs := Grouping(rows);
    assert GroupKeys(gs) == KeysInOrder(rows);
  }

  /** Keys are listed in order of first appearance: every row carrying a
      later key comes after some row carrying each earlier key. */
  lemma {:induction false} KeysFirstEncounter(rows: seq<Row>, i: nat, j: nat, p: nat)
    requires i < j < |KeysInOrder(rows)|
    requires p < |rows| && rows[p].wellKey == KeysInOrder(rows)[j]
    ensures exists q :: 0 <= q < p && rows[q].wellKey == KeysInOrder(rows)[i]
    decreases |rows|
  {
    var init := rows[..|rows| - 1];
    var ks := KeysInOrder(init);
    KeysFacts(init);
    KeysFacts(rows);
    if j < |ks| {
      if p < |init| {
        assert init[p] == rows[p];
        KeysFirstEncounter(init, i, j, p);
        var q :| 0 <= q < p && init[q].wellKey == ks[i];
        assert rows[q] == init[q];
      } else {
        assert Occurs(init, ks[j]);
        var p' :| 0 <= p' < |init| && init[p'].wellKey == ks[j];
        KeysFirstEncounter(init, i, j, p');
        var q :| 0 <= q < p' && init[q].wellKey == ks[i];
        assert rows[q] == init[q];
      }
    } else {
      // the last row introduced key j, so no earlier row carries it
      assert KeysInOrder(rows)[j] !in ks;
      assert Occurs(init, ks[i]);
      var q :| 0 <= q < |init| && init[q].wellKey == ks[i];
      assert rows[q] == init[q];
    }
  }

  /** Rows grouped in all. */
  function Total(gs: seq<Group>): nat {
    if |gs| == 0 then 0 else Total(gs[..|gs| - 1]) + |gs[|gs| - 1].rows|
  }

  /** Rows whose well key is non-empty. */
  function CountKeyed(rows: seq<Row>): nat {
    if |rows| == 0 then 0
    else CountKeyed(rows[..|rows| - 1]) + (if rows[|rows| - 1].wellKey != "" then 1 else 0)
  }

  lemma {:induction false} TotalUpdate(gs: seq<Group>, j: nat, g: Group)
    requires j < |gs|
    ensures Total(gs[j := g]) + |gs[j].rows| == Total(gs) + |g.rows|
    decreases |gs|
  {
    var gs' := gs[j := g];
    if j < |gs| - 1 {
      assert gs'[..|gs'| - 1] == gs[..|gs| - 1][j := g];
      TotalUpdate(gs[..|gs| - 1], j, g);
    } else {
      assert gs'[..|gs'| - 1] == gs[..|gs| - 1];
    }
  }

  /** One loop step adds one row to the total exactly when the row has a
      key. */
  lemma TotalInsert(gs: seq<Group>, row: Row)
    ensures Total(Insert(gs, row)) == Total(gs) + (if row.wellKey != "" then 1 else 0)
  {
    if row.wellKey != "" {
      match FindGroup(gs, row.wellKey)
      case Some(j) =>
        TotalUpdate(gs, j, Group(row.wellKey, gs[j].rows + [row]));
      case None =>
        var gs' := gs + [Group(row.wellKey, [row])];
        assert gs'[..|gs'| - 1] == gs;
    }
  }

  /** No row is lost or duplicated: the groups hold, in all, exactly the
      rows whose key is non-empty. */
  lemma {:induction false} GroupingTotal(rows: seq<Row>)
    ensures Total(Grouping(rows)) == CountKeyed(rows)
    decreases |rows|
  {
    if |rows| > 0 {
      var init := rows[..|rows| - 1];
      var row := rows[|rows| - 1];
      assert rows == init + [row];
      GroupingTotal(init);
      GroupingSnoc(init, row);
      TotalInsert(Grouping(init), row);
    }
  }
}
