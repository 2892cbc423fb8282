/**
 * sortTable(lnk, col): cut the data rows into records, sort the records by
 * the key of column col, and append their rows back in the new order.
 */
module TableSorter {
  import opened TableModel
  import opened Layout
  import opened Keys
  import opened Grouping
  import opened StableSort

  /**
   * The rows of the table after sortTable(lnk, col), or the TypeError it
   * stops with: a record's first row covers fewer than col columns (thrown
   * while grouping), or the last record's rowspan runs past the last row
   * (thrown when the missing row is appended).
   */
  function SortedRows(rows: seq<Row>, col: nat): Result<seq<Row>> {
    if rows == [] then Ok([])
    else
      var data := rows[1..];
      match KeyGroups(Partition(data), col)
      case Crash(e) => Crash(e)
      case Ok(gs) =>
        if SpansFit(data) then Ok([rows[0]] + Concat(SortGroups(gs))) else Crash(RowSpanPastTable)
  }

  /** sortTable, with the DOM rows as a sequence: grouping loop, sort, re-append loop. */
  method SortTable(rows: seq<Row>, col: nat) returns (r: Result<seq<Row>>)
    ensures r == SortedRows(rows, col)
  {
    if |rows| == 0 {
      // table.rows.length is 0: neither loop runs
      return Ok(rows);
    }
    var groups, overrun := GroupRows(rows, col);
    if groups.Crash? {
      return Crash(groups.error);
    }
    if overrun {
      // appendChild(undefined) throws
      return Crash(RowSpanPastTable);
    }
    var a := new Group[|groups.value|](k requires 0 <= k < |groups.value| => groups.value[k]);
    assert a[..] == groups.value;
    SortInPlace(a);
    var out := AppendRecords(rows[0], a);
    r := Ok(out);
  }

  /**
   * The grouping loop of sortTable: the records with their keys, or the
   * TypeError of the first key lookup that throws; overrun tells whether the
   * last record's rowspan ran past the last row.
   */
  method GroupRows(rows: seq<Row>, col: nat) returns (r: Result<seq<Group>>, overrun: bool)
    requires rows != []
    ensures r == KeyGroups(Partition(rows[1..]), col)
    ensures r.Ok? ==> (overrun <==> !SpansFit(rows[1..]))
  {
    ghost var data := rows[1..];
    ghost var parts := Partition(data);
    var groups: seq<Group> := [];
    var i := 1;
    overrun := false;
    while i < |rows|
      invariant 1 <= i && |groups| <= |parts|
      invariant KeyGroups(parts[..|groups|], col) == Ok(groups)
      invariant !overrun ==>
        i <= |rows| && parts[|groups|..] == Partition(rows[i..]) && (SpansFit(data) <==> SpansFit(rows[i..]))
      invariant overrun ==> |groups| == |parts| && !SpansFit(data) && i > |rows|
      decreases |rows| - i
    {
      ghost var start := i;
      var row;
      row, i, overrun := TakeRecord(rows, i);
      ghost var n := |groups|;
      NextPart(rows, start, i, row, parts, n);
      var key := GetRowValue(row[0], col);
      if key.Crash? {
        KeyCrash(parts, n, col);
        return Crash(key.error), overrun;
      }
      KeyGroupsStep(parts, n, col, groups);
      groups := groups + [Group(row, key.value)];
    }
    assert parts[..|groups|] == parts;
    r := Ok(groups);
  }

  /** A record whose first row is too short for the column makes the whole keying throw. */
  lemma KeyCrash(parts: seq<seq<Row>>, n: nat, col: nat)
    requires forall k :: 0 <= k < |parts| ==> parts[k] != []
    requires n < |parts| && RowValue(parts[n][0], col).Crash?
    ensures KeyGroups(parts, col) == Crash(RowValue(parts[n][0], col).error)
  {
    KeyGroupsSpec(parts, col);
  }

  /**
   * One pass of the inner loop `while(s--) row.push(table.rows[i++])` with
   * s the RowSpan of row i: the rows taken, the next index, and whether the
   * loop reached past the last row (where it pushes undefined).
   */
  method TakeRecord(rows: seq<Row>, i: nat) returns (row: seq<Row>, next: nat, overrun: bool)
    requires 1 <= i < |rows|
    ensures next == i + RowSpan(rows[i])
    ensures overrun <==> next > |rows|
    ensures !overrun ==> row == rows[i..next]
    ensures overrun ==> row == rows[i..]
  {
    var s := GetRowSpan(rows[i]);
    row := [];
    next := i;
    overrun := false;
    while s > 0
      invariant i <= next && next - i + s == RowSpan(rows[i])
      invariant next <= |rows| ==> row == rows[i..next] && !overrun
      invariant next > |rows| ==> row == rows[i..] && overrun
    {
      if next < |rows| {
        row := row + [rows[next]];
      } else {
        overrun := true;
      }
      next := next + 1;
      s := s - 1;
    }
  }

  /** The record TakeRecord returns is the next run of the partition. */
  lemma NextPart(rows: seq<Row>, start: nat, i: nat, row: seq<Row>, parts: seq<seq<Row>>, n: nat)
    requires 1 <= start < |rows| && start + RowSpan(rows[start]) == i
    requires i <= |rows| ==> row == rows[start..i]
    requires i > |rows| ==> row == rows[start..]
    requires n <= |parts| && parts[n..] == Partition(rows[start..])
    ensures n < |parts| && parts[n] == row
    ensures i <= |rows| ==> parts[n + 1..] == Partition(rows[i..])
    ensures i <= |rows| ==> (SpansFit(rows[start..]) <==> SpansFit(rows[i..]))
    ensures i > |rows| ==> n + 1 == |parts| && !SpansFit(rows[start..])
  {
    RecordOfLoop(rows, start, i, row);
    assert parts[n..][0] == parts[n];
    if i <= |rows| {
      assert parts[n + 1..] == parts[n..][1..];
    }
  }

  lemma KeyGroupsStep(parts: seq<seq<Row>>, n: nat, col: nat, groups: seq<Group>)
    requires forall k :: 0 <= k < |parts| ==> parts[k] != []
    requires n < |parts| && KeyGroups(parts[..n], col) == Ok(groups)
    requires RowValue(parts[n][0], col).Ok?
    ensures KeyGroups(parts[..n + 1], col) == Ok(groups + [Group(parts[n], RowValue(parts[n][0], col).value)])
  {
    assert parts[..n + 1][..n] == parts[..n];
    assert parts[..n + 1][n] == parts[n];
  }

  /** The re-append loop: the header, then every row of every record in array order. */
  method AppendRecords(header: Row, a: array<Group>) returns (out: seq<Row>)
    ensures out == [header] + Concat(a[..])
  {
    out := [header];
    for gi := 0 to a.Length
      invariant out == [header] + Concat(a[..gi])
    {
      var g := a[gi];
      assert a[..gi + 1][..gi] == a[..gi];
      for j := 0 to |g.rows|
        invariant out == [header] + Concat(a[..gi]) + g.rows[..j]
      {
        out := out + [g.rows[j]];
      }
      assert g.rows[..|g.rows|] == g.rows;
    }
    assert a[..a.Length] == a[..];
  }

  /** What one pass of the inner loop took: the next record of the partition, or the overrunning last one. */
  lemma RecordOfLoop(rows: seq<Row>, start: nat, i: nat, row: seq<Row>)
    requires 1 <= start < |rows| && start + RowSpan(rows[start]) == i
    requires i <= |rows| ==> row == rows[start..i]
    requires i > |rows| ==> row == rows[start..]
    ensures i <= |rows| ==> Partition(rows[start..]) == [row] + Partition(rows[i..])
    ensures i <= |rows| ==> (SpansFit(rows[start..]) <==> SpansFit(rows[i..]))
    ensures i > |rows| ==> Partition(rows[start..]) == [row] && !SpansFit(rows[start..])
  {
    var d := rows[start..];
    assert d[0] == rows[start];
    if i <= |rows| {
      assert d[..i - start] == row;
      assert d[i - start..] == rows[i..];
    }
  }

  /** With no data rows sortTable leaves the table as it is. */
  lemma NoDataRowsUnchanged(rows: seq<Row>, col: nat)
    requires |rows| <= 1
    ensures SortedRows(rows, col) == Ok(rows)
  {
    if |rows| == 1 {
      assert rows[1..] == [];
      assert Partition([]) == [];
      assert KeyGroups([], col) == Ok([]);
      assert SortGroups([]) == [] && Concat([]) == [];
      assert SortedRows(rows, col) == Ok([rows[0]] + Concat(SortGroups([])));
      assert [rows[0]] + [] == rows;
    }
  }

  /**
   * A sorted table has the same rows as before, each as often, with the
   * header row still first.
   */
  lemma SortTablePermutes(rows: seq<Row>, col: nat)
    requires SortedRows(rows, col).Ok?
    ensures multiset(SortedRows(rows, col).value) == multiset(rows)
    ensures |SortedRows(rows, col).value| == |rows|
    ensures rows != [] ==> SortedRows(rows, col).value[0] == rows[0]
  {
    if rows != [] {
      var data := rows[1..];
      var gs := KeyGroups(Partition(data), col).value;
      var out := Concat(SortGroups(gs));
      assert SortedRows(rows, col).value == [rows[0]] + out;
      ConcatKeyGroups(data, col);
      SortGroupsKeepsRows(gs);
      assert multiset(out) == multiset(data);
      assert rows == [rows[0]] + data;
      assert multiset([rows[0]] + out) == multiset([rows[0]]) + multiset(out);
      assert multiset(rows) == multiset([rows[0]]) + multiset(data);
      assert |[rows[0]] + out| == |multiset([rows[0]] + out)|;
    }
  }

  /**
   * The records of a sorted table: the data rows are cut into consecutive
   * runs, one per rowspan group, each keyed by its first row; the result is
   * the header followed by the rows of a rearrangement of these records,
   * each record's rows together and in their own order. For a column of one
   * kind the record keys never decrease and records with tying keys keep
   * their original order.
   */
  lemma SortTableRecords(rows: seq<Row>, col: nat)
    requires rows != [] && SortedRows(rows, col).Ok?
    ensures
      var data := rows[1..];
      var gs := KeyGroups(Partition(data), col).value;
      var order := SortGroups(gs);
      && Concat(gs) == data
      && (forall k :: 0 <= k < |gs| ==>
            gs[k].rows != [] && |gs[k].rows| == RowSpan(gs[k].rows[0]) &&
            RowValue(gs[k].rows[0], col) == Ok(gs[k].key))
      && SortedRows(rows, col).value == [rows[0]] + Concat(order)
      && multiset(order) == multiset(gs)
      && (OneKind(gs) ==> Sorted(order))
      && (forall k: Key :: KindIs(gs, k.Str?) ==> Class(order, k) == Class(gs, k))
  {
    var data := rows[1..];
    var parts := Partition(data);
    var gs := KeyGroups(parts, col).value;
    ConcatKeyGroups(data, col);
    KeyGroupsSpec(parts, col);
    PartitionSpans(data);
    SortGroupsPermutes(gs);
    if OneKind(gs) {
      SortGroupsSorted(gs);
    }
    forall k: Key | KindIs(gs, k.Str?)
      ensures Class(SortGroups(gs), k) == Class(gs, k)
    {
      SortGroupsStable(gs, k);
    }
  }

  /** When sortTable throws, and with which error. */
  lemma SortTableFaults(rows: seq<Row>, col: nat)
    requires rows != []
    ensures SortedRows(rows, col) == Crash(ColumnPastRow) <==>
      exists k :: 0 <= k < |Partition(rows[1..])| && RowValue(Partition(rows[1..])[k][0], col).Crash?
    ensures SortedRows(rows, col) == Crash(RowSpanPastTable) <==>
      (forall k :: 0 <= k < |Partition(rows[1..])| ==> RowValue(Partition(rows[1..])[k][0], col).Ok?) &&
      !SpansFit(rows[1..])
  {
    var parts := Partition(rows[1..]);
    KeyGroupsSpec(parts, col);
    if KeyGroups(parts, col).Crash? {
      assert SortedRows(rows, col) == Crash(ColumnPastRow);
      var k :| 0 <= k < |parts| && !RowValue(parts[k][0], col).Ok?;
      assert RowValue(parts[k][0], col).Crash?;
      assert 0 <= k < |Partition(rows[1..])| && RowValue(Partition(rows[1..])[k][0], col).Crash?;
    } else {
      assert SortedRows(rows, col) != Crash(ColumnPastRow);
    }
  }
}
