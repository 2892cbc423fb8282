/**
 * The grouping loop of sortTable: the data rows are cut into records, each
 * a run of consecutive rows that a rowspan holds together, keyed by the
 * value of the sort column in the record's first row.
 */
module Grouping {
  import opened TableModel
  import opened Layout
  import opened Keys

  /** One entry of sortTable's rows array: the record's physical rows and its row.key. */
  datatype Group = Group(rows: seq<Row>, key: Key)

  /**
   * The runs the loop cuts data into: each starts at the next row not yet
   * taken and takes RowSpan of that row many rows. A last run whose span
   * reaches past the end takes the rows that remain (the source pushes
   * undefined for the rest; see SpansFit).
   */
  function Partition(data: seq<Row>): (parts: seq<seq<Row>>)
    ensures forall k :: 0 <= k < |parts| ==> parts[k] != []
    decreases |data|
  {
    if data == [] then []
    else
      var s := RowSpan(data[0]);
      if s <= |data| then [data[..s]] + Partition(data[s..]) else [data]
  }

  /** Every run the loop takes fits inside the table. */
  predicate SpansFit(data: seq<Row>)
    decreases |data|
  {
    data == [] || (RowSpan(data[0]) <= |data| && SpansFit(data[RowSpan(data[0])..]))
  }

  function Flatten(parts: seq<seq<Row>>): seq<Row>
    decreases |parts|
  {
    if parts == [] then [] else parts[0] + Flatten(parts[1..])
  }

  /** The runs, put back together, are the data rows in their original order. */
  lemma {:induction false} PartitionFlatten(data: seq<Row>)
    ensures Flatten(Partition(data)) == data
    decreases |data|
  {
    if data != [] {
      var s := RowSpan(data[0]);
      if s <= |data| {
        var parts := Partition(data);
        assert parts[1..] == Partition(data[s..]);
        PartitionFlatten(data[s..]);
        assert data == data[..s] + data[s..];
      } else {
        assert Flatten([data]) == data + Flatten([]);
      }
    }
  }

  /** Each run starts with the row whose RowSpan decides its length. */
  lemma {:induction false} PartitionLengths(data: seq<Row>)
    ensures forall k :: 0 <= k < |Partition(data)| ==>
      |Partition(data)[k]| == RowSpan(Partition(data)[k][0]) ||
      (k == |Partition(data)| - 1 && |Partition(data)[k]| < RowSpan(Partition(data)[k][0]))
    decreases |data|
  {
    if data != [] {
      var s := RowSpan(data[0]);
      var parts := Partition(data);
      if s <= |data| {
        PartitionLengths(data[s..]);
        var rest := Partition(data[s..]);
        assert parts == [data[..s]] + rest;
        forall k | 1 <= k < |parts|
          ensures |parts[k]| == RowSpan(parts[k][0]) || (k == |parts| - 1 && |parts[k]| < RowSpan(parts[k][0]))
        {
          assert parts[k] == rest[k - 1];
        }
      }
    }
  }

  /** Every run is non-empty and as long as its first row's RowSpan. */
  ghost predicate RunsFit(parts: seq<seq<Row>>) {
    forall k :: 0 <= k < |parts| ==> parts[k] != [] && |parts[k]| == RowSpan(parts[k][0])
  }

  lemma RunsFitCons(first: seq<Row>, rest: seq<seq<Row>>)
    requires first != []
    ensures RunsFit([first] + rest) <==> |first| == RowSpan(first[0]) && RunsFit(rest)
  {
    var parts := [first] + rest;
    assert parts[0] == first;
    assert forall k :: 0 <= k < |rest| ==> rest[k] == parts[k + 1];
  }

  /** The spans fit exactly when every run is as long as its first row's RowSpan. */
  lemma {:induction false} SpansFitRuns(data: seq<Row>)
    ensures SpansFit(data) <==> RunsFit(Partition(data))
    decreases |data|
  {
    if data != [] {
      var s := RowSpan(data[0]);
      if s <= |data| {
        SpansFitRuns(data[s..]);
        assert Partition(data) == [data[..s]] + Partition(data[s..]);
        RunsFitCons(data[..s], Partition(data[s..]));
      } else {
        assert Partition(data) == [data];
        RunsFitCons(data, []);
      }
    }
  }

  /**
   * Each run is as long as the RowSpan of its first row, except a last run
   * that the table is too short for; SpansFit says that there is none.
   */
  lemma PartitionSpans(data: seq<Row>)
    ensures forall k :: 0 <= k < |Partition(data)| ==>
      |Partition(data)[k]| == RowSpan(Partition(data)[k][0]) ||
      (k == |Partition(data)| - 1 && |Partition(data)[k]| < RowSpan(Partition(data)[k][0]))
    ensures SpansFit(data) <==>
      forall k :: 0 <= k < |Partition(data)| ==> |Partition(data)[k]| == RowSpan(Partition(data)[k][0])
  {
    PartitionLengths(data);
    SpansFitRuns(data);
  }

  /**
   * The records of the rows array, one per run with the key getRowValue gives
   * for the run's first row, or the TypeError of the first run whose key
   * lookup throws.
   */
  function KeyGroups(parts: seq<seq<Row>>, col: nat): (r: Result<seq<Group>>)
    requires forall k :: 0 <= k < |parts| ==> parts[k] != []
    ensures r.Ok? ==> |r.value| == |parts|
    decreases |parts|
  {
    if parts == [] then Ok([])
    else
      match KeyGroups(parts[..|parts| - 1], col)
      case Crash(e) => Crash(e)
      case Ok(init) =>
        match RowValue(parts[|parts| - 1][0], col)
        case Crash(e) => Crash(e)
        case Ok(key) => Ok(init + [Group(parts[|parts| - 1], key)])
  }

  /** Keying succeeds exactly when no first row throws, and then pairs each run with its first row's key. */
  lemma {:induction false} KeyGroupsSpec(parts: seq<seq<Row>>, col: nat)
    requires forall k :: 0 <= k < |parts| ==> parts[k] != []
    ensures KeyGroups(parts, col).Ok? <==> forall k :: 0 <= k < |parts| ==> RowValue(parts[k][0], col).Ok?
    ensures KeyGroups(parts, col).Crash? ==> KeyGroups(parts, col).error == ColumnPastRow
    ensures KeyGroups(parts, col).Ok? ==>
      forall k :: 0 <= k < |parts| ==>
        KeyGroups(parts, col).value[k] == Group(parts[k], RowValue(parts[k][0], col).value)
    decreases |parts|
  {
    if parts != [] {
      var init := parts[..|parts| - 1];
      KeyGroupsSpec(init, col);
      assert forall k :: 0 <= k < |init| ==> init[k] == parts[k];
    }
  }

  /** The rows of the records, in record order. */
  function Concat(gs: seq<Group>): seq<Row>
    decreases |gs|
  {
    if gs == [] then [] else Concat(gs[..|gs| - 1]) + gs[|gs| - 1].rows
  }

  lemma {:induction false} FlattenSnoc(parts: seq<seq<Row>>, x: seq<Row>)
    ensures Flatten(parts + [x]) == Flatten(parts) + x
    decreases |parts|
  {
    if parts == [] {
      assert Flatten([x]) == x + Flatten([]);
    } else {
      assert (parts + [x])[1..] == parts[1..] + [x];
      FlattenSnoc(parts[1..], x);
    }
  }

  lemma {:induction false} ConcatIsFlatten(gs: seq<Group>, parts: seq<seq<Row>>)
    requires |gs| == |parts| && forall k :: 0 <= k < |gs| ==> gs[k].rows == parts[k]
    ensures Concat(gs) == Flatten(parts)
    decreases |gs|
  {
    if gs != [] {
      var n := |gs| - 1;
      ConcatIsFlatten(gs[..n], parts[..n]);
      assert parts == parts[..n] + [parts[n]];
      FlattenSnoc(parts[..n], parts[n]);
    }
  }

  /** The records cover the data rows, in order and without overlap. */
  lemma ConcatKeyGroups(data: seq<Row>, col: nat)
    requires KeyGroups(Partition(data), col).Ok?
    ensures Concat(KeyGroups(Partition(data), col).value) == data
  {
    var parts := Partition(data);
    KeyGroupsSpec(parts, col);
    ConcatIsFlatten(KeyGroups(parts, col).value, parts);
    PartitionFlatten(data);
  }
}
