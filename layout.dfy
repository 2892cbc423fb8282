/**
 * Row spans and column positions: getRowSpan and getRowCol of static.js.
 */
module Layout {
  import opened TableModel

  /** The rowspan a cell declares, 0 when it has none. */
  function DeclaredRowSpan(c: Cell): nat {
    if c.rowspan.Some? then c.rowspan.value else 0
  }

  /**
   * The number of physical rows a row's record covers: the running maximum
   * getRowSpan keeps, which starts at 1 and is replaced by a cell's rowspan
   * whenever that is larger.
   */
  function RowSpan(row: Row): (s: nat)
    ensures s >= 1
    decreases |row|
  {
    if row == [] then 1
    else
      var m := RowSpan(row[..|row| - 1]);
      var d := DeclaredRowSpan(row[|row| - 1]);
      if d > m then d else m
  }

  /** RowSpan is the maximum of 1 and every declared rowspan. */
  lemma {:induction false} RowSpanIsMax(row: Row)
    ensures forall i :: 0 <= i < |row| ==> DeclaredRowSpan(row[i]) <= RowSpan(row)
    ensures RowSpan(row) == 1 || exists i :: 0 <= i < |row| && DeclaredRowSpan(row[i]) == RowSpan(row)
    decreases |row|
  {
    if row != [] {
      var init := row[..|row| - 1];
      RowSpanIsMax(init);
      assert forall i :: 0 <= i < |init| ==> init[i] == row[i];
    }
  }

  /** A row is a record of its own exactly when none of its cells declares a rowspan above 1. */
  lemma RowSpanOne(row: Row)
    ensures RowSpan(row) == 1 <==> forall i :: 0 <= i < |row| ==> DeclaredRowSpan(row[i]) <= 1
  {
    RowSpanIsMax(row);
  }

  /** getRowSpan: the loop over the cells with its running maximum. */
  method GetRowSpan(row: Row) returns (max: nat)
    ensures max == RowSpan(row)
  {
    max := 1;
    for i := 0 to |row|
      invariant max == RowSpan(row[..i])
    {
      assert row[..i + 1][..i] == row[..i];
      var s := row[i].rowspan;
      if s.Some? && s.value > max {
        max := s.value;
      }
    }
    assert row[..|row|] == row;
  }

  /** The number of logical columns getRowCol charges for a cell: its colspan when above 1, else 1. */
  function ColSpan(c: Cell): (n: nat)
    ensures n >= 1
  {
    if c.colspan.Some? && c.colspan.value > 1 then c.colspan.value else 1
  }

  /** The logical columns covered by the cells before index i. */
  function SpanBefore(row: Row, i: nat): nat
    requires i <= |row|
  {
    if i == 0 then 0 else SpanBefore(row, i - 1) + ColSpan(row[i - 1])
  }

  /**
   * What getRowCol returns: the cell at an index, undefined (the index is one
   * past the last cell), or a TypeError (it read the colspan of a cell past
   * the end).
   */
  datatype Lookup = At(index: nat) | Past | Fault

  /** The loop of getRowCol from cell i with col still to go. */
  function Walk(row: Row, i: nat, col: int): (r: Lookup)
    requires i <= |row|
    ensures r.At? ==> i <= r.index < |row|
    decreases |row| - i
  {
    if col <= 0 then (if i < |row| then At(i) else Past)
    else if i == |row| then Fault
    else Walk(row, i + 1, col - ColSpan(row[i]))
  }

  function ResolveColumn(row: Row, col: nat): (r: Lookup)
    ensures r.At? ==> r.index < |row|
  {
    Walk(row, 0, col)
  }

  /** i is the first index at which the cells before it cover at least col logical columns. */
  predicate Reaches(row: Row, col: nat, i: nat) {
    i <= |row| && col <= SpanBefore(row, i) && forall j :: 0 <= j < i ==> SpanBefore(row, j) < col
  }

  lemma {:induction false} SpanBeforeGrows(row: Row, j: nat, k: nat)
    requires j <= k <= |row|
    ensures SpanBefore(row, j) + (k - j) <= SpanBefore(row, k)
    decreases k - j
  {
    if j < k {
      SpanBeforeGrows(row, j, k - 1);
    }
  }

  lemma {:induction false} WalkFrom(row: Row, i: nat, col: nat)
    requires i <= |row|
    requires forall j :: 0 <= j < i ==> SpanBefore(row, j) < col
    ensures Walk(row, i, col - SpanBefore(row, i)) == Fault <==> SpanBefore(row, |row|) < col
    ensures Walk(row, i, col - SpanBefore(row, i)).At? ==> Reaches(row, col, Walk(row, i, col - SpanBefore(row, i)).index)
    ensures Walk(row, i, col - SpanBefore(row, i)) == Past ==> Reaches(row, col, |row|)
    decreases |row| - i
  {
    var c := col - SpanBefore(row, i);
    if c <= 0 {
      SpanBeforeGrows(row, i, |row|);
    } else if i < |row| {
      assert c - ColSpan(row[i]) == col - SpanBefore(row, i + 1);
      WalkFrom(row, i + 1, col);
    }
  }

  lemma ReachesUnique(row: Row, col: nat, i: nat, j: nat)
    requires Reaches(row, col, i) && Reaches(row, col, j)
    ensures i == j
  {
  }

  /**
   * getRowCol(row, col) returns the cell at the first index i whose preceding
   * cells cover at least col logical columns; undefined when that index is the
   * end of the row; and throws when the whole row covers fewer than col columns.
   */
  lemma ResolveColumnFirstReaching(row: Row, col: nat)
    ensures ResolveColumn(row, col) == Fault <==> SpanBefore(row, |row|) < col
    ensures forall i :: 0 <= i < |row| ==> (ResolveColumn(row, col) == At(i) <==> Reaches(row, col, i))
    ensures ResolveColumn(row, col) == Past <==> Reaches(row, col, |row|)
  {
    WalkFrom(row, 0, col);
    var r := ResolveColumn(row, col);
    forall i | 0 <= i < |row| && Reaches(row, col, i)
      ensures r == At(i)
    {
      SpanBeforeGrows(row, i, |row|);
      if r.At? {
        ReachesUnique(row, col, i, r.index);
      }
    }
  }

  /** getRowCol: count col down by each cell's span while advancing i. */
  method GetRowCol(row: Row, col: nat) returns (r: Lookup)
    ensures r == ResolveColumn(row, col)
  {
    var i := 0;
    var c: int := col;
    while c > 0
      invariant 0 <= i <= |row|
      invariant Walk(row, i, c) == ResolveColumn(row, col)
      decreases |row| - i
    {
      if i == |row| {
        // row.cells[i] is undefined: reading its colspan throws
        return Fault;
      }
      var s := row[i].colspan;
      i := i + 1;
      if s.Some? && s.value > 1 {
        c := c - s.value;
      } else {
        c := c - 1;
      }
    }
    r := if i < |row| then At(i) else Past;
  }
}
