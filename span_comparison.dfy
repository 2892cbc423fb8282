/**
 * getRowSpan as the code is written. getAttribute returns the rowspan as a
 * string, and the assignment max = s makes the running maximum a string as
 * well; from then on s > max compares two strings, character by character,
 * so "9" beats "10". The rest of the model uses Layout.RowSpan, the numeric
 * maximum the loop evidently intends.
 */
module SpanComparison {
  import opened TableModel
  import opened Numbers
  import opened Keys
  import opened Layout

  /** The value held by getRowSpan's max: the number 1 at first, an attribute string once replaced. */
  datatype Running = Number(n: nat) | Text(s: string)

  /** s > max in JavaScript, for an attribute string of digits. */
  predicate Exceeds(s: string, max: Running)
    requires AllDigits(s)
  {
    match max
    case Number(m) => DecimalValue(s) > m
    case Text(t) => StrLess(t, s)
  }

  /** The value of max after the loop over row, as the code is written. */
  function RunningMaxAsWritten(row: Row): (r: Running)
    ensures r.Text? ==> AllDigits(r.s)
    decreases |row|
  {
    if row == [] then Number(1)
    else
      var m := RunningMaxAsWritten(row[..|row| - 1]);
      var c := row[|row| - 1];
      if c.rowspan.Some? && Exceeds(DecimalString(c.rowspan.value), m)
      then Text(DecimalString(c.rowspan.value))
      else m
  }

  /** The number of rows while(s--) then takes: s-- converts the string to a number. */
  function RowSpanAsWritten(row: Row): nat {
    match RunningMaxAsWritten(row)
    case Number(n) => n
    case Text(t) => DecimalValue(t)
  }

  /** Row spans 10 then 9: the code keeps "9", while the largest span is 10. */
  lemma RowSpanAsWrittenMissesMax()
    ensures var row := [Cell(Some(10), None, ""), Cell(Some(9), None, "")];
      RowSpanAsWritten(row) == 9 && RowSpan(row) == 10
  {
    var row := [Cell(Some(10), None, ""), Cell(Some(9), None, "")];
    assert row[..1][..0] == [];
    assert DecimalString(10) == "10";
    assert DecimalString(9) == "9";
    assert RunningMaxAsWritten(row[..1]) == Text("10");
    assert StrLess("10", "9");
    assert row[..|row| - 1] == row[..1];
    assert RunningMaxAsWritten(row) == Text("9");
    assert "9"[..0] == [];
    assert RowSpan(row[..1]) == 10;
  }

  /** Between one-digit numerals the string order is the numeric one. */
  lemma OneDigitOrder(a: nat, b: nat)
    requires a < 10 && b < 10
    ensures StrLess(DecimalString(a), DecimalString(b)) <==> a < b
  {
    assert DecimalString(a)[1..] == [] && DecimalString(b)[1..] == [];
  }

  /**
   * While every rowspan has one digit the code's string comparison does no
   * harm: max stays the number 1 until a span above 1, and from then on holds
   * the numeral of the running maximum.
   */
  lemma {:induction false} OneDigitSpansAgree(row: Row)
    requires forall i :: 0 <= i < |row| ==> DeclaredRowSpan(row[i]) < 10
    ensures RunningMaxAsWritten(row) ==
      (if RowSpan(row) == 1 then Number(1) else Text(DecimalString(RowSpan(row))))
    ensures RowSpanAsWritten(row) == RowSpan(row)
    decreases |row|
  {
    if row != [] {
      var init := row[..|row| - 1];
      assert forall i :: 0 <= i < |init| ==> init[i] == row[i];
      OneDigitSpansAgree(init);
      RowSpanIsMax(init);
      var c := row[|row| - 1];
      if c.rowspan.Some? {
        DecimalValueOfString(c.rowspan.value);
        if RowSpan(init) != 1 {
          OneDigitOrder(RowSpan(init), c.rowspan.value);
        }
      }
    }
    if RowSpan(row) != 1 {
      DecimalValueOfString(RowSpan(row));
    }
  }
}
