/**
 * Sort keys: getRowValue and innerText, which derive a row's key for a
 * column, and cmpRows, which compares two keys.
 */
module Keys {
  import opened TableModel
  import opened Numbers
  import opened Markup
  import opened Layout

  /** The value getRowValue yields: null for a missing cell, a number for all-digit text, else the text itself. */
  datatype Key = Null | Num(n: nat) | Str(s: string)

  /** innerText(td): the cell's inner HTML with its tags removed. */
  function InnerText(c: Cell): string {
    StripTags(c.html)
  }

  /** The key of a cell's text: /[^0-9]/ finds a match, so the text; or none, so Number(text). */
  function TextKey(text: string): Key {
    if AllDigits(text) then Num(DecimalValue(text)) else Str(text)
  }

  /** getRowValue(row, col) */
  function RowValue(row: Row, col: nat): Result<Key> {
    match ResolveColumn(row, col)
    case At(i) => Ok(TextKey(InnerText(row[i])))
    case Past => Ok(Null)
    case Fault => Crash(ColumnPastRow)
  }

  /** getRowValue, calling the loop of getRowCol. */
  method GetRowValue(row: Row, col: nat) returns (r: Result<Key>)
    ensures r == RowValue(row, col)
  {
    var td := GetRowCol(row, col);
    match td
    case At(i) =>
      r := Ok(TextKey(InnerText(row[i])));
    case Past =>
      r := Ok(Null);
    case Fault =>
      r := Crash(ColumnPastRow);
  }

  /** Text comes out as a string key exactly when some character is not a digit, and then as itself. */
  lemma TextKeyKinds(text: string)
    ensures TextKey(text).Str? <==> exists i :: 0 <= i < |text| && !IsDigit(text[i])
    ensures TextKey(text).Str? ==> TextKey(text).s == text
    ensures TextKey(text) != Null
    ensures TextKey("") == Num(0)
  {
  }

  /** A cell showing the numeral of n has the numeric key n. */
  lemma TextKeyOfNumeral(n: nat)
    ensures TextKey(DecimalString(n)) == Num(n)
  {
    DecimalValueOfString(n);
  }

  /**
   * getRowValue yields null exactly when the column resolves past the last
   * cell, throws exactly when the row covers fewer than col columns, and
   * otherwise yields the key of the resolved cell's text.
   */
  lemma RowValueCases(row: Row, col: nat)
    ensures RowValue(row, col).Crash? <==> SpanBefore(row, |row|) < col
    ensures RowValue(row, col) == Ok(Null) <==> Reaches(row, col, |row|)
    ensures forall i :: 0 <= i < |row| && Reaches(row, col, i) ==> RowValue(row, col) == Ok(TextKey(InnerText(row[i])))
  {
    ResolveColumnFirstReaching(row, col);
  }

  /** JavaScript's s < t on strings: lexicographic order by character code. */
  predicate StrLess(s: string, t: string)
    decreases |s|
  {
    if s == [] then t != []
    else if t == [] then false
    else if s[0] != t[0] then s[0] < t[0]
    else StrLess(s[1..], t[1..])
  }

  /**
   * JavaScript's a < b on two keys. Numbers compare numerically, strings
   * lexicographically, and null counts as 0 against a number. A string key
   * always holds a character that is not a digit and is taken here to convert
   * to NaN, so it is never less or greater than a number or null.
   */
  predicate Less(a: Key, b: Key) {
    match (a, b)
    case (Num(x), Num(y)) => x < y
    case (Str(s), Str(t)) => StrLess(s, t)
    case (Null, Num(y)) => 0 < y
    case (_, _) => false
  }

  /** cmpRows on the keys of two records: i.key > j.key ? 1 : i.key < j.key ? -1 : 0. */
  function Cmp(a: Key, b: Key): (r: int)
    ensures r == -1 || r == 0 || r == 1
  {
    if Less(b, a) then 1 else if Less(a, b) then -1 else 0
  }

  /** Keys of one kind for sorting: two string keys, or two keys neither of which is a string. */
  predicate SameKind(a: Key, b: Key) {
    a.Str? == b.Str?
  }

  lemma {:induction false} StrLessAsymmetric(s: string, t: string)
    ensures !(StrLess(s, t) && StrLess(t, s))
    decreases |s|
  {
    if s != [] && t != [] && s[0] == t[0] {
      StrLessAsymmetric(s[1..], t[1..]);
    }
  }

  lemma {:induction false} StrLessTotal(s: string, t: string)
    ensures s == t || StrLess(s, t) || StrLess(t, s)
    decreases |s|
  {
    if s != [] && t != [] && s[0] == t[0] {
      StrLessTotal(s[1..], t[1..]);
      if s[1..] == t[1..] {
        assert s == [s[0]] + s[1..] && t == [t[0]] + t[1..];
      }
    }
  }

  lemma {:induction false} StrLessTransitive(s: string, t: string, u: string)
    requires StrLess(s, t) && StrLess(t, u)
    ensures StrLess(s, u)
    decreases |s|
  {
    if s != [] && s[0] == t[0] && t[0] == u[0] {
      StrLessTransitive(s[1..], t[1..], u[1..]);
    }
  }

  lemma StrLessIrreflexive(s: string)
    ensures !StrLess(s, s)
  {
    StrLessAsymmetric(s, s);
  }

  /** cmpRows is antisymmetric on all keys. */
  lemma CmpAntisymmetric(a: Key, b: Key)
    ensures Cmp(a, b) == -Cmp(b, a)
  {
    if a.Str? && b.Str? {
      StrLessAsymmetric(a.s, b.s);
    }
  }

  /** cmpRows returns 0 on two keys of the same constructor exactly when they are equal. */
  lemma CmpZeroIffEqual(a: Key, b: Key)
    requires (a.Null? && b.Null?) || (a.Num? && b.Num?) || (a.Str? && b.Str?)
    ensures Cmp(a, b) == 0 <==> a == b
  {
    if a.Str? && b.Str? {
      StrLessTotal(a.s, b.s);
      StrLessIrreflexive(a.s);
    }
  }

  /** Null sorts as the number 0. */
  lemma CmpNullAsZero(k: Key)
    requires !k.Str?
    ensures Cmp(Null, k) == Cmp(Num(0), k)
  {
  }

  /** On keys of one kind "not after" is transitive, which makes cmpRows a total preorder there. */
  lemma CmpTransitive(a: Key, b: Key, c: Key)
    requires SameKind(a, b) && SameKind(b, c)
    requires Cmp(a, b) <= 0 && Cmp(b, c) <= 0
    ensures Cmp(a, c) <= 0
  {
    if a.Str? {
      StrLessTotal(a.s, b.s);
      if StrLess(c.s, a.s) && StrLess(a.s, b.s) {
        StrLessTransitive(c.s, a.s, b.s);
      }
    }
  }

  /** Mixing a string key with a number key breaks the preorder: "a" ties with null and with 1, which do not tie. */
  lemma MixedKindsNotTransitive()
    ensures Cmp(Null, Str("a")) == 0 && Cmp(Str("a"), Num(1)) == 0 && Cmp(Null, Num(1)) == -1
  {
  }
}
