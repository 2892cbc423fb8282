/**
 * sortablesInit and makeSortable: find the tables that opt in, and turn each
 * header cell into a link that sorts by its column.
 */
module Sortables {
  import opened TableModel
  import opened Numbers
  import opened Markup
  import opened Keys

  /** A table element as sortablesInit sees it: className, id and rows. */
  datatype TableElement = TableElement(className: string, id: string, rows: seq<Row>)

  /** p occurs in s at index k. */
  predicate OccursAt(s: string, p: string, k: int) {
    0 <= k && k + |p| <= |s| && s[k..k + |p|] == p
  }

  /** p occurs in s: s.indexOf(p) != -1. */
  predicate Contains(s: string, p: string) {
    exists k :: 0 <= k <= |s| && OccursAt(s, p, k)
  }

  /** The test of sortablesInit: ' ' + className + ' ' contains "sortable", and the id is not empty. */
  predicate Qualifies(t: TableElement) {
    Contains(" " + t.className + " ", "sortable") && t.id != ""
  }

  /**
   * The spaces around className change nothing: a table qualifies exactly
   * when its className contains "sortable" anywhere and its id is not empty.
   */
  lemma QualifiesBySubstring(t: TableElement)
    ensures Qualifies(t) <==> Contains(t.className, "sortable") && t.id != ""
  {
    var c, p := t.className, "sortable";
    var padded := " " + c + " ";
    if Contains(padded, p) {
      var k :| 0 <= k <= |padded| && OccursAt(padded, p, k);
      assert padded[k] == padded[k..k + |p|][0] == 's';
      assert padded[0] == ' ';
      assert padded[k + 7] == padded[k..k + |p|][7] == 'e';
      assert padded[|c| + 1] == ' ';
      assert c[k - 1..k - 1 + |p|] == padded[k..k + |p|];
      assert OccursAt(c, p, k - 1);
    }
    if Contains(c, p) {
      var k :| 0 <= k <= |c| && OccursAt(c, p, k);
      assert padded[k + 1..k + 1 + |p|] == c[k..k + |p|];
      assert OccursAt(padded, p, k + 1);
    }
  }

  /** It is a substring test, not a class-name test: class "unsortable" opts in too. */
  lemma UnsortableQualifies()
    ensures Qualifies(TableElement("unsortable", "t", []))
  {
    var padded := " " + "unsortable" + " ";
    assert padded[3..11] == "sortable";
    assert OccursAt(padded, "sortable", 3);
  }

  // The pieces of the header link, each tag written as '<', its body, '>'.
  const LinkFront := "a href=\"#\" " + "class=\"sortheader\" " + "onclick=\""
  const SortCall := "sortTable(this,"
  const LinkBack := "; return false;\""
  const ArrowAttrs := "span " + "class=\"sortarrow\""
  const Space := "&nbsp;"
  const ArrowPlaceholder := Space + Space + Space
  const EndLink := "<" + "/a" + ">"
  const EndArrow := "<" + "/span" + ">" + EndLink
  const LinkClose := "<" + ArrowAttrs + ">" + (ArrowPlaceholder + EndArrow)

  /** The handler call of header cell i: sortTable(this,i). */
  function SortCallOf(i: nat): string {
    SortCall + DecimalString(i) + ")"
  }

  /** The attributes of the link's opening tag. */
  function LinkAttrs(i: nat): string {
    LinkFront + SortCallOf(i) + LinkBack
  }

  /** The innerHTML makeSortable gives header cell i with text txt. */
  function HeaderLink(i: nat, txt: string): string {
    "<" + LinkAttrs(i) + ">" + txt + LinkClose
  }

  /**
   * The rows after makeSortable: no rows stay no rows; otherwise header cell
   * i keeps its spans and gets HeaderLink(i, its inner text), and every
   * other row is untouched.
   */
  predicate HeaderLinked(rows: seq<Row>, r: seq<Row>) {
    if rows == [] then r == []
    else
      |r| == |rows| && r[1..] == rows[1..] && |r[0]| == |rows[0]| &&
      forall i :: 0 <= i < |rows[0]| ==>
        r[0][i] == Cell(rows[0][i].rowspan, rows[0][i].colspan, HeaderLink(i, InnerText(rows[0][i])))
  }

  /** makeSortable */
  method MakeSortable(rows: seq<Row>) returns (r: seq<Row>)
    ensures HeaderLinked(rows, r)
  {
    if |rows| == 0 {
      return rows;
    }
    var header := rows[0];
    for i := 0 to |header|
      invariant |header| == |rows[0]|
      invariant forall k :: 0 <= k < i ==>
        header[k] == Cell(rows[0][k].rowspan, rows[0][k].colspan, HeaderLink(k, InnerText(rows[0][k])))
      invariant forall k :: i <= k < |header| ==> header[k] == rows[0][k]
    {
      var td := header[i];
      var txt := InnerText(td);
      header := header[i := td.(html := HeaderLink(i, txt))];
    }
    r := [header] + rows[1..];
  }

  /** sortablesInit over the document's tables. */
  method SortablesInit(tables: seq<TableElement>) returns (r: seq<TableElement>)
    ensures |r| == |tables|
    ensures forall k :: 0 <= k < |tables| ==>
      r[k].className == tables[k].className && r[k].id == tables[k].id
    ensures forall k :: 0 <= k < |tables| ==>
      if Qualifies(tables[k]) then HeaderLinked(tables[k].rows, r[k].rows) else r[k] == tables[k]
  {
    r := tables;
    for i := 0 to |tables|
      invariant |r| == |tables|
      invariant forall k :: 0 <= k < i ==>
        r[k].className == tables[k].className && r[k].id == tables[k].id &&
        if Qualifies(tables[k]) then HeaderLinked(tables[k].rows, r[k].rows) else r[k] == tables[k]
      invariant forall k :: i <= k < |tables| ==> r[k] == tables[k]
    {
      if Qualifies(r[i]) {
        var rows := MakeSortable(r[i].rows);
        r := r[i := r[i].(rows := rows)];
      }
    }
  }

  lemma ContainsMiddle(a: string, p: string, b: string)
    ensures Contains(a + p + b, p)
  {
    assert (a + p + b)[|a|..|a| + |p|] == p;
    assert OccursAt(a + p + b, p, |a|);
  }

  lemma ContainsExtended(x: string, p: string, a: string, b: string)
    requires Contains(x, p)
    ensures Contains(a + x + b, p)
  {
    var k :| 0 <= k <= |x| && OccursAt(x, p, k);
    assert (a + x + b)[|a| + k..|a| + k + |p|] == x[k..k + |p|];
    assert OccursAt(a + x + b, p, |a| + k);
  }

  lemma ContainsAppended(x: string, p: string, b: string)
    requires Contains(x, p)
    ensures Contains(x + b, p)
  {
    var k :| 0 <= k <= |x| && OccursAt(x, p, k);
    assert (x + b)[k..k + |p|] == x[k..k + |p|];
    assert OccursAt(x + b, p, k);
  }

  /**
   * Header cell i links to sortTable(this,i): the call's argument is the
   * numeral of i, which reads back as i, and the cell's text is inside the link.
   */
  lemma HeaderLinkCallsSortTable(i: nat, txt: string)
    ensures Contains(HeaderLink(i, txt), SortCall + DecimalString(i) + ")")
    ensures DecimalValue(DecimalString(i)) == i
    ensures Contains(HeaderLink(i, txt), txt)
  {
    var open := "<" + LinkAttrs(i) + ">";
    ContainsMiddle(LinkFront, SortCallOf(i), LinkBack);
    ContainsExtended(LinkAttrs(i), SortCallOf(i), "<", ">");
    ContainsAppended(open, SortCallOf(i), txt);
    ContainsAppended(open + txt, SortCallOf(i), LinkClose);
    DecimalValueOfString(i);
    ContainsMiddle(open, txt, LinkClose);
  }

  /**
   * A header cell whose text holds no '<' reads, once linked, as its old
   * text followed by the arrow placeholder: the link's tags are all that
   * innerText removes.
   */
  lemma HeaderLinkText(i: nat, txt: string)
    requires '<' !in txt
    ensures StripTags(HeaderLink(i, txt)) == txt + ArrowPlaceholder
  {
    var attrs := LinkAttrs(i);
    AttrsHaveNoGt(i);
    assert HeaderLink(i, txt) == "<" + attrs + ">" + (txt + LinkClose);
    SkipTag(attrs, txt + LinkClose);
    KeepPlainPrefix(txt, LinkClose);
    ArrowText();
  }

  lemma AttrsHaveNoGt(i: nat)
    ensures '>' !in LinkAttrs(i)
  {
    var d := DecimalString(i);
    assert '>' !in d;
    assert '>' !in "a href=\"#\" ";
    assert '>' !in "class=\"sortheader\" ";
    assert '>' !in "onclick=\"";
    assert '>' !in SortCall;
    assert '>' !in LinkBack;
  }

  /** The arrow span and the closing tags leave only the placeholder. */
  lemma ArrowText()
    ensures StripTags(LinkClose) == ArrowPlaceholder
  {
    assert '>' !in "span " && '>' !in "class=\"sortarrow\"";
    SkipTag(ArrowAttrs, ArrowPlaceholder + EndArrow);
    assert '<' !in Space;
    KeepPlainPrefix(ArrowPlaceholder, EndArrow);
    SkipTag("/span", EndLink);
    assert EndLink == "<" + "/a" + ">" + [];
    SkipTag("/a", []);
  }

}
