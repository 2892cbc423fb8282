# Sortable tables of static.js

A model of the client-side table sorter in `etc/html/ajax/handler/static.js`.
On page load, `sortablesInit` finds every table whose class attribute contains
`sortable` and which has an id. For each such table, `makeSortable` turns every
header cell into a link. Clicking header `i` calls `sortTable(this, i)`.

`sortTable` then works in three steps:

- It cuts the data rows (row 1 onward of the section that holds the header row) into records. A record is the rows spanned by its first row's largest `rowspan`.
- It keys each record by the value of column `i` in its first row (`getRowCol`, `getRowValue`, `innerText`).
- It sorts the records with `cmpRows` and appends their rows back, in the new order, to that same section.

The model works on values:

- A table, or the table section whose rows `sortTable` reads, is a sequence of rows.
- A row is a sequence of cells.
- A cell has an optional rowspan, an optional colspan and its inner HTML.

The source's loops become methods with loop invariants. These are proved equal to a specification function:

- `getRowSpan`
- `getRowCol`
- the grouping loop of `sortTable`
- the in-place sort, done on an `array` of records
- the append loop

Two are proved against a relation instead:

- `makeSortable`, against `HeaderLinked`, which relates each header cell to its link;
- `sortablesInit`, against the qualification predicate `Qualifies`.

Lemmas then state what the source promises about those functions:

- the record partition and its keys;
- a sorted, stable permutation with the header left in place;
- the tag stripping of `innerText`;
- the comparator's laws;
- the labels and column numbers of the header links.

Two inputs make the code throw a TypeError, and the model returns an error for each:

- a column past the end of a row makes `getRowCol` read `.getAttribute` of `undefined`;
- a rowspan that runs past the last row makes `appendChild(undefined)` fail.

A column past a row's total span makes `getRowCol` throw; nothing falls back to the last cell.

Other behaviour modelled as written:

- `getRowCol` returns the first cell that starts at or after logical column `col`. So a column that falls inside a wider cell resolves to the next cell, and a column just past the last cell resolves to no cell, whose key is `null`.
- The header row is always row 0 of the table, whatever its own rowspan.
- The qualification test is a substring test, so a class `unsortable` qualifies too.
- `Array.prototype.sort` is modelled as a stable insertion sort. `StableSort.SortGroupsUnique` shows that for a column whose keys are all of one kind, this is the only stable sorted order.

## Model

| member | source | states |
|---|---|---|
| Sortables.SortablesInit | etc/html/ajax/handler/static.js:17-27 | every table keeps its class and id; a table that qualifies gets its header linked as makeSortable does, any other table is left unchanged |
| Sortables.QualifiesBySubstring | etc/html/ajax/handler/static.js:23-24 | a table qualifies exactly when its className contains `sortable` anywhere and its id is non-empty; the padding spaces change nothing |
| Sortables.UnsortableQualifies | etc/html/ajax/handler/static.js:23 | the test is on substrings, not class tokens: class `unsortable` qualifies |
| Sortables.MakeSortable | etc/html/ajax/handler/static.js:29-43 | no rows stay no rows; otherwise header cell `i` keeps its spans and gets the link for column `i` around its inner text, the header keeps its cell count, and all other rows are unchanged |
| Sortables.HeaderLinkCallsSortTable | etc/html/ajax/handler/static.js:39-41 | the link of cell `i` contains the call `sortTable(this,` followed by the numeral of `i` and `)`, and that numeral reads back as `i`; the link contains the cell's text |
| Sortables.HeaderLinkText | etc/html/ajax/handler/static.js:38-41 | for header text without `<`, the inner text of the new link is that text followed by the arrow placeholder `&nbsp;&nbsp;&nbsp;` |
| Sortables.ArrowText | etc/html/ajax/handler/static.js:41 | the arrow span and the closing tags strip to the placeholder alone |
| TableSorter.SortTable | etc/html/ajax/handler/static.js:45-71 | the rows after sorting, or the TypeError sortTable throws: the method equals the specification function SortedRows that the lemmas below describe |
| TableSorter.NoDataRowsUnchanged | etc/html/ajax/handler/static.js:56 | a table with no data rows is returned unchanged and never throws |
| TableSorter.SortTablePermutes | etc/html/ajax/handler/static.js:55-68 | a sort that succeeds returns a permutation of the rows, of the same length, with the header row first |
| TableSorter.SortTableRecords | etc/html/ajax/handler/static.js:55-68 | the records are consecutive runs of the data rows, each as long as its first row's rowspan and keyed by that row's value; the result is the header followed by a permutation of the records, each record kept whole and in order; for a one-kind column the keys never decrease and records with tying keys keep their original order |
| TableSorter.SortTableFaults | etc/html/ajax/handler/static.js:59-62 | sortTable throws for the column exactly when some record's first row is too short for it, and throws for the rowspan exactly when every key resolves but the last record runs past the table |
| TableSorter.GroupRows | etc/html/ajax/handler/static.js:55-64 | the grouping loop builds exactly the keyed records of Partition, or stops at the first row too short for the column; it reports an overrun exactly when the rowspans do not fit |
| TableSorter.TakeRecord | etc/html/ajax/handler/static.js:59-61 | the `while(s--)` loop takes the next RowSpan rows and moves the index past them, or takes the rest of the table and reports an overrun |
| TableSorter.RecordOfLoop | etc/html/ajax/handler/static.js:59-61 | one loop step removes exactly the first record from the remaining partition, and a step that runs past the table ends it with an overrun |
| TableSorter.NextPart | etc/html/ajax/handler/static.js:59-63 | the record pushed in the n-th step is the n-th part of the partition |
| TableSorter.KeyGroupsStep | etc/html/ajax/handler/static.js:62-63 | pushing the n-th record with its key extends the keyed records of the first n parts by one |
| TableSorter.KeyCrash | etc/html/ajax/handler/static.js:62 | a record whose first row is too short for the column makes the whole grouping throw the same error |
| TableSorter.AppendRecords | etc/html/ajax/handler/static.js:66-68 | the nested append loop yields the header followed by the rows of the sorted records, in order |
| Grouping.Partition | etc/html/ajax/handler/static.js:55-64 | every record the loop builds is non-empty |
| Grouping.PartitionFlatten | etc/html/ajax/handler/static.js:55-64 | the records, put back together, are the data rows in their original order |
| Grouping.PartitionSpans | etc/html/ajax/handler/static.js:59-61 | each record has the length of its first row's rowspan, except a last record the table is too short for, and there is no such record exactly when the spans fit |
| Grouping.SpansFitRuns | etc/html/ajax/handler/static.js:59-61 | the rowspans fit the table exactly when every record is non-empty and as long as its first row's rowspan |
| Grouping.KeyGroups | etc/html/ajax/handler/static.js:62 | keying, when it succeeds, gives one key per record |
| Grouping.KeyGroupsSpec | etc/html/ajax/handler/static.js:62 | keying succeeds exactly when every record's first row resolves the column; the only error is the column one; the k-th record is paired with its first row's value |
| Grouping.ConcatKeyGroups | etc/html/ajax/handler/static.js:55-64 | the keyed records cover the data rows in order, without gaps or overlap |
| StableSort.SortInPlace | etc/html/ajax/handler/static.js:65 | the in-place sort of the record array leaves it equal to SortGroups of its old contents |
| StableSort.InsertAt | etc/html/ajax/handler/static.js:65 | one insertion step puts element `i` into the sorted prefix and leaves the rest of the array alone |
| StableSort.SortGroupsPermutes | etc/html/ajax/handler/static.js:65 | sorting permutes the records: none is lost or copied |
| StableSort.SortGroupsKeepsRows | etc/html/ajax/handler/static.js:65-68 | the rows of the sorted records are a permutation of the rows of the records |
| StableSort.InsertPermutes | etc/html/ajax/handler/static.js:65 | inserting adds exactly the inserted record to the multiset of records |
| StableSort.InsertKeepsRows | etc/html/ajax/handler/static.js:65 | inserting adds exactly the inserted record's rows to the multiset of rows |
| StableSort.SortGroupsSorted | etc/html/ajax/handler/static.js:65 | for keys all of one kind the sorted records have non-decreasing keys under cmpRows |
| StableSort.InsertSorted | etc/html/ajax/handler/static.js:65 | inserting into sorted records of one kind keeps them sorted |
| StableSort.SortGroupsStable | etc/html/ajax/handler/static.js:65 | records whose keys tie keep their relative order |
| StableSort.InsertClass | etc/html/ajax/handler/static.js:65 | an inserted record goes after every record it ties with |
| StableSort.SortGroupsUnique | etc/html/ajax/handler/static.js:65 | for a one-kind column any sorted permutation that keeps tying records in order is the result of SortGroups, so every stable sort gives the same order |
| Keys.Cmp | etc/html/ajax/handler/static.js:73-76 | cmpRows returns -1, 0 or 1 |
| Keys.CmpAntisymmetric | etc/html/ajax/handler/static.js:75 | swapping the keys negates the result |
| Keys.CmpZeroIffEqual | etc/html/ajax/handler/static.js:75 | for two keys of the same constructor the result is 0 exactly when the keys are equal |
| Keys.CmpNullAsZero | etc/html/ajax/handler/static.js:75 | a null key compares with numbers and null as the number 0 does |
| Keys.CmpTransitive | etc/html/ajax/handler/static.js:75 | among keys of the same kind, counting null with the numbers, "not greater" is transitive |
| Keys.MixedKindsNotTransitive | etc/html/ajax/handler/static.js:75 | with strings and numbers mixed, ties are not transitive: null ties "a", "a" ties 1, but null is below 1 |
| Keys.StrLessTotal | etc/html/ajax/handler/static.js:75 | of two different strings one is below the other |
| Keys.StrLessAsymmetric | etc/html/ajax/handler/static.js:75 | no two strings are each below the other |
| Keys.StrLessTransitive | etc/html/ajax/handler/static.js:75 | the string order is transitive |
| Keys.StrLessIrreflexive | etc/html/ajax/handler/static.js:75 | no string is below itself |
| Keys.GetRowValue | etc/html/ajax/handler/static.js:106-118 | getRowValue equals RowValue: the resolved cell's key, null when there is no cell, the column error when getRowCol throws |
| Keys.RowValueCases | etc/html/ajax/handler/static.js:106-118 | the value is an error exactly when the row spans fewer columns than col, null exactly when col is reached only after the last cell, and otherwise the key of the first cell that reaches col |
| Keys.TextKeyKinds | etc/html/ajax/handler/static.js:114 | the key is the text itself exactly when the text holds a non-digit, otherwise a number; never null; the empty text gives 0 |
| Keys.TextKeyOfNumeral | etc/html/ajax/handler/static.js:114 | the text of a numeral is keyed by the number it writes |
| Layout.GetRowSpan | etc/html/ajax/handler/static.js:78-88 | the loop's running maximum equals RowSpan, taking the spans as numbers (see Findings) |
| Layout.RowSpanIsMax | etc/html/ajax/handler/static.js:78-88 | RowSpan is at least every declared rowspan, and is either 1 or one of them |
| Layout.RowSpanOne | etc/html/ajax/handler/static.js:78-88 | RowSpan is 1 exactly when no cell declares a rowspan above 1 |
| Layout.RowSpan | etc/html/ajax/handler/static.js:80 | RowSpan is at least 1 |
| Layout.ColSpan | etc/html/ajax/handler/static.js:95-99 | a cell moves the walk on by at least one column |
| Layout.GetRowCol | etc/html/ajax/handler/static.js:90-102 | the loop equals ResolveColumn: an index, one past the last cell, or the TypeError |
| Layout.ResolveColumnFirstReaching | etc/html/ajax/handler/static.js:90-102 | getRowCol throws exactly when the row's total span is below col; otherwise it returns the smallest index whose preceding cells span at least col columns, one past the last cell included |
| Markup.StripTagsPlain | etc/html/ajax/handler/static.js:120-124 | text without `<` is returned unchanged |
| Markup.StripTagsLeavesNoTag | etc/html/ajax/handler/static.js:120-124 | the result holds no `<`, then one or more non-`>` characters, then `>` |
| Markup.StripTagsIdempotent | etc/html/ajax/handler/static.js:120-124 | stripping twice is stripping once |
| Markup.StripTagsKeepsOut | etc/html/ajax/handler/static.js:123 | every character of the result comes from the input |
| Markup.StripTags | etc/html/ajax/handler/static.js:123 | the result is no longer than the input |
| Markup.TagLength | etc/html/ajax/handler/static.js:123 | a match of the pattern runs from a `<` to the first `>` after it, holds no other `>`, and is at least three characters long |
| Markup.SkipTag | etc/html/ajax/handler/static.js:123 | a complete tag at the front is removed |
| Markup.KeepPlainPrefix | etc/html/ajax/handler/static.js:123 | text without `<` in front of the rest is kept as it is |
| Numbers.DecimalString | etc/html/ajax/handler/static.js:40 | the column numeral written into the link is non-empty, all digits, and without a leading zero |
| Numbers.DecimalValueOfString | etc/html/ajax/handler/static.js:40 | reading back the numeral of n gives n |
| SpanComparison.RunningMaxAsWritten | etc/html/ajax/handler/static.js:80-86 | getRowSpan's `max` as written: once replaced, it holds an attribute string of digits |
| SpanComparison.RowSpanAsWrittenMissesMax | etc/html/ajax/handler/static.js:84-85 | with rowspans 10 then 9, the code as written keeps 9, while the largest span is 10 |
| SpanComparison.OneDigitOrder | etc/html/ajax/handler/static.js:84 | between one-digit numerals the string order is the numeric one |
| SpanComparison.OneDigitSpansAgree | etc/html/ajax/handler/static.js:78-88 | while every rowspan has one digit, the code as written gives RowSpan |

## Left out

- `addEvent` and `debug` (etc/html/ajax/handler/static.js lines 1-15 and 126-140) are browser event wiring and debug output; the load event is the caller of SortablesInit.
- The rows of TableSorter.SortTable are the rows of the header row's parent node, `tr.parentNode` (lines 47-49). That node is a table section: the `tbody` the HTML parser adds implicitly, or a `thead`. It is not the table element. So `table.rows` (lines 56-61) and `table.appendChild` (line 68) touch only that section. When the header row sits in a `<thead>`, the section has one row and nothing is sorted; this matches SortTable on a one-row sequence (TableSorter.NoDataRowsUnchanged), not on the whole table's rows. Rows in other sections are not modelled.
- `appendChild` moves each row node to the end of the section. Node identity is not modelled; the result is the row order.
- Detaching the section before sorting and re-inserting it afterwards (lines 51-53, 70) is not modelled; `table.afterSibling` is always undefined, so a successful sort puts the section back as the last child of its parent. The model returns the new row sequence.
- The page after a TableSorter.SortedRows `Crash` is not modelled. `body.removeChild(table)` (line 53) has already run when the TypeError is thrown, and `insertBefore` (line 70) is never reached. So the section stays detached and disappears from the page. On a column past a row (line 62), no row has moved yet. On a rowspan overrun (line 68), every row placed ahead of the first missing one in the sorted order has already been appended to the end of the section. The model returns only the `Crash` value.
- The sort direction: `SORT_ASC` (line 4) is declared and never read, so the code always sorts ascending and has no toggle. The model sorts ascending only.
- The guards `!document.getElementsByTagName` (line 19) and `!table.rows` (line 31) are for browsers without these DOM calls; the model assumes they exist.
- Keys.Cmp: a string key against a number or null is taken to compare as NaN, never less and never greater. In JavaScript a string such as " 5", "1.5", "1e3" or "0x1F" converts to a number and does compare with numbers, so for such columns the model is weaker than the browser.
- Keys.StrLess: compares characters as Unicode scalar values; JavaScript compares UTF-16 code units, which differs only for characters outside the Basic Multilingual Plane.
- Keys.TextKey: the number of a string of digits is exact; JavaScript's `Number` rounds numerals above 2^53.
- Layout.RowSpan and Layout.ColSpan: span attributes are modelled as optional naturals; attribute strings that are not plain numerals (negative, fractional, with spaces) are not modelled.
- Markup.StripTags: works on the inner HTML as a string; how the browser serialises `innerHTML` is not modelled.
- StableSort.SortGroupsSorted: sortedness is proved for a column whose keys are all strings or all numbers and nulls. With mixed kinds `cmpRows` is inconsistent (Keys.MixedKindsNotTransitive), ECMAScript leaves the order implementation-defined, and the model fixes it to the insertion-sort order.
- etc/html/ajax/handler/identifiers.js, import.js and status.js are not part of this model: SVG hover animation, an XMLHttpRequest pool and a show/hide toggle, outside the table sorter.

## Findings

| source | as written | input that shows it | evidently intended | confidence | as-written member | corrected member |
|---|---|---|---|---|---|---|
| etc/html/ajax/handler/static.js:84-85 | `max = s` stores the rowspan attribute string, so every later `s > max` compares two strings character by character | a row whose cells have rowspan "10" and then "9": getRowSpan returns "9", and the record takes 9 rows instead of 10 | the largest rowspan as a number | not executed | SpanComparison.RowSpanAsWrittenMissesMax | Layout.RowSpanIsMax |
