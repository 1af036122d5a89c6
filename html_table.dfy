/** `flattenHtmlTable` and `htmlTableToCSV`: an HTML table, possibly with
    tables nested in its cells, becomes a grid of strings and then CSV.

    The DOM is given as data. A table lists its child elements in document
    order: a `tr` directly under the table, a `tbody` with its `tr`
    children, or another element (`thead`, `tfoot`, `caption`, ...), whose
    rows the selector `:scope > tbody > tr, :scope > tr` does not pick. A row
    lists its child nodes: `td` and `th` elements carry their rendered text
    (`innerText`) and the first table among their descendants, if any; any
    other node is ignored. */
module HtmlTable {
  import opened JsText
  import opened Csv
  import opened Wrappers

  datatype Table = Table(sections: seq<Section>)

  datatype Section =
    | DirectRow(row: Row)   // <tr> directly under <table>
    | Body(rows: seq<Row>)  // <tbody> and its <tr> children
    | Skipped               // <thead>, <tfoot>, <caption>, <colgroup>, ...

  datatype Row = Row(children: seq<RowChild>)

  datatype RowChild =
    | Cell(text: string, nested: Option<Table>)  // <td> or <th>
    | OtherNode                                  // text, comments, other elements

  // ---------------------------------------------------------------------
  // The specification: the grid a table flattens to.

  /** The rows of a table, in document order, with rows holding no cell left
      out. */
  function Flatten(t: Table): seq<seq<string>>
    decreases t
  {
    FlattenSections(t.sections)
  }

  function FlattenSections(ss: seq<Section>): seq<seq<string>>
    decreases ss
  {
    if ss == [] then []
    else FlattenSections(ss[..|ss| - 1]) + SectionRows(ss[|ss| - 1])
  }

  function SectionRows(s: Section): seq<seq<string>>
    decreases s
  {
    match s
    case DirectRow(r) => KeepRow(RowValues(r))
    case Body(rows) => FlattenRows(rows)
    case Skipped => []
  }

  function FlattenRows(rows: seq<Row>): seq<seq<string>>
    decreases rows
  {
    if rows == [] then []
    else FlattenRows(rows[..|rows| - 1]) + KeepRow(RowValues(rows[|rows| - 1]))
  }

  /** `if (row.length > 0) rows.push(row)`. */
  function KeepRow(row: seq<string>): seq<seq<string>> {
    if |row| > 0 then [row] else []
  }

  /** One value per `td`/`th` child of the row, in order. */
  function RowValues(r: Row): seq<string>
    decreases r
  {
    ChildValues(r.children)
  }

  function ChildValues(cs: seq<RowChild>): seq<string>
    decreases cs
  {
    if cs == [] then []
    else ChildValues(cs[..|cs| - 1]) + ChildValue(cs[|cs| - 1])
  }

  /** A cell holding a table becomes that table rendered as text; any other
      cell becomes its trimmed text. */
  function ChildValue(c: RowChild): seq<string>
    decreases c
  {
    match c
    case Cell(text, nested) =>
      (match nested
       case Some(inner) => [RenderNested(Flatten(inner))]
       case None => [Trim(text)])
    case OtherNode => []
  }

  /** A nested table as one string: its cells joined by ` | ` within a row,
      its rows joined by line feeds. */
  function RenderNested(rows: seq<seq<string>>): string {
    Join(seq(|rows|, i requires 0 <= i < |rows| => Join(rows[i], " | ")), "\n")
  }

  /** What `htmlTableToCSV` returns, given the first table of the parsed
      document, if any. */
  function TableCsv(doc: Option<Table>): string {
    match doc
    case None => ""
    case Some(t) => SerializeGrid(Flatten(t))
  }

  // ---------------------------------------------------------------------
  // The traversal, as `flattenHtmlTable` performs it.

  /** `flattenHtmlTable`: walks the selected rows in document order and
      recurses into nested tables. */
  method FlattenTable(t: Table) returns (rows: seq<seq<string>>)
    ensures rows == Flatten(t)
    decreases t
  {
    rows := [];
    var s := 0;
    while s < |t.sections|
      invariant 0 <= s <= |t.sections|
      invariant rows == FlattenSections(t.sections[..s])
    {
      assert t.sections[..s + 1][..s] == t.sections[..s];
      match t.sections[s] {
        case DirectRow(tr) =>
          var row := FlattenRow(tr);
          if |row| > 0 {
            rows := rows + [row];
          }
        case Body(trs) =>
          var bodyRows := FlattenBody(trs);
          rows := rows + bodyRows;
        case Skipped =>
      }
      s := s + 1;
    }
    assert t.sections[..s] == t.sections;
  }

  /** The rows of a `tbody`, each flattened and kept when it has a value. */
  method FlattenBody(trs: seq<Row>) returns (rows: seq<seq<string>>)
    ensures rows == FlattenRows(trs)
    decreases trs, 1
  {
    rows := [];
    var k := 0;
    while k < |trs|
      invariant 0 <= k <= |trs|
      invariant rows == FlattenRows(trs[..k])
    {
      assert trs[..k + 1][..k] == trs[..k];
      var row := FlattenRow(trs[k]);
      if |row| > 0 {
        rows := rows + [row];
      }
      k := k + 1;
    }
    assert trs[..k] == trs;
  }

  /** `htmlTableToCSV` after parsing: no table gives the empty string,
      otherwise the flattened grid, escaped and joined. */
  method HtmlTableToCsv(doc: Option<Table>) returns (csv: string)
    ensures csv == TableCsv(doc)
  {
    if doc.None? {
      return "";
    }
    var rows := FlattenTable(doc.value);
    csv := SerializeGrid(rows);
  }

  /** The inner `forEach` over a row's child nodes. */
  method FlattenRow(tr: Row) returns (row: seq<string>)
    ensures row == RowValues(tr)
    decreases tr
  {
    row := [];
    var j := 0;
    while j < |tr.children|
      invariant 0 <= j <= |tr.children|
      invariant row == ChildValues(tr.children[..j])
    {
      assert tr.children[..j + 1][..j] == tr.children[..j];
      var cell := tr.children[j];
      if cell.Cell? {
        if cell.nested.Some? {
          var nestedRows := FlattenTable(cell.nested.value);
          row := row + [RenderNested(nestedRows)];
        } else {
          row := row + [Trim(cell.text)];
        }
      }
      j := j + 1;
    }
    assert tr.children[..j] == tr.children;
  }

  // ---------------------------------------------------------------------
  // What flattening promises.

  /** A row yields no value exactly when it has no `td` or `th` child, and
      only such rows are dropped. */
  lemma {:induction false} ChildValuesEmpty(cs: seq<RowChild>)
    ensures ChildValues(cs) == [] <==> forall j :: 0 <= j < |cs| ==> !cs[j].Cell?
  {
    if cs != [] {
      ChildValuesEmpty(cs[..|cs| - 1]);
      var last := cs[|cs| - 1];
      assert |ChildValue(last)| == (if last.Cell? then 1 else 0);
      if forall j :: 0 <= j < |cs| - 1 ==> !cs[j].Cell? {
        if !last.Cell? {
          forall j | 0 <= j < |cs| ensures !cs[j].Cell? {
            if j < |cs| - 1 {
              assert cs[j] == cs[..|cs| - 1][j];
            }
          }
        }
      } else {
        var j :| 0 <= j < |cs| - 1 && cs[j].Cell?;
        assert cs[..|cs| - 1][j] == cs[j];
      }
    }
  }

  /** A row's width is its number of `td` and `th` children. */
  lemma {:induction false} ChildValuesWidth(cs: seq<RowChild>)
    ensures |ChildValues(cs)| == |CellPositions(cs)|
  {
    if cs != [] {
      var n := |cs| - 1;
      ChildValuesWidth(cs[..n]);
      assert |ChildValue(cs[n])| == if cs[n].Cell? then 1 else 0;
      CellPositionsSnoc(cs);
    }
  }

  /** The positions of a row's `td` and `th` children. */
  function CellPositions(cs: seq<RowChild>): set<int> {
    set j | 0 <= j < |cs| && cs[j].Cell?
  }

  lemma CellPositionsSnoc(cs: seq<RowChild>)
    requires cs != []
    ensures |CellPositions(cs)| == |CellPositions(cs[..|cs| - 1])| + (if cs[|cs| - 1].Cell? then 1 else 0)
  {
    var n := |cs| - 1;
    var before := CellPositions(cs[..n]);
    forall j ensures j in CellPositions(cs) <==> j in before || (j == n && cs[n].Cell?) {
      if 0 <= j < n {
        assert cs[..n][j] == cs[j];
      }
    }
    assert n !in before;
    if cs[n].Cell? {
      assert CellPositions(cs) == before + {n};
    } else {
      assert CellPositions(cs) == before;
    }
  }

  lemma {:induction false} FlattenRowsNonEmpty(rows: seq<Row>)
    ensures forall i :: 0 <= i < |FlattenRows(rows)| ==> FlattenRows(rows)[i] != []
  {
    if rows != [] {
      var init := rows[..|rows| - 1];
      FlattenRowsNonEmpty(init);
      var a, b := FlattenRows(init), KeepRow(RowValues(rows[|rows| - 1]));
      forall i | 0 <= i < |a + b| ensures (a + b)[i] != [] {
        if i >= |a| {
          assert (a + b)[i] == b[i - |a|];
        }
      }
    }
  }

  lemma {:induction false} FlattenSectionsNonEmpty(ss: seq<Section>)
    ensures forall i :: 0 <= i < |FlattenSections(ss)| ==> FlattenSections(ss)[i] != []
  {
    if ss != [] {
      var init := ss[..|ss| - 1];
      var last := ss[|ss| - 1];
      FlattenSectionsNonEmpty(init);
      if last.Body? {
        FlattenRowsNonEmpty(last.rows);
      }
      var a, b := FlattenSections(init), SectionRows(last);
      assert forall j :: 0 <= j < |b| ==> b[j] != [] by {
        if last.Body? {
          assert b == FlattenRows(last.rows);
        }
      }
      forall i | 0 <= i < |a + b| ensures (a + b)[i] != [] {
        if i >= |a| {
          assert (a + b)[i] == b[i - |a|];
        }
      }
    }
  }

  /** The CSV of a table reads back as the table's grid, whenever some row
      holds a cell. */
  lemma HtmlRoundTrip(t: Table)
    requires Flatten(t) != []
    ensures ReadGrid(TableCsv(Some(t))) == Flatten(t)
  {
    FlattenSectionsNonEmpty(t.sections);
    GridRoundTrip(Flatten(t));
  }

  /** The output is empty exactly when there is no table, no row of the table
      holds a cell, or the table is a single cell whose text is empty. */
  lemma HtmlTableToCsvEmpty(doc: Option<Table>)
    ensures TableCsv(doc) == "" <==>
      doc == None || Flatten(doc.value) == [] || Flatten(doc.value) == [[""]]
  {
    if doc.Some? && Flatten(doc.value) == [[""]] {
      assert FormatRow([""]) == [""];
      assert SerializeRows([[""]]) == [""];
    } else if doc.Some? && Flatten(doc.value) != [] && TableCsv(doc) == "" {
      HtmlRoundTrip(doc.value);
    }
  }

  /** A nested table shows one line per row when none of its values holds a
      line feed. */
  lemma NestedLineCount(rows: seq<seq<string>>)
    requires rows != []
    requires forall i, j :: 0 <= i < |rows| && 0 <= j < |rows[i]| ==> '\n' !in rows[i][j]
    ensures Count(RenderNested(rows), '\n') == |rows| - 1
  {
    var lines := seq(|rows|, i requires 0 <= i < |rows| => Join(rows[i], " | "));
    forall i | 0 <= i < |rows| ensures '\n' !in lines[i] {
      JoinAvoids(rows[i], " | ", '\n');
    }
    JoinSeparatorCount(lines, '\n');
  }
}
