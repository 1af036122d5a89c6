/** `processExcelWithLineBreaks` and the application's inline Excel fallback.
    A worksheet is given after decoding: its used range (`!ref`), if any, and
    its cells keyed by zero-based row and column. */
module Sheet {
  import opened JsText
  import opened Csv
  import opened Wrappers

  datatype Address = Address(row: nat, col: nat)

  /** A rectangle from `start` to `end`, both inclusive. */
  datatype Range = Range(start: Address, end: Address)

  /** The raw value `v` of a cell: a string, some other value (number,
      boolean, date) with its `String(v)` rendering and whether it is truthy,
      or no value at all. */
  datatype RawValue =
    | TextValue(s: string)
    | OtherValue(rendered: string, truthy: bool)
    | NoValue

  /** A cell: its formatted text `w`, if any, and its raw value `v`. */
  datatype SheetCell = SheetCell(w: Option<string>, v: RawValue)

  datatype Worksheet = Worksheet(ref: Option<Range>, cells: map<Address, SheetCell>)

  /** `worksheet['!ref'] || 'A1:A1'`, decoded. */
  function UsedRange(ws: Worksheet): Range {
    match ws.ref
    case Some(r) => r
    case None => Range(Address(0, 0), Address(0, 0))
  }

  /** Rows and columns the loops visit; none when the end precedes the start. */
  function Height(r: Range): nat {
    if r.end.row >= r.start.row then r.end.row - r.start.row + 1 else 0
  }

  function Width(r: Range): nat {
    if r.end.col >= r.start.col then r.end.col - r.start.col + 1 else 0
  }

  /** `cell.w || cell.v || ''`, with line endings normalised when the value
      picked is a string. A missing cell gives the empty string. */
  function CellText(ws: Worksheet, a: Address): string {
    if a !in ws.cells then ""
    else
      var c := ws.cells[a];
      if c.w.Some? && c.w.value != "" then NormalizeLineEndings(c.w.value)
      else
        match c.v
        case TextValue(s) => NormalizeLineEndings(s)
        case OtherValue(rendered, truthy) => if truthy then rendered else ""
        case NoValue => ""
  }

  /** The rectangle of cell texts, row by row. */
  function DenseGrid(ws: Worksheet): (g: seq<seq<string>>)
    ensures |g| == Height(UsedRange(ws))
    ensures forall i :: 0 <= i < |g| ==> |g[i]| == Width(UsedRange(ws))
  {
    var r := UsedRange(ws);
    seq(Height(r), i requires 0 <= i < Height(r) =>
      seq(Width(r), j requires 0 <= j < Width(r) =>
        CellText(ws, Address(r.start.row + i, r.start.col + j))))
  }

  /** What `processExcelWithLineBreaks` returns. */
  function SheetCsv(ws: Worksheet): string {
    SerializeGrid(DenseGrid(ws))
  }

  /** `processExcelWithLineBreaks`: one row per row of the used range, one
      value per column, missing cells as empty strings. */
  method ProcessExcelWithLineBreaks(ws: Worksheet) returns (csv: string)
    ensures csv == SheetCsv(ws)
  {
    var range := UsedRange(ws);
    ghost var grid := DenseGrid(ws);
    var rows: seq<seq<string>> := [];
    var rowNum := range.start.row;
    while rowNum <= range.end.row
      invariant range.start.row <= rowNum
      invariant rowNum - range.start.row <= Height(range)
      invariant rows == grid[..rowNum - range.start.row]
      decreases range.end.row + 1 - rowNum
    {
      var row: seq<string> := [];
      var colNum := range.start.col;
      while colNum <= range.end.col
        invariant range.start.col <= colNum
        invariant colNum - range.start.col <= Width(range)
        invariant row == grid[rowNum - range.start.row][..colNum - range.start.col]
        decreases range.end.col + 1 - colNum
      {
        var cellAddress := Address(rowNum, colNum);
        ghost var i, j := rowNum - range.start.row, colNum - range.start.col;
        assert grid[i][j] == CellText(ws, Address(range.start.row + i, range.start.col + j));
        assert grid[i][..j + 1] == grid[i][..j] + [CellText(ws, cellAddress)];
        if cellAddress in ws.cells {
          row := row + [CellText(ws, cellAddress)];
        } else {
          row := row + [""];
        }
        colNum := colNum + 1;
      }
      assert row == grid[rowNum - range.start.row];
      rows := rows + [row];
      rowNum := rowNum + 1;
    }
    assert rows == grid;
    csv := SerializeGrid(rows);
  }

  /** The sheet reads back from its CSV, line breaks inside cells included,
      whenever the range has a row and a column. */
  lemma SheetRoundTrip(ws: Worksheet)
    requires Height(UsedRange(ws)) > 0 && Width(UsedRange(ws)) > 0
    ensures ReadGrid(SheetCsv(ws)) == DenseGrid(ws)
  {
    GridRoundTrip(DenseGrid(ws));
  }

  /** Without a used range, only cell A1 is read. */
  lemma DefaultRangeIsA1(ws: Worksheet)
    requires ws.ref == None
    ensures SheetCsv(ws) == FormatCell(CellText(ws, Address(0, 0)))
  {
    var g := DenseGrid(ws);
    assert |g| == 1 && |g[0]| == 1 && g[0][0] == CellText(ws, Address(0, 0));
    assert g[0] == [CellText(ws, Address(0, 0))];
    assert g == [g[0]];
    assert SerializeRows(g) == [SerializeRow(g[0])];
    assert FormatRow(g[0]) == [FormatCell(CellText(ws, Address(0, 0)))];
  }

  /** A cell whose text comes from a string keeps every line of that string,
      whichever line ending closed it, and writes its line breaks as line
      feeds only. */
  lemma TextCellLineBreaks(ws: Worksheet, a: Address)
    requires a in ws.cells
    requires (ws.cells[a].w.Some? && ws.cells[a].w.value != "") || ws.cells[a].v.TextValue?
    ensures var c := ws.cells[a];
      CellText(ws, a) == Join(TextLines(if c.w.Some? && c.w.value != "" then c.w.value else c.v.s), "\n")
    ensures '\r' !in CellText(ws, a)
  {
    var c := ws.cells[a];
    NormalizeJoinsLines(if c.w.Some? && c.w.value != "" then c.w.value else c.v.s);
  }

  // ---------------------------------------------------------------------
  // The inline fallback, over the rows `sheet_to_json` produces
  // (`header: 1, raw: false, defval: ''`: every cell a string).

  /** `String(cell || '')` on a string is the string itself. */
  function ExcelFallbackRow(row: seq<string>): string {
    Join(seq(|row|, j requires 0 <= j < |row| => EscapeInline(row[j])), ",")
  }

  function ExcelFallbackCsv(rows: seq<seq<string>>): string {
    Join(seq(|rows|, i requires 0 <= i < |rows| => ExcelFallbackRow(rows[i])), "\n")
  }

  /** The fallback writes the same CSV as the utility's serialiser. */
  lemma ExcelFallbackIsSerializeGrid(rows: seq<seq<string>>)
    ensures ExcelFallbackCsv(rows) == SerializeGrid(rows)
  {
    forall i | 0 <= i < |rows| ensures ExcelFallbackRow(rows[i]) == SerializeRow(rows[i]) {
      var escaped := seq(|rows[i]|, j requires 0 <= j < |rows[i]| => EscapeInline(rows[i][j]));
      forall j | 0 <= j < |rows[i]| ensures escaped[j] == FormatRow(rows[i])[j] {
        EscapeInlineIsFormatCell(rows[i][j]);
      }
      assert escaped == FormatRow(rows[i]);
    }
    assert seq(|rows|, i requires 0 <= i < |rows| => ExcelFallbackRow(rows[i])) == SerializeRows(rows);
  }
}
