/** CSV field escaping and serialisation (`formatCSVCell` and the
    `map`/`join` chains that use it), together with a reader for the same
    dialect, fields separated by `,` and records by `\n`, quoting as in
    section 2 (rules 5 to 7) of RFC 4180. The reader is the partner that the
    round-trip lemmas are stated against. */
module Csv {
  import opened JsText
  import opened Wrappers

  /** The test `formatCSVCell` makes before quoting; its last disjunct,
      `includes('\r\n')`, is implied by the one before it. */
  predicate NeedsQuoting(s: string) {
    ',' in s || '"' in s || '\n' in s || '\r' in s || HasSubstring(s, "\r\n")
  }

  lemma NeedsQuotingWithoutCrLf(s: string)
    ensures NeedsQuoting(s) <==> (',' in s || '"' in s || '\n' in s || '\r' in s)
  {
    if HasSubstring(s, "\r\n") {
      var i :| 0 <= i <= |s| && "\r\n" <= s[i..];
      assert s[i] == s[i..][0];
    }
  }

  /** `s.replace(/"/g, '""')`. */
  function DoubleQuotes(s: string): (r: string)
    ensures |r| == |s| + Count(s, '"')
    ensures Count(r, '"') == 2 * Count(s, '"')
  {
    if s == [] then []
    else
      var head := if s[0] == '"' then "\"\"" else [s[0]];
      var tail := DoubleQuotes(s[1..]);
      CountAppend(head, tail, '"');
      assert s == [s[0]] + s[1..];
      head + tail
  }

  /** `formatCSVCell` on a string: a field that holds a comma, a double
      quote or a line break is wrapped in double quotes with each inner quote
      doubled; any other field is returned as it is. */
  function FormatCell(s: string): (r: string)
    ensures !NeedsQuoting(s) ==> r == s
    ensures NeedsQuoting(s) ==> |r| == |s| + 2 + Count(s, '"') && r[0] == '"' && r[|r| - 1] == '"'
    ensures Count(r, '"') % 2 == 0
  {
    if NeedsQuoting(s) then
      var r := "\"" + DoubleQuotes(s) + "\"";
      CountAppend("\"" + DoubleQuotes(s), "\"", '"');
      CountAppend("\"", DoubleQuotes(s), '"');
      r
    else
      CountAbsent(s, '"');
      s
  }

  /** The escaping written out inline in the converter's fallback paths:
      the same test without the redundant `\r\n` disjunct. */
  function EscapeInline(s: string): string {
    if ',' in s || '"' in s || '\n' in s || '\r' in s then "\"" + DoubleQuotes(s) + "\"" else s
  }

  /** The inline escaping and `formatCSVCell` agree on every string. */
  lemma EscapeInlineIsFormatCell(s: string)
    ensures EscapeInline(s) == FormatCell(s)
  {
    NeedsQuotingWithoutCrLf(s);
  }

  lemma {:induction false} DoubleQuotesKeepsOtherChars(s: string, x: char)
    requires x != '"'
    ensures x in DoubleQuotes(s) <==> x in s
  {
    if s != [] {
      DoubleQuotesKeepsOtherChars(s[1..], x);
      assert s == [s[0]] + s[1..];
    }
  }

  /** Escaping adds and removes no character other than the double quote. */
  lemma FormatCellKeepsOtherChars(s: string, x: char)
    requires x != '"'
    ensures x in FormatCell(s) <==> x in s
  {
    DoubleQuotesKeepsOtherChars(s, x);
  }

  /** `formatCSVCell` on any value, `None` standing for `null` and
      `undefined` and `Some(s)` for a value whose `String(...)` is `s`. */
  function FormatValue(v: Option<string>): (r: string)
    ensures r == "" <==> v == None || v == Some("")
    ensures v.Some? ==> ReadField(r) == (v.value, "")
  {
    match v
    case None => ""
    case Some(s) =>
      FieldRoundTrip(s, "");
      assert FormatCell(s) + "" == FormatCell(s);
      FormatCell(s)
  }

  /** `row.map(formatCSVCell)`. */
  function FormatRow(row: seq<string>): seq<string> {
    seq(|row|, i requires 0 <= i < |row| => FormatCell(row[i]))
  }

  /** `row.map(formatCSVCell).join(',')`. */
  function SerializeRow(row: seq<string>): string {
    Join(FormatRow(row), ",")
  }

  /** The serialised rows of a grid, one string per row. */
  function SerializeRows(grid: seq<seq<string>>): seq<string> {
    seq(|grid|, i requires 0 <= i < |grid| => SerializeRow(grid[i]))
  }

  /** `rows.map(row => row.map(formatCSVCell).join(',')).join('\n')`. */
  function SerializeGrid(grid: seq<seq<string>>): string {
    Join(SerializeRows(grid), "\n")
  }

  // ---------------------------------------------------------------------
  // Reading the dialect back.

  /** The inside of a quoted field, after its opening quote: `""` stands for
      one quote and a lone quote closes the field. */
  function ReadQuoted(s: string, acc: string): (r: (string, string))
    ensures |r.1| <= |s|
    decreases |s|
  {
    if s == [] then (acc, [])
    else if s[0] == '"' then
      if |s| >= 2 && s[1] == '"' then ReadQuoted(s[2..], acc + ['"'])
      else (acc, s[1..])
    else ReadQuoted(s[1..], acc + [s[0]])
  }

  /** An unquoted field runs up to the next comma or line feed. */
  function ReadBare(s: string, acc: string): (r: (string, string))
    ensures |r.1| <= |s|
    decreases |s|
  {
    if s == [] || s[0] == ',' || s[0] == '\n' then (acc, s)
    else ReadBare(s[1..], acc + [s[0]])
  }

  /** One field and the text after it. */
  function ReadField(s: string): (r: (string, string))
    ensures |r.1| <= |s|
  {
    if s != [] && s[0] == '"' then ReadQuoted(s[1..], []) else ReadBare(s, [])
  }

  /** One record: fields separated by commas, up to a line feed or the end. */
  function ReadRecord(s: string): (r: (seq<string>, string))
    ensures |r.1| <= |s|
    decreases |s|
  {
    var field := ReadField(s);
    var rest := field.1;
    if rest != [] && rest[0] == ',' then
      var more := ReadRecord(rest[1..]);
      ([field.0] + more.0, more.1)
    else ([field.0], rest)
  }

  /** A whole text: records separated by line feeds. */
  function ReadGrid(s: string): (g: seq<seq<string>>)
    decreases |s|
  {
    var record := ReadRecord(s);
    var rest := record.1;
    if rest != [] && rest[0] == '\n' then [record.0] + ReadGrid(rest[1..]) else [record.0]
  }

  // ---------------------------------------------------------------------
  // Round trips.

  lemma {:induction false} QuotedRoundTrip(c: string, t: string, acc: string)
    requires t == [] || t[0] != '"'
    ensures ReadQuoted(DoubleQuotes(c) + "\"" + t, acc) == (acc + c, t)
    decreases |c|
  {
    if c == [] {
      var s := "\"" + t;
      assert DoubleQuotes(c) + "\"" + t == s;
      assert s[0] == '"' && s[1..] == t;
      assert acc + c == acc;
    } else {
      var rest := DoubleQuotes(c[1..]) + "\"" + t;
      var head := if c[0] == '"' then "\"\"" else [c[0]];
      assert DoubleQuotes(c) == head + DoubleQuotes(c[1..]);
      Regroup(head, DoubleQuotes(c[1..]), "\"", t);
      QuotedRoundTrip(c[1..], t, acc + [c[0]]);
      QuotedStep(c[0], rest, acc);
      MoveFirst(acc, c);
    }
  }

  /** One escaped character of a quoted field is read back as itself. */
  lemma QuotedStep(x: char, rest: string, acc: string)
    ensures ReadQuoted((if x == '"' then "\"\"" else [x]) + rest, acc) == ReadQuoted(rest, acc + [x])
  {
    var s := (if x == '"' then "\"\"" else [x]) + rest;
    if x == '"' {
      assert s[0] == '"' && s[1] == '"' && s[2..] == rest;
    } else {
      assert s[0] == x && s[1..] == rest;
    }
  }

  lemma {:induction false} BareRoundTrip(c: string, t: string, acc: string)
    requires ',' !in c && '\n' !in c
    requires t == [] || t[0] == ',' || t[0] == '\n'
    ensures ReadBare(c + t, acc) == (acc + c, t)
    decreases |c|
  {
    if c == [] {
      assert c + t == t && acc + c == acc;
    } else {
      assert (c + t)[0] == c[0] && (c + t)[1..] == c[1..] + t;
      BareRoundTrip(c[1..], t, acc + [c[0]]);
      assert acc + [c[0]] + c[1..] == acc + c;
    }
  }

  /** Reading a formatted field gives the field back (the unescaping of
      RFC 4180 section 2 undoes the escaping), whatever record or line
      separator follows it. */
  lemma FieldRoundTrip(c: string, t: string)
    requires t == [] || t[0] == ',' || t[0] == '\n'
    ensures ReadField(FormatCell(c) + t) == (c, t)
  {
    if NeedsQuoting(c) {
      assert FormatCell(c) == "\"" + DoubleQuotes(c) + "\"";
      QuotedFieldRoundTrip(c, t);
    } else {
      assert FormatCell(c) == c;
      BareFieldRoundTrip(c, t);
    }
  }

  lemma QuotedFieldRoundTrip(c: string, t: string)
    requires t == [] || t[0] == ',' || t[0] == '\n'
    ensures ReadField("\"" + DoubleQuotes(c) + "\"" + t) == (c, t)
  {
    var body := DoubleQuotes(c) + "\"" + t;
    var s := "\"" + DoubleQuotes(c) + "\"" + t;
    assert s == "\"" + body;
    assert s[0] == '"' && s[1..] == body;
    QuotedRoundTrip(c, t, []);
    assert [] + c == c;
  }

  lemma BareFieldRoundTrip(c: string, t: string)
    requires ',' !in c && '\n' !in c && '"' !in c
    requires t == [] || t[0] == ',' || t[0] == '\n'
    ensures ReadField(c + t) == (c, t)
  {
    if c == [] {
      assert c + t == t;
    } else {
      assert (c + t)[0] == c[0];
    }
    BareRoundTrip(c, t, []);
    assert [] + c == c;
  }

  lemma SerializeRowCons(row: seq<string>)
    requires |row| >= 2
    ensures SerializeRow(row) == FormatCell(row[0]) + "," + SerializeRow(row[1..])
  {
    assert FormatRow(row) == [FormatCell(row[0])] + FormatRow(row[1..]);
    JoinCons(FormatCell(row[0]), FormatRow(row[1..]), ",");
  }

  lemma SerializeGridCons(grid: seq<seq<string>>)
    requires |grid| >= 2
    ensures SerializeGrid(grid) == SerializeRow(grid[0]) + "\n" + SerializeGrid(grid[1..])
  {
    assert SerializeRows(grid) == [SerializeRow(grid[0])] + SerializeRows(grid[1..]);
    JoinCons(SerializeRow(grid[0]), SerializeRows(grid[1..]), "\n");
  }

  /** How a record is read once its first field is known. */
  lemma ReadRecordUnfold(s: string, f: string, rest: string)
    requires ReadField(s) == (f, rest)
    ensures rest != [] && rest[0] == ',' ==>
      |rest[1..]| < |s| &&
      ReadRecord(s) == ([f] + ReadRecord(rest[1..]).0, ReadRecord(rest[1..]).1)
    ensures !(rest != [] && rest[0] == ',') ==> ReadRecord(s) == ([f], rest)
  {
  }

  lemma {:induction false} RecordRoundTrip(row: seq<string>, t: string)
    requires row != []
    requires t == [] || t[0] == '\n'
    ensures ReadRecord(SerializeRow(row) + t) == (row, t)
    decreases |row|
  {
    if |row| == 1 {
      LastFieldRoundTrip(row[0], t);
      assert FormatRow(row) == [FormatCell(row[0])];
      assert row == [row[0]];
    } else {
      RecordRoundTrip(row[1..], t);
      FieldThenRecord(row, t);
    }
  }

  lemma LastFieldRoundTrip(c: string, t: string)
    requires t == [] || t[0] == '\n'
    ensures ReadRecord(FormatCell(c) + t) == ([c], t)
  {
    FieldRoundTrip(c, t);
    ReadRecordUnfold(FormatCell(c) + t, c, t);
  }

  lemma FieldThenRecord(row: seq<string>, t: string)
    requires |row| >= 2
    requires ReadRecord(SerializeRow(row[1..]) + t) == (row[1..], t)
    ensures ReadRecord(SerializeRow(row) + t) == (row, t)
  {
    var c, rest := row[0], SerializeRow(row[1..]);
    assert SerializeRow(row) + t == FormatCell(c) + ("," + (rest + t)) by {
      SerializeRowCons(row);
    }
    FieldBeforeComma(c, rest + t, row[1..], t);
    assert [row[0]] + row[1..] == row;
  }

  lemma FieldBeforeComma(c: string, more: string, fields: seq<string>, t: string)
    requires ReadRecord(more) == (fields, t)
    ensures ReadRecord(FormatCell(c) + ("," + more)) == ([c] + fields, t)
  {
    var tail := "," + more;
    FieldRoundTrip(c, tail);
    ReadRecordUnfold(FormatCell(c) + tail, c, tail);
    assert tail[1..] == more;
  }

  lemma SerializeRowsSnoc(grid: seq<seq<string>>, row: seq<string>)
    ensures SerializeRows(grid + [row]) == SerializeRows(grid) + [SerializeRow(row)]
  {
    var a, b := SerializeRows(grid + [row]), SerializeRows(grid) + [SerializeRow(row)];
    forall k | 0 <= k < |a| ensures a[k] == b[k] {
      if k < |grid| {
        assert (grid + [row])[k] == grid[k];
      }
    }
  }

  /** Serialising a grid and reading the text back gives the grid again,
      for every grid with at least one row and no empty row (an empty row
      and a row holding one empty field serialise alike, and so do the empty
      grid and a grid of one empty field). */
  lemma {:induction false} GridRoundTrip(grid: seq<seq<string>>)
    requires grid != []
    requires forall i :: 0 <= i < |grid| ==> grid[i] != []
    ensures ReadGrid(SerializeGrid(grid)) == grid
    decreases |grid|
  {
    if |grid| == 1 {
      assert SerializeRows(grid) == [SerializeRow(grid[0])];
      RecordRoundTrip(grid[0], "");
      assert SerializeRow(grid[0]) + "" == SerializeRow(grid[0]);
    } else {
      SerializeGridCons(grid);
      ReadGridAfterRecord(grid[0], SerializeGrid(grid[1..]));
      GridRoundTrip(grid[1..]);
      assert [grid[0]] + grid[1..] == grid;
    }
  }

  /** A serialised row and a line feed are read as that row, and reading
      goes on after the line feed. */
  lemma ReadGridAfterRecord(row: seq<string>, rest: string)
    requires row != []
    ensures ReadGrid(SerializeRow(row) + "\n" + rest) == [row] + ReadGrid(rest)
  {
    var tail := "\n" + rest;
    RecordRoundTrip(row, tail);
    assert SerializeRow(row) + "\n" + rest == SerializeRow(row) + tail;
    assert tail[1..] == rest;
  }

  // ---------------------------------------------------------------------
  // Other properties of the escaping.

  /** Escaping is idempotent exactly on the fields that need no quoting: a
      quoted field starts with a quote, so quoting it again makes it longer. */
  lemma FormatCellTwice(s: string)
    ensures FormatCell(FormatCell(s)) == FormatCell(s) <==> !NeedsQuoting(s)
  {
    if NeedsQuoting(s) {
      var r := FormatCell(s);
      assert r[0] in r;
      assert |FormatCell(r)| > |r|;
    }
  }

  /** A serialised row has no line feed when none of its fields has one. */
  lemma SerializeRowAvoidsNewline(row: seq<string>)
    requires forall i :: 0 <= i < |row| ==> '\n' !in row[i]
    ensures '\n' !in SerializeRow(row)
  {
    forall i | 0 <= i < |row| ensures '\n' !in FormatRow(row)[i] {
      FormatCellKeepsOtherChars(row[i], '\n');
    }
    JoinAvoids(FormatRow(row), ",", '\n');
  }

  /** When no field holds a line feed, the serialised grid holds exactly one
      line feed between each two rows. */
  lemma SerializeGridNewlines(grid: seq<seq<string>>)
    requires grid != []
    requires forall i, j :: 0 <= i < |grid| && 0 <= j < |grid[i]| ==> '\n' !in grid[i][j]
    ensures Count(SerializeGrid(grid), '\n') == |grid| - 1
  {
    forall i | 0 <= i < |grid| ensures '\n' !in SerializeRows(grid)[i] {
      SerializeRowAvoidsNewline(grid[i]);
    }
    JoinSeparatorCount(SerializeRows(grid), '\n');
  }
}
