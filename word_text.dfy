/** Text extracted from a Word document: `processWordWithTables`, and the
    application's inline fallback used when the utility script is not
    loaded. */
module WordText {
  import opened JsText
  import opened Splitting
  import opened Csv
  import opened AdvancedText
  import opened Wrappers
  import opened TextFallback

  /** The patterns that suggest a table, tried in this order. */
  datatype Pattern =
    | Tabs        // /\t+/
    | SpaceRun    // /\s{3,}/
    | Pipes       // /\|+/
    | Semicolons  // /;+/

  const Patterns: seq<Pattern> := [Tabs, SpaceRun, Pipes, Semicolons]

  /** `pattern.test(line)`. */
  predicate Matches(p: Pattern, line: string) {
    match p
    case Tabs => '\t' in line
    case SpaceRun =>
      exists i :: 0 <= i && i + 3 <= |line| && IsWhitespace(line[i]) && IsWhitespace(line[i + 1]) && IsWhitespace(line[i + 2])
    case Pipes => '|' in line
    case Semicolons => ';' in line
  }

  /** How many lines a pattern matches. */
  function MatchCount(p: Pattern, lines: seq<string>): (n: nat)
    ensures n <= |lines|
  {
    if lines == [] then 0
    else MatchCount(p, lines[..|lines| - 1]) + (if Matches(p, lines[|lines| - 1]) then 1 else 0)
  }

  /** The greatest match count over the patterns. */
  function MaxMatches(lines: seq<string>): (m: nat)
    ensures m <= |lines|
  {
    var a, b := MatchCount(Tabs, lines), MatchCount(SpaceRun, lines);
    var c, d := MatchCount(Pipes, lines), MatchCount(Semicolons, lines);
    var ab := if b > a then b else a;
    var abc := if c > ab then c else ab;
    if d > abc then d else abc
  }

  /** `maxMatches > lines.length * 0.3`, in exact arithmetic. */
  predicate LooksTabular(lines: seq<string>) {
    10 * MaxMatches(lines) > 3 * |lines|
  }

  /** The plain path: each line one escaped field. */
  function PlainCsv(lines: seq<string>): string {
    Join(seq(|lines|, i requires 0 <= i < |lines| => FormatCell(lines[i])), "\n")
  }

  /** What `processWordWithTables` returns. Its lines are the non-blank
      lines cut at line feeds only, as in the fallback text converter. */
  function WordToCsv(text: string): string {
    var lines := FallbackLines(text);
    if LooksTabular(lines) then TextToCsv(text) else PlainCsv(lines)
  }

  /** The pattern loop: the first pattern with the greatest positive count,
      if any, and that count. */
  method DetectPattern(lines: seq<string>) returns (bestPattern: Option<Pattern>, maxMatches: nat)
    ensures maxMatches == MaxMatches(lines)
    ensures bestPattern.None? <==> maxMatches == 0
    ensures bestPattern.Some? ==> MatchCount(bestPattern.value, lines) == maxMatches
    ensures bestPattern.Some? ==> forall k :: 0 <= k < |Patterns| && Patterns[k] == bestPattern.value ==>
      forall j :: 0 <= j < k ==> MatchCount(Patterns[j], lines) < maxMatches
  {
    bestPattern, maxMatches := None, 0;
    ghost var counts := seq(|Patterns|, j requires 0 <= j < |Patterns| => MatchCount(Patterns[j], lines));
    var i := 0;
    while i < |Patterns|
      invariant 0 <= i <= |Patterns|
      invariant forall j :: 0 <= j < i ==> counts[j] <= maxMatches
      invariant maxMatches == 0 || exists j :: 0 <= j < i && counts[j] == maxMatches
      invariant bestPattern.None? <==> maxMatches == 0
      invariant bestPattern.Some? ==> exists k :: (0 <= k < i && Patterns[k] == bestPattern.value
        && counts[k] == maxMatches && forall j :: 0 <= j < k ==> counts[j] < maxMatches)
    {
      var matches := MatchCount(Patterns[i], lines);
      assert matches == counts[i];
      if matches > maxMatches {
        maxMatches := matches;
        bestPattern := Some(Patterns[i]);
      }
      i := i + 1;
    }
    assert forall j :: 0 <= j < |Patterns| ==> MatchCount(Patterns[j], lines) == counts[j];
    assert Patterns[0] == Tabs && Patterns[1] == SpaceRun && Patterns[2] == Pipes && Patterns[3] == Semicolons;
  }

  /** `processWordWithTables`. */
  method ProcessWordWithTables(text: string) returns (csv: string)
    ensures csv == WordToCsv(text)
  {
    var lines := KeepNonBlank(Split(text, Literal('\n')));
    assert lines == FallbackLines(text);
    var bestPattern, maxMatches := DetectPattern(lines);
    assert bestPattern.Some? && 10 * maxMatches > 3 * |lines| <==> LooksTabular(lines);
    if bestPattern.Some? && 10 * maxMatches > 3 * |lines| {
      csv := AdvancedTextToCsv(text);
    } else {
      csv := Join(seq(|lines|, i requires 0 <= i < |lines| => FormatCell(lines[i])), "\n");
      assert csv == PlainCsv(lines);
    }
  }

  // ---------------------------------------------------------------------
  // What the Word conversion promises.

  /** Each kept line as a one-field record. */
  function SingleColumn(lines: seq<string>): (g: seq<seq<string>>)
    ensures |g| == |lines|
  {
    seq(|lines|, i requires 0 <= i < |lines| => [lines[i]])
  }

  /** The plain path is the CSV of a one-column table of the lines. */
  lemma PlainCsvIsSerializeGrid(lines: seq<string>)
    ensures PlainCsv(lines) == SerializeGrid(SingleColumn(lines))
  {
    var g := SingleColumn(lines);
    forall i | 0 <= i < |lines| ensures FormatCell(lines[i]) == SerializeRows(g)[i] {
      assert FormatRow(g[i]) == [FormatCell(lines[i])];
    }
    assert seq(|lines|, i requires 0 <= i < |lines| => FormatCell(lines[i])) == SerializeRows(g);
  }

  /** On the plain path every kept line reads back as one field, line
      breaks, commas and quotes inside it included. */
  lemma PlainRoundTrip(lines: seq<string>)
    requires lines != []
    ensures ReadGrid(PlainCsv(lines)) == SingleColumn(lines)
  {
    PlainCsvIsSerializeGrid(lines);
    GridRoundTrip(SingleColumn(lines));
  }

  /** On the plain path the output has one line per kept line. */
  lemma PlainLineCount(text: string)
    requires FallbackLines(text) != []
    ensures Count(PlainCsv(FallbackLines(text)), '\n') == |FallbackLines(text)| - 1
  {
    var lines := FallbackLines(text);
    SplitLiteralPieces(text, '\n');
    KeepNonBlankMembers(Split(text, Literal('\n')));
    assert forall i :: 0 <= i < |lines| ==> lines[i] in lines;
    PlainCsvIsSerializeGrid(lines);
    SerializeGridNewlines(SingleColumn(lines));
  }

  /** The text is called tabular only when some pattern matches a line, so
      the `bestPattern` test adds nothing to the count test; and then more
      than 30% of the kept lines match that pattern. */
  lemma TabularHasPattern(text: string)
    requires LooksTabular(FallbackLines(text))
    ensures exists p :: p in Patterns && 10 * MatchCount(p, FallbackLines(text)) > 3 * |FallbackLines(text)|
  {
    var lines := FallbackLines(text);
    var m := MaxMatches(lines);
    if m == MatchCount(Tabs, lines) {
      assert Tabs in Patterns;
    } else if m == MatchCount(SpaceRun, lines) {
      assert SpaceRun in Patterns;
    } else if m == MatchCount(Pipes, lines) {
      assert Pipes in Patterns;
    } else {
      assert Semicolons in Patterns;
    }
  }

  /** The output is empty exactly when the text is blank. */
  lemma WordEmptyIffBlank(text: string)
    ensures WordToCsv(text) == "" <==> AllWhitespace(text)
  {
    var lines := FallbackLines(text);
    if AllWhitespace(text) {
      FallbackKeepsNothing(text);
    } else if LooksTabular(lines) {
      TextToCsvEmptyIffBlank(text);
    } else {
      FallbackKeepsLine(text);
      PlainRoundTrip(lines);
      KeepNonBlankMembers(Split(text, Literal('\n')));
      assert lines[0] in lines;
    }
  }

  // ---------------------------------------------------------------------
  // The inline fallback of the application (without the utility script).

  /** The cells of a line: the non-blank pieces between runs of tabs or of
      two or more whitespace characters, trimmed. */
  function WordFallbackCells(line: string): (r: seq<string>)
  {
    var pieces := KeepNonBlank(Split(line, TabsOrWhitespaceRun));
    seq(|pieces|, k requires 0 <= k < |pieces| => Trim(pieces[k]))
  }

  function WordFallbackGrid(text: string): (g: seq<seq<string>>)
    ensures |g| == |FallbackLines(text)|
  {
    var lines := FallbackLines(text);
    seq(|lines|, i requires 0 <= i < |lines| => WordFallbackCells(lines[i]))
  }

  /** One output line, escaped with the inline rule. */
  function WordFallbackRow(line: string): string {
    var pieces := KeepNonBlank(Split(line, TabsOrWhitespaceRun));
    Join(seq(|pieces|, k requires 0 <= k < |pieces| => EscapeInline(Trim(pieces[k]))), ",")
  }

  /** What the fallback returns for the extracted text. */
  function WordFallbackCsv(text: string): string {
    var lines := FallbackLines(text);
    Join(seq(|lines|, i requires 0 <= i < |lines| => WordFallbackRow(lines[i])), "\n")
  }

  /** The fallback writes the CSV of its table, as `formatCSVCell` would. */
  lemma WordFallbackIsSerializeGrid(text: string)
    ensures WordFallbackCsv(text) == SerializeGrid(WordFallbackGrid(text))
  {
    var lines := FallbackLines(text);
    var g := WordFallbackGrid(text);
    forall i | 0 <= i < |lines| ensures WordFallbackRow(lines[i]) == SerializeRows(g)[i] {
      var pieces := KeepNonBlank(Split(lines[i], TabsOrWhitespaceRun));
      var escaped := seq(|pieces|, k requires 0 <= k < |pieces| => EscapeInline(Trim(pieces[k])));
      forall k | 0 <= k < |pieces| ensures escaped[k] == FormatRow(g[i])[k] {
        EscapeInlineIsFormatCell(Trim(pieces[k]));
      }
      assert escaped == FormatRow(g[i]);
    }
    assert seq(|lines|, i requires 0 <= i < |lines| => WordFallbackRow(lines[i])) == SerializeRows(g);
  }

  /** Every row of the fallback's table has a cell, and no cell is empty or
      starts or ends with whitespace. */
  lemma WordFallbackCellsFilled(text: string)
    ensures forall i :: 0 <= i < |WordFallbackGrid(text)| ==> RowFilled(WordFallbackGrid(text)[i])
  {
    var lines := FallbackLines(text);
    var g := WordFallbackGrid(text);
    KeepNonBlankMembers(Split(text, Literal('\n')));
    forall i | 0 <= i < |g| ensures RowFilled(g[i]) {
      assert lines[i] in lines;
      LineCellsFilled(lines[i]);
    }
  }

  /** A row with a cell, none of whose cells is empty or starts or ends with
      whitespace. */
  predicate RowFilled(cells: seq<string>) {
    cells != [] && forall k :: 0 <= k < |cells| ==> CellFilled(cells[k])
  }

  /** A non-blank line gives at least one cell, and every cell is a trimmed
      non-blank piece. */
  lemma LineCellsFilled(line: string)
    requires !AllWhitespace(line)
    ensures RowFilled(WordFallbackCells(line))
  {
    var split := Split(line, TabsOrWhitespaceRun);
    var pieces := KeepNonBlank(split);
    SplitKeepsNonBlank(line, TabsOrWhitespaceRun);
    KeepNonBlankMembers(split);
    var p :| p in split && !AllWhitespace(p);
    assert p in pieces;
    forall k | 0 <= k < |pieces| ensures CellFilled(Trim(pieces[k])) {
      assert pieces[k] in pieces;
      TrimmedNonBlank(pieces[k]);
    }
  }

  predicate CellFilled(c: string) {
    c != "" && !IsWhitespace(c[0]) && !IsWhitespace(c[|c| - 1])
  }

  /** Reading the fallback's output back gives its table. */
  lemma WordFallbackRoundTrip(text: string)
    requires !AllWhitespace(text)
    ensures ReadGrid(WordFallbackCsv(text)) == WordFallbackGrid(text)
  {
    FallbackKeepsLine(text);
    WordFallbackCellsFilled(text);
    WordFallbackIsSerializeGrid(text);
    GridRoundTrip(WordFallbackGrid(text));
  }
}
