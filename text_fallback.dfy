/** The text converter that the application falls back on when the utility
    script is not loaded (`convertTextToCSV` in app.js). It differs from
    `advancedTextToCSV`: lines are cut at line feeds only, the first five
    non-blank lines vote, a delimiter is judged by the average number of
    pieces it cuts a line into (blank pieces included), and it qualifies only
    when every test line has at least 80% of that average. */
module TextFallback {
  import opened JsText
  import opened Splitting
  import opened Csv
  import opened Selection
  import opened AdvancedText

  /** The non-blank lines of the text, cut at line feeds only. */
  function FallbackLines(text: string): seq<string> {
    KeepNonBlank(Split(text, Literal('\n')))
  }

  /** The lines that vote: the first five. */
  function TestLines(lines: seq<string>): (r: seq<string>)
    ensures |r| <= 5
  {
    lines[..Min(5, |lines|)]
  }

  /** The number of pieces each test line splits into. */
  function PieceCounts(test: seq<string>, sep: Separator): (r: seq<nat>)
    ensures |r| == |test|
  {
    seq(|test|, i requires 0 <= i < |test| => |Split(test[i], sep)|)
  }

  function Average(counts: seq<nat>): real
    requires counts != []
  {
    Sum(counts) as real / |counts| as real
  }

  /** `columnCounts.every(count => count >= avgColumns * 0.8)`. */
  predicate Balanced(counts: seq<nat>)
    requires counts != []
  {
    forall i :: 0 <= i < |counts| ==> counts[i] as real >= Average(counts) * 0.8
  }

  /** Whether a delimiter may win: some line votes (with no test line the
      average is NaN, and every comparison with NaN is false) and its counts
      are balanced. */
  function Qualifies(test: seq<string>): (r: seq<bool>)
    ensures |r| == |Delimiters|
  {
    seq(|Delimiters|, i requires 0 <= i < |Delimiters| =>
      test != [] && Balanced(PieceCounts(test, Delimiters[i])))
  }

  /** Each delimiter's average piece count (0 when no line votes; the value
      then plays no part, as the delimiter does not qualify). */
  function Averages(test: seq<string>): (r: seq<real>)
    ensures |r| == |Delimiters|
  {
    seq(|Delimiters|, i requires 0 <= i < |Delimiters| =>
      if test == [] then 0.0 else Average(PieceCounts(test, Delimiters[i])))
  }

  function FallbackChoice(test: seq<string>): (k: nat)
    ensures k < |Delimiters|
  {
    BestUpToInvariant(Averages(test), Qualifies(test), |Delimiters|);
    BestIndex(Averages(test), Qualifies(test))
  }

  /** The delimiter loop of `convertTextToCSV`: the first qualifying delimiter
      of greatest average wins, and the tab when none qualifies. */
  method FallbackChooseDelimiter(lines: seq<string>) returns (best: nat, maxColumns: real)
    ensures best == FallbackChoice(TestLines(lines))
    ensures IsFirstBest(Averages(TestLines(lines)), Qualifies(TestLines(lines)), best)
  {
    best, maxColumns := 0, 0.0;
    ghost var test := TestLines(lines);
    ghost var values, qualifies := Averages(test), Qualifies(test);
    var i := 0;
    while i < |Delimiters|
      invariant 0 <= i <= |Delimiters|
      invariant (best, maxColumns) == BestUpTo(values, qualifies, i)
    {
      var testLines := lines[..Min(5, |lines|)];
      assert testLines == test;
      var columnCounts := PieceCounts(testLines, Delimiters[i]);
      assert qualifies[i] == (testLines != [] && Balanced(columnCounts));
      assert BestUpTo(values, qualifies, i + 1) ==
        if qualifies[i] && values[i] > maxColumns then (i, values[i]) else (best, maxColumns);
      if testLines != [] {
        var avgColumns := Average(columnCounts);
        assert avgColumns == values[i];
        if avgColumns > maxColumns && Balanced(columnCounts) {
          maxColumns := avgColumns;
          best := i;
        }
      }
      i := i + 1;
    }
    BestIndexIsFirstBest(values, qualifies, best);
  }

  /** The fallback `convertTextToCSV`: the delimiter vote, then every kept
      line split, trimmed, escaped and joined. */
  method ConvertTextToCsv(text: string) returns (csv: string)
    ensures csv == FallbackToCsv(text)
  {
    var lines := KeepNonBlank(Split(text, Literal('\n')));
    var best, _ := FallbackChooseDelimiter(lines);
    var sep := Delimiters[best];
    csv := Join(seq(|lines|, i requires 0 <= i < |lines| => FallbackRow(lines[i], sep)), "\n");
  }

  /** One output line: every piece of the line, trimmed and escaped. */
  function FallbackRow(line: string, sep: Separator): string {
    var cells := Split(line, sep);
    Join(seq(|cells|, k requires 0 <= k < |cells| => EscapeInline(Trim(cells[k]))), ",")
  }

  /** What the fallback `convertTextToCSV` returns. */
  function FallbackToCsv(text: string): string {
    var lines := FallbackLines(text);
    var sep := Delimiters[FallbackChoice(TestLines(lines))];
    Join(seq(|lines|, i requires 0 <= i < |lines| => FallbackRow(lines[i], sep)), "\n")
  }

  /** The table the fallback reads out of the text. */
  function FallbackGrid(text: string): seq<seq<string>> {
    var lines := FallbackLines(text);
    Rows(lines, Delimiters[FallbackChoice(TestLines(lines))])
  }

  lemma FallbackRowIsSerializeRow(line: string, sep: Separator)
    ensures FallbackRow(line, sep) == SerializeRow(RowCells(line, sep))
  {
    var cells := Split(line, sep);
    var escaped := seq(|cells|, k requires 0 <= k < |cells| => EscapeInline(Trim(cells[k])));
    forall k | 0 <= k < |cells| ensures escaped[k] == FormatRow(RowCells(line, sep))[k] {
      EscapeInlineIsFormatCell(Trim(cells[k]));
    }
    assert escaped == FormatRow(RowCells(line, sep));
  }

  /** The fallback writes exactly the CSV of the table it reads: its inline
      escaping is `formatCSVCell`. */
  lemma FallbackIsSerializeGrid(text: string)
    ensures FallbackToCsv(text) == SerializeGrid(FallbackGrid(text))
  {
    var lines := FallbackLines(text);
    var sep := Delimiters[FallbackChoice(TestLines(lines))];
    var out := seq(|lines|, i requires 0 <= i < |lines| => FallbackRow(lines[i], sep));
    forall i | 0 <= i < |lines| ensures out[i] == SerializeRows(FallbackGrid(text))[i] {
      FallbackRowIsSerializeRow(lines[i], sep);
    }
    assert out == SerializeRows(FallbackGrid(text));
  }

  /** A text with a non-whitespace character keeps some line. */
  lemma FallbackKeepsLine(text: string)
    requires !AllWhitespace(text)
    ensures FallbackLines(text) != []
  {
    SplitKeepsNonBlank(text, Literal('\n'));
    KeepNonBlankMembers(Split(text, Literal('\n')));
  }

  /** Reading the fallback's output back gives the table it read. */
  lemma FallbackRoundTrip(text: string)
    requires !AllWhitespace(text)
    ensures ReadGrid(FallbackToCsv(text)) == FallbackGrid(text)
  {
    FallbackKeepsLine(text);
    FallbackIsSerializeGrid(text);
    GridRoundTrip(FallbackGrid(text));
  }

  /** A text of whitespace only keeps no line. */
  lemma FallbackKeepsNothing(text: string)
    requires AllWhitespace(text)
    ensures FallbackLines(text) == []
  {
    var lines := Split(text, Literal('\n'));
    SplitChars(text, Literal('\n'));
    KeepNonBlankMembers(lines);
    if FallbackLines(text) != [] {
      var l := FallbackLines(text)[0];
      assert l in lines && NonBlank(l);
      forall i | 0 <= i < |l| ensures IsWhitespace(l[i]) {
        assert l[i] in text;
      }
    }
  }

  /** The fallback's output is empty exactly when the text is blank. */
  lemma FallbackEmptyIffBlank(text: string)
    ensures FallbackToCsv(text) == "" <==> AllWhitespace(text)
  {
    FallbackIsSerializeGrid(text);
    if AllWhitespace(text) {
      FallbackKeepsNothing(text);
    } else if FallbackToCsv(text) == "" {
      FallbackRoundTrip(text);
      var lines := FallbackLines(text);
      var sep := Delimiters[FallbackChoice(TestLines(lines))];
      var line := lines[0];
      assert ReadGrid("") == [[""]];
      assert RowCells(line, sep) == [""];
      SingleSplit(line, sep);
      KeepNonBlankMembers(Split(text, Literal('\n')));
    }
  }

  lemma MeanOfConstant(counts: seq<nat>, c: nat)
    requires counts != []
    requires forall i :: 0 <= i < |counts| ==> counts[i] == c
    ensures Average(counts) == c as real
  {
    SumConstant(counts, c);
    MeanOfEqual(|counts|, c);
  }

  /** A delimiter that cuts every test line into the same number of pieces
      qualifies. */
  lemma UniformQualifies(test: seq<string>, i: nat, c: nat)
    requires test != [] && i < |Delimiters|
    requires forall j :: 0 <= j < |test| ==> |Split(test[j], Delimiters[i])| == c
    ensures Qualifies(test)[i]
  {
    MeanOfConstant(PieceCounts(test, Delimiters[i]), c);
  }

  /** Every average is at least 1, so whenever some delimiter qualifies, the
      one chosen qualifies too: its counts are balanced. */
  lemma ChoiceQualifies(test: seq<string>, i: nat)
    requires i < |Delimiters| && Qualifies(test)[i]
    ensures Qualifies(test)[FallbackChoice(test)]
  {
    var counts := PieceCounts(test, Delimiters[i]);
    AverageAtLeastOne(counts);
    BestIndexIsFirstBest(Averages(test), Qualifies(test), FallbackChoice(test));
  }

  lemma {:induction false} SumAtLeastLength(counts: seq<nat>)
    requires forall i :: 0 <= i < |counts| ==> counts[i] >= 1
    ensures Sum(counts) >= |counts|
  {
    if counts != [] {
      SumAtLeastLength(counts[..|counts| - 1]);
    }
  }

  lemma AverageAtLeastOne(counts: seq<nat>)
    requires counts != []
    requires forall i :: 0 <= i < |counts| ==> counts[i] >= 1
    ensures Average(counts) >= 1.0
  {
    SumAtLeastLength(counts);
    FractionAtLeastOne(Sum(counts), |counts|);
  }
}
