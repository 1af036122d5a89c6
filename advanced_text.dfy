/** `advancedTextToCSV`: plain text with some column delimiter becomes CSV.
    The first ten lines vote on the delimiter (tab, pipe, semicolon, comma or
    a run of two or more whitespace characters); every non-blank line is then
    split on the winner, each piece is trimmed and escaped, and the rows are
    joined with newlines. */
module AdvancedText {
  import opened JsText
  import opened Splitting
  import opened Csv
  import opened Selection

  /** The text split into lines after CRLF and lone CR became LF. */
  function Lines(text: string): seq<string> {
    Split(NormalizeLineEndings(text), Literal('\n'))
  }

  /** The non-blank lines among the first ten. */
  function Sample(lines: seq<string>): seq<string> {
    KeepNonBlank(lines[..Min(10, |lines|)])
  }

  /** The non-blank columns of a line under a delimiter. */
  function Columns(line: string, sep: Separator): seq<string> {
    KeepNonBlank(Split(line, sep))
  }

  function ColumnCount(line: string, sep: Separator): nat {
    |Columns(line, sep)|
  }

  /** Column counts of the sample lines that have more than one non-blank
      column, in line order. */
  function ColumnCounts(sample: seq<string>, sep: Separator): (r: seq<nat>)
    ensures |r| <= |sample|
  {
    if sample == [] then []
    else
      var prev := ColumnCounts(sample[..|sample| - 1], sep);
      var k := ColumnCount(sample[|sample| - 1], sep);
      if k > 1 then prev + [k] else prev
  }

  /** How many counts lie within one of `avg`. */
  function CountNear(counts: seq<nat>, avg: real): (n: nat)
    ensures n <= |counts|
  {
    if counts == [] then 0
    else
      var c := counts[|counts| - 1];
      CountNear(counts[..|counts| - 1], avg) + (if -1.0 <= c as real - avg <= 1.0 then 1 else 0)
  }

  /** How many counts lie within one of their average. */
  function WithinOneOfAverage(counts: seq<nat>): nat
    requires counts != []
  {
    CountNear(counts, Sum(counts) as real / |counts| as real)
  }

  /** The fraction of counted lines whose count is within one of the average. */
  function Consistency(counts: seq<nat>): real
    requires counts != []
  {
    WithinOneOfAverage(counts) as real / |counts| as real
  }

  /** A running column total scaled by the consistency of the counts. */
  function Weighted(total: nat, counts: seq<nat>): real
    requires counts != []
  {
    total as real * Consistency(counts)
  }

  /** A delimiter's score: the total of its counted column counts, scaled by
      their consistency; 0 when no sample line has two columns or more. */
  function Score(sample: seq<string>, sep: Separator): real {
    var counts := ColumnCounts(sample, sep);
    if counts == [] then 0.0 else Weighted(Sum(counts), counts)
  }

  /** Only delimiters that split some sample line into two columns or more
      take part in the comparison. */
  function Eligible(sample: seq<string>): (r: seq<bool>)
    ensures |r| == |Delimiters|
  {
    seq(|Delimiters|, i requires 0 <= i < |Delimiters| => ColumnCounts(sample, Delimiters[i]) != [])
  }

  function Scores(sample: seq<string>): (r: seq<real>)
    ensures |r| == |Delimiters|
  {
    seq(|Delimiters|, i requires 0 <= i < |Delimiters| => Score(sample, Delimiters[i]))
  }

  /** Index of the delimiter the vote picks. */
  function ChosenIndex(sample: seq<string>): (k: nat)
    ensures k < |Delimiters|
  {
    BestUpToInvariant(Scores(sample), Eligible(sample), |Delimiters|);
    BestIndex(Scores(sample), Eligible(sample))
  }

  /** The cells of one line: every piece of the split, trimmed (pieces are
      not filtered here, unlike during the vote). */
  function RowCells(line: string, sep: Separator): (r: seq<string>)
    ensures |r| == |Split(line, sep)|
  {
    var parts := Split(line, sep);
    seq(|parts|, i requires 0 <= i < |parts| => Trim(parts[i]))
  }

  function Rows(lines: seq<string>, sep: Separator): (g: seq<seq<string>>)
    ensures |g| == |lines|
  {
    seq(|lines|, i requires 0 <= i < |lines| => RowCells(lines[i], sep))
  }

  /** The table the converter reads out of the text: one row per non-blank
      line, split on the chosen delimiter. */
  function TextGrid(text: string): seq<seq<string>> {
    var lines := Lines(text);
    Rows(KeepNonBlank(lines), Delimiters[ChosenIndex(Sample(lines))])
  }

  /** What `advancedTextToCSV` returns. */
  function TextToCsv(text: string): string {
    SerializeGrid(TextGrid(text))
  }

  /** The vote over the candidate delimiters. The result is the first
      delimiter of greatest positive score among those that split some sample
      line into two columns or more, and the tab when there is none. */
  method ChooseDelimiter(sample: seq<string>) returns (best: nat, maxScore: real)
    ensures best == ChosenIndex(sample)
    ensures IsFirstBest(Scores(sample), Eligible(sample), best)
    ensures maxScore >= 0.0
  {
    best, maxScore := 0, 0.0;
    var i := 0;
    ghost var values, eligible := Scores(sample), Eligible(sample);
    while i < |Delimiters|
      invariant 0 <= i <= |Delimiters|
      invariant (best, maxScore) == BestUpTo(values, eligible, i)
    {
      var counts, score := CountColumns(sample, Delimiters[i]);
      assert eligible[i] == (|counts| > 0);
      assert values[i] == Score(sample, Delimiters[i]);
      assert BestUpTo(values, eligible, i + 1) ==
        if eligible[i] && values[i] > maxScore then (i, values[i]) else (best, maxScore);
      if |counts| > 0 {
        var s := Weighted(score, counts);
        assert s == values[i];
        if s > maxScore {
          maxScore := s;
          best := i;
        }
      }
      i := i + 1;
    }
    BestIndexIsFirstBest(Scores(sample), Eligible(sample), best);
    BestUpToInvariant(Scores(sample), Eligible(sample), |Delimiters|);
  }

  /** The inner loop of the vote: the column counts of the sample lines with
      more than one non-blank column, and their running total. */
  method CountColumns(sample: seq<string>, sep: Separator) returns (counts: seq<nat>, score: nat)
    ensures counts == ColumnCounts(sample, sep)
    ensures score == Sum(counts)
  {
    score, counts := 0, [];
    var j := 0;
    while j < |sample|
      invariant 0 <= j <= |sample|
      invariant counts == ColumnCounts(sample[..j], sep)
      invariant score == Sum(counts)
    {
      var columns := Columns(sample[j], sep);
      assert |columns| == ColumnCount(sample[j], sep);
      if |columns| > 1 {
        CountedLine(sample, j, sep);
        counts := counts + [|columns|];
        score := score + |columns|;
      } else {
        UncountedLine(sample, j, sep);
      }
      j := j + 1;
    }
    assert sample[..j] == sample;
  }

  /** A line with two non-blank columns or more adds its count, and the
      count to the total. */
  lemma CountedLine(sample: seq<string>, j: nat, sep: Separator)
    requires j < |sample| && ColumnCount(sample[j], sep) > 1
    ensures ColumnCounts(sample[..j + 1], sep) == ColumnCounts(sample[..j], sep) + [ColumnCount(sample[j], sep)]
    ensures Sum(ColumnCounts(sample[..j + 1], sep)) == Sum(ColumnCounts(sample[..j], sep)) + ColumnCount(sample[j], sep)
  {
    assert sample[..j + 1][..j] == sample[..j];
    var before := ColumnCounts(sample[..j], sep);
    assert (before + [ColumnCount(sample[j], sep)])[..|before|] == before;
  }

  /** Any other line adds nothing. */
  lemma UncountedLine(sample: seq<string>, j: nat, sep: Separator)
    requires j < |sample| && ColumnCount(sample[j], sep) <= 1
    ensures ColumnCounts(sample[..j + 1], sep) == ColumnCounts(sample[..j], sep)
  {
    assert sample[..j + 1][..j] == sample[..j];
  }

  /** `advancedTextToCSV` with its conversion loop. */
  method AdvancedTextToCsv(text: string) returns (csv: string)
    ensures csv == TextToCsv(text)
  {
    var lines := Split(NormalizeLineEndings(text), Literal('\n'));
    var sample := KeepNonBlank(lines[..Min(10, |lines|)]);
    var best, _ := ChooseDelimiter(sample);
    csv := ConvertLines(lines, Delimiters[best]);
  }

  /** The conversion loop: every non-blank line, split on the chosen
      delimiter, becomes one CSV record of trimmed, escaped pieces. */
  method ConvertLines(lines: seq<string>, sep: Separator) returns (csv: string)
    ensures csv == SerializeGrid(Rows(KeepNonBlank(lines), sep))
  {
    var csvLines: seq<string> := [];
    var i := 0;
    while i < |lines|
      invariant 0 <= i <= |lines|
      invariant csvLines == SerializeRows(Rows(KeepNonBlank(lines[..i]), sep))
    {
      if NonBlank(lines[i]) {
        var columns := Split(lines[i], sep);
        var processed := ProcessColumns(columns);
        ProcessedRow(lines[i], sep);
        KeptLine(lines, i, sep);
        csvLines := csvLines + [Join(processed, ",")];
      } else {
        SkippedLine(lines, i, sep);
      }
      i := i + 1;
    }
    assert lines[..i] == lines;
    csv := Join(csvLines, "\n");
  }

  /** A non-blank line adds its record to those of the lines before it. */
  lemma KeptLine(lines: seq<string>, i: nat, sep: Separator)
    requires i < |lines| && NonBlank(lines[i])
    ensures SerializeRows(Rows(KeepNonBlank(lines[..i + 1]), sep))
         == SerializeRows(Rows(KeepNonBlank(lines[..i]), sep)) + [SerializeRow(RowCells(lines[i], sep))]
  {
    assert lines[..i + 1] == lines[..i] + [lines[i]];
    KeepNonBlankAppend(lines[..i], [lines[i]]);
    assert [lines[i]][..0] == [];
    RowsSnoc(KeepNonBlank(lines[..i]), lines[i], sep);
  }

  /** A blank line adds no record. */
  lemma SkippedLine(lines: seq<string>, i: nat, sep: Separator)
    requires i < |lines| && !NonBlank(lines[i])
    ensures KeepNonBlank(lines[..i + 1]) == KeepNonBlank(lines[..i])
  {
    assert lines[..i + 1] == lines[..i] + [lines[i]];
    KeepNonBlankAppend(lines[..i], [lines[i]]);
    assert [lines[i]][..0] == [];
    assert KeepNonBlank(lines[..i]) + [] == KeepNonBlank(lines[..i]);
  }

  lemma RowsSnoc(lines: seq<string>, line: string, sep: Separator)
    ensures SerializeRows(Rows(lines + [line], sep))
         == SerializeRows(Rows(lines, sep)) + [SerializeRow(RowCells(line, sep))]
  {
    var g, h := Rows(lines, sep), Rows(lines + [line], sep);
    forall k | 0 <= k < |h| ensures h[k] == (g + [RowCells(line, sep)])[k] {
      if k < |lines| {
        assert (lines + [line])[k] == lines[k];
      }
    }
    assert h == g + [RowCells(line, sep)];
    SerializeRowsSnoc(g, RowCells(line, sep));
  }

  /** `columns.map(col => formatCSVCell(col.trim()))`. */
  function ProcessColumns(columns: seq<string>): seq<string> {
    seq(|columns|, k requires 0 <= k < |columns| => FormatCell(Trim(columns[k])))
  }

  lemma ProcessedRow(line: string, sep: Separator)
    ensures Join(ProcessColumns(Split(line, sep)), ",") == SerializeRow(RowCells(line, sep))
  {
    assert ProcessColumns(Split(line, sep)) == FormatRow(RowCells(line, sep));
  }

  // ---------------------------------------------------------------------
  // What the conversion promises.

  /** No line holds a line break: lines are cut at every line feed, and no
      carriage return survives the normalisation. */
  lemma LinesHaveNoBreaks(text: string)
    ensures forall l :: l in Lines(text) ==> '\n' !in l && '\r' !in l
  {
    var norm := NormalizeLineEndings(text);
    SplitLiteralPieces(norm, '\n');
    SplitChars(norm, Literal('\n'));
  }

  /** A text with a non-whitespace character keeps some line. */
  lemma SomeLineKept(text: string)
    requires !AllWhitespace(text)
    ensures KeepNonBlank(Lines(text)) != []
  {
    var norm := NormalizeLineEndings(text);
    SplitKeepsNonBlank(norm, Literal('\n'));
    KeepNonBlankMembers(Lines(text));
  }

  /** A text of whitespace only keeps no line. */
  lemma NoLineKept(text: string)
    requires AllWhitespace(text)
    ensures KeepNonBlank(Lines(text)) == []
  {
    var norm := NormalizeLineEndings(text);
    var lines := Lines(text);
    SplitChars(norm, Literal('\n'));
    KeepNonBlankMembers(lines);
    if KeepNonBlank(lines) != [] {
      var l := KeepNonBlank(lines)[0];
      assert l in lines && NonBlank(l);
      forall i | 0 <= i < |l| ensures IsWhitespace(l[i]) {
        assert l[i] in norm;
      }
    }
  }

  /** Every cell is a trimmed piece of a line, so no cell holds a line break. */
  lemma CellsHaveNoBreaks(text: string)
    ensures forall i, j :: 0 <= i < |TextGrid(text)| && 0 <= j < |TextGrid(text)[i]| ==>
      '\n' !in TextGrid(text)[i][j] && '\r' !in TextGrid(text)[i][j]
  {
    var lines := Lines(text);
    var kept := KeepNonBlank(lines);
    var sep := Delimiters[ChosenIndex(Sample(lines))];
    var g := TextGrid(text);
    LinesHaveNoBreaks(text);
    KeepNonBlankMembers(lines);
    forall i, j | 0 <= i < |g| && 0 <= j < |g[i]| ensures '\n' !in g[i][j] && '\r' !in g[i][j] {
      var piece := Split(kept[i], sep)[j];
      assert g[i][j] == Trim(piece);
      SplitChars(kept[i], sep);
      TrimChars(piece);
      assert kept[i] in lines;
    }
  }

  /** The text comes back from the CSV it converts to: reading the output
      with the quoting rules gives one row per non-blank line, each holding
      the trimmed pieces of that line. */
  lemma TextRoundTrip(text: string)
    requires !AllWhitespace(text)
    ensures ReadGrid(TextToCsv(text)) == TextGrid(text)
  {
    SomeLineKept(text);
    GridRoundTrip(TextGrid(text));
  }

  /** The output is empty exactly when the text is blank; a non-blank line
      always yields a non-empty record. */
  lemma TextToCsvEmptyIffBlank(text: string)
    ensures TextToCsv(text) == "" <==> AllWhitespace(text)
  {
    if AllWhitespace(text) {
      NoLineKept(text);
    } else if TextToCsv(text) == "" {
      TextRoundTrip(text);
      var lines := Lines(text);
      var sep := Delimiters[ChosenIndex(Sample(lines))];
      var line := KeepNonBlank(lines)[0];
      assert ReadGrid("") == [[""]];
      assert RowCells(line, sep) == [""];
      SingleSplit(line, sep);
      KeepNonBlankMembers(lines);
    }
  }

  /** The output has one line per non-blank input line. */
  lemma TextLineCount(text: string)
    requires !AllWhitespace(text)
    ensures Count(TextToCsv(text), '\n') == |KeepNonBlank(Lines(text))| - 1
  {
    SomeLineKept(text);
    CellsHaveNoBreaks(text);
    SerializeGridNewlines(TextGrid(text));
  }

  // ---------------------------------------------------------------------
  // The score.

  /** Only lines with at least two non-blank columns are counted, and a
      delimiter has no count (and cannot be chosen) exactly when no sample
      line has two such columns. */
  lemma {:induction false} ColumnCountsCounted(sample: seq<string>, sep: Separator)
    ensures forall i :: 0 <= i < |ColumnCounts(sample, sep)| ==> ColumnCounts(sample, sep)[i] >= 2
    ensures ColumnCounts(sample, sep) == [] <==> forall j :: 0 <= j < |sample| ==> ColumnCount(sample[j], sep) <= 1
  {
    CountedAtLeastTwo(sample, sep);
    NoneCounted(sample, sep);
  }

  lemma {:induction false} CountedAtLeastTwo(sample: seq<string>, sep: Separator)
    ensures forall i :: 0 <= i < |ColumnCounts(sample, sep)| ==> ColumnCounts(sample, sep)[i] >= 2
  {
    if sample != [] {
      CountedAtLeastTwo(sample[..|sample| - 1], sep);
    }
  }

  lemma {:induction false} NoneCounted(sample: seq<string>, sep: Separator)
    ensures ColumnCounts(sample, sep) == [] <==> forall j :: 0 <= j < |sample| ==> ColumnCount(sample[j], sep) <= 1
  {
    if sample != [] {
      var init := sample[..|sample| - 1];
      NoneCounted(init, sep);
      assert forall j :: 0 <= j < |init| ==> init[j] == sample[j];
    }
  }

  lemma {:induction false} SumConstant(xs: seq<nat>, c: nat)
    requires forall i :: 0 <= i < |xs| ==> xs[i] == c
    ensures Sum(xs) == |xs| * c
  {
    if xs != [] {
      SumConstant(xs[..|xs| - 1], c);
    }
  }

  lemma {:induction false} CountNearAll(counts: seq<nat>, avg: real)
    requires forall i :: 0 <= i < |counts| ==> -1.0 <= counts[i] as real - avg <= 1.0
    ensures CountNear(counts, avg) == |counts|
  {
    if counts != [] {
      CountNearAll(counts[..|counts| - 1], avg);
    }
  }

  lemma MeanOfEqual(n: nat, c: nat)
    requires n > 0
    ensures (n * c) as real / n as real == c as real
  {
    var x, y := n as real, c as real;
    assert (n * c) as real == x * y;
    assert x * y / x == y;
  }

  lemma FractionBounds(k: nat, n: nat)
    requires 0 < n && k <= n
    ensures 0.0 <= k as real / n as real <= 1.0
  {
  }

  lemma FractionAtLeastOne(k: nat, n: nat)
    requires 0 < n <= k
    ensures k as real / n as real >= 1.0
  {
  }

  lemma ScaleBounds(t: real, x: real)
    requires 0.0 <= t && 0.0 <= x <= 1.0
    ensures 0.0 <= t * x <= t
  {
    assert t * x <= t * 1.0;
  }

  /** Counts that are all equal are all within one of their average. */
  lemma ConsistencyOfEqual(counts: seq<nat>, c: nat)
    requires counts != []
    requires forall i :: 0 <= i < |counts| ==> counts[i] == c
    ensures Consistency(counts) == 1.0
  {
    var n := |counts|;
    SumConstant(counts, c);
    MeanOfEqual(n, c);
    CountNearAll(counts, c as real);
    MeanOfEqual(n, 1);
  }

  /** When every counted line has the same number of columns, the
      consistency is 1 and the score is the plain total. */
  lemma ConsistentScore(sample: seq<string>, sep: Separator, c: nat)
    requires ColumnCounts(sample, sep) != []
    requires forall i :: 0 <= i < |ColumnCounts(sample, sep)| ==> ColumnCounts(sample, sep)[i] == c
    ensures Score(sample, sep) == Sum(ColumnCounts(sample, sep)) as real
  {
    var counts := ColumnCounts(sample, sep);
    ConsistencyOfEqual(counts, c);
    assert Weighted(Sum(counts), counts) == Sum(counts) as real * 1.0;
  }

  lemma WeightedBounds(total: nat, counts: seq<nat>)
    requires counts != []
    ensures 0.0 <= Weighted(total, counts) <= total as real
  {
    FractionBounds(WithinOneOfAverage(counts), |counts|);
    ScaleBounds(total as real, Consistency(counts));
  }

  /** A score lies between 0 and the delimiter's column total. */
  lemma ScoreBounds(sample: seq<string>, sep: Separator)
    ensures 0.0 <= Score(sample, sep) <= Sum(ColumnCounts(sample, sep)) as real
  {
    var counts := ColumnCounts(sample, sep);
    if counts != [] {
      WeightedBounds(Sum(counts), counts);
    }
  }
}
