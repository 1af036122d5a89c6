# File to CSV converter: a verified model of the conversion core

The converter turns spreadsheets, Word documents, HTML tables and pasted
text into CSV in the browser. This project models the part of it that does
the work on values, in `script.js` (the utility script) and `app.js` (the
page, with its own fallbacks for when the utility script is not loaded):

- `formatCSVCell` and the inline copies of its escaping rule (`csv.dfy`),
  with an RFC 4180-style reader with LF-terminated records as the partner
  of every serialiser;
- the delimiter inference and conversion of `advancedTextToCSV`
  (`advanced_text.dfy`), on top of a model of JavaScript's `split` with a
  character, `/\s{2,}/` and `/\t+|\s{2,}/` (`splitting.dfy`), of `trim`,
  `toLowerCase`, line-ending normalisation and `join` (`js_text.dfy`), and
  of the "strictly greater replaces the best" selection rule the two
  inference loops share (`selection.dfy`);
- the page's fallback `convertTextToCSV` (`text_fallback.dfy`);
- `flattenHtmlTable` and `htmlTableToCSV` over a table given as data
  (`html_table.dfy`);
- `processExcelWithLineBreaks` over a decoded worksheet, and the page's
  inline Excel fallback (`sheet.dfy`);
- `processWordWithTables` and the page's inline Word fallback
  (`word_text.dfy`);
- `detectFileType`, `handleFileError`, the extension switch and error
  display of `handleFile`, and the guard of `processTextInput`
  (`file_dispatch.dfy`).

The loops of the source (`advancedTextToCSV`, `convertTextToCSV`'s
delimiter loop, `processExcelWithLineBreaks`, `flattenHtmlTable`,
`processWordWithTables`) are methods proved equal to specification
functions; what the source promises is proved about those functions as
lemmas.

Floating-point arithmetic in the scores is modelled with exact reals. The
comparisons the code makes (`> lines.length * 0.3`, `>= avgColumns * 0.8`,
`Math.abs(count - avgColumns) <= 1`) are on small integers and their
quotients; the model reads them as the exact comparisons.

On these points the model follows what the code does:

- `advancedTextToCSV` samples the non-blank lines among the first ten lines
  (script.js:45), not the first ten non-blank lines.
- Its consistency is the fraction of *counted* lines (those with more than
  one non-blank column) whose count is within one of their mean
  (script.js:69-72).
- `detectFileType` knows `.doc` and `.tsv`, but the switch of `handleFile`
  rejects them (app.js:62-76); `RouteAgreesWithDetect` states this.

## Model

| member | source | states |
|---|---|---|
| JsText.Trim | script.js:60 | `trim()` yields the empty string exactly when the string is all ECMAScript whitespace |
| JsText.TrimShape | script.js:95 | the trimmed string is an infix of the original with only whitespace cut on each side, and it neither starts nor ends with whitespace |
| JsText.TrimChars | script.js:95 | trimming adds no character |
| JsText.NormalizeLineEndings | script.js:29 | after replacing CRLF and then CR by LF no CR is left; a string without CR is unchanged; blankness is preserved |
| JsText.TextLinesBreakFree | script.js:29 | the lines of a string, cut at every CRLF, lone CR and LF, hold no CR and no LF |
| JsText.NormalizeJoinsLines | script.js:29 | normalising line endings is exactly joining the string's lines (whichever ending closed each) with LF |
| JsText.KeepNonBlankMembers | script.js:45 | `filter(line => line.trim())` keeps exactly the non-blank strings |
| JsText.KeepNonBlankAppend | script.js:84-85 | filtering distributes over concatenation, so a loop that skips blank lines computes the filter |
| JsText.JoinSeparatorCount | script.js:99 | joining parts free of a character with that character puts exactly one between each two parts |
| JsText.JoinAvoids | script.js:275 | a character absent from the parts and the separator is absent from the join |
| Splitting.Split | script.js:30 | `split` returns at least one piece; the empty string gives one empty piece |
| Splitting.SplitLiteralJoin | script.js:30 | joining the pieces of a split on a character with that character gives the string back |
| Splitting.SplitLiteralCount | script.js:30 | a split on a character yields one more piece than the character's occurrences |
| Splitting.SplitLiteralPieces | script.js:30 | no piece of a split on a character contains it |
| Splitting.SplitRemovesSeparators | script.js:54 | no piece contains a position where the separator matches |
| Splitting.SplitChars | script.js:54 | every character of every piece comes from the split string |
| Splitting.SplitKeepsNonBlank | app.js:147 | splitting a non-blank string on a whitespace separator leaves a non-blank piece |
| Splitting.SingleSplit | script.js:89-91 | a split into one piece returns the string itself |
| Splitting.SplitIffCut | script.js:54 | a list of pieces is the split exactly when the string is those pieces with, between each two, a match of the separator of the length the regex takes there, and no piece holds a position where the separator matches |
| Csv.NeedsQuotingWithoutCrLf | script.js:12-16 | the `\r\n` test of `formatCSVCell` is implied by the `\r` test |
| Csv.DoubleQuotes | script.js:20 | doubling quotes adds one character per quote and doubles the quote count |
| Csv.FormatCell | script.js:9-23 | an unquoted field is returned unchanged; a quoted one starts and ends with `"` and is two plus the quote count longer than the field; the quote count is even |
| Csv.FormatValue | script.js:4-7 | `null`/`undefined` and `""` give `""`; any other value reads back as itself |
| Csv.EscapeInlineIsFormatCell | app.js:110-115 | the page's inline escaping equals `formatCSVCell` on every string |
| Csv.FormatCellKeepsOtherChars | script.js:18-23 | escaping adds or removes no character other than `"` |
| Csv.FieldRoundTrip | script.js:4-24 | an escaped field, followed by anything, reads back as the field |
| Csv.RecordRoundTrip | script.js:95-96 | a row joined with `,` reads back as the row |
| Csv.GridRoundTrip | script.js:132-134 | a non-empty grid with non-empty rows, serialised, reads back as the grid |
| Csv.FormatCellTwice | script.js:18-23 | escaping twice equals escaping once exactly when the field needs no quoting |
| Csv.SerializeRowAvoidsNewline | script.js:96 | a row of fields without LF serialises without LF |
| Csv.SerializeGridNewlines | script.js:99 | a grid of LF-free fields has exactly one LF between each two rows |
| Selection.BestUpToInvariant | script.js:41-42 | after each candidate the best so far is the first eligible one of greatest positive value, or index 0 with value 0 |
| Selection.BestIndexIsFirstBest | script.js:74-77 | the loop's choice is exactly the first eligible candidate of greatest positive value, and the tab when none is positive |
| AdvancedText.ColumnCounts | script.js:51-66 | at most one count per sample line |
| AdvancedText.ColumnCountsCounted | script.js:59-65 | only lines with at least two non-blank columns are counted; no count at all exactly when no line has two |
| AdvancedText.CountColumns | script.js:48-66 | the inner loop computes the counts and their sum |
| AdvancedText.ChooseDelimiter | script.js:41-79 | the delimiter loop picks the first eligible delimiter of greatest positive score (tab by default), and its best score is non-negative |
| AdvancedText.AdvancedTextToCsv | script.js:27-100 | the method's output is the CSV of the table read from the text with the chosen delimiter |
| AdvancedText.ConvertLines | script.js:81-99 | the conversion loop's output is the CSV of one record per non-blank line, each the trimmed pieces of its split |
| AdvancedText.LinesHaveNoBreaks | script.js:29-30 | no line holds CR or LF |
| AdvancedText.SomeLineKept | script.js:84-85 | a text with a non-whitespace character keeps a line |
| AdvancedText.NoLineKept | script.js:84-85 | a blank text keeps no line |
| AdvancedText.CellsHaveNoBreaks | script.js:95 | no cell holds CR or LF |
| AdvancedText.TextRoundTrip | script.js:81-99 | the output reads back as the table of trimmed pieces, one row per non-blank line |
| AdvancedText.TextToCsvEmptyIffBlank | script.js:81-99 | the output is empty exactly when the text is blank |
| AdvancedText.TextLineCount | script.js:96-99 | the output has one line per non-blank line of the whole text |
| AdvancedText.ConsistentScore | script.js:70-72 | when every counted line has the same count, the score is the total column count |
| AdvancedText.ScoreBounds | script.js:64-72 | a score lies between 0 and the total column count |
| TextFallback.FallbackChooseDelimiter | app.js:211-229 | the fallback loop picks the first qualifying delimiter of greatest average, tab by default |
| TextFallback.ConvertTextToCsv | app.js:209-249 | the method's output is the fallback CSV of the text |
| TextFallback.FallbackIsSerializeGrid | app.js:231-249 | the fallback writes exactly the CSV of the table it reads |
| TextFallback.FallbackRoundTrip | app.js:231-249 | the output reads back as that table |
| TextFallback.FallbackEmptyIffBlank | app.js:209 | the output is empty exactly when the text is blank |
| TextFallback.UniformQualifies | app.js:224-225 | a delimiter cutting every test line into the same number of pieces qualifies |
| TextFallback.ChoiceQualifies | app.js:224-228 | when some delimiter qualifies, the one chosen qualifies too |
| TextFallback.AverageAtLeastOne | app.js:224 | every average piece count is at least 1 |
| HtmlTable.FlattenTable | script.js:263-284 | the traversal returns the table's grid, nested tables included |
| HtmlTable.FlattenBody | script.js:265-282 | the loop over a body's rows returns each row's values, rows without a value left out, in order |
| HtmlTable.FlattenRow | script.js:266-281 | one value per `td`/`th` child: a nested table rendered with ` \| ` and LF, otherwise the trimmed text |
| HtmlTable.HtmlTableToCsv | script.js:287-294 | no table gives `""`; otherwise the grid's CSV |
| HtmlTable.ChildValuesEmpty | script.js:268-281 | a row yields no value exactly when it has no `td`/`th` child |
| HtmlTable.ChildValuesWidth | script.js:268-279 | a row's width is its number of `td`/`th` children |
| HtmlTable.FlattenSectionsNonEmpty | script.js:281 | no row of the flattened grid is empty |
| HtmlTable.HtmlRoundTrip | script.js:292-293 | a table's CSV reads back as its grid |
| HtmlTable.HtmlTableToCsvEmpty | script.js:291-293 | the CSV is empty exactly when there is no table, no row with a cell, or a single empty cell |
| HtmlTable.NestedLineCount | script.js:275 | a nested table renders as one line per row when its values hold no LF |
| Sheet.DenseGrid | script.js:107-129 | the grid has one row per range row, each with one value per range column |
| Sheet.ProcessExcelWithLineBreaks | script.js:103-135 | the nested loops produce the CSV of the dense grid, missing cells as `""` |
| Sheet.SheetRoundTrip | script.js:132-134 | the sheet's CSV reads back as its dense grid, line breaks inside cells included |
| Sheet.DefaultRangeIsA1 | script.js:104 | without a used range only cell A1 is written |
| Sheet.TextCellLineBreaks | script.js:118-121 | a value taken from a string is that string's lines, whichever ending closed each, joined with LF, and holds no CR |
| Sheet.ExcelFallbackIsSerializeGrid | app.js:106-117 | the inline Excel fallback writes what `formatCSVCell` and the serialiser write |
| WordText.MatchCount | script.js:198 | a pattern matches at most every line |
| WordText.MaxMatches | script.js:194-203 | the greatest count is at most the number of lines |
| WordText.DetectPattern | script.js:194-203 | the loop returns the greatest match count and the first pattern reaching it, none exactly when no line matches |
| WordText.ProcessWordWithTables | script.js:182-212 | the output is the advanced conversion when more than 30% of the lines match the best pattern, otherwise one escaped line per row; the `bestPattern` test adds nothing |
| WordText.TabularHasPattern | script.js:205 | a text called tabular has a pattern matching more than 30% of its lines |
| WordText.PlainCsvIsSerializeGrid | script.js:210 | the plain path is the CSV of a one-column table of the lines |
| WordText.PlainRoundTrip | script.js:210 | on the plain path each line reads back as one field |
| WordText.PlainLineCount | script.js:184-210 | on the plain path the output has one line per non-blank line |
| WordText.WordEmptyIffBlank | script.js:182-212 | the output is empty exactly when the text is blank |
| WordText.WordFallbackIsSerializeGrid | app.js:145-155 | the inline Word fallback writes its table's CSV |
| WordText.WordFallbackCellsFilled | app.js:147-149 | every row has a cell, and no cell is empty or starts or ends with whitespace |
| WordText.WordFallbackRoundTrip | app.js:145-155 | the fallback's output reads back as its table |
| FileDispatch.LastSegmentSpec | app.js:59 | `split('.').pop()` is the longest dot-free suffix of the name |
| FileDispatch.LastSegmentUnique | app.js:59 | that suffix is unique |
| FileDispatch.LowerCommutesWithLastSegment | script.js:139 | lower-casing before or after taking the extension gives the same extension |
| FileDispatch.DetectFileTypeUsesExtension | script.js:138-151 | `detectFileType` is the type map applied to `handleFile`'s extension |
| FileDispatch.KnownTypeExtensions | script.js:140-150 | a type is known exactly for the seven map keys |
| FileDispatch.RouteFor | app.js:62-76 | any extension but the five accepted ones throws the unsupported-format message |
| FileDispatch.RouteAgreesWithDetect | app.js:62-76 | the switch accepts what `detectFileType` knows except `.doc` and `.tsv`; the Excel route is taken exactly for the Excel type |
| FileDispatch.ClassifyIsFirstGroup | script.js:226-240 | the if-chain picks the first keyword group, in the table's order, that the lower-cased message mentions |
| FileDispatch.ClassifyIgnoresCase | script.js:226 | the category does not depend on letter case |
| FileDispatch.HandleFileError | script.js:215-243 | the file is named in every message that has a place for it; an uncategorised error shows the original message |
| FileDispatch.HandleFile | app.js:59-84 | an unsupported extension fails with the unsupported-format message shown through the error display; otherwise the CSV is shown exactly when the reader succeeds |
| FileDispatch.ProcessTextInput | app.js:185-194 | the input is rejected with "Please enter some text data" exactly when it is blank |
| FileDispatch.AcceptedInputConverts | app.js:185-206 | accepted input gives a non-empty CSV with either converter |

## Left out

- Reading files (`FileReader`, promises), decoding workbooks (`XLSX.read`,
  `decode_range`, `sheet_to_json`) and Word documents
  (`mammoth.extractRawText`), and parsing HTML (`DOMParser`,
  `querySelector`, `innerText`): external libraries and I/O. They are
  inputs here: a worksheet as a range and a map of cells, a table as a
  tree of sections, rows and cells, a document as its extracted text, and
  a reader in `handleFile` as a function from the route to its result.
- `String(value)` of numbers, booleans and dates in a worksheet: given as
  the rendered string.
- Whether the utility script is loaded (`window.FileConverterUtils`): a
  boolean parameter of the page-level functions.
- `validateCSV` and the preview: thin wrappers over `Papa.parse`, which is
  not part of this model.
- `measurePerformance`, the size display with `toFixed`, and the page's
  state, rendering, clipboard and download handling: timing, formatting
  and UI.
- The object-prototype lookup in `detectFileType` (a name ending in
  `.constructor` and the like): only the seven own keys are modelled.
- `toLowerCase` beyond ASCII letters: other characters are kept as they
  are.
- AdvancedText.ChooseDelimiter: scores are exact reals; when two
  candidates' scores are equal as rationals but differ after
  floating-point rounding, or the reverse, the source may choose
  differently.
- TextFallback.FallbackChooseDelimiter: the same holds for the averages
  of the fallback loop.
- FileDispatch.HandleFile: which category the "Unsupported file
  format..." message falls into is not proved; the model states only that
  it goes through `handleFileError`.
- The `catch` of `processTextInput` ("Error converting text: "): the
  modelled converters are total and raise nothing.
