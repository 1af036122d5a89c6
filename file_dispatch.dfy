/** Deciding what to do with a file or a typed text, and what to tell the
    user when it fails: `detectFileType`, `handleFileError`, the extension
    switch of `handleFile` and the guard of `processTextInput`. Reading the
    file and decoding it happen outside the model: a conversion is given as
    a function from the route taken to its result. */
module FileDispatch {
  import opened JsText
  import opened Splitting
  import opened Wrappers
  import opened AdvancedText
  import opened TextFallback

  // ---------------------------------------------------------------------
  // Extensions.

  /** `name.split('.').pop()`. */
  function LastSegment(name: string): string {
    var parts := Split(name, Literal('.'));
    parts[|parts| - 1]
  }

  /** `r` is the longest suffix of `s` without a dot: a dot-free suffix that
      is either all of `s` or has a dot just before it. */
  predicate IsLastSegment(s: string, r: string) {
    |r| <= |s| && r == s[|s| - |r|..] && '.' !in r && (|r| == |s| || s[|s| - |r| - 1] == '.')
  }

  lemma {:induction false} JoinSnoc(parts: seq<string>, sep: string)
    requires |parts| >= 2
    ensures Join(parts, sep) == Join(parts[..|parts| - 1], sep) + sep + parts[|parts| - 1]
  {
    var rest := parts[1..];
    if |rest| >= 2 {
      JoinSnoc(rest, sep);
      assert parts[..|parts| - 1] == [parts[0]] + rest[..|rest| - 1];
      JoinCons(parts[0], rest[..|rest| - 1], sep);
    }
  }

  /** The split-and-pop extension is the text after the last dot, or the
      whole name when it has no dot. */
  lemma LastSegmentSpec(name: string)
    ensures IsLastSegment(name, LastSegment(name))
  {
    var parts := Split(name, Literal('.'));
    var r := parts[|parts| - 1];
    SplitLiteralJoin(name, '.');
    SplitLiteralPieces(name, '.');
    assert r in parts;
    if |parts| >= 2 {
      JoinSnoc(parts, ".");
      var front := Join(parts[..|parts| - 1], ".") + ".";
      assert name == front + r;
      assert name[|name| - |r|..] == r;
      assert name[|name| - |r| - 1] == front[|front| - 1];
    }
  }

  /** Only one string is the last segment of a name. */
  lemma LastSegmentUnique(s: string, r1: string, r2: string)
    requires IsLastSegment(s, r1) && IsLastSegment(s, r2)
    ensures r1 == r2
  {
  }

  /** Lower-casing maps a dot to a dot and nothing else to a dot. */
  lemma LowerCharDot(c: char)
    ensures LowerChar(c) == '.' <==> c == '.'
  {
  }

  /** Lower-casing a name lower-cases its last segment. */
  lemma LowerKeepsSegment(s: string, r: string)
    requires IsLastSegment(s, r)
    ensures IsLastSegment(ToLower(s), ToLower(r))
  {
    var s', r' := ToLower(s), ToLower(r);
    var k := |s| - |r|;
    assert |s'| == |s| && |r'| == |r|;
    forall i | 0 <= i < |r'| ensures r'[i] == s'[k + i] {
      assert r[i] == s[k + i];
    }
    assert r' == s'[k..];
    forall i | 0 <= i < |r'| ensures r'[i] != '.' {
      assert r[i] in r;
      LowerCharDot(r[i]);
    }
    if |r| < |s| {
      assert s'[k - 1] == LowerChar(s[k - 1]);
      LowerCharDot(s[k - 1]);
    }
  }

  /** Lower-casing before or after taking the extension gives the same
      result: `detectFileType` does the one and `handleFile` the other. */
  lemma LowerCommutesWithLastSegment(name: string)
    ensures LastSegment(ToLower(name)) == ToLower(LastSegment(name))
  {
    LastSegmentSpec(name);
    LastSegmentSpec(ToLower(name));
    LowerKeepsSegment(name, LastSegment(name));
    LastSegmentUnique(ToLower(name), LastSegment(ToLower(name)), ToLower(LastSegment(name)));
  }

  // ---------------------------------------------------------------------
  // detectFileType.

  datatype FileType = Excel | Word | Text | CsvFile | Unknown

  /** The seven extensions the type map knows; any other string is unknown. */
  function TypeForExtension(ext: string): FileType {
    if ext == "xlsx" || ext == "xls" then Excel
    else if ext == "docx" || ext == "doc" then Word
    else if ext == "txt" || ext == "tsv" then Text
    else if ext == "csv" then CsvFile
    else Unknown
  }

  /** `detectFileType`: the type of the lower-cased name's last segment. */
  function DetectFileType(filename: string): FileType {
    TypeForExtension(LastSegment(ToLower(filename)))
  }

  /** `handleFile`'s own extension: the last segment, then lower-cased. */
  function Extension(name: string): string {
    ToLower(LastSegment(name))
  }

  /** Both orders of lower-casing and splitting name the same extension. */
  lemma DetectFileTypeUsesExtension(filename: string)
    ensures DetectFileType(filename) == TypeForExtension(Extension(filename))
  {
    LowerCommutesWithLastSegment(filename);
  }

  /** A known type means one of the seven extensions, in any letter case. */
  lemma KnownTypeExtensions(filename: string)
    ensures DetectFileType(filename) != Unknown <==>
      Extension(filename) in {"xlsx", "xls", "docx", "doc", "txt", "tsv", "csv"}
  {
    DetectFileTypeUsesExtension(filename);
  }

  // ---------------------------------------------------------------------
  // The switch in handleFile.

  /** The three readers the switch can call. */
  datatype Route = ExcelRoute | WordRoute | TextRoute

  const UnsupportedMessage: string :=
    "Unsupported file format. Please use .xlsx, .xls, .docx, .txt, or .csv files."

  /** The extension switch: a reader for five extensions, the thrown error
      for any other. */
  function RouteFor(name: string): (r: Result<Route>)
    ensures r.Err? ==> r.message == UnsupportedMessage
  {
    var ext := Extension(name);
    if ext == "xlsx" || ext == "xls" then Ok(ExcelRoute)
    else if ext == "docx" then Ok(WordRoute)
    else if ext == "txt" || ext == "csv" then Ok(TextRoute)
    else Err(UnsupportedMessage)
  }

  /** The switch accepts exactly the files `detectFileType` recognises,
      except `.doc` and `.tsv`, which it recognises but the switch rejects;
      and the reader chosen fits the detected type. */
  lemma RouteAgreesWithDetect(name: string)
    ensures RouteFor(name).Ok? <==> DetectFileType(name) != Unknown && Extension(name) !in {"doc", "tsv"}
    ensures RouteFor(name) == Ok(ExcelRoute) <==> DetectFileType(name) == Excel
    ensures RouteFor(name) == Ok(WordRoute) ==> DetectFileType(name) == Word
    ensures RouteFor(name) == Ok(TextRoute) ==> DetectFileType(name) in {Text, CsvFile}
  {
    DetectFileTypeUsesExtension(name);
  }

  // ---------------------------------------------------------------------
  // handleFileError.

  datatype ErrorKind = Corrupted | Unsupported | Empty | TooLarge | Network | Permission | Other

  /** The keywords of each kind, in the order the kinds are tried. */
  const KindOrder: seq<ErrorKind> := [Corrupted, Unsupported, Empty, TooLarge, Network, Permission]
  const Keywords: seq<seq<string>> :=
    [["corrupted", "invalid"], ["unsupported", "format"], ["empty"], ["size", "large"],
     ["network", "fetch"], ["permission", "access"]]

  /** The if-chain of `handleFileError` over the lower-cased message. */
  function Classify(message: string): ErrorKind {
    var m := ToLower(message);
    if HasSubstring(m, "corrupted") || HasSubstring(m, "invalid") then Corrupted
    else if HasSubstring(m, "unsupported") || HasSubstring(m, "format") then Unsupported
    else if HasSubstring(m, "empty") then Empty
    else if HasSubstring(m, "size") || HasSubstring(m, "large") then TooLarge
    else if HasSubstring(m, "network") || HasSubstring(m, "fetch") then Network
    else if HasSubstring(m, "permission") || HasSubstring(m, "access") then Permission
    else Other
  }

  /** `m` holds one of the keywords `ws`. */
  predicate MentionsAny(m: string, ws: seq<string>) {
    ws != [] && (HasSubstring(m, ws[0]) || MentionsAny(m, ws[1..]))
  }

  lemma MentionsOne(m: string, a: string)
    ensures MentionsAny(m, [a]) <==> HasSubstring(m, a)
  {
    assert [a][1..] == [];
  }

  lemma MentionsPair(m: string, a: string, b: string)
    ensures MentionsAny(m, [a, b]) <==> HasSubstring(m, a) || HasSubstring(m, b)
  {
    assert [a, b][1..] == [b];
    MentionsOne(m, b);
  }

  /** The table-driven reading of the rule: the kind of the first group,
      from group `k` on, whose keyword the lower-cased message `m` holds;
      `Other` when there is none. */
  function FirstGroup(m: string, k: nat): ErrorKind
    requires k <= |Keywords|
    decreases |Keywords| - k
  {
    if k == |Keywords| then Other
    else if MentionsAny(m, Keywords[k]) then KindOrder[k]
    else FirstGroup(m, k + 1)
  }

  /** The if-chain tries the groups in the table's order and stops at the
      first whose keyword the message holds. */
  lemma ClassifyIsFirstGroup(message: string)
    ensures Classify(message) == FirstGroup(ToLower(message), 0)
  {
    var m := ToLower(message);
    MentionsPair(m, "corrupted", "invalid");
    MentionsPair(m, "unsupported", "format");
    MentionsOne(m, "empty");
    MentionsPair(m, "size", "large");
    MentionsPair(m, "network", "fetch");
    MentionsPair(m, "permission", "access");
    assert FirstGroup(m, 5) == if MentionsAny(m, ["permission", "access"]) then Permission else Other;
    assert FirstGroup(m, 4) == if MentionsAny(m, ["network", "fetch"]) then Network else FirstGroup(m, 5);
    assert FirstGroup(m, 3) == if MentionsAny(m, ["size", "large"]) then TooLarge else FirstGroup(m, 4);
    assert FirstGroup(m, 2) == if MentionsAny(m, ["empty"]) then Empty else FirstGroup(m, 3);
    assert FirstGroup(m, 1) == if MentionsAny(m, ["unsupported", "format"]) then Unsupported else FirstGroup(m, 2);
    assert FirstGroup(m, 0) == if MentionsAny(m, ["corrupted", "invalid"]) then Corrupted else FirstGroup(m, 1);
  }

  /** Lower-casing leaves a lower-cased string as it is. */
  lemma ToLowerIdempotent(s: string)
    ensures ToLower(ToLower(s)) == ToLower(s)
  {
  }

  /** The kind does not depend on the letter case of the message. */
  lemma ClassifyIgnoresCase(message: string)
    ensures Classify(ToLower(message)) == Classify(message)
  {
    ToLowerIdempotent(message);
  }

  /** `handleFileError`: the message for the kind, naming the file where the
      message has a place for it, and otherwise the original message. */
  function HandleFileError(message: string, filename: string): (r: string)
    ensures Classify(message) in {Corrupted, Unsupported, Empty, TooLarge, Other} ==> HasSubstring(r, filename)
    ensures Classify(message) == Other ==> HasSubstring(r, message)
  {
    match Classify(message)
    case Corrupted =>
      Quoted("The file \"", filename, "\" appears to be corrupted or unreadable.");
      "The file \"" + filename + "\" appears to be corrupted or unreadable."
    case Unsupported =>
      Quoted("The file format of \"", filename, "\" is not supported.");
      "The file format of \"" + filename + "\" is not supported."
    case Empty =>
      Quoted("The file \"", filename, "\" appears to be empty.");
      "The file \"" + filename + "\" appears to be empty."
    case TooLarge =>
      Quoted("The file \"", filename, "\" is too large to process.");
      "The file \"" + filename + "\" is too large to process."
    case Network => "Network error occurred while processing the file."
    case Permission => "Permission denied when trying to read the file."
    case Other =>
      QuotedThen("Error processing \"", filename, "\": ", message);
      "Error processing \"" + filename + "\": " + message
  }

  /** The text between a message's opening and closing parts appears in it. */
  lemma Quoted(before: string, name: string, after: string)
    ensures HasSubstring(before + name + after, name)
  {
    assert name <= (before + name + after)[|before|..];
  }

  /** Both the name and the text after the separator appear in a message
      built as opening, name, separator and tail. */
  lemma QuotedThen(before: string, name: string, separator: string, after: string)
    ensures HasSubstring(before + name + separator + after, name)
    ensures HasSubstring(before + name + separator + after, after)
  {
    var s := before + name + separator + after;
    assert name <= s[|before|..];
    assert after <= s[|before| + |name| + |separator|..];
  }

  /** What the page shows for a failed file: the categorised message when
      the utility script is loaded, the raw message after a prefix when it
      is not. */
  function FailureText(utilsLoaded: bool, message: string, filename: string): string {
    if utilsLoaded then HandleFileError(message, filename)
    else "Error processing file: " + message
  }

  /** The outcome of `handleFile`: the CSV shown, or the message shown. */
  datatype Outcome = Shown(csv: string) | Failed(text: string)

  /** `handleFile` with the reading and decoding given as `convert`, which
      yields the CSV or the message of the error it throws. */
  function HandleFile(name: string, utilsLoaded: bool, convert: Route -> Result<string>): (o: Outcome)
    ensures RouteFor(name).Err? ==> o == Failed(FailureText(utilsLoaded, UnsupportedMessage, name))
    ensures RouteFor(name).Ok? ==>
      (o.Shown? <==> convert(RouteFor(name).value).Ok?)
  {
    match RouteFor(name)
    case Err(m) => Failed(FailureText(utilsLoaded, m, name))
    case Ok(route) =>
      match convert(route)
      case Ok(csv) => Shown(csv)
      case Err(m) => Failed(FailureText(utilsLoaded, m, name))
  }

  // ---------------------------------------------------------------------
  // Text typed into the page.

  /** `convertTextToCSV` in the page: the utility converter when the script
      is loaded, the fallback otherwise. */
  function ConvertText(text: string, utilsLoaded: bool): string {
    if utilsLoaded then TextToCsv(text) else FallbackToCsv(text)
  }

  const EmptyInputMessage: string := "Please enter some text data"

  /** `processTextInput`: trims the input, rejects it when nothing is left,
      and converts the trimmed text otherwise. */
  function ProcessTextInput(input: string, utilsLoaded: bool): (r: Result<string>)
    ensures r.Err? <==> AllWhitespace(input)
    ensures r.Err? ==> r.message == EmptyInputMessage
  {
    var text := Trim(input);
    if text == "" then Err(EmptyInputMessage) else Ok(ConvertText(text, utilsLoaded))
  }

  /** Accepted input always gives a non-empty CSV, with either converter. */
  lemma AcceptedInputConverts(input: string, utilsLoaded: bool)
    requires ProcessTextInput(input, utilsLoaded).Ok?
    ensures ProcessTextInput(input, utilsLoaded).value != ""
  {
    var text := Trim(input);
    TextToCsvEmptyIffBlank(text);
    FallbackEmptyIffBlank(text);
  }
}
