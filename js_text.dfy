/** The JavaScript built-ins the converter leans on, over strings (`seq<char>`)
    and arrays (`seq`): `trim`, the `\s` class, `toLowerCase`, `includes`,
    the two line-ending `replace` calls, `Array.prototype.join` and
    `Array.prototype.filter`. */
module JsText {

  /** The ECMAScript WhiteSpace and LineTerminator code points: the set that
      `String.prototype.trim` strips and that the regular-expression class
      `\s` matches. */
  predicate IsWhitespace(c: char) {
    c == '\t' || c == '\n' || c == '\U{000B}' || c == '\U{000C}' || c == '\r'
    || c == ' ' || c == '\U{00A0}' || c == '\U{1680}'
    || ('\U{2000}' <= c <= '\U{200A}')
    || c == '\U{2028}' || c == '\U{2029}' || c == '\U{202F}' || c == '\U{205F}'
    || c == '\U{3000}' || c == '\U{FEFF}'
  }

  predicate AllWhitespace(s: string) {
    forall i :: 0 <= i < |s| ==> IsWhitespace(s[i])
  }

  lemma AllWhitespaceAppend(a: string, b: string)
    ensures AllWhitespace(a + b) <==> AllWhitespace(a) && AllWhitespace(b)
  {
    if AllWhitespace(a) && AllWhitespace(b) {
      forall i | 0 <= i < |a + b| ensures IsWhitespace((a + b)[i]) {
        if i >= |a| { assert (a + b)[i] == b[i - |a|]; }
      }
    }
    if AllWhitespace(a + b) {
      forall i | 0 <= i < |a| ensures IsWhitespace(a[i]) {
        assert a[i] == (a + b)[i];
      }
      forall i | 0 <= i < |b| ensures IsWhitespace(b[i]) {
        assert b[i] == (a + b)[|a| + i];
      }
    }
  }

  /** Leading whitespace removed. */
  function TrimStart(s: string): (r: string)
    ensures |r| <= |s| && r == s[|s| - |r|..]
    ensures r == [] || !IsWhitespace(r[0])
    ensures AllWhitespace(s[..|s| - |r|])
  {
    if s != [] && IsWhitespace(s[0]) then TrimStart(s[1..]) else s
  }

  /** Trailing whitespace removed. */
  function TrimEnd(s: string): (r: string)
    ensures |r| <= |s| && r == s[..|r|]
    ensures r == [] || !IsWhitespace(r[|r| - 1])
    ensures AllWhitespace(s[|r|..])
  {
    if s != [] && IsWhitespace(s[|s| - 1]) then TrimEnd(s[..|s| - 1]) else s
  }

  /** `String.prototype.trim`: leading and trailing whitespace removed;
      empty exactly when `s` is all whitespace. */
  function Trim(s: string): (r: string)
    ensures r == [] <==> AllWhitespace(s)
  {
    var t := TrimStart(s);
    var r := TrimEnd(t);
    assert r == [] ==> s == s[..|s| - |t|] + t[..0] + t[|r|..];
    r
  }

  /** `r` sits at position `i` of `s` with only whitespace around it. */
  predicate TrimmedAt(s: string, r: string, i: int) {
    0 <= i <= |s| - |r| && r == s[i..i + |r|] && AllWhitespace(s[..i]) && AllWhitespace(s[i + |r|..])
  }

  /** The trimmed string is an infix of `s` that neither starts nor ends with
      whitespace, and only whitespace was cut on either side. */
  lemma TrimShape(s: string)
    ensures exists i :: TrimmedAt(s, Trim(s), i)
    ensures Trim(s) == [] || (!IsWhitespace(Trim(s)[0]) && !IsWhitespace(Trim(s)[|Trim(s)| - 1]))
  {
    var t := TrimStart(s);
    var r := TrimEnd(t);
    assert r == Trim(s);
    TrimInfix(s, t, r);
    assert TrimmedAt(s, Trim(s), |s| - |t|);
    TrimmedEnds(t, r);
  }

  /** Cutting trailing whitespace from a string that does not start with
      whitespace leaves a string that neither starts nor ends with it. */
  lemma TrimmedEnds(t: string, r: string)
    requires t == [] || !IsWhitespace(t[0])
    requires |r| <= |t| && r == t[..|r|] && (r == [] || !IsWhitespace(r[|r| - 1]))
    ensures r == [] || (!IsWhitespace(r[0]) && !IsWhitespace(r[|r| - 1]))
  {
    if r != [] {
      assert r[0] == t[0];
    }
  }

  /** Trimming a non-blank string leaves a non-empty string that neither
      starts nor ends with whitespace. */
  lemma TrimmedNonBlank(s: string)
    requires !AllWhitespace(s)
    ensures Trim(s) != [] && !IsWhitespace(Trim(s)[0]) && !IsWhitespace(Trim(s)[|Trim(s)| - 1])
  {
    TrimShape(s);
  }

  /** Cutting whitespace from the front and then from the back leaves an
      infix with only whitespace on either side. */
  lemma TrimInfix(s: string, t: string, r: string)
    requires |t| <= |s| && t == s[|s| - |t|..] && AllWhitespace(s[..|s| - |t|])
    requires |r| <= |t| && r == t[..|r|] && AllWhitespace(t[|r|..])
    ensures TrimmedAt(s, r, |s| - |t|)
  {
    var i := |s| - |t|;
    assert s[i..][..|r|] == s[i..i + |r|];
    assert s[i + |r|..] == t[|r|..];
  }

  /** Moving the first character of `s` onto `piece` keeps the text. */
  lemma MoveFirst(piece: string, s: string)
    requires s != []
    ensures piece + [s[0]] + s[1..] == piece + s
  {
  }

  lemma Regroup(a: string, b: string, c: string, d: string)
    ensures a + b + c + d == a + (b + c + d)
  {
  }

  /** Trimming adds no character. */
  lemma TrimChars(s: string)
    ensures forall x :: x in Trim(s) ==> x in s
  {
    var t := TrimStart(s);
    assert forall x :: x in t ==> x in s;
  }

  /** The converter's `x.trim()` test, read as a boolean: by `Trim`'s
      contract, a string trims to the empty string exactly when it is all
      whitespace. */
  predicate IsBlank(s: string) {
    AllWhitespace(s)
  }

  predicate NonBlank(s: string) {
    !IsBlank(s)
  }

  /** Number of occurrences of `c` in `s`. */
  function Count(s: string, c: char): nat {
    if s == [] then 0 else (if s[0] == c then 1 else 0) + Count(s[1..], c)
  }

  lemma {:induction false} CountAppend(a: string, b: string, c: char)
    ensures Count(a + b, c) == Count(a, c) + Count(b, c)
  {
    if a != [] {
      assert (a + b)[0] == a[0] && (a + b)[1..] == a[1..] + b;
      CountAppend(a[1..], b, c);
    } else {
      assert a + b == b;
    }
  }

  lemma {:induction false} CountAbsent(s: string, c: char)
    ensures Count(s, c) == 0 <==> c !in s
  {
    if s != [] {
      CountAbsent(s[1..], c);
      assert s == [s[0]] + s[1..];
    }
  }

  /** `s.includes(t)` for a string `t`. */
  predicate HasSubstring(s: string, t: string) {
    exists i :: 0 <= i <= |s| && t <= s[i..]
  }

  /** `toLowerCase` on the ASCII letters; other characters are kept. */
  function LowerChar(c: char): char {
    if 'A' <= c <= 'Z' then (c as int + 32) as char else c
  }

  function ToLower(s: string): string {
    seq(|s|, i requires 0 <= i < |s| => LowerChar(s[i]))
  }

  /** `text.replace(/\r\n/g, '\n')`: left to right, without overlaps. */
  function ReplaceCrLf(s: string): (r: string)
    ensures AllWhitespace(r) <==> AllWhitespace(s)
    ensures '\r' !in s ==> r == s
    decreases |s|
  {
    if |s| >= 2 && s[0] == '\r' && s[1] == '\n' then
      var rest := ReplaceCrLf(s[2..]);
      AllWhitespaceAppend(s[..2], s[2..]);
      AllWhitespaceAppend("\n", rest);
      assert s == s[..2] + s[2..];
      "\n" + rest
    else if s == [] then []
    else
      var rest := ReplaceCrLf(s[1..]);
      AllWhitespaceAppend(s[..1], s[1..]);
      AllWhitespaceAppend([s[0]], rest);
      assert s == s[..1] + s[1..] && s[..1] == [s[0]];
      [s[0]] + rest
  }

  /** `text.replace(/\r/g, '\n')`. */
  function ReplaceCr(s: string): string {
    seq(|s|, i requires 0 <= i < |s| => if s[i] == '\r' then '\n' else s[i])
  }

  /** The lines of `s` as the three line endings cut them: a CRLF pair, a
      lone CR and an LF each end a line. */
  function TextLines(s: string): (r: seq<string>)
    ensures |r| >= 1
    decreases |s|
  {
    if s == [] then [[]]
    else if s[0] == '\n' then [[]] + TextLines(s[1..])
    else if s[0] == '\r' && |s| >= 2 && s[1] == '\n' then [[]] + TextLines(s[2..])
    else if s[0] == '\r' then [[]] + TextLines(s[1..])
    else
      var rest := TextLines(s[1..]);
      [[s[0]] + rest[0]] + rest[1..]
  }

  /** No line holds a CR or an LF. */
  lemma {:induction false} TextLinesBreakFree(s: string)
    ensures forall i :: 0 <= i < |TextLines(s)| ==> '\r' !in TextLines(s)[i] && '\n' !in TextLines(s)[i]
    decreases |s|
  {
    if s == [] {
    } else if s[0] == '\n' || s[0] == '\r' {
      var k := if s[0] == '\r' && |s| >= 2 && s[1] == '\n' then 2 else 1;
      TextLinesBreakFree(s[k..]);
      assert TextLines(s) == [[]] + TextLines(s[k..]);
    } else {
      TextLinesBreakFree(s[1..]);
      var rest := TextLines(s[1..]);
      assert TextLines(s) == [[s[0]] + rest[0]] + rest[1..];
    }
  }

  /** The two `replace` calls that every text path applies before splitting
      into lines: afterwards no carriage return is left, a text without one
      is unchanged, and blankness is preserved. */
  function NormalizeLineEndings(s: string): (r: string)
    ensures '\r' !in r
    ensures '\r' !in s ==> r == s
    ensures AllWhitespace(r) <==> AllWhitespace(s)
  {
    var t := ReplaceCrLf(s);
    var r := ReplaceCr(t);
    assert '\r' !in t ==> r == t;
    assert AllWhitespace(r) <==> AllWhitespace(t) by {
      assert forall i :: 0 <= i < |t| ==> (IsWhitespace(r[i]) <==> IsWhitespace(t[i]));
    }
    r
  }

  lemma ReplaceCrAppend(a: string, b: string)
    ensures ReplaceCr(a + b) == ReplaceCr(a) + ReplaceCr(b)
  {
    assert forall i :: 0 <= i < |a + b| ==> ReplaceCr(a + b)[i] == (ReplaceCr(a) + ReplaceCr(b))[i];
  }

  /** Normalising line endings gives the lines of the text, cut at CRLF,
      lone CR and LF alike, joined with LF. */
  lemma NormalizeJoinsLines(s: string)
    ensures NormalizeLineEndings(s) == Join(TextLines(s), "\n")
  {
    ReplacedIsJoinedLines(s);
  }

  /** Both replacements together produce the joined lines. */
  lemma {:induction false} ReplacedIsJoinedLines(s: string)
    ensures ReplaceCr(ReplaceCrLf(s)) == Join(TextLines(s), "\n")
    decreases |s|
  {
    if s == [] {
    } else if s[0] == '\r' && |s| >= 2 && s[1] == '\n' {
      ReplacedIsJoinedLines(s[2..]);
      ReplaceCrAppend("\n", ReplaceCrLf(s[2..]));
      JoinCons([], TextLines(s[2..]), "\n");
      assert [] + "\n" == "\n";
    } else {
      assert ReplaceCrLf(s) == [s[0]] + ReplaceCrLf(s[1..]);
      ReplacedIsJoinedLines(s[1..]);
      ReplaceCrAppend([s[0]], ReplaceCrLf(s[1..]));
      if s[0] == '\n' || s[0] == '\r' {
        assert ReplaceCr([s[0]]) == "\n";
        JoinCons([], TextLines(s[1..]), "\n");
        assert [] + "\n" == "\n";
      } else {
        assert ReplaceCr([s[0]]) == [s[0]];
        JoinPrepend(s[0], TextLines(s[1..]), "\n");
      }
    }
  }

  /** `Array.prototype.join(sep)` on an array of strings. */
  function Join(parts: seq<string>, sep: string): string {
    if parts == [] then ""
    else if |parts| == 1 then parts[0]
    else parts[0] + sep + Join(parts[1..], sep)
  }

  lemma JoinCons(p: string, rest: seq<string>, sep: string)
    requires rest != []
    ensures Join([p] + rest, sep) == p + sep + Join(rest, sep)
  {
    assert ([p] + rest)[1..] == rest;
  }

  lemma JoinPrepend(c: char, parts: seq<string>, sep: string)
    requires parts != []
    ensures Join([[c] + parts[0]] + parts[1..], sep) == [c] + Join(parts, sep)
  {
    if |parts| >= 2 {
      JoinCons([c] + parts[0], parts[1..], sep);
      JoinCons(parts[0], parts[1..], sep);
      assert [parts[0]] + parts[1..] == parts;
    }
  }

  /** A character in neither the parts nor the separator is not in the join. */
  lemma {:induction false} JoinAvoids(parts: seq<string>, sep: string, x: char)
    requires x !in sep
    requires forall i :: 0 <= i < |parts| ==> x !in parts[i]
    ensures x !in Join(parts, sep)
  {
    if |parts| >= 2 {
      JoinAvoids(parts[1..], sep, x);
    }
  }

  /** Joining parts that do not hold `c` with `c` itself puts exactly one
      `c` between each two parts. */
  lemma {:induction false} JoinSeparatorCount(parts: seq<string>, c: char)
    requires parts != []
    requires forall i :: 0 <= i < |parts| ==> c !in parts[i]
    ensures Count(Join(parts, [c]), c) == |parts| - 1
  {
    CountAbsent(parts[0], c);
    if |parts| >= 2 {
      JoinSeparatorCount(parts[1..], c);
      CountAppend(parts[0] + [c], Join(parts[1..], [c]), c);
      CountAppend(parts[0], [c], c);
    }
  }

  /** `xs.filter(x => x.trim())`: the non-blank strings, in order. Written
      from the last element so that it matches a loop that appends. */
  function KeepNonBlank(xs: seq<string>): (r: seq<string>)
    ensures |r| <= |xs|
  {
    if xs == [] then []
    else KeepNonBlank(xs[..|xs| - 1]) + (if NonBlank(xs[|xs| - 1]) then [xs[|xs| - 1]] else [])
  }

  /** The kept strings are exactly the non-blank ones. */
  lemma {:induction false} KeepNonBlankMembers(xs: seq<string>)
    ensures forall i :: 0 <= i < |KeepNonBlank(xs)| ==> NonBlank(KeepNonBlank(xs)[i])
    ensures forall x :: x in KeepNonBlank(xs) <==> x in xs && NonBlank(x)
  {
    if xs != [] {
      var init := xs[..|xs| - 1];
      KeepNonBlankMembers(init);
      assert xs == init + [xs[|xs| - 1]];
    }
  }

  lemma {:induction false} KeepNonBlankAppend(a: seq<string>, b: seq<string>)
    ensures KeepNonBlank(a + b) == KeepNonBlank(a) + KeepNonBlank(b)
  {
    if b != [] {
      var init := b[..|b| - 1];
      assert (a + b)[..|a + b| - 1] == a + init;
      KeepNonBlankAppend(a, init);
    } else {
      assert a + b == a;
    }
  }

  /** Nothing is dropped when nothing is blank. */
  lemma {:induction false} KeepNonBlankAll(xs: seq<string>)
    requires forall i :: 0 <= i < |xs| ==> NonBlank(xs[i])
    ensures KeepNonBlank(xs) == xs
  {
    if xs != [] {
      KeepNonBlankAll(xs[..|xs| - 1]);
    }
  }

  /** Sum of a sequence of naturals, from the last element. */
  function Sum(xs: seq<nat>): nat {
    if xs == [] then 0 else Sum(xs[..|xs| - 1]) + xs[|xs| - 1]
  }

  function Min(a: nat, b: nat): nat {
    if a <= b then a else b
  }
}
