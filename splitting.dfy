/** `String.prototype.split` with the separators the converter passes to it:
    a single literal character, the regular expression `/\s{2,}/` and the
    regular expression `/\t+|\s{2,}/`. All three are handled by one scan:
    at each position the separator either matches a non-empty prefix of
    what is left (which ends the current piece) or it does not (and the
    character joins the current piece), exactly as the split algorithm of
    ECMAScript section 22.1.3.23 tries its matcher position by position. */
module Splitting {
  import opened JsText

  datatype Separator =
    | Literal(c: char)      // line.split(c)
    | WhitespaceRun         // line.split(/\s{2,}/)
    | TabsOrWhitespaceRun   // line.split(/\t+|\s{2,}/)

  /** The delimiters both text converters try, in this order: tab, pipe,
      semicolon, comma, and a run of two or more whitespace characters. */
  const Delimiters: seq<Separator> :=
    [Literal('\t'), Literal('|'), Literal(';'), Literal(','), WhitespaceRun]

  /** Length of the longest all-whitespace prefix of `s`. */
  function WhitespacePrefix(s: string): (n: nat)
    ensures n <= |s|
    ensures AllWhitespace(s[..n])
    ensures n < |s| ==> !IsWhitespace(s[n])
  {
    if s != [] && IsWhitespace(s[0]) then
      var n := 1 + WhitespacePrefix(s[1..]);
      assert s[..n] == [s[0]] + s[1..][..n - 1];
      AllWhitespaceAppend([s[0]], s[1..][..n - 1]);
      n
    else 0
  }

  /** Length of the longest all-tab prefix of `s`. */
  function TabPrefix(s: string): (n: nat)
    ensures n <= |s|
    ensures forall i :: 0 <= i < n ==> s[i] == '\t'
    ensures n < |s| ==> s[n] != '\t'
  {
    if s != [] && s[0] == '\t' then 1 + TabPrefix(s[1..]) else 0
  }

  /** Greedy `/\s{2,}/` anchored at the start of `s`: the whole leading
      whitespace run when it has two characters or more. */
  function WhitespaceRunMatch(s: string): nat {
    var k := WhitespacePrefix(s);
    if k >= 2 then k else 0
  }

  /** Length of the separator's match at the start of `s`, 0 when it does
      not match there. None of the three separators matches the empty string.
      The alternation `\t+|\s{2,}` tries `\t+` first, so a tab run is taken
      alone even when other whitespace follows it. */
  function MatchLength(sep: Separator, s: string): (n: nat)
    ensures n <= |s|
  {
    match sep
    case Literal(c) => if s != [] && s[0] == c then 1 else 0
    case WhitespaceRun => WhitespaceRunMatch(s)
    case TabsOrWhitespaceRun =>
      if s != [] && s[0] == '\t' then TabPrefix(s) else WhitespaceRunMatch(s)
  }

  /** The scan behind `split`, with `piece` the characters collected since
      the last match. */
  function SplitFrom(s: string, sep: Separator, piece: string): (r: seq<string>)
    ensures |r| >= 1
    decreases |s|
  {
    if s == [] then [piece]
    else
      var m := MatchLength(sep, s);
      if m > 0 then [piece] + SplitFrom(s[m..], sep, [])
      else SplitFrom(s[1..], sep, piece + [s[0]])
  }

  /** `s.split(sep)`; the empty string splits into one empty piece. */
  function Split(s: string, sep: Separator): (r: seq<string>)
    ensures |r| >= 1
    ensures s == [] ==> r == [[]]
  {
    SplitFrom(s, sep, [])
  }

  /** A separator all of whose matches consist of whitespace. */
  predicate MatchesOnlyWhitespace(sep: Separator) {
    sep.Literal? ==> IsWhitespace(sep.c)
  }

  lemma MatchIsWhitespace(sep: Separator, s: string)
    requires MatchesOnlyWhitespace(sep)
    ensures AllWhitespace(s[..MatchLength(sep, s)])
  {
    if sep.TabsOrWhitespaceRun? && s != [] && s[0] == '\t' {
      var n := TabPrefix(s);
      assert forall i :: 0 <= i < n ==> s[..n][i] == '\t';
    }
  }

  /** Joining the pieces of a split on a character with that character gives
      the string back. */
  lemma {:induction false} SplitLiteralJoin(s: string, c: char)
    ensures Join(Split(s, Literal(c)), [c]) == s
  {
    SplitFromLiteralJoin(s, c, []);
  }

  lemma {:induction false} SplitFromLiteralJoin(s: string, c: char, piece: string)
    ensures Join(SplitFrom(s, Literal(c), piece), [c]) == piece + s
    decreases |s|
  {
    if s == [] {
    } else if s[0] == c {
      assert SplitFrom(s, Literal(c), piece) == [piece] + SplitFrom(s[1..], Literal(c), []);
      SplitFromLiteralJoin(s[1..], c, []);
      JoinAtSeparator(piece, SplitFrom(s[1..], Literal(c), []), s);
    } else {
      assert SplitFrom(s, Literal(c), piece) == SplitFrom(s[1..], Literal(c), piece + [s[0]]);
      SplitFromLiteralJoin(s[1..], c, piece + [s[0]]);
      MoveFirst(piece, s);
    }
  }

  lemma JoinAtSeparator(piece: string, rest: seq<string>, s: string)
    requires s != [] && rest != []
    requires Join(rest, [s[0]]) == [] + s[1..]
    ensures Join([piece] + rest, [s[0]]) == piece + s
  {
    JoinCons(piece, rest, [s[0]]);
    assert [] + s[1..] == s[1..];
    MoveFirst(piece, s);
  }

  /** A split on a character yields one more piece than the character has
      occurrences. */
  lemma {:induction false} SplitLiteralCount(s: string, c: char)
    ensures |Split(s, Literal(c))| == Count(s, c) + 1
  {
    SplitFromLiteralCount(s, c, []);
  }

  lemma {:induction false} SplitFromLiteralCount(s: string, c: char, piece: string)
    ensures |SplitFrom(s, Literal(c), piece)| == Count(s, c) + 1
    decreases |s|
  {
    if s != [] {
      if s[0] == c {
        SplitFromLiteralCount(s[1..], c, []);
      } else {
        SplitFromLiteralCount(s[1..], c, piece + [s[0]]);
      }
    }
  }

  lemma WhitespacePrefixMonotone(t: string, u: string)
    ensures WhitespacePrefix(t + u) >= WhitespacePrefix(t)
  {
  }

  lemma TabPrefixMonotone(t: string, u: string)
    ensures TabPrefix(t + u) >= TabPrefix(t)
  {
  }

  /** A match stays a match when more text follows. */
  lemma MatchMonotone(sep: Separator, t: string, u: string)
    requires MatchLength(sep, t) > 0
    ensures MatchLength(sep, t + u) > 0
  {
    WhitespacePrefixMonotone(t, u);
    TabPrefixMonotone(t, u);
    assert (t + u)[0] == t[0];
  }

  /** No position of `p` starts a match of the separator. */
  predicate MatchFree(sep: Separator, p: string) {
    forall i :: 0 <= i < |p| ==> MatchLength(sep, p[i..]) == 0
  }

  /** No position of `piece` starts a match when `s` follows it. */
  predicate MatchFreeBefore(sep: Separator, piece: string, s: string) {
    forall i :: 0 <= i < |piece| ==> MatchLength(sep, piece[i..] + s) == 0
  }

  /** No piece of a split contains a match of its separator: `split` cuts
      at every occurrence. For a character separator, no piece contains the
      character; for `/\s{2,}/`, no piece has two whitespace characters in a
      row. */
  lemma SplitRemovesSeparators(s: string, sep: Separator)
    ensures forall p :: p in Split(s, sep) ==> MatchFree(sep, p)
  {
    SplitFromRemovesSeparators(s, sep, []);
  }

  lemma {:induction false} SplitFromRemovesSeparators(s: string, sep: Separator, piece: string)
    requires MatchFreeBefore(sep, piece, s)
    ensures forall p :: p in SplitFrom(s, sep, piece) ==> MatchFree(sep, p)
    decreases |s|
  {
    if s == [] {
      assert piece + s == piece;
      FinishedPieceMatchFree(sep, piece, s);
    } else if MatchLength(sep, s) > 0 {
      var m := MatchLength(sep, s);
      var rest := SplitFrom(s[m..], sep, []);
      assert SplitFrom(s, sep, piece) == [piece] + rest;
      FinishedPieceMatchFree(sep, piece, s);
      SplitFromRemovesSeparators(s[m..], sep, []);
    } else {
      assert SplitFrom(s, sep, piece) == SplitFrom(s[1..], sep, piece + [s[0]]);
      ExtendMatchFree(sep, piece, s);
      SplitFromRemovesSeparators(s[1..], sep, piece + [s[0]]);
    }
  }

  /** The finished piece inherits "no match" from the longer text after it. */
  lemma FinishedPieceMatchFree(sep: Separator, piece: string, s: string)
    requires MatchFreeBefore(sep, piece, s)
    ensures MatchFree(sep, piece)
  {
    forall i | 0 <= i < |piece| ensures MatchLength(sep, piece[i..]) == 0 {
      if MatchLength(sep, piece[i..]) > 0 {
        MatchMonotone(sep, piece[i..], s);
      }
    }
  }

  /** A character where the separator does not match joins the piece. */
  lemma ExtendMatchFree(sep: Separator, piece: string, s: string)
    requires MatchFreeBefore(sep, piece, s)
    requires s != [] && MatchLength(sep, s) == 0
    ensures MatchFreeBefore(sep, piece + [s[0]], s[1..])
  {
    var piece' := piece + [s[0]];
    forall i | 0 <= i < |piece'| ensures MatchLength(sep, piece'[i..] + s[1..]) == 0 {
      if i < |piece| {
        assert piece'[i..] + s[1..] == piece[i..] + s;
      } else {
        assert piece'[i..] + s[1..] == s;
      }
    }
  }

  /** Number of whitespace characters in a row from position `i` of `s`. */
  function WhitespaceRunAt(s: string, i: nat): (n: nat)
    requires i <= |s|
    ensures i + n <= |s|
    decreases |s| - i
  {
    if i < |s| && IsWhitespace(s[i]) then 1 + WhitespaceRunAt(s, i + 1) else 0
  }

  /** Number of tabs in a row from position `i` of `s`. */
  function TabRunAt(s: string, i: nat): (n: nat)
    requires i <= |s|
    ensures i + n <= |s|
    decreases |s| - i
  {
    if i < |s| && s[i] == '\t' then 1 + TabRunAt(s, i + 1) else 0
  }

  /** Length of the separator's match at position `i` of `s`, by position. */
  function MatchAt(sep: Separator, s: string, i: nat): (n: nat)
    requires i <= |s|
    ensures i + n <= |s|
  {
    var w := WhitespaceRunAt(s, i);
    match sep
    case Literal(c) => if i < |s| && s[i] == c then 1 else 0
    case WhitespaceRun => if w >= 2 then w else 0
    case TabsOrWhitespaceRun =>
      if i < |s| && s[i] == '\t' then TabRunAt(s, i) else if w >= 2 then w else 0
  }

  lemma {:induction false} WhitespaceRunAtPrefix(s: string, i: nat)
    requires i <= |s|
    ensures WhitespaceRunAt(s, i) == WhitespacePrefix(s[i..])
    decreases |s| - i
  {
    if i < |s| {
      WhitespaceRunAtPrefix(s, i + 1);
      assert s[i..][0] == s[i] && s[i..][1..] == s[i + 1..];
    }
  }

  lemma {:induction false} TabRunAtPrefix(s: string, i: nat)
    requires i <= |s|
    ensures TabRunAt(s, i) == TabPrefix(s[i..])
    decreases |s| - i
  {
    if i < |s| {
      TabRunAtPrefix(s, i + 1);
      assert s[i..][0] == s[i] && s[i..][1..] == s[i + 1..];
    }
  }

  /** The match at a position is the match at the start of what follows. */
  lemma MatchAtIsMatchLength(sep: Separator, s: string, i: nat)
    requires i <= |s|
    ensures MatchAt(sep, s, i) == MatchLength(sep, s[i..])
  {
    WhitespaceRunAtPrefix(s, i);
    TabRunAtPrefix(s, i);
    if i < |s| {
      assert s[i..][0] == s[i];
    }
  }

  /** No position from `k` up to `e` starts a match in `s`. */
  predicate NoMatchBetween(sep: Separator, s: string, k: nat, e: nat)
    requires e <= |s|
  {
    forall i :: k <= i < e ==> MatchAt(sep, s, i) == 0
  }

  /** From position `k` on, `s` is the pieces `ps` with a match of `sep`
      between each two, and every cut is the first the scan meets: each piece
      is the text at its position, no position inside it starts a match, the
      match after it has the separator's own length, and the last piece runs
      to the end. */
  predicate CutsFrom(s: string, k: nat, sep: Separator, ps: seq<string>)
    decreases |ps|
  {
    ps != [] && k + |ps[0]| <= |s| && s[k..k + |ps[0]|] == ps[0] &&
    NoMatchBetween(sep, s, k, k + |ps[0]|) &&
    if |ps| == 1 then k + |ps[0]| == |s|
    else
      var e := k + |ps[0]|;
      MatchAt(sep, s, e) > 0 && CutsFrom(s, e + MatchAt(sep, s, e), sep, ps[1..])
  }

  /** `s` cut at its matches of `sep`, left to right, into `ps`. */
  predicate CutAtMatches(s: string, sep: Separator, ps: seq<string>) {
    CutsFrom(s, 0, sep, ps)
  }

  /** The pieces of `split` are exactly the ones that cut `s` at its
      matches, left to right: the split reassembles the string, and no other
      list of pieces does so. */
  lemma SplitIffCut(s: string, sep: Separator, ps: seq<string>)
    ensures CutAtMatches(s, sep, ps) <==> ps == Split(s, sep)
  {
    assert s[0..0] == [] && s[0..] == s;
    ScanIsSplit(s, 0, 0, sep);
    ScanCuts(s, 0, 0, sep);
    if CutAtMatches(s, sep, ps) {
      CutIsScan(s, 0, 0, |ps[0]|, sep, ps);
    }
  }

  /** The scan of `split` over `t`, by position: `t[k..i]` is collected. */
  function ScanFrom(t: string, k: nat, i: nat, sep: Separator): (r: seq<string>)
    requires k <= i <= |t|
    decreases |t| - i
  {
    if i == |t| then [t[k..i]]
    else if MatchAt(sep, t, i) > 0 then
      [t[k..i]] + ScanFrom(t, i + MatchAt(sep, t, i), i + MatchAt(sep, t, i), sep)
    else ScanFrom(t, k, i + 1, sep)
  }

  /** The positional scan is the scan of `split` over the rest of `t`. */
  lemma {:induction false} ScanIsSplit(t: string, k: nat, i: nat, sep: Separator)
    requires k <= i <= |t|
    ensures ScanFrom(t, k, i, sep) == SplitFrom(t[i..], sep, t[k..i])
    decreases |t| - i, 1
  {
    if i == |t| {
      ScanEnd(t, i, sep, t[k..i]);
    } else if MatchAt(sep, t, i) > 0 {
      ScanIsSplitAtMatch(t, k, i, sep);
    } else {
      ScanIsSplitNoMatch(t, k, i, sep);
    }
  }

  lemma {:induction false} ScanIsSplitAtMatch(t: string, k: nat, i: nat, sep: Separator)
    requires k <= i < |t| && MatchAt(sep, t, i) > 0
    ensures ScanFrom(t, k, i, sep) == SplitFrom(t[i..], sep, t[k..i])
    decreases |t| - i, 0
  {
    var m := MatchAt(sep, t, i);
    var rest := ScanFrom(t, i + m, i + m, sep);
    ScanIsSplit(t, i + m, i + m, sep);
    assert t[i + m..i + m] == [];
    ScanMatch(t, i, sep, t[k..i], rest);
  }

  lemma {:induction false} ScanIsSplitNoMatch(t: string, k: nat, i: nat, sep: Separator)
    requires k <= i < |t| && MatchAt(sep, t, i) == 0
    ensures ScanFrom(t, k, i, sep) == SplitFrom(t[i..], sep, t[k..i])
    decreases |t| - i, 0
  {
    ScanIsSplit(t, k, i + 1, sep);
    ScanNoMatch(t, k, i, sep, ScanFrom(t, k, i + 1, sep));
  }

  /** One step of the scan where the separator does not match. */
  lemma ScanNoMatch(t: string, k: nat, i: nat, sep: Separator, ps: seq<string>)
    requires k <= i < |t| && MatchAt(sep, t, i) == 0
    requires ps == SplitFrom(t[i + 1..], sep, t[k..i + 1])
    ensures ps == SplitFrom(t[i..], sep, t[k..i])
  {
    MatchAtIsMatchLength(sep, t, i);
    assert t[i..][1..] == t[i + 1..];
    assert t[k..i] + [t[i..][0]] == t[k..i + 1];
  }

  /** One step of the scan where the separator matches. */
  lemma ScanMatch(t: string, i: nat, sep: Separator, piece: string, rest: seq<string>)
    requires i <= |t| && MatchAt(sep, t, i) > 0
    requires rest == SplitFrom(t[i + MatchAt(sep, t, i)..], sep, [])
    ensures [piece] + rest == SplitFrom(t[i..], sep, piece)
  {
    MatchAtIsMatchLength(sep, t, i);
    assert t[i..][MatchAt(sep, t, i)..] == t[i + MatchAt(sep, t, i)..];
  }

  /** The scan at the end of the text. */
  lemma ScanEnd(t: string, i: nat, sep: Separator, piece: string)
    requires i == |t|
    ensures [piece] == SplitFrom(t[i..], sep, piece)
  {
    assert t[i..] == [];
  }

  /** With `t[k..i]` collected and no match begun inside it, the scan cuts
      `t` from `k` on. */
  lemma {:induction false} ScanCuts(t: string, k: nat, i: nat, sep: Separator)
    requires k <= i <= |t| && NoMatchBetween(sep, t, k, i)
    ensures CutsFrom(t, k, sep, ScanFrom(t, k, i, sep))
    decreases |t| - i
  {
    if i == |t| {
      CutLast(t, k, i, sep);
    } else if MatchAt(sep, t, i) > 0 {
      var m := MatchAt(sep, t, i);
      ScanCuts(t, i + m, i + m, sep);
      CutThenMatch(t, k, i, sep, ScanFrom(t, i + m, i + m, sep));
    } else {
      ScanCuts(t, k, i + 1, sep);
    }
  }

  /** The rest of the text as the last piece. */
  lemma CutLast(t: string, k: nat, i: nat, sep: Separator)
    requires k <= i == |t| && NoMatchBetween(sep, t, k, i)
    ensures CutsFrom(t, k, sep, [t[k..i]])
  {
    assert |t[k..i]| == i - k;
  }

  /** The piece `t[k..i]`, the match at `i`, then a cutting of what follows. */
  lemma CutThenMatch(t: string, k: nat, i: nat, sep: Separator, rest: seq<string>)
    requires k <= i <= |t| && NoMatchBetween(sep, t, k, i)
    requires MatchAt(sep, t, i) > 0
    requires CutsFrom(t, i + MatchAt(sep, t, i), sep, rest)
    ensures CutsFrom(t, k, sep, [t[k..i]] + rest)
  {
    var ps := [t[k..i]] + rest;
    assert |ps[0]| == i - k && ps[1..] == rest;
  }

  /** The first piece, ending at `e`, is the text from `k`; no position
      inside it starts a match; it is the last piece exactly when it runs to
      the end; otherwise a match starts at `e` and the other pieces cut what
      follows it. */
  lemma CutParts(s: string, k: nat, e: nat, sep: Separator, ps: seq<string>)
    requires CutsFrom(s, k, sep, ps) && e == k + |ps[0]|
    ensures e <= |s| && ps[0] == s[k..e] && NoMatchBetween(sep, s, k, e)
    ensures |ps| == 1 <==> e == |s|
    ensures |ps| >= 2 ==>
      MatchAt(sep, s, e) > 0 && CutsFrom(s, e + MatchAt(sep, s, e), sep, ps[1..])
  {
  }

  /** A cutting is what the scan produces: with `t[k..i]` of the first piece
      collected, the scan from `i` yields `ps`. */
  lemma {:induction false} CutIsScan(t: string, k: nat, i: nat, e: nat, sep: Separator, ps: seq<string>)
    requires CutsFrom(t, k, sep, ps) && e == k + |ps[0]| && k <= i <= e
    ensures i <= |t| && ps == ScanFrom(t, k, i, sep)
    decreases |ps|, e - i, 1
  {
    CutParts(t, k, e, sep, ps);
    if i < e {
      CutIsScanInside(t, k, i, e, sep, ps);
    } else if |ps| == 1 {
      assert ps == [t[k..i]];
    } else {
      CutIsScanAtMatch(t, k, e, sep, ps);
    }
  }

  /** Inside the first piece nothing matches, so the scan moves on. */
  lemma {:induction false} CutIsScanInside(t: string, k: nat, i: nat, e: nat, sep: Separator, ps: seq<string>)
    requires CutsFrom(t, k, sep, ps) && e == k + |ps[0]| && k <= i < e
    ensures i < |t| && ps == ScanFrom(t, k, i, sep)
    decreases |ps|, e - i, 0
  {
    CutParts(t, k, e, sep, ps);
    assert MatchAt(sep, t, i) == 0;
    CutIsScan(t, k, i + 1, e, sep, ps);
  }

  /** At the end of the first piece the scan cuts at the match. */
  lemma {:induction false} CutIsScanAtMatch(t: string, k: nat, e: nat, sep: Separator, ps: seq<string>)
    requires CutsFrom(t, k, sep, ps) && e == k + |ps[0]| && |ps| >= 2
    ensures e < |t| && ps == ScanFrom(t, k, e, sep)
    decreases |ps|, 0, 0
  {
    CutParts(t, k, e, sep, ps);
    var m := MatchAt(sep, t, e);
    var rest := ps[1..];
    CutIsScan(t, e + m, e + m, e + m + |rest[0]|, sep, rest);
    assert ps == [t[k..e]] + rest;
  }

  lemma SplitLiteralPieces(s: string, c: char)
    ensures forall p :: p in Split(s, Literal(c)) ==> c !in p
  {
    SplitRemovesSeparators(s, Literal(c));
    forall p | p in Split(s, Literal(c)) ensures c !in p {
      assert MatchFree(Literal(c), p);
      forall i | 0 <= i < |p| ensures p[i] != c {
        assert MatchLength(Literal(c), p[i..]) == 0;
      }
    }
  }

  /** Every character of every piece comes from the string that was split. */
  lemma SplitChars(s: string, sep: Separator)
    ensures forall p, x :: p in Split(s, sep) && x in p ==> x in s
  {
    SplitFromChars(s, sep, []);
  }

  lemma {:induction false} SplitFromChars(s: string, sep: Separator, piece: string)
    ensures forall p, x :: p in SplitFrom(s, sep, piece) && x in p ==> x in piece || x in s
    decreases |s|
  {
    if s == [] {
    } else if MatchLength(sep, s) > 0 {
      var m := MatchLength(sep, s);
      SplitFromChars(s[m..], sep, []);
      assert forall x :: x in s[m..] ==> x in s;
    } else {
      SplitFromChars(s[1..], sep, piece + [s[0]]);
      assert forall x :: x in s[1..] ==> x in s;
    }
  }

  /** A split with a whitespace separator keeps some non-whitespace piece
      when the string has a non-whitespace character. */
  lemma SplitKeepsNonBlank(s: string, sep: Separator)
    requires MatchesOnlyWhitespace(sep)
    requires !AllWhitespace(s)
    ensures exists p :: p in Split(s, sep) && !AllWhitespace(p)
  {
    assert [] + s == s;
    var p := SplitFromKeepsNonBlank(s, sep, []);
  }

  lemma {:induction false} SplitFromKeepsNonBlank(s: string, sep: Separator, piece: string) returns (p: string)
    requires MatchesOnlyWhitespace(sep)
    requires !AllWhitespace(piece + s)
    ensures p in SplitFrom(s, sep, piece) && !AllWhitespace(p)
    decreases |s|
  {
    if s == [] {
      assert piece + s == piece;
      p := piece;
    } else if MatchLength(sep, s) > 0 {
      var m := MatchLength(sep, s);
      assert SplitFrom(s, sep, piece) == [piece] + SplitFrom(s[m..], sep, []);
      if !AllWhitespace(piece) {
        p := piece;
      } else {
        NonBlankAfterMatch(sep, piece, s);
        p := SplitFromKeepsNonBlank(s[m..], sep, []);
      }
    } else {
      assert SplitFrom(s, sep, piece) == SplitFrom(s[1..], sep, piece + [s[0]]);
      MoveFirst(piece, s);
      p := SplitFromKeepsNonBlank(s[1..], sep, piece + [s[0]]);
    }
  }

  /** A whitespace match removes no non-whitespace character. */
  lemma NonBlankAfterMatch(sep: Separator, piece: string, s: string)
    requires MatchesOnlyWhitespace(sep)
    requires !AllWhitespace(piece + s) && AllWhitespace(piece)
    ensures !AllWhitespace([] + s[MatchLength(sep, s)..])
  {
    var m := MatchLength(sep, s);
    MatchIsWhitespace(sep, s);
    var j :| 0 <= j < |piece + s| && !IsWhitespace((piece + s)[j]);
    var k := j - |piece|;
    assert s[k] == (piece + s)[j];
    assert ([] + s[m..])[k - m] == s[k];
  }

  /** A split that yields a single piece leaves the string whole. */
  lemma SingleSplit(s: string, sep: Separator)
    requires |Split(s, sep)| == 1
    ensures Split(s, sep) == [s]
  {
    SingleSplitFrom(s, sep, []);
    assert [] + s == s;
  }

  lemma {:induction false} SingleSplitFrom(s: string, sep: Separator, piece: string)
    requires |SplitFrom(s, sep, piece)| == 1
    ensures SplitFrom(s, sep, piece) == [piece + s]
    decreases |s|
  {
    if s == [] {
      assert piece + s == piece;
    } else if MatchLength(sep, s) == 0 {
      SingleSplitFrom(s[1..], sep, piece + [s[0]]);
      MoveFirst(piece, s);
    }
  }
}
