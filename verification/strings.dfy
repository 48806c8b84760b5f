/**
  The JavaScript string primitives the position model relies on: `String.prototype.trim`
  through a whitespace regular expression, `split` on a character and on `/\s+/`,
  `indexOf` (a substring search), and decimal rendering and parsing of counters.
 */
module Strings {

  // ---------------------------------------------------------------------------
  // Whitespace, trimming and splitting
  // ---------------------------------------------------------------------------

  /** The characters JavaScript's `\s` class matches (WhiteSpace and LineTerminator). */
  predicate IsWhitespace(ch: char) {
    || ch == ' ' || ch == '\t' || ch == '\n' || ch == '\r'
    || ch == '\U{000B}' || ch == '\U{000C}' || ch == '\U{00A0}' || ch == '\U{1680}'
    || ('\U{2000}' <= ch <= '\U{200A}')
    || ch == '\U{2028}' || ch == '\U{2029}' || ch == '\U{202F}' || ch == '\U{205F}'
    || ch == '\U{3000}' || ch == '\U{FEFF}'
  }

  predicate NoWhitespace(s: string) {
    forall i :: 0 <= i < |s| ==> !IsWhitespace(s[i])
  }

  /** Drops the maximal whitespace prefix: `s.replace(/^\s+/, '')`. */
  function TrimStart(s: string): (r: string)
    ensures |r| <= |s| && r == s[|s| - |r|..]
    ensures forall i :: 0 <= i < |s| - |r| ==> IsWhitespace(s[i])
    ensures |r| > 0 ==> !IsWhitespace(r[0])
  {
    if |s| > 0 && IsWhitespace(s[0]) then TrimStart(s[1..]) else s
  }

  /** Drops the maximal whitespace suffix: `s.replace(/\s+$/, '')`. */
  function TrimEnd(s: string): (r: string)
    ensures |r| <= |s| && r == s[..|r|]
    ensures forall i :: |r| <= i < |s| ==> IsWhitespace(s[i])
    ensures |r| > 0 ==> !IsWhitespace(r[|r| - 1])
  {
    if |s| > 0 && IsWhitespace(s[|s| - 1]) then TrimEnd(s[..|s| - 1]) else s
  }

  /** `r` is the slice of `s` at offset `k`, with only whitespace before and after it. */
  predicate IsWhitespaceFramed(s: string, r: string, k: int) {
    && 0 <= k <= |s| - |r| && r == s[k..k + |r|]
    && (forall i :: 0 <= i < k ==> IsWhitespace(s[i]))
    && (forall i :: k + |r| <= i < |s| ==> IsWhitespace(s[i]))
  }

  /**
    `s.replace(/^\s+|\s+$/g, '')`: a middle slice of `s` that neither starts nor ends with
    whitespace, with only whitespace cut off on either side.
   */
  function Trim(s: string): (r: string)
    ensures |r| > 0 ==> !IsWhitespace(r[0]) && !IsWhitespace(r[|r| - 1])
    ensures exists k :: IsWhitespaceFramed(s, r, k)
  {
    var t := TrimStart(s);
    var r := TrimEnd(t);
    TrimFrame(s, t, r);
    r
  }

  /** Cutting a whitespace prefix and then a whitespace suffix leaves a whitespace-framed slice. */
  lemma TrimFrame(s: string, t: string, r: string)
    requires |t| <= |s| && t == s[|s| - |t|..] && forall i :: 0 <= i < |s| - |t| ==> IsWhitespace(s[i])
    requires |r| <= |t| && r == t[..|r|] && forall i :: |r| <= i < |t| ==> IsWhitespace(t[i])
    ensures IsWhitespaceFramed(s, r, |s| - |t|)
  {
    var k := |s| - |t|;
    assert r == s[k..k + |r|];
    forall i | k + |r| <= i < |s|
      ensures IsWhitespace(s[i])
    {
      assert s[i] == t[i - k];
    }
  }

  /** A string that neither starts nor ends with whitespace is its own trim. */
  lemma TrimNoOp(s: string)
    requires |s| > 0 && !IsWhitespace(s[0]) && !IsWhitespace(s[|s| - 1])
    ensures Trim(s) == s
  {
  }

  /** `s.split(/\s+/)`: the pieces between maximal whitespace runs, empty pieces included. */
  function SplitWs(s: string): (parts: seq<string>)
    ensures |parts| >= 1
    ensures forall i :: 0 <= i < |parts| ==> NoWhitespace(parts[i])
    decreases |s|
  {
    if |s| == 0 then [""]
    else if IsWhitespace(s[0]) then [""] + SplitWs(TrimStart(s[1..]))
    else
      var rest := SplitWs(s[1..]);
      [[s[0]] + rest[0]] + rest[1..]
  }

  /** `parts.join(sep)`. */
  function Join(parts: seq<string>, sep: char): string
  {
    if |parts| == 0 then ""
    else if |parts| == 1 then parts[0]
    else parts[0] + [sep] + Join(parts[1..], sep)
  }

  /** Joining non-empty parts gives at least one character per part and one per separator. */
  lemma {:induction false} JoinLength(parts: seq<string>, sep: char)
    requires |parts| >= 1
    requires forall i :: 0 <= i < |parts| ==> |parts[i]| > 0
    ensures |Join(parts, sep)| >= 2 * |parts| - 1
    decreases |parts|
  {
    if |parts| > 1 {
      JoinLength(parts[1..], sep);
    }
  }

  /** `s.split(sep)` for a one-character separator. */
  function Split(s: string, sep: char): (parts: seq<string>)
    ensures |parts| >= 1
    ensures forall i :: 0 <= i < |parts| ==> sep !in parts[i]
    ensures Join(parts, sep) == s
    decreases |s|
  {
    if |s| == 0 then [""]
    else if s[0] == sep then [""] + Split(s[1..], sep)
    else
      var rest := Split(s[1..], sep);
      assert Join(rest, sep) == s[1..];
      JoinConsFirst(s[0], rest, sep);
      [[s[0]] + rest[0]] + rest[1..]
  }

  lemma JoinConsFirst(ch: char, parts: seq<string>, sep: char)
    requires |parts| >= 1
    ensures Join([[ch] + parts[0]] + parts[1..], sep) == [ch] + Join(parts, sep)
  {
    var q := [[ch] + parts[0]] + parts[1..];
    if |parts| > 1 {
      assert q[1..] == parts[1..];
    }
  }

  /** Splitting a piece that holds no separator gives that piece back. */
  lemma {:induction false} SplitNoSeparator(s: string, sep: char)
    requires sep !in s
    ensures Split(s, sep) == [s]
    decreases |s|
  {
    if |s| > 0 {
      assert sep !in s[1..];
      SplitNoSeparator(s[1..], sep);
      assert [s[0]] + s[1..] == s;
    }
  }

  /** A separator after a separator-free prefix ends the first piece. */
  lemma {:induction false} SplitAfterPrefix(x: string, t: string, sep: char)
    requires sep !in x
    ensures Split(x + [sep] + t, sep) == [x] + Split(t, sep)
    decreases |x|
  {
    if |x| == 0 {
      assert x + [sep] + t == [sep] + t;
      assert ([sep] + t)[1..] == t;
    } else {
      var s := x + [sep] + t;
      assert s[0] == x[0] && s[0] != sep;
      assert s[1..] == x[1..] + [sep] + t;
      assert sep !in x[1..];
      SplitAfterPrefix(x[1..], t, sep);
      assert [x[0]] + x[1..] == x;
    }
  }

  /** `split` undoes `join` when no piece holds the separator. */
  lemma {:induction false} SplitJoin(parts: seq<string>, sep: char)
    requires |parts| >= 1
    requires forall i :: 0 <= i < |parts| ==> sep !in parts[i]
    ensures Split(Join(parts, sep), sep) == parts
    decreases |parts|
  {
    if |parts| == 1 {
      SplitNoSeparator(parts[0], sep);
    } else {
      SplitJoin(parts[1..], sep);
      SplitAfterPrefix(parts[0], Join(parts[1..], sep), sep);
      assert [parts[0]] + parts[1..] == parts;
    }
  }

  /** A whitespace-free piece splits to itself. */
  lemma {:induction false} SplitWsNoWhitespace(s: string)
    requires NoWhitespace(s)
    ensures SplitWs(s) == [s]
    decreases |s|
  {
    if |s| > 0 {
      SplitWsNoWhitespace(s[1..]);
      assert [s[0]] + s[1..] == s;
    }
  }

  /** One space after a whitespace-free prefix, followed by a non-whitespace character, ends the first piece. */
  lemma {:induction false} SplitWsAfterPrefix(x: string, t: string)
    requires NoWhitespace(x)
    requires |t| > 0 && !IsWhitespace(t[0])
    ensures SplitWs(x + [' '] + t) == [x] + SplitWs(t)
    decreases |x|
  {
    if |x| == 0 {
      assert x + [' '] + t == [' '] + t;
      SplitWsAtSpace(t);
    } else {
      var u := x[1..] + [' '] + t;
      assert x + [' '] + t == [x[0]] + u;
      SplitWsCons(x[0], u);
      SplitWsAfterPrefix(x[1..], t);
      assert [x[0]] + x[1..] == x;
    }
  }

  lemma SplitWsAtSpace(t: string)
    requires |t| > 0 && !IsWhitespace(t[0])
    ensures SplitWs([' '] + t) == [""] + SplitWs(t)
  {
    assert ([' '] + t)[1..] == t;
  }

  lemma SplitWsCons(ch: char, u: string)
    requires !IsWhitespace(ch)
    ensures SplitWs([ch] + u) == [[ch] + SplitWs(u)[0]] + SplitWs(u)[1..]
  {
    assert ([ch] + u)[1..] == u;
  }

  /** Splitting on whitespace undoes a single-space join of non-empty whitespace-free pieces. */
  lemma {:induction false} SplitWsJoin(parts: seq<string>)
    requires |parts| >= 1
    requires forall i :: 0 <= i < |parts| ==> |parts[i]| > 0 && NoWhitespace(parts[i])
    ensures SplitWs(Join(parts, ' ')) == parts
    decreases |parts|
  {
    if |parts| == 1 {
      SplitWsNoWhitespace(parts[0]);
    } else {
      var rest := Join(parts[1..], ' ');
      assert Join(parts, ' ') == parts[0] + [' '] + rest;
      JoinStartsWith(parts[1..], ' ');
      assert rest[0] == parts[1][0];
      SplitWsJoin(parts[1..]);
      SplitWsAfterPrefix(parts[0], rest);
      assert [parts[0]] + parts[1..] == parts;
    }
  }

  /** `s` with every maximal whitespace run replaced by one space. */
  function CollapseWhitespace(s: string): (r: string)
    decreases |s|
  {
    if |s| == 0 then ""
    else if IsWhitespace(s[0]) then " " + CollapseWhitespace(TrimStart(s[1..]))
    else [s[0]] + CollapseWhitespace(s[1..])
  }

  /**
    The converse of `SplitWsJoinTrimmed`: the pieces of a trimmed non-empty text are non-empty,
    and joining them with single spaces gives the text back with each whitespace run
    collapsed to one space.
   */
  lemma SplitWsTrimmed(s: string)
    requires |s| > 0 && !IsWhitespace(s[0]) && !IsWhitespace(s[|s| - 1])
    ensures forall i :: 0 <= i < |SplitWs(s)| ==> |SplitWs(s)[i]| > 0
    ensures Join(SplitWs(s), ' ') == CollapseWhitespace(s)
  {
    SplitWsCollapses(s);
  }

  /** For a text not ending in whitespace, only the first piece may be empty, and it is not when the text starts with a non-whitespace character. */
  lemma {:induction false} SplitWsCollapses(s: string)
    requires |s| == 0 || !IsWhitespace(s[|s| - 1])
    ensures forall i :: 1 <= i < |SplitWs(s)| ==> |SplitWs(s)[i]| > 0
    ensures |s| > 0 && !IsWhitespace(s[0]) ==> |SplitWs(s)[0]| > 0
    ensures Join(SplitWs(s), ' ') == CollapseWhitespace(s)
    decreases |s|
  {
    if |s| > 0 {
      if IsWhitespace(s[0]) {
        var t := TrimStart(s[1..]);
        TrimStartKeepsLast(s[1..]);
        SplitWsCollapses(t);
        CollapseAtWhitespace(s, t);
      } else {
        SplitWsCollapses(s[1..]);
        CollapseAtLetter(s);
      }
    }
  }

  /** A leading whitespace run becomes an empty first piece, which the join turns into one space. */
  lemma CollapseAtWhitespace(s: string, t: string)
    requires |s| > 0 && IsWhitespace(s[0]) && t == TrimStart(s[1..])
    requires |SplitWs(t)[0]| > 0 && forall i :: 1 <= i < |SplitWs(t)| ==> |SplitWs(t)[i]| > 0
    requires Join(SplitWs(t), ' ') == CollapseWhitespace(t)
    ensures forall i :: 1 <= i < |SplitWs(s)| ==> |SplitWs(s)[i]| > 0
    ensures Join(SplitWs(s), ' ') == CollapseWhitespace(s)
  {
    var rest := SplitWs(t);
    assert SplitWs(s) == [""] + rest;
    JoinEmptyFirst(rest, ' ');
  }

  lemma JoinEmptyFirst(rest: seq<string>, sep: char)
    requires |rest| >= 1
    ensures Join([""] + rest, sep) == [sep] + Join(rest, sep)
  {
    assert ([""] + rest)[1..] == rest;
  }

  /** Trimming the front of a text that ends in a non-whitespace character keeps that character. */
  lemma TrimStartKeepsLast(u: string)
    requires |u| > 0 && !IsWhitespace(u[|u| - 1])
    ensures |TrimStart(u)| > 0 && TrimStart(u)[|TrimStart(u)| - 1] == u[|u| - 1]
  {
  }

  /** A leading non-whitespace character opens the first piece. */
  lemma CollapseAtLetter(s: string)
    requires |s| > 0 && !IsWhitespace(s[0])
    requires forall i :: 1 <= i < |SplitWs(s[1..])| ==> |SplitWs(s[1..])[i]| > 0
    requires Join(SplitWs(s[1..]), ' ') == CollapseWhitespace(s[1..])
    ensures forall i :: 0 <= i < |SplitWs(s)| ==> |SplitWs(s)[i]| > 0
    ensures Join(SplitWs(s), ' ') == CollapseWhitespace(s)
  {
    var rest := SplitWs(s[1..]);
    JoinConsFirst(s[0], rest, ' ');
    assert SplitWs(s) == [[s[0]] + rest[0]] + rest[1..];
  }

  /** Trimming and splitting a single-space join of non-empty whitespace-free pieces gives the pieces back. */
  lemma SplitWsJoinTrimmed(parts: seq<string>)
    requires |parts| >= 1
    requires forall i :: 0 <= i < |parts| ==> |parts[i]| > 0 && NoWhitespace(parts[i])
    ensures SplitWs(Trim(Join(parts, ' '))) == parts
  {
    JoinStartsWith(parts, ' ');
    TrimNoOp(Join(parts, ' '));
    SplitWsJoin(parts);
  }

  /** A join of non-empty pieces starts with the first piece's first character and ends with the last piece's last. */
  lemma {:induction false} JoinStartsWith(parts: seq<string>, sep: char)
    requires |parts| >= 1
    requires forall i :: 0 <= i < |parts| ==> |parts[i]| > 0
    ensures var j := Join(parts, sep); |j| > 0 && j[0] == parts[0][0] && j[|j| - 1] == parts[|parts| - 1][|parts[|parts| - 1]| - 1]
    decreases |parts|
  {
    if |parts| > 1 {
      JoinStartsWith(parts[1..], sep);
    }
  }

  /** The characters of a join are those of its pieces and its separators. */
  lemma {:induction false} JoinChars(parts: seq<string>, sep: char, P: char -> bool)
    requires P(sep)
    requires forall i, k :: 0 <= i < |parts| && 0 <= k < |parts[i]| ==> P(parts[i][k])
    ensures forall k :: 0 <= k < |Join(parts, sep)| ==> P(Join(parts, sep)[k])
    decreases |parts|
  {
    if |parts| > 1 {
      JoinChars(parts[1..], sep, P);
    }
  }

  /** Joining non-empty whitespace-free pieces with a non-whitespace separator gives a non-empty whitespace-free text. */
  lemma {:induction false} JoinIsWord(parts: seq<string>, sep: char)
    requires |parts| >= 1 && !IsWhitespace(sep)
    requires forall i :: 0 <= i < |parts| ==> |parts[i]| > 0 && NoWhitespace(parts[i])
    ensures |Join(parts, sep)| > 0 && NoWhitespace(Join(parts, sep))
    decreases |parts|
  {
    if |parts| > 1 {
      JoinIsWord(parts[1..], sep);
      var j := Join(parts, sep);
      assert j == parts[0] + [sep] + Join(parts[1..], sep);
      forall k | 0 <= k < |j|
        ensures !IsWhitespace(j[k])
      {
        if k < |parts[0]| {
          assert j[k] == parts[0][k];
        } else if k > |parts[0]| {
          assert j[k] == Join(parts[1..], sep)[k - |parts[0]| - 1];
        }
      }
    }
  }

  // ---------------------------------------------------------------------------
  // Substring search
  // ---------------------------------------------------------------------------

  /** `needle` occurs in `haystack` starting at index `i`. */
  predicate OccursAt(haystack: string, needle: string, i: int) {
    0 <= i && i + |needle| <= |haystack| && haystack[i..i + |needle|] == needle
  }

  /** `needle` is a (contiguous) substring of `haystack`. */
  predicate IsSubstring(needle: string, haystack: string) {
    exists i :: 0 <= i <= |haystack| && OccursAt(haystack, needle, i)
  }

  /** `haystack.indexOf(needle)`: the first occurrence, or -1. */
  function IndexOf(haystack: string, needle: string): (r: int)
    ensures r == -1 || 0 <= r <= |haystack| - |needle|
    ensures r >= 0 ==> OccursAt(haystack, needle, r)
    ensures forall i :: 0 <= i < r || (r == -1 && 0 <= i) ==> !OccursAt(haystack, needle, i)
    ensures r >= 0 <==> IsSubstring(needle, haystack)
    ensures |needle| == 0 ==> r == 0
  {
    assert OccursAt(haystack, needle, 0) <== |needle| == 0;
    IndexFrom(haystack, needle, 0)
  }

  function IndexFrom(haystack: string, needle: string, from: nat): (r: int)
    requires from <= |haystack| + 1
    ensures r == -1 || from <= r <= |haystack| - |needle|
    ensures r >= 0 ==> OccursAt(haystack, needle, r)
    ensures forall i :: from <= i < r || (r == -1 && from <= i) ==> !OccursAt(haystack, needle, i)
    decreases |haystack| + |needle| + 1 - from
  {
    if from + |needle| > |haystack| then -1
    else if haystack[from..from + |needle|] == needle then from
    else IndexFrom(haystack, needle, from + 1)
  }

  /** Looking up one character of a string whose characters are pairwise distinct gives its position. */
  lemma IndexOfDistinct(haystack: string, k: int)
    requires 0 <= k < |haystack|
    requires forall i, j :: 0 <= i < j < |haystack| ==> haystack[i] != haystack[j]
    ensures IndexOf(haystack, [haystack[k]]) == k
  {
    var r := IndexOf(haystack, [haystack[k]]);
    assert haystack[k..k + 1] == [haystack[k]];
    assert OccursAt(haystack, [haystack[k]], k);
    assert haystack[r..r + 1] == [haystack[k]];
    assert haystack[r] == haystack[k];
  }

  /** A one-character needle is found exactly when the character occurs. */
  lemma SubstringOfOne(s: string, ch: char)
    ensures IsSubstring([ch], s) <==> ch in s
  {
    if ch in s {
      var i :| 0 <= i < |s| && s[i] == ch;
      assert s[i..i + 1] == [ch];
      assert OccursAt(s, [ch], i);
    }
    if IsSubstring([ch], s) {
      var i :| 0 <= i <= |s| && OccursAt(s, [ch], i);
      assert s[i..i + 1][0] == s[i];
    }
  }

  /** A character missing from `haystack` is not found. */
  lemma IndexOfAbsent(haystack: string, ch: char)
    requires ch !in haystack
    ensures IndexOf(haystack, [ch]) == -1
  {
    forall i | 0 <= i && i + 1 <= |haystack|
      ensures !OccursAt(haystack, [ch], i)
    {
      assert haystack[i..i + 1][0] == haystack[i];
    }
  }

  // ---------------------------------------------------------------------------
  // Decimal numbers
  // ---------------------------------------------------------------------------

  predicate IsDigit(ch: char) {
    '0' <= ch <= '9'
  }

  /** `/^[0-9]+$/`. */
  predicate IsDigits(s: string) {
    |s| > 0 && forall i :: 0 <= i < |s| ==> IsDigit(s[i])
  }

  /** `/^(?:0|[1-9][0-9]*)$/`: a digit run with no leading zero. */
  predicate IsCanonicalNumber(s: string) {
    IsDigits(s) && (s[0] == '0' ==> |s| == 1)
  }

  function DigitChar(d: int): (ch: char)
    requires 0 <= d <= 9
    ensures IsDigit(ch) && DigitValue(ch) == d
  {
    (('0' as int) + d) as char
  }

  function DigitValue(ch: char): int
    requires IsDigit(ch)
  {
    (ch as int) - ('0' as int)
  }

  /** The decimal text JavaScript produces for a non-negative integer (`'' + n`) below 10^21; larger numbers are written in exponent form there. */
  function NatToString(n: nat): (s: string)
    ensures IsCanonicalNumber(s)
    decreases n
  {
    if n < 10 then [DigitChar(n)]
    else NatToString(n / 10) + [DigitChar(n % 10)]
  }

  /** `parseInt(s, 10)` on a digit run; on a text with no leading zero it inverts `NatToString`. */
  function ParseDecimal(s: string): (n: nat)
    requires forall i :: 0 <= i < |s| ==> IsDigit(s[i])
    ensures IsCanonicalNumber(s) ==> NatToString(n) == s
    decreases |s|
  {
    if |s| == 0 then 0
    else
      var prefix := s[..|s| - 1];
      var p := ParseDecimal(prefix);
      var n := p * 10 + DigitValue(s[|s| - 1]);
      assert IsCanonicalNumber(s) && |s| > 1 ==> IsCanonicalNumber(prefix) && p > 0 && n / 10 == p && n % 10 == DigitValue(s[|s| - 1]);
      assert IsCanonicalNumber(s) ==> NatToString(n) == s by {
        if IsCanonicalNumber(s) && |s| == 1 {
          assert [DigitChar(n)] == s;
        } else if IsCanonicalNumber(s) {
          assert NatToString(n) == NatToString(p) + [DigitChar(n % 10)];
          assert DigitChar(n % 10) == s[|s| - 1];
          assert prefix + [s[|s| - 1]] == s;
        }
      }
      n
  }

  /** Parsing the decimal rendering of `n` gives back `n`. */
  lemma {:induction false} ParseNatToString(n: nat)
    ensures ParseDecimal(NatToString(n)) == n
    decreases n
  {
    var s := NatToString(n);
    if n < 10 {
      assert s[..0] == [];
    } else {
      ParseNatToString(n / 10);
      assert s[..|s| - 1] == NatToString(n / 10);
    }
  }

  /** A leading zero does not change what `parseInt(s, 10)` reads. */
  lemma {:induction false} LeadingZero(s: string)
    requires forall i :: 0 <= i < |s| ==> IsDigit(s[i])
    ensures ParseDecimal("0" + s) == ParseDecimal(s)
    decreases |s|
  {
    var z := "0" + s;
    if |s| == 0 {
      assert z[..0] == "";
    } else {
      LeadingZero(s[..|s| - 1]);
      assert z[..|z| - 1] == "0" + s[..|s| - 1];
      assert z[|z| - 1] == s[|s| - 1];
    }
  }

  /** A digit run without its leading zeros, keeping the last digit: the numeral of the same number. */
  function StripLeadingZeros(s: string): (t: string)
    requires IsDigits(s)
    ensures IsCanonicalNumber(t)
    decreases |s|
  {
    if |s| > 1 && s[0] == '0' then StripLeadingZeros(s[1..]) else s
  }

  /**
    `parseInt(s, 10)` of any digit run, canonical or not, is the number whose numeral is the
    run without its leading zeros: `007` reads as 7 and `000` as 0.
   */
  lemma {:induction false} ParseDecimalDigits(s: string)
    requires IsDigits(s)
    ensures ParseDecimal(s) == ParseDecimal(StripLeadingZeros(s))
    ensures NatToString(ParseDecimal(s)) == StripLeadingZeros(s)
    decreases |s|
  {
    if |s| > 1 && s[0] == '0' {
      ParseDecimalDigits(s[1..]);
      assert s == "0" + s[1..];
      LeadingZero(s[1..]);
    }
  }
}
