/**
 * The parts of Python's `str` that the log pipeline relies on: `isspace()`,
 * `strip()`, `split()` with and without a separator, `splitlines()`,
 * `isdigit()`, `int()` in base 10 (as CPython 3.11 and later implement it)
 * and the decimal text an f-string gives an integer. Digits are the ASCII
 * digits; whitespace and line boundaries are Python's own sets, written out.
 */
module Text {
  import opened Wrappers

  /** Python's `str.isspace()`: what `strip()` and `split()` skip and `\s` matches. */
  predicate IsSpace(c: char) {
    || ('\t' <= c <= '\r')
    || ('\U{1C}' <= c <= ' ')
    || c == '\U{85}' || c == '\U{A0}' || c == '\U{1680}'
    || ('\U{2000}' <= c <= '\U{200A}')
    || c == '\U{2028}' || c == '\U{2029}' || c == '\U{202F}' || c == '\U{205F}' || c == '\U{3000}'
  }

  /** The line boundaries of `str.splitlines()`; a "\r\n" pair is one boundary. */
  predicate IsLineBreak(c: char) {
    || ('\n' <= c <= '\r')
    || ('\U{1C}' <= c <= '\U{1E}')
    || c == '\U{85}' || c == '\U{2028}' || c == '\U{2029}'
  }

  predicate IsDigit(c: char) {
    '0' <= c <= '9'
  }

  predicate IsDigits(s: string) {
    forall i :: 0 <= i < |s| ==> IsDigit(s[i])
  }

  /** `str.isdigit()` over ASCII digits: non-empty and digits only. */
  predicate IsDecimal(s: string) {
    |s| > 0 && IsDigits(s)
  }

  predicate NoSpace(s: string) {
    forall i :: 0 <= i < |s| ==> !IsSpace(s[i])
  }

  predicate AllSpace(s: string) {
    forall i :: 0 <= i < |s| ==> IsSpace(s[i])
  }

  predicate NoBreak(s: string) {
    forall i :: 0 <= i < |s| ==> !IsLineBreak(s[i])
  }

  /** A string is its prefix up to n followed by the rest. */
  lemma Halves(s: string, n: nat)
    requires n <= |s|
    ensures s == s[..n] + s[n..]
  {
  }

  // ---------------------------------------------------------------- strip()

  function TrimStart(s: string): (r: string)
    ensures |r| <= |s|
    ensures r != [] ==> !IsSpace(r[0])
  {
    if s != [] && IsSpace(s[0]) then TrimStart(s[1..]) else s
  }

  /** TrimStart removes a whitespace prefix and nothing else. */
  lemma {:induction false} TrimStartRemovesBlank(s: string)
    ensures TrimStart(s) == s[|s| - |TrimStart(s)|..]
    ensures AllSpace(s[..|s| - |TrimStart(s)|])
  {
    if s != [] && IsSpace(s[0]) {
      TrimStartRemovesBlank(s[1..]);
      var k := |s| - |TrimStart(s)|;
      assert s[1..][k - 1..] == s[k..];
      assert s[..k] == [s[0]] + s[1..][..k - 1];
    }
  }

  function TrimEnd(s: string): (r: string)
    ensures |r| <= |s|
    ensures r != [] ==> !IsSpace(r[|r| - 1])
  {
    if s != [] && IsSpace(s[|s| - 1]) then TrimEnd(s[..|s| - 1]) else s
  }

  /** TrimEnd removes a whitespace suffix and nothing else. */
  lemma {:induction false} TrimEndRemovesBlank(s: string)
    ensures TrimEnd(s) == s[..|TrimEnd(s)|]
    ensures AllSpace(s[|TrimEnd(s)|..])
  {
    if s != [] && IsSpace(s[|s| - 1]) {
      var u := s[..|s| - 1];
      TrimEndRemovesBlank(u);
      var k := |TrimEnd(s)|;
      assert u[..k] == s[..k];
      assert s[k..] == u[k..] + [s[|s| - 1]];
    }
  }

  /** `str.strip()`: the text between the leading and the trailing whitespace. */
  function Strip(s: string): (r: string)
    ensures |r| <= |s|
    ensures r != [] ==> !IsSpace(r[0]) && !IsSpace(r[|r| - 1])
  {
    TrimEndRemovesBlank(TrimStart(s));
    TrimEnd(TrimStart(s))
  }

  /** A line strips to nothing exactly when it is all whitespace (Python's `not line.strip()`). */
  lemma StripEmptyIffBlank(s: string)
    ensures Strip(s) == [] <==> AllSpace(s)
  {
    var t := TrimStart(s);
    if AllSpace(s) {
      TrimStartOfBlank(s);
    }
    if Strip(s) == [] {
      TrimStartRemovesBlank(s);
      TrimEndRemovesBlank(t);
      assert t[0..] == t;
      Halves(s, |s| - |t|);
      AllSpaceAppend(s[..|s| - |t|], t);
    }
  }

  lemma {:induction false} TrimStartOfBlank(s: string)
    requires AllSpace(s)
    ensures TrimStart(s) == []
  {
    if s != [] {
      TrimStartOfBlank(s[1..]);
    }
  }

  lemma AllSpaceAppend(a: string, b: string)
    requires AllSpace(a) && AllSpace(b)
    ensures AllSpace(a + b)
  {
  }

  /** Text with no whitespace at either end is its own strip(). */
  lemma StripUnpadded(s: string)
    requires s == [] || (!IsSpace(s[0]) && !IsSpace(s[|s| - 1]))
    ensures Strip(s) == s
  {
  }

  // --------------------------------------------------------------- split()

  /** Index of the first whitespace character of s, or |s| when there is none. */
  function SpaceIndex(s: string): (i: nat)
    ensures i <= |s|
    ensures s != [] && !IsSpace(s[0]) ==> i > 0
  {
    if s == [] || IsSpace(s[0]) then 0 else 1 + SpaceIndex(s[1..])
  }

  lemma {:induction false} SpaceIndexFirst(s: string)
    ensures NoSpace(s[..SpaceIndex(s)])
    ensures SpaceIndex(s) < |s| ==> IsSpace(s[SpaceIndex(s)])
  {
    if s != [] && !IsSpace(s[0]) {
      SpaceIndexFirst(s[1..]);
      assert s[..SpaceIndex(s)] == [s[0]] + s[1..][..SpaceIndex(s[1..])];
    }
  }

  /** SpaceIndex is the one index that ends a whitespace-free prefix at whitespace or at the end. */
  lemma {:induction false} SpaceIndexIs(s: string, n: nat)
    requires n <= |s| && NoSpace(s[..n]) && (n < |s| ==> IsSpace(s[n]))
    ensures SpaceIndex(s) == n
  {
    if n > 0 {
      assert s[..n][0] == s[0];
      assert s[1..][..n - 1] == s[..n][1..];
      SpaceIndexIs(s[1..], n - 1);
    }
  }

  /** `str.split()` with no argument: the maximal runs of non-whitespace, in order. */
  function SplitWs(s: string): seq<string>
    decreases |s|
  {
    var t := TrimStart(s);
    if t == [] then []
    else
      var n := SpaceIndex(t);
      [t[..n]] + SplitWs(t[n..])
  }

  /** split() gives no word exactly when the text is all whitespace. */
  lemma SplitWsEmptyIffBlank(s: string)
    ensures SplitWs(s) == [] <==> AllSpace(s)
  {
    var t := TrimStart(s);
    TrimStartRemovesBlank(s);
    if t == [] {
      assert s[..|s|] == s;
    } else {
      assert s[|s| - |t|] == t[0];
    }
  }

  /** Every word split() gives is non-empty and free of whitespace. */
  lemma {:induction false} SplitWsWords(s: string)
    ensures forall k :: 0 <= k < |SplitWs(s)| ==> SplitWs(s)[k] != [] && NoSpace(SplitWs(s)[k])
    decreases |s|
  {
    var t := TrimStart(s);
    if t != [] {
      var n := SpaceIndex(t);
      SpaceIndexFirst(t);
      SplitWsWords(t[n..]);
      WordsCons(t[..n], SplitWs(t[n..]));
    }
  }

  lemma WordsCons(w: string, ws: seq<string>)
    requires w != [] && NoSpace(w)
    requires forall k :: 0 <= k < |ws| ==> ws[k] != [] && NoSpace(ws[k])
    ensures forall k :: 0 <= k < |[w] + ws| ==> ([w] + ws)[k] != [] && NoSpace(([w] + ws)[k])
  {
    forall k | 0 <= k < |[w] + ws| ensures ([w] + ws)[k] != [] && NoSpace(([w] + ws)[k]) {
      if k > 0 {
        assert ([w] + ws)[k] == ws[k - 1];
      }
    }
  }

  function Concat(ss: seq<string>): string {
    if ss == [] then [] else ss[0] + Concat(ss[1..])
  }

  lemma ConcatCons(w: string, ws: seq<string>)
    ensures Concat([w] + ws) == w + Concat(ws)
  {
    assert ([w] + ws)[1..] == ws;
  }

  /** The characters of s that are not whitespace, in order. */
  function RemoveSpaces(s: string): string {
    if s == [] then [] else (if IsSpace(s[0]) then [] else [s[0]]) + RemoveSpaces(s[1..])
  }

  lemma {:induction false} RemoveSpacesAppend(a: string, b: string)
    ensures RemoveSpaces(a + b) == RemoveSpaces(a) + RemoveSpaces(b)
  {
    if a == [] {
      assert a + b == b;
    } else {
      assert (a + b)[0] == a[0];
      assert (a + b)[1..] == a[1..] + b;
      RemoveSpacesAppend(a[1..], b);
    }
  }

  lemma {:induction false} RemoveSpacesOfWord(s: string)
    requires NoSpace(s)
    ensures RemoveSpaces(s) == s
  {
    if s != [] {
      RemoveSpacesOfWord(s[1..]);
    }
  }

  lemma {:induction false} RemoveSpacesOfBlank(s: string)
    requires AllSpace(s)
    ensures RemoveSpaces(s) == []
  {
    if s != [] {
      RemoveSpacesOfBlank(s[1..]);
    }
  }

  lemma RemoveSpacesSkipsLeading(s: string)
    ensures RemoveSpaces(s) == RemoveSpaces(TrimStart(s))
  {
    var t := TrimStart(s);
    TrimStartRemovesBlank(s);
    var blank := s[..|s| - |t|];
    Halves(s, |s| - |t|);
    RemoveSpacesAppend(blank, t);
    RemoveSpacesOfBlank(blank);
  }

  lemma RemoveSpacesAfterWord(w: string, rest: string)
    requires NoSpace(w)
    ensures RemoveSpaces(w + rest) == w + RemoveSpaces(rest)
  {
    RemoveSpacesAppend(w, rest);
    RemoveSpacesOfWord(w);
  }

  /** split() loses exactly the whitespace: its words, concatenated, are the non-whitespace characters in order. */
  lemma {:induction false} SplitWsKeepsText(s: string)
    ensures Concat(SplitWs(s)) == RemoveSpaces(s)
    decreases |s|
  {
    var t := TrimStart(s);
    RemoveSpacesSkipsLeading(s);
    if t != [] {
      var n := SpaceIndex(t);
      var w, rest := t[..n], t[n..];
      ConcatCons(w, SplitWs(rest));
      SplitWsKeepsText(rest);
      SpaceIndexFirst(t);
      Halves(t, n);
      RemoveSpacesAfterWord(w, rest);
    }
  }

  /** A word followed by whitespace is the first word split() gives. */
  lemma SplitWsFirstWord(w: string, rest: string)
    requires w != [] && NoSpace(w) && rest != [] && IsSpace(rest[0])
    ensures SplitWs(w + rest) != [] && SplitWs(w + rest)[0] == w
  {
    var s := w + rest;
    assert TrimStart(s) == s;
    assert s[..|w|] == w;
    SpaceIndexIs(s, |w|);
  }

  // ------------------------------------------------------------ split(sep)

  /** Index of the first occurrence of c in s, or |s| when there is none. */
  function IndexOf(s: string, c: char): (i: nat)
    ensures i <= |s|
  {
    if s == [] || s[0] == c then 0 else 1 + IndexOf(s[1..], c)
  }

  lemma {:induction false} IndexOfFirst(s: string, c: char)
    ensures IndexOf(s, c) < |s| ==> s[IndexOf(s, c)] == c
    ensures c !in s[..IndexOf(s, c)]
    ensures c in s <==> IndexOf(s, c) < |s|
  {
    if s != [] && s[0] != c {
      IndexOfFirst(s[1..], c);
      assert s[..IndexOf(s, c)] == [s[0]] + s[1..][..IndexOf(s[1..], c)];
      assert s == [s[0]] + s[1..];
    }
  }

  lemma IndexOfAfter(a: string, c: char, b: string)
    requires c !in a
    ensures IndexOf(a + [c] + b, c) == |a|
  {
    var s := a + [c] + b;
    assert s[..|a|] == a;
    IndexOfIs(s, c, |a|);
  }

  /** IndexOf is the one index that ends a c-free prefix at c or at the end. */
  lemma {:induction false} IndexOfIs(s: string, c: char, n: nat)
    requires n <= |s| && c !in s[..n] && (n < |s| ==> s[n] == c)
    ensures IndexOf(s, c) == n
  {
    if n > 0 {
      assert s[..n][0] == s[0];
      assert s[1..][..n - 1] == s[..n][1..];
      IndexOfIs(s[1..], c, n - 1);
    }
  }

  /** `str.split(sep)` for a one-character separator. */
  function Split(s: string, sep: char): (parts: seq<string>)
    ensures |parts| >= 1
    decreases |s|
  {
    var i := IndexOf(s, sep);
    if i == |s| then [s] else [s[..i]] + Split(s[i + 1..], sep)
  }

  /** split(sep) gives more than one part exactly when the separator occurs. */
  lemma SplitMoreThanOne(s: string, sep: char)
    ensures sep in s <==> |Split(s, sep)| > 1
  {
    IndexOfFirst(s, sep);
  }

  /** The first part of a split is the text before the first separator. */
  lemma SplitFirstPart(s: string, sep: char)
    ensures Split(s, sep)[0] == s[..IndexOf(s, sep)]
  {
  }

  /** The second part of a split is the text between the first separator and the next one (or the end). */
  lemma SplitSecondPart(s: string, sep: char)
    requires sep in s
    ensures IndexOf(s, sep) < |s| &&
            var after := s[IndexOf(s, sep) + 1..];
            |Split(s, sep)| > 1 && Split(s, sep)[1] == after[..IndexOf(after, sep)]
  {
    IndexOfFirst(s, sep);
    SplitFirstPart(s[IndexOf(s, sep) + 1..], sep);
  }

  /** No part of a split contains the separator. */
  lemma {:induction false} SplitPartsFree(s: string, sep: char)
    ensures forall k :: 0 <= k < |Split(s, sep)| ==> sep !in Split(s, sep)[k]
    decreases |s|
  {
    var i := IndexOf(s, sep);
    IndexOfFirst(s, sep);
    if i < |s| {
      SplitPartsFree(s[i + 1..], sep);
      PartsCons(s[..i], Split(s[i + 1..], sep), sep);
    }
  }

  lemma PartsCons(p: string, ps: seq<string>, sep: char)
    requires sep !in p
    requires forall k :: 0 <= k < |ps| ==> sep !in ps[k]
    ensures forall k :: 0 <= k < |[p] + ps| ==> sep !in ([p] + ps)[k]
  {
    forall k | 0 <= k < |[p] + ps| ensures sep !in ([p] + ps)[k] {
      if k > 0 {
        assert ([p] + ps)[k] == ps[k - 1];
      }
    }
  }

  /** `sep.join(parts)`. */
  function Join(parts: seq<string>, sep: char): string
    requires |parts| >= 1
  {
    if |parts| == 1 then parts[0] else parts[0] + [sep] + Join(parts[1..], sep)
  }

  /** Joining the parts of a split with its separator gives back the text. */
  lemma {:induction false} SplitThenJoin(s: string, sep: char)
    ensures Join(Split(s, sep), sep) == s
    decreases |s|
  {
    var i := IndexOf(s, sep);
    if i < |s| {
      IndexOfFirst(s, sep);
      var head, tail := s[..i], s[i + 1..];
      var rest := Split(tail, sep);
      var parts := [head] + rest;
      assert parts[1..] == rest;
      SplitThenJoin(tail, sep);
      assert s == head + [sep] + tail;
    }
  }

  /** Splitting a join of separator-free parts gives back the parts. */
  lemma {:induction false} JoinThenSplit(parts: seq<string>, sep: char)
    requires |parts| >= 1
    requires forall k :: 0 <= k < |parts| ==> sep !in parts[k]
    ensures Split(Join(parts, sep), sep) == parts
  {
    if |parts| == 1 {
      IndexOfFirst(parts[0], sep);
    } else {
      var rest := Join(parts[1..], sep);
      var s := parts[0] + [sep] + rest;
      IndexOfAfter(parts[0], sep, rest);
      assert s[..|parts[0]|] == parts[0];
      assert s[|parts[0]| + 1..] == rest;
      JoinThenSplit(parts[1..], sep);
      assert parts == [parts[0]] + parts[1..];
    }
  }

  // ---------------------------------------------------------- splitlines()

  /** Index of the first line boundary in s, or |s| when there is none. */
  function BreakIndex(s: string): (i: nat)
    ensures i <= |s|
  {
    if s == [] || IsLineBreak(s[0]) then 0 else 1 + BreakIndex(s[1..])
  }

  lemma {:induction false} BreakIndexFirst(s: string)
    ensures NoBreak(s[..BreakIndex(s)])
    ensures BreakIndex(s) < |s| ==> IsLineBreak(s[BreakIndex(s)])
  {
    if s != [] && !IsLineBreak(s[0]) {
      BreakIndexFirst(s[1..]);
      assert s[..BreakIndex(s)] == [s[0]] + s[1..][..BreakIndex(s[1..])];
    }
  }

  /** Where the text after a line boundary at i starts: "\r\n" is one boundary. */
  function NextLineStart(s: string, i: nat): (j: nat)
    requires i < |s|
    ensures i < j <= |s|
  {
    if s[i] == '\r' && i + 1 < |s| && s[i + 1] == '\n' then i + 2 else i + 1
  }

  /** `str.splitlines()`: the lines without their boundaries; a final boundary opens no empty line. */
  function SplitLines(s: string): seq<string>
    decreases |s|
  {
    if s == [] then []
    else
      var i := BreakIndex(s);
      if i == |s| then [s] else [s[..i]] + SplitLines(s[NextLineStart(s, i)..])
  }

  /** No line splitlines() gives contains a line boundary. */
  lemma {:induction false} SplitLinesNoBreaks(s: string)
    ensures forall k :: 0 <= k < |SplitLines(s)| ==> NoBreak(SplitLines(s)[k])
    decreases |s|
  {
    if s != [] {
      var i := BreakIndex(s);
      BreakIndexFirst(s);
      if i < |s| {
        var rest := s[NextLineStart(s, i)..];
        SplitLinesNoBreaks(rest);
        LinesCons(s[..i], SplitLines(rest));
      } else {
        assert s[..i] == s;
      }
    }
  }

  lemma LinesCons(l: string, ls: seq<string>)
    requires NoBreak(l)
    requires forall k :: 0 <= k < |ls| ==> NoBreak(ls[k])
    ensures forall k :: 0 <= k < |[l] + ls| ==> NoBreak(([l] + ls)[k])
  {
    forall k | 0 <= k < |[l] + ls| ensures NoBreak(([l] + ls)[k]) {
      if k > 0 {
        assert ([l] + ls)[k] == ls[k - 1];
      }
    }
  }

  /** The characters of s that are not line boundaries, in order. */
  function RemoveBreaks(s: string): string {
    if s == [] then [] else (if IsLineBreak(s[0]) then [] else [s[0]]) + RemoveBreaks(s[1..])
  }

  lemma {:induction false} RemoveBreaksAppend(a: string, b: string)
    ensures RemoveBreaks(a + b) == RemoveBreaks(a) + RemoveBreaks(b)
  {
    if a == [] {
      assert a + b == b;
    } else {
      assert (a + b)[0] == a[0];
      assert (a + b)[1..] == a[1..] + b;
      RemoveBreaksAppend(a[1..], b);
    }
  }

  lemma {:induction false} RemoveBreaksOfLine(s: string)
    requires NoBreak(s)
    ensures RemoveBreaks(s) == s
  {
    if s != [] {
      RemoveBreaksOfLine(s[1..]);
    }
  }

  /** The characters from a line boundary at i up to the next line's start are all removed. */
  lemma RemoveBreaksOfBoundary(s: string, i: nat)
    requires i < |s| && IsLineBreak(s[i])
    ensures RemoveBreaks(s[i..NextLineStart(s, i)]) == []
  {
    var b := s[i..NextLineStart(s, i)];
    assert forall k :: 0 <= k < |b| ==> b[k] == s[i + k];
    RemoveBreaksOfBreaks(b);
  }

  lemma {:induction false} RemoveBreaksOfBreaks(s: string)
    requires forall k :: 0 <= k < |s| ==> IsLineBreak(s[k])
    ensures RemoveBreaks(s) == []
  {
    if s != [] {
      RemoveBreaksOfBreaks(s[1..]);
    }
  }

  lemma RemoveBreaksStep(s: string, i: nat)
    requires i < |s| && IsLineBreak(s[i]) && NoBreak(s[..i])
    ensures RemoveBreaks(s) == s[..i] + RemoveBreaks(s[NextLineStart(s, i)..])
  {
    var j := NextLineStart(s, i);
    var line, boundary, rest := s[..i], s[i..j], s[j..];
    assert s == (line + boundary) + rest;
    assert RemoveBreaks(line + boundary) == line by {
      RemoveBreaksAppend(line, boundary);
      RemoveBreaksOfLine(line);
      RemoveBreaksOfBoundary(s, i);
      assert line + [] == line;
    }
    RemoveBreaksAppend(line + boundary, rest);
  }

  /** splitlines() loses exactly the line boundaries: the lines, concatenated, are the other characters in order. */
  lemma {:induction false} SplitLinesKeepsText(s: string)
    ensures Concat(SplitLines(s)) == RemoveBreaks(s)
    decreases |s|
  {
    if s != [] {
      var i := BreakIndex(s);
      BreakIndexFirst(s);
      if i < |s| {
        var rest := s[NextLineStart(s, i)..];
        ConcatCons(s[..i], SplitLines(rest));
        SplitLinesKeepsText(rest);
        RemoveBreaksStep(s, i);
      } else {
        assert s[..i] == s;
        RemoveBreaksOfLine(s);
        ConcatCons(s, []);
      }
    }
  }

  // ------------------------------------------------------------- integers

  function DigitValue(c: char): nat
    requires IsDigit(c)
  {
    c as int - '0' as int
  }

  function DigitChar(d: nat): (c: char)
    requires d < 10
    ensures IsDigit(c) && DigitValue(c) == d
  {
    ('0' as int + d) as char
  }

  /** The value of a string of decimal digits (most significant first); the empty string is 0. */
  function DigitsValue(s: string): nat
    requires IsDigits(s)
  {
    if s == [] then 0 else 10 * DigitsValue(s[..|s| - 1]) + DigitValue(s[|s| - 1])
  }

  /** Decimal text of a natural number without leading zeros, as Python's `str(n)`. */
  function NatToDecimal(n: nat): (s: string)
    ensures IsDecimal(s) && DigitsValue(s) == n
    ensures |s| > 1 ==> s[0] != '0'
  {
    if n < 10 then [DigitChar(n)]
    else
      var t := NatToDecimal(n / 10);
      assert (t + [DigitChar(n % 10)])[..|t|] == t;
      t + [DigitChar(n % 10)]
  }

  /** The length of the run of digits that starts the text (what a greedy `\d+` takes). */
  function DigitRun(s: string): (n: nat)
    ensures n <= |s|
  {
    if s == [] || !IsDigit(s[0]) then 0 else 1 + DigitRun(s[1..])
  }

  lemma {:induction false} DigitRunDigits(s: string)
    ensures IsDigits(s[..DigitRun(s)])
    ensures DigitRun(s) < |s| ==> !IsDigit(s[DigitRun(s)])
  {
    if s != [] && IsDigit(s[0]) {
      DigitRunDigits(s[1..]);
      assert s[..DigitRun(s)] == [s[0]] + s[1..][..DigitRun(s[1..])];
    }
  }

  lemma {:induction false} DigitRunIs(s: string, n: nat)
    requires n <= |s| && IsDigits(s[..n]) && (n < |s| ==> !IsDigit(s[n]))
    ensures DigitRun(s) == n
  {
    if n > 0 {
      assert s[0] == s[..n][0];
      assert s[1..][..n - 1] == s[..n][1..];
      DigitRunIs(s[1..], n - 1);
    }
  }

  /**
   * `d` is the text Python's `str(n)` gives an integer: a '-' exactly when
   * n is negative, then the digits of its magnitude without leading zeros.
   */
  predicate IsIntText(d: string, n: int) {
    && (n < 0 <==> (|d| > 0 && d[0] == '-'))
    && var m := if n < 0 then d[1..] else d;
       IsDecimal(m) && DigitsValue(m) == (if n < 0 then -n else n) && (|m| > 1 ==> m[0] != '0')
  }

  /** Python's `str(n)` for an integer, without the 4300-digit limit of its conversion. */
  function IntToDecimal(n: int): (d: string)
    ensures IsIntText(d, n)
  {
    if n < 0 then
      var m := NatToDecimal(-n);
      assert ("-" + m)[1..] == m;
      "-" + m
    else NatToDecimal(n)
  }

  /** A text written by `str()` names one integer only. */
  lemma IntTextValue(d: string, a: int, b: int)
    requires IsIntText(d, a) && IsIntText(d, b)
    ensures a == b
  {
  }

  /** An integer has one text as `str()` writes it. */
  lemma IntTextUnique(d1: string, d2: string, n: int)
    requires IsIntText(d1, n) && IsIntText(d2, n)
    ensures d1 == d2
  {
    if n < 0 {
      DecimalOfDigits(d1[1..]);
      DecimalOfDigits(d2[1..]);
      assert d1 == [d1[0]] + d1[1..] && d2 == [d2[0]] + d2[1..];
    } else {
      DecimalOfDigits(d1);
      DecimalOfDigits(d2);
    }
  }

  /** Every number from 100 to 999 is written with three digits. */
  lemma ThreeDigitDecimal(n: nat)
    requires 100 <= n <= 999
    ensures |NatToDecimal(n)| == 3
  {
    assert 10 <= n / 10 < 100 && 1 <= n / 100 < 10;
    assert n / 10 / 10 == n / 100;
    assert |NatToDecimal(n / 100)| == 1;
    assert |NatToDecimal(n / 10)| == 2;
  }

  /** Digits without a leading zero are the decimal text of their own value. */
  lemma {:induction false} DecimalOfDigits(m: string)
    requires IsDecimal(m) && (|m| > 1 ==> m[0] != '0')
    ensures NatToDecimal(DigitsValue(m)) == m
    decreases |m|
  {
    var last := m[|m| - 1];
    if |m| > 1 {
      var p := m[..|m| - 1];
      assert p[0] == m[0] && IsDecimal(p);
      LeadingDigitPositive(p);
      DecimalOfDigits(p);
      var n := DigitsValue(m);
      assert n == 10 * DigitsValue(p) + DigitValue(last);
      assert n / 10 == DigitsValue(p) && n % 10 == DigitValue(last);
      assert DigitChar(DigitValue(last)) == last;
      assert m == p + [last];
    } else {
      assert m == [last];
    }
  }

  /** Digits that do not start with '0' have a positive value. */
  lemma {:induction false} LeadingDigitPositive(m: string)
    requires IsDecimal(m) && m[0] != '0'
    ensures DigitsValue(m) > 0
    decreases |m|
  {
    if |m| > 1 {
      var p := m[..|m| - 1];
      assert p[0] == m[0];
      LeadingDigitPositive(p);
    }
  }

  /** The digit body `int()` accepts in base 10: digits, with single underscores between them. */
  predicate IsIntBody(s: string) {
    && |s| > 0 && IsDigit(s[0]) && IsDigit(s[|s| - 1])
    && (forall i :: 0 <= i < |s| ==> IsDigit(s[i]) || s[i] == '_')
    && (forall i :: 0 < i < |s| && s[i] == '_' ==> s[i - 1] != '_')
  }

  function RemoveUnderscores(s: string): (r: string)
    requires forall i :: 0 <= i < |s| ==> IsDigit(s[i]) || s[i] == '_'
    ensures IsDigits(r)
  {
    if s == [] then [] else (if s[0] == '_' then [] else [s[0]]) + RemoveUnderscores(s[1..])
  }

  lemma {:induction false} RemoveUnderscoresOfDigits(s: string)
    requires IsDigits(s)
    ensures RemoveUnderscores(s) == s
  {
    if s != [] {
      RemoveUnderscoresOfDigits(s[1..]);
    }
  }

  /**
   * What `int()` skips around the number. Its parser skips only the ASCII
   * whitespace " \t\n\v\f\r"; non-ASCII `isspace()` characters count too,
   * because `int()` first rewrites them to a plain space. The ASCII
   * separators U+001C..U+001F, which `isspace()` accepts, are not skipped.
   */
  predicate IsIntSpace(c: char) {
    ('\t' <= c <= '\r') || c == ' ' || (c >= '\U{80}' && IsSpace(c))
  }

  function IntTrimStart(s: string): (r: string)
    ensures |r| <= |s|
    ensures r != [] ==> !IsIntSpace(r[0])
  {
    if s != [] && IsIntSpace(s[0]) then IntTrimStart(s[1..]) else s
  }

  function IntTrimEnd(s: string): (r: string)
    ensures |r| <= |s|
    ensures r != [] ==> !IsIntSpace(r[|r| - 1])
  {
    if s != [] && IsIntSpace(s[|s| - 1]) then IntTrimEnd(s[..|s| - 1]) else s
  }

  /** The text `int()` reads once the whitespace it skips is removed from both ends. */
  function IntStrip(s: string): string {
    IntTrimEnd(IntTrimStart(s))
  }

  /** Text with nothing `int()` skips at either end is read as it stands. */
  lemma IntStripUnpadded(s: string)
    requires s == [] || (!IsIntSpace(s[0]) && !IsIntSpace(s[|s| - 1]))
    ensures IntStrip(s) == s
  {
  }

  /**
   * `sys.get_int_max_str_digits()` by default: `int()` refuses a decimal
   * with more digits than this.
   */
  const MAX_STR_DIGITS := 4300

  /**
   * Python's `int(s)` in base 10: the whitespace of IsIntSpace is ignored at
   * both ends, then one optional sign, then digits with single underscores
   * between them, at most MAX_STR_DIGITS digits; None stands for the
   * ValueError raised on anything else.
   */
  function ParseInt(s: string): Option<int> {
    var t := IntStrip(s);
    var signed := |t| > 0 && (t[0] == '+' || t[0] == '-');
    var body := if signed then t[1..] else t;
    if IsIntBody(body) && |RemoveUnderscores(body)| <= MAX_STR_DIGITS then
      var magnitude: int := DigitsValue(RemoveUnderscores(body));
      Some(if signed && t[0] == '-' then -magnitude else magnitude)
    else None
  }

  /** How int() sees a plain string of digits: nothing to strip, no sign, no underscore. */
  lemma DigitsAsIntText(s: string)
    requires IsDecimal(s)
    ensures IntStrip(s) == s && IsIntBody(s) && s[0] != '+' && s[0] != '-'
    ensures RemoveUnderscores(s) == s
  {
    assert IntStrip(s) == s by {
      IntStripUnpadded(s);
    }
    RemoveUnderscoresOfDigits(s);
  }

  /** int() reads a plain string of digits within the digit limit as its decimal value. */
  lemma ParseDigits(s: string)
    requires IsDecimal(s) && |s| <= MAX_STR_DIGITS
    ensures ParseInt(s) == Some(DigitsValue(s))
  {
    DigitsAsIntText(s);
  }

  /** int() refuses a plain string of digits longer than the digit limit, whatever its value. */
  lemma TooManyDigitsRejected(s: string)
    requires IsDecimal(s) && |s| > MAX_STR_DIGITS
    ensures ParseInt(s) == None
  {
    DigitsAsIntText(s);
  }

  /** int() refuses text whose first character is neither skipped nor a sign nor a digit. */
  lemma LeadingJunkRejected(s: string)
    requires |s| > 0 && !IsIntSpace(s[0]) && !IsDigit(s[0]) && s[0] != '+' && s[0] != '-'
    ensures ParseInt(s) == None
  {
    assert IntTrimStart(s) == s;
    IntTrimEndPrefix(s);
  }

  lemma {:induction false} IntTrimEndPrefix(s: string)
    ensures IntTrimEnd(s) == s[..|IntTrimEnd(s)|]
  {
    if s != [] && IsIntSpace(s[|s| - 1]) {
      IntTrimEndPrefix(s[..|s| - 1]);
    }
  }

  /** int() skips the ASCII whitespace around a number: `int("\t7 ") == 7`. */
  lemma AsciiSpaceSkipped()
    ensures ParseInt("\t7 ") == Some(7)
  {
    assert IntStrip("\t7 ") == "7";
    DigitsAsIntText("7");
  }

  /** int() skips a non-ASCII space, which it first rewrites to ' ': `int("\u00a07") == 7`. */
  lemma WideSpaceSkipped()
    ensures ParseInt("\U{A0}7") == Some(7)
  {
    assert IntStrip("\U{A0}7") == "7";
    DigitsAsIntText("7");
  }

  /** int() does not skip the separators U+001C..U+001F that isspace() accepts: `int("\x1c7")` raises. */
  lemma SeparatorNotSkipped()
    ensures ParseInt("\U{1C}7") == None
  {
    assert IntStrip("\U{1C}7") == "\U{1C}7";
  }

  /** int() reads back every integer's decimal text within the digit limit: `int(f"{n}") == n`. */
  lemma ParseIntOfDecimal(n: int)
    requires |NatToDecimal(if n < 0 then -n else n)| <= MAX_STR_DIGITS
    ensures ParseInt(IntToDecimal(n)) == Some(n)
  {
    if n < 0 {
      var s := IntToDecimal(n);
      assert s[1..] == NatToDecimal(-n);
      NegativeDigitsRead(s);
    } else {
      ParseDigits(NatToDecimal(n));
    }
  }

  /** int() reads a minus sign followed by digits within the digit limit as the negated value. */
  lemma NegativeDigitsRead(s: string)
    requires |s| > 0 && s[0] == '-' && IsDecimal(s[1..]) && |s[1..]| <= MAX_STR_DIGITS
    ensures var value: int := DigitsValue(s[1..]); ParseInt(s) == Some(-value)
  {
    assert IntStrip(s) == s by {
      IntStripUnpadded(s);
    }
    assert IsIntBody(s[1..]) && RemoveUnderscores(s[1..]) == s[1..] by {
      DigitsAsIntText(s[1..]);
    }
    SignedRead(s);
  }

  /** int() reads text that starts with a minus sign and needs no stripping as the negated value of its digits. */
  lemma SignedRead(s: string)
    requires IntStrip(s) == s && |s| > 0 && s[0] == '-'
    requires IsIntBody(s[1..]) && |RemoveUnderscores(s[1..])| <= MAX_STR_DIGITS
    ensures var value: int := DigitsValue(RemoveUnderscores(s[1..])); ParseInt(s) == Some(-value)
  {
  }
}
