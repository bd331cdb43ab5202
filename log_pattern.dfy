/**
 * The access-log pattern `LOG_PATTERN` of modules/log_parser.py and the
 * `search` the parser runs with it.
 *
 * Every repeated class in the pattern is followed by a character the class
 * cannot match (a digit run by '.' or ' ', the bracketed time by ']', the
 * method by ' ', the path by ' ', the protocol version by '"', the status by
 * ' '), so backtracking never changes the outcome: at a given start the
 * pattern matches exactly when each piece, taken as the longest run its
 * class allows, has an allowed length and is followed by the expected
 * literal. `MatchAt` is that deterministic reading; `Search` tries every
 * start from the left, as `re.search` does.
 */
module LogPattern {
  import opened Wrappers
  import opened Text
  import Ipv4

  // ------------------------------------------------------------ character classes

  /** The character classes the pattern repeats; `\w` is restricted to ASCII. */
  datatype Class = Digit | NotCloseBracket | Word | NotSpace | VersionChar

  predicate In(c: char, k: Class) {
    match k
    case Digit => IsDigit(c)
    case NotCloseBracket => c != ']'
    case Word => ('a' <= c <= 'z') || ('A' <= c <= 'Z') || IsDigit(c) || c == '_'
    case NotSpace => !IsSpace(c)
    case VersionChar => IsDigit(c) || c == '.'
  }

  predicate All(s: string, k: Class) {
    forall i :: 0 <= i < |s| ==> In(s[i], k)
  }

  /** `rest` cannot extend a run of class `k`. */
  predicate Stops(rest: string, k: Class) {
    rest == [] || !In(rest[0], k)
  }

  lemma DigitsAll(s: string)
    ensures All(s, Digit) <==> IsDigits(s)
  {
  }

  // ------------------------------------------------------------ pieces

  /** A piece of text the pattern consumed, and what follows it. */
  datatype Cut = Cut(taken: string, rest: string)

  /** The length of the longest prefix made of class-`k` characters. */
  function Span(s: string, k: Class): (n: nat)
    ensures n <= |s|
  {
    if s == [] || !In(s[0], k) then 0 else 1 + Span(s[1..], k)
  }

  lemma {:induction false} SpanAll(s: string, k: Class)
    ensures All(s[..Span(s, k)], k) && Stops(s[Span(s, k)..], k)
  {
    if s != [] && In(s[0], k) {
      SpanAll(s[1..], k);
      assert s[..Span(s, k)] == [s[0]] + s[1..][..Span(s[1..], k)];
      assert s[Span(s, k)..] == s[1..][Span(s[1..], k)..];
    }
  }

  lemma {:induction false} SpanOf(w: string, rest: string, k: Class)
    requires All(w, k) && Stops(rest, k)
    ensures Span(w + rest, k) == |w|
  {
    if w != [] {
      assert (w + rest)[0] == w[0];
      assert (w + rest)[1..] == w[1..] + rest;
      SpanOf(w[1..], rest, k);
    }
  }

  /** A greedy run of class `k` whose length must lie in `least..most`. */
  function Run(s: string, k: Class, least: nat, most: nat): (r: Option<Cut>)
    ensures r.Some? ==>
      && s == r.value.taken + r.value.rest
      && least <= |r.value.taken| <= most
      && All(r.value.taken, k) && Stops(r.value.rest, k)
  {
    var n := Span(s, k);
    SpanAll(s, k);
    assert s == s[..n] + s[n..];
    if least <= n <= most then Some(Cut(s[..n], s[n..])) else None
  }

  /** Every run of allowed length that nothing extends is found. */
  lemma RunOf(w: string, rest: string, k: Class, least: nat, most: nat)
    requires All(w, k) && Stops(rest, k) && least <= |w| <= most
    ensures Run(w + rest, k, least, most) == Some(Cut(w, rest))
  {
    SpanOf(w, rest, k);
    assert (w + rest)[..|w|] == w && (w + rest)[|w|..] == rest;
  }

  /** A literal part of the pattern. */
  function Lit(s: string, lit: string): (r: Option<string>)
    ensures r.Some? <==> lit <= s
    ensures r.Some? ==> s == lit + r.value
  {
    if lit <= s then
      assert s == s[..|lit|] + s[|lit|..];
      Some(s[|lit|..])
    else None
  }

  lemma LitOf(lit: string, rest: string)
    ensures Lit(lit + rest, lit) == Some(rest)
  {
    assert (lit + rest)[..|lit|] == lit;
    assert (lit + rest)[|lit|..] == rest;
  }

  /** A run of class `k` and the literal `after` that must follow it. */
  function Field(s: string, k: Class, least: nat, most: nat, after: string): (r: Option<Cut>)
    ensures r.Some? ==>
      && s == r.value.taken + (after + r.value.rest)
      && least <= |r.value.taken| <= most && All(r.value.taken, k)
  {
    var run :- Run(s, k, least, most);
    var rest :- Lit(run.rest, after);
    Some(Cut(run.taken, rest))
  }

  lemma FieldOf(w: string, after: string, rest: string, k: Class, least: nat, most: nat)
    requires All(w, k) && least <= |w| <= most
    requires after != [] && !In(after[0], k)
    ensures Field(w + (after + rest), k, least, most, after) == Some(Cut(w, rest))
  {
    RunOf(w, after + rest, k, least, most);
    LitOf(after, rest);
  }

  // ------------------------------------------------------------ the ip group

  predicate IsOctetText(o: string) {
    1 <= |o| <= 3 && IsDigits(o)
  }

  /** What `\d{1,3}\.\d{1,3}\.\d{1,3}\.\d{1,3}` can capture. */
  predicate IsPatternIp(ip: string) {
    var parts := Split(ip, '.');
    |parts| == 4 && forall k :: 0 <= k < 4 ==> IsOctetText(parts[k])
  }

  function Dotted(p0: string, p1: string, p2: string, p3: string): string {
    p0 + "." + p1 + "." + p2 + "." + p3
  }

  lemma OctetsJoin(parts: seq<string>)
    requires |parts| == 4 && forall k :: 0 <= k < 4 ==> IsOctetText(parts[k])
    ensures Join(parts, '.') == Dotted(parts[0], parts[1], parts[2], parts[3])
    ensures IsPatternIp(Join(parts, '.'))
  {
    forall k | 0 <= k < 4
      ensures '.' !in parts[k]
    {
      assert forall i :: 0 <= i < |parts[k]| ==> IsDigit(parts[k][i]);
    }
    JoinThenSplit(parts, '.');
    Ipv4.JoinFour(parts[0], parts[1], parts[2], parts[3]);
    assert parts == [parts[0], parts[1], parts[2], parts[3]];
  }

  lemma OctetsDotted(p0: string, p1: string, p2: string, p3: string)
    requires IsOctetText(p0) && IsOctetText(p1) && IsOctetText(p2) && IsOctetText(p3)
    ensures IsPatternIp(Dotted(p0, p1, p2, p3))
  {
    OctetsJoin([p0, p1, p2, p3]);
  }

  lemma DottedGlue(p0: string, p1: string, p2: string, p3: string, rest: string)
    ensures p0 + ("." + (p1 + ("." + (p2 + ("." + (p3 + rest)))))) == Dotted(p0, p1, p2, p3) + rest
  {
  }

  /** `\d{1,3}` then '.' */
  function OctetDot(s: string): (r: Option<Cut>)
    ensures r.Some? ==> IsOctetText(r.value.taken) && s == r.value.taken + ("." + r.value.rest)
  {
    var r := Field(s, Digit, 1, 3, ".");
    if r.Some? then DigitsAll(r.value.taken); r else r
  }

  /** The dotted quad at the start of the text. */
  function IpAt(s: string): (r: Option<Cut>)
    ensures r.Some? ==>
      && s == r.value.taken + r.value.rest
      && IsPatternIp(r.value.taken) && Stops(r.value.rest, Digit)
  {
    var a :- OctetDot(s);
    var b :- OctetDot(a.rest);
    var c :- OctetDot(b.rest);
    var d :- Run(c.rest, Digit, 1, 3);
    DigitsAll(d.taken);
    OctetsDotted(a.taken, b.taken, c.taken, d.taken);
    DottedGlue(a.taken, b.taken, c.taken, d.taken, d.rest);
    Some(Cut(Dotted(a.taken, b.taken, c.taken, d.taken), d.rest))
  }

  lemma IpOf(ip: string, rest: string)
    requires IsPatternIp(ip) && Stops(rest, Digit)
    ensures IpAt(ip + rest) == Some(Cut(ip, rest))
  {
    var parts := Split(ip, '.');
    SplitThenJoin(ip, '.');
    OctetsJoin(parts);
    var p0, p1, p2, p3 := parts[0], parts[1], parts[2], parts[3];
    DottedGlue(p0, p1, p2, p3, rest);
    DigitsAll(p0);
    DigitsAll(p1);
    DigitsAll(p2);
    DigitsAll(p3);
    var s3 := p3 + rest;
    var s2 := p2 + ("." + s3);
    var s1 := p1 + ("." + s2);
    FieldOf(p0, ".", s1, Digit, 1, 3);
    FieldOf(p1, ".", s2, Digit, 1, 3);
    FieldOf(p2, ".", s3, Digit, 1, 3);
    RunOf(p3, rest, Digit, 1, 3);
  }

  // ------------------------------------------------------------ the whole pattern

  /** The named groups of a match, as `match.groupdict()` gives them. */
  datatype Groups = Groups(ip: string, time: string, httpMethod: string, path: string, status: string, size: string)

  /** A match: its groups, the unnamed protocol version, and the text after the match. */
  datatype Match = Match(groups: Groups, version: string, rest: string)

  /** What each group of the pattern can capture. */
  predicate WellFormed(g: Groups) {
    && IsPatternIp(g.ip)
    && g.time != [] && All(g.time, NotCloseBracket)
    && g.httpMethod != [] && All(g.httpMethod, Word)
    && g.path != [] && All(g.path, NotSpace)
    && |g.status| == 3 && IsDigits(g.status)
    && (g.size == "-" || IsDecimal(g.size))
  }

  predicate IsVersion(v: string) {
    v != [] && All(v, VersionChar)
  }

  /** The text after the match cannot lengthen a numeric size. */
  predicate SizeEnds(size: string, rest: string) {
    size == "-" || Stops(rest, Digit)
  }

  /**
   * A line in common log format with groups `g`, up to the response size, and
   * then `rest`.
   */
  function Line(g: Groups, version: string, rest: string): string {
    g.ip + (" - - [" + (g.time + ("] \"" + (g.httpMethod + (" " + (g.path
      + (" HTTP/" + (version + ("\" " + (g.status + (" " + (g.size + rest))))))))))))
  }

  /** `\d+|-` */
  function SizeAt(s: string): (r: Option<Cut>)
    ensures r.Some? ==>
      && s == r.value.taken + r.value.rest
      && (r.value.taken == "-" || IsDecimal(r.value.taken))
      && SizeEnds(r.value.taken, r.value.rest)
  {
    match Run(s, Digit, 1, |s|)
    case Some(digits) => DigitsAll(digits.taken); Some(digits)
    case None =>
      var rest :- Lit(s, "-");
      Some(Cut("-", rest))
  }

  lemma SizeOf(size: string, rest: string)
    requires (size == "-" || IsDecimal(size)) && SizeEnds(size, rest)
    ensures SizeAt(size + rest) == Some(Cut(size, rest))
  {
    if size == "-" {
      assert Span(size + rest, Digit) == 0;
      LitOf("-", rest);
    } else {
      DigitsAll(size);
      RunOf(size, rest, Digit, 1, |size + rest|);
    }
  }

  /** The ip and the literal after it. */
  function HeadAt(s: string): (r: Option<Cut>)
    ensures r.Some? ==> IsPatternIp(r.value.taken) && s == r.value.taken + (" - - [" + r.value.rest)
  {
    var ip :- IpAt(s);
    var rest :- Lit(ip.rest, " - - [");
    Some(Cut(ip.taken, rest))
  }

  /** The pattern anchored at the start of the text (`LOG_PATTERN.match`). */
  function MatchAt(s: string): (r: Option<Match>)
    ensures r.Some? ==>
      && s == Line(r.value.groups, r.value.version, r.value.rest)
      && WellFormed(r.value.groups) && IsVersion(r.value.version)
      && SizeEnds(r.value.groups.size, r.value.rest)
  {
    var ip :- HeadAt(s);
    var time :- Field(ip.rest, NotCloseBracket, 1, |ip.rest|, "] \"");
    var verb :- Field(time.rest, Word, 1, |time.rest|, " ");
    var path :- Field(verb.rest, NotSpace, 1, |verb.rest|, " HTTP/");
    var version :- Field(path.rest, VersionChar, 1, |path.rest|, "\" ");
    var status :- Field(version.rest, Digit, 3, 3, " ");
    var size :- SizeAt(status.rest);
    DigitsAll(status.taken);
    Some(Match(Groups(ip.taken, time.taken, verb.taken, path.taken, status.taken, size.taken), version.taken, size.rest))
  }

  /**
   * Every common-log-format prefix is matched, with exactly its groups: together
   * with `MatchAt`'s postcondition, the pattern matches a text if and only if
   * the text starts with a `Line`.
   */
  lemma MatchLine(g: Groups, version: string, rest: string)
    requires WellFormed(g) && IsVersion(version) && SizeEnds(g.size, rest)
    ensures MatchAt(Line(g, version, rest)) == Some(Match(g, version, rest))
  {
    var t6 := g.size + rest;
    var t5 := g.status + (" " + t6);
    var t4 := version + ("\" " + t5);
    var t3 := g.path + (" HTTP/" + t4);
    var t2 := g.httpMethod + (" " + t3);
    var t1 := g.time + ("] \"" + t2);
    IpOf(g.ip, " - - [" + t1);
    LitOf(" - - [", t1);
    FieldOf(g.time, "] \"", t2, NotCloseBracket, 1, |t1|);
    FieldOf(g.httpMethod, " ", t3, Word, 1, |t2|);
    FieldOf(g.path, " HTTP/", t4, NotSpace, 1, |t3|);
    FieldOf(version, "\" ", t5, VersionChar, 1, |t4|);
    DigitsAll(g.status);
    FieldOf(g.status, " ", t6, Digit, 3, 3);
    SizeOf(g.size, rest);
  }

  // ------------------------------------------------------------ search

  /** The first start at or after `k` where the pattern matches. */
  function SearchFrom(line: string, k: nat): (r: Option<Match>)
    requires k <= |line|
    ensures r.Some? ==> WellFormed(r.value.groups) && IsVersion(r.value.version)
    decreases |line| - k
  {
    match MatchAt(line[k..])
    case Some(m) => Some(m)
    case None => if k == |line| then None else SearchFrom(line, k + 1)
  }

  /** `LOG_PATTERN.search(line)` */
  function Search(line: string): (r: Option<Match>)
    ensures r.Some? ==> WellFormed(r.value.groups) && IsVersion(r.value.version)
  {
    SearchFrom(line, 0)
  }

  /** No start before `k` matches. */
  predicate NoMatchBefore(line: string, k: nat)
    requires k <= |line| + 1
  {
    NoMatchBetween(line, 0, k)
  }

  /** No start in `i..k` matches. */
  predicate NoMatchBetween(line: string, i: nat, k: nat)
    requires k <= |line| + 1
  {
    forall j :: i <= j < k ==> MatchAt(line[j..]).None?
  }

  lemma {:induction false} SearchFromLeftmost(line: string, i: nat, k: nat)
    requires i <= k <= |line|
    requires MatchAt(line[k..]).Some?
    requires NoMatchBetween(line, i, k)
    ensures SearchFrom(line, i) == MatchAt(line[k..])
    decreases k - i
  {
    if i < k {
      SearchFromLeftmost(line, i + 1, k);
    }
  }

  /** Search reports the match at the leftmost start where there is one. */
  lemma SearchLeftmost(line: string, k: nat)
    requires k <= |line| && MatchAt(line[k..]).Some? && NoMatchBefore(line, k)
    ensures Search(line) == MatchAt(line[k..])
  {
    SearchFromLeftmost(line, 0, k);
  }

  lemma {:induction false} SearchFromFound(line: string, i: nat)
    requires i <= |line| && SearchFrom(line, i).Some?
    ensures exists k :: i <= k <= |line| && SearchFrom(line, i) == MatchAt(line[k..]) && NoMatchBetween(line, i, k)
    decreases |line| - i
  {
    if MatchAt(line[i..]).None? {
      SearchFromFound(line, i + 1);
    }
  }

  /** Whatever Search reports is the match at some start, the leftmost one. */
  lemma SearchFound(line: string)
    requires Search(line).Some?
    ensures exists k :: 0 <= k <= |line| && Search(line) == MatchAt(line[k..]) && NoMatchBefore(line, k)
  {
    SearchFromFound(line, 0);
    var k :| 0 <= k <= |line| && Search(line) == MatchAt(line[k..]) && NoMatchBetween(line, 0, k);
    assert NoMatchBefore(line, k);
  }

  lemma {:induction false} SearchFromNone(line: string, i: nat)
    requires i <= |line|
    ensures SearchFrom(line, i).None? <==> NoMatchBetween(line, i, |line| + 1)
    decreases |line| - i
  {
    if MatchAt(line[i..]).None? && i < |line| {
      SearchFromNone(line, i + 1);
      assert NoMatchBetween(line, i, |line| + 1) <==> NoMatchBetween(line, i + 1, |line| + 1);
    }
  }

  /** Search fails exactly when the pattern matches at no start. */
  lemma SearchNone(line: string)
    ensures Search(line).None? <==> NoMatchBefore(line, |line| + 1)
  {
    SearchFromNone(line, 0);
    assert NoMatchBetween(line, 0, |line| + 1) == NoMatchBefore(line, |line| + 1);
  }

  /** A line that starts in common log format is matched from its first character. */
  lemma SearchLine(g: Groups, version: string, rest: string)
    requires WellFormed(g) && IsVersion(version) && SizeEnds(g.size, rest)
    ensures Search(Line(g, version, rest)) == Some(Match(g, version, rest))
  {
    var line := Line(g, version, rest);
    MatchLine(g, version, rest);
    assert line[0..] == line;
    SearchLeftmost(line, 0);
  }

  // ------------------------------------------------------------ what the groups guarantee

  /**
   * On an ip the pattern captured, `validate_ip` decides on the value of the
   * last octet alone: the other three are never more than three digits but
   * may exceed 255.
   */
  lemma PatternIpValidity(ip: string)
    requires IsPatternIp(ip)
    ensures Ipv4.ValidIp(ip) <==> DigitsValue(Split(ip, '.')[3]) <= 255
  {
    var parts := Split(ip, '.');
    SplitThenJoin(ip, '.');
    Ipv4.DottedDecimalValidity(parts);
  }

  /** The captured status is always an integer between 0 and 999. */
  lemma PatternStatusValue(status: string)
    requires |status| == 3 && IsDigits(status)
    ensures ParseInt(status) == Some(DigitsValue(status))
    ensures DigitsValue(status) <= 999
  {
    ParseDigits(status);
    assert DigitsValue(status[..2]) <= 99 by {
      assert DigitsValue(status[..2][..1]) <= 9;
    }
  }

  // ------------------------------------------------------------ the example line

  lemma SampleIp(ip: string)
    requires ip == "127.0.0.1"
    ensures IsPatternIp(ip)
  {
    assert ip == Dotted("127", "0", "0", "1");
    OctetsDotted("127", "0", "0", "1");
  }

  lemma SampleTime(t: string)
    requires t == "04/Dec/2025:10:00:00 +0700"
    ensures t != [] && All(t, NotCloseBracket)
  {
    assert forall i :: 0 <= i < |t| ==> t[i] != ']';
  }

  lemma SamplePath(p: string)
    requires p == "/index.html"
    ensures p != [] && All(p, NotSpace)
  {
    assert forall i :: 0 <= i < |p| ==> '.' <= p[i] <= 'x';
  }

  lemma SampleRest(m: string, status: string, size: string)
    requires m == "GET" && status == "200" && size == "1024"
    ensures m != [] && All(m, Word) && |status| == 3 && IsDigits(status) && IsDecimal(size)
  {
  }

  /**
   * The groups of the example line the parser shows its users are groups the
   * pattern can capture, so by `SearchLine` that line is matched with them.
   */
  lemma SampleGroups(g: Groups)
    requires g == Groups("127.0.0.1", "04/Dec/2025:10:00:00 +0700", "GET", "/index.html", "200", "1024")
    ensures WellFormed(g)
  {
    SampleIp(g.ip);
    SampleTime(g.time);
    SamplePath(g.path);
    SampleRest(g.httpMethod, g.status, g.size);
  }

}
