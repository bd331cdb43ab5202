/**
 * The fallback reader in `load_file` (app.py): an uploaded text file that is
 * not CSV is cut into lines, and every line with at least seven
 * whitespace-separated tokens becomes one `(time, ip, method, path, status,
 * size)` tuple, by whitespace, bracket and quote splitting rather than by a
 * pattern.
 */
module LoadFile {
  import opened Wrappers
  import opened Text

  /** One tuple of the table the reader builds; every field is text. */
  datatype Row = Row(time: string, ip: string, httpMethod: string, path: string, status: string, size: string)

  /** Lines with fewer whitespace tokens than this are skipped. */
  const MIN_TOKENS := 7

  /** `L.split("[")[1].split("]")[0]` when the line has a `[`, and "" otherwise. */
  function BracketTime(line: string): string {
    if '[' in line then
      SplitMoreThanOne(line, '[');
      Split(Split(line, '[')[1], ']')[0]
    else
      ""
  }

  /** `L.split('"')[1]`, with the `IndexError` of a quote-free line caught as "". */
  function Request(line: string): string {
    var quoted := Split(line, '"');
    if |quoted| > 1 then quoted[1] else ""
  }

  /** `(req.split() + ["", "", ""])[:3]`: method, path and protocol. */
  function RequestWords(req: string): (words: seq<string>)
    ensures |words| == 3
  {
    (SplitWs(req) + ["", "", ""])[..3]
  }

  /** A token kept when `isdigit()` holds of it, "" otherwise. */
  function DigitsOnly(token: string): string {
    if IsDecimal(token) then token else ""
  }

  /** The tuple one line contributes, or None for a line that is skipped. */
  function RowOf(line: string): Option<Row> {
    var parts := SplitWs(line);
    if |parts| < MIN_TOKENS then None
    else
      var words := RequestWords(Request(line));
      Some(Row(BracketTime(line), parts[0], words[0], words[1],
               DigitsOnly(parts[|parts| - 2]), DigitsOnly(parts[|parts| - 1])))
  }

  /** The tuples of a sequence of lines, in line order. */
  function RowsOf(lines: seq<string>): seq<Row> {
    if lines == [] then []
    else
      var last := lines[|lines| - 1];
      RowsOf(lines[..|lines| - 1]) + (if RowOf(last).Some? then [RowOf(last).value] else [])
  }

  lemma RowsStep(lines: seq<string>, i: nat)
    requires i < |lines|
    ensures RowsOf(lines[..i + 1]) == RowsOf(lines[..i]) + (if RowOf(lines[i]).Some? then [RowOf(lines[i]).value] else [])
  {
    assert lines[..i + 1][..i] == lines[..i];
  }

  /** The loop of `load_file` over `content.splitlines()`. */
  method LoadRows(content: string) returns (rows: seq<Row>)
    ensures rows == RowsOf(SplitLines(content))
  {
    var lines := SplitLines(content);
    rows := [];
    var i := 0;
    while i < |lines|
      invariant 0 <= i <= |lines|
      invariant rows == RowsOf(lines[..i])
    {
      var line := lines[i];
      RowsStep(lines, i);
      i := i + 1;
      var parts := SplitWs(line);
      if |parts| < 7 {
        continue;
      }
      var ip := parts[0];
      var time := "";
      if '[' in line {
        SplitMoreThanOne(line, '[');
        time := Split(Split(line, '[')[1], ']')[0];
      }
      var req := "";
      var quoted := Split(line, '"');
      if |quoted| > 1 {
        req := quoted[1];
      } else {
        req := "";
      }
      var words := SplitWs(req) + ["", "", ""];
      var httpMethod, endpoint, proto := words[0], words[1], words[2];
      var status := if IsDecimal(parts[|parts| - 2]) then parts[|parts| - 2] else "";
      var size := if IsDecimal(parts[|parts| - 1]) then parts[|parts| - 1] else "";
      rows := rows + [Row(time, ip, httpMethod, endpoint, status, size)];
    }
    assert lines[..|lines|] == lines;
  }

  // ------------------------------------------------------------ one line

  /** A line gives no tuple exactly when it has fewer than seven whitespace tokens, and one otherwise. */
  lemma ShortLineSkipped(line: string)
    ensures RowsOf([line]) == [] <==> |SplitWs(line)| < MIN_TOKENS
    ensures |RowsOf([line])| <= 1
  {
    assert [line][..0] == [];
  }

  /**
   * The ip is the first token: the line is some leading whitespace, then the
   * ip (non-empty, free of whitespace), then whitespace or the end.
   */
  lemma IpIsFirstToken(line: string)
    requires RowOf(line).Some?
    ensures var ip := RowOf(line).value.ip;
            var lead := |line| - |TrimStart(line)|;
            ip != [] && NoSpace(ip) && AllSpace(line[..lead]) &&
            lead + |ip| <= |line| && line[lead..lead + |ip|] == ip &&
            (lead + |ip| < |line| ==> IsSpace(line[lead + |ip|]))
  {
    var ip := RowOf(line).value.ip;
    assert ip == SplitWs(line)[0];
    FirstWordPlace(line);
  }

  /** The first word split() gives follows the leading whitespace and ends at whitespace or the end. */
  lemma FirstWordPlace(s: string)
    requires SplitWs(s) != []
    ensures var w := SplitWs(s)[0];
            var lead := |s| - |TrimStart(s)|;
            w != [] && NoSpace(w) && AllSpace(s[..lead]) &&
            lead + |w| <= |s| && s[lead..lead + |w|] == w &&
            (lead + |w| < |s| ==> IsSpace(s[lead + |w|]))
  {
    var t := TrimStart(s);
    var lead := |s| - |t|;
    var n := SpaceIndex(t);
    assert t != [] && SplitWs(s)[0] == t[..n];
    assert AllSpace(s[..lead]) && t == s[lead..] by {
      TrimStartRemovesBlank(s);
    }
    assert NoSpace(t[..n]) && (n < |t| ==> IsSpace(t[n])) by {
      SpaceIndexFirst(t);
    }
    assert s[lead..lead + n] == t[..n];
    assert lead + n < |s| ==> s[lead + n] == t[n];
  }

  /**
   * The time is "" on a line without `[`; otherwise it is the text right
   * after the first `[`, up to (not including) the next `[` or `]`, or to
   * the end of the line.
   */
  lemma TimeRule(line: string)
    ensures '[' !in line ==> BracketTime(line) == ""
    ensures '[' in line ==>
              IndexOf(line, '[') < |line| &&
              var after := line[IndexOf(line, '[') + 1..];
              var time := BracketTime(line);
              |time| <= |after| && time == after[..|time|] &&
              '[' !in time && ']' !in time &&
              (|time| < |after| ==> after[|time|] == '[' || after[|time|] == ']')
  {
    if '[' in line {
      IndexOfFirst(line, '[');
      var after := line[IndexOf(line, '[') + 1..];
      SplitSecondPart(line, '[');
      var segment := after[..IndexOf(after, '[')];
      SplitFirstPart(segment, ']');
      UpToEither(after, '[', ']');
    }
  }

  /** Cutting at the first `a` and then at the first `b` leaves the text up to the first of either. */
  lemma UpToEither(s: string, a: char, b: char)
    ensures var segment := s[..IndexOf(s, a)];
            var cut := segment[..IndexOf(segment, b)];
            cut == s[..|cut|] && a !in cut && b !in cut &&
            (|cut| < |s| ==> s[|cut|] == a || s[|cut|] == b)
  {
    var segment := s[..IndexOf(s, a)];
    IndexOfFirst(s, a);
    IndexOfFirst(segment, b);
    var cut := segment[..IndexOf(segment, b)];
    assert cut == s[..|cut|];
    assert a !in cut by {
      assert forall i :: 0 <= i < |cut| ==> cut[i] == segment[i];
    }
  }

  /**
   * The request is "" on a line without a double quote; otherwise it is the
   * text right after the first quote up to the next quote or the end.
   */
  lemma RequestRule(line: string)
    ensures '"' !in line ==> Request(line) == ""
    ensures '"' in line ==>
              IndexOf(line, '"') < |line| &&
              var after := line[IndexOf(line, '"') + 1..];
              var req := Request(line);
              |req| <= |after| && req == after[..|req|] && '"' !in req &&
              (|req| < |after| ==> after[|req|] == '"')
  {
    SplitMoreThanOne(line, '"');
    if '"' in line {
      IndexOfFirst(line, '"');
      var after := line[IndexOf(line, '"') + 1..];
      SplitSecondPart(line, '"');
      IndexOfFirst(after, '"');
    }
  }

  /**
   * Method, path and protocol are the first three words of the request, in
   * order; a request with fewer words leaves the missing ones "".
   */
  lemma RequestWordsRule(req: string)
    ensures var words := RequestWords(req);
            var n := |SplitWs(req)|;
            forall k :: 0 <= k < 3 ==>
              (k < n ==> words[k] == SplitWs(req)[k] && words[k] != [] && NoSpace(words[k])) &&
              (n <= k ==> words[k] == "")
  {
    SplitWsWords(req);
  }

  /** The fields of a tuple as they come out of its line's tokens and request. */
  lemma RowFields(line: string)
    requires RowOf(line).Some?
    ensures var row := RowOf(line).value;
            var parts := SplitWs(line);
            var words := SplitWs(Request(line));
            MIN_TOKENS <= |parts| &&
            row.ip == parts[0] && row.time == BracketTime(line) &&
            (0 < |words| ==> row.httpMethod == words[0]) && (|words| == 0 ==> row.httpMethod == "") &&
            (1 < |words| ==> row.path == words[1]) && (|words| <= 1 ==> row.path == "")
  {
    RequestWordsRule(Request(line));
  }

  /**
   * Status and size are the last-but-one and the last token when those are
   * all digits, and "" otherwise; neither ever holds whitespace.
   */
  lemma StatusSizeRule(line: string)
    requires RowOf(line).Some?
    ensures var row := RowOf(line).value;
            var parts := SplitWs(line);
            (row.status != "" <==> IsDecimal(parts[|parts| - 2])) &&
            (row.status != "" ==> row.status == parts[|parts| - 2]) &&
            (row.size != "" <==> IsDecimal(parts[|parts| - 1])) &&
            (row.size != "" ==> row.size == parts[|parts| - 1]) &&
            NoSpace(row.status) && NoSpace(row.size)
  {
    SplitWsWords(line);
  }

  // ------------------------------------------------------------ all lines

  /** The tuples of two runs of lines are the tuples of each, in order. */
  lemma {:induction false} RowsAppend(a: seq<string>, b: seq<string>)
    ensures RowsOf(a + b) == RowsOf(a) + RowsOf(b)
    decreases |b|
  {
    if b == [] {
      assert a + b == a;
    } else {
      var b' := b[..|b| - 1];
      assert (a + b)[..|a + b| - 1] == a + b';
      RowsAppend(a, b');
    }
  }

  /** Number of lines with at least seven tokens, counted from the front. */
  function LongLines(lines: seq<string>): nat {
    if lines == [] then 0
    else (if |SplitWs(lines[0])| >= MIN_TOKENS then 1 else 0) + LongLines(lines[1..])
  }

  /** One tuple per line that has at least seven tokens, and no other. */
  lemma {:induction false} RowCount(lines: seq<string>)
    ensures |RowsOf(lines)| == LongLines(lines)
  {
    if lines != [] {
      assert lines == [lines[0]] + lines[1..];
      RowsAppend([lines[0]], lines[1..]);
      assert [lines[0]][..0] == [];
      RowCount(lines[1..]);
    }
  }

  /** Every tuple is the one some line of the input gives. */
  lemma {:induction false} RowsFromLines(lines: seq<string>)
    ensures forall row :: row in RowsOf(lines) ==> exists line :: line in lines && RowOf(line) == Some(row)
  {
    if lines != [] {
      var init := lines[..|lines| - 1];
      RowsFromLines(init);
      forall row | row in RowsOf(lines)
        ensures exists line :: line in lines && RowOf(line) == Some(row)
      {
        if row in RowsOf(init) {
          var line :| line in init && RowOf(line) == Some(row);
          assert line in lines;
        } else {
          assert RowOf(lines[|lines| - 1]) == Some(row);
        }
      }
    }
  }
}
