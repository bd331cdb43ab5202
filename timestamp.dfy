/**
 * `parse_timestamp` of modules/log_parser.py together with the part of
 * Python's `datetime.strptime` its four formats exercise.
 *
 * strptime turns a format into a regular expression, matches it at the start
 * of the text, rejects text left over after the match, and finally builds a
 * `datetime`, which rejects impossible dates. Every numeric field of the four
 * formats is followed by a non-digit or by the end of the format, so the
 * regular expression takes exactly the maximal run of digits there; the
 * matcher below states it that way.
 */
module Timestamp {
  import opened Wrappers
  import opened Text

  datatype Field = Year | Month | Day | Hour | Minute | Second

  /** A naive `datetime` (no time zone). */
  datatype DateTime = DateTime(year: int, month: int, day: int, hour: int, minute: int, second: int) {

    function Get(f: Field): int {
      match f
      case Year => year
      case Month => month
      case Day => day
      case Hour => hour
      case Minute => minute
      case Second => second
    }

    function With(f: Field, v: int): DateTime {
      match f
      case Year => this.(year := v)
      case Month => this.(month := v)
      case Day => this.(day := v)
      case Hour => this.(hour := v)
      case Minute => this.(minute := v)
      case Second => this.(second := v)
    }
  }

  /** The fields strptime starts from before the text fills them in. */
  const DEFAULT_FIELDS := DateTime(1900, 1, 1, 0, 0, 0)

  predicate IsLeapYear(year: int) {
    year % 4 == 0 && (year % 100 != 0 || year % 400 == 0)
  }

  function DaysInMonth(year: int, month: int): int
    requires 1 <= month <= 12
  {
    if month == 2 then (if IsLeapYear(year) then 29 else 28)
    else if month == 4 || month == 6 || month == 9 || month == 11 then 30
    else 31
  }

  /** What the `datetime` constructor accepts. */
  predicate ValidDateTime(d: DateTime) {
    && 1 <= d.year <= 9999
    && 1 <= d.month <= 12
    && 1 <= d.day <= DaysInMonth(d.year, d.month)
    && 0 <= d.hour <= 23
    && 0 <= d.minute <= 59
    && 0 <= d.second <= 59
  }

  // ------------------------------------------------------------ formats

  /** One element of a format once strptime has compiled it. */
  datatype Directive =
    | Number(field: Field, minDigits: nat, maxDigits: nat, least: nat, greatest: nat)
    | MonthName     // %b: an English month abbreviation, any letter case
    | Blank         // a run of whitespace in the format: one or more whitespace characters
    | Literal(c: char)

  const MONTH_NAMES: seq<string> :=
    ["jan", "feb", "mar", "apr", "may", "jun", "jul", "aug", "sep", "oct", "nov", "dec"]

  /** The directives the four formats use, with the digit counts and values their patterns allow. */
  function DirectiveOf(c: char): Option<Directive> {
    match c
    case 'd' => Some(Number(Day, 1, 2, 1, 31))
    case 'm' => Some(Number(Month, 1, 2, 1, 12))
    case 'Y' => Some(Number(Year, 4, 4, 0, 9999))
    case 'H' => Some(Number(Hour, 1, 2, 0, 23))
    case 'M' => Some(Number(Minute, 1, 2, 0, 59))
    case 'S' => Some(Number(Second, 1, 2, 0, 61))
    case 'b' => Some(MonthName)
    case '%' => Some(Literal('%'))
    case _ => None
  }

  /** Compile a format: `%x` directives, runs of whitespace, and literal characters. */
  function CompileFormat(fmt: string): Option<seq<Directive>>
    decreases |fmt|
  {
    if fmt == [] then Some([])
    else if fmt[0] == '%' then
      if |fmt| < 2 then None
      else
        var d :- DirectiveOf(fmt[1]);
        var rest :- CompileFormat(fmt[2..]);
        Some([d] + rest)
    else if IsSpace(fmt[0]) then
      var rest :- CompileFormat(fmt[1..]);
      Some(if rest != [] && rest[0] == Blank then rest else [Blank] + rest)
    else
      var rest :- CompileFormat(fmt[1..]);
      Some([Literal(fmt[0])] + rest)
  }

  /** The formats `parse_timestamp` tries, in order. */
  const FORMATS: seq<string> := [
    "%d/%b/%Y:%H:%M:%S",
    "%d/%m/%Y:%H:%M:%S",
    "%Y-%m-%d %H:%M:%S",
    "%d-%b-%Y %H:%M:%S"
  ]

  const DAY := Number(Day, 1, 2, 1, 31)
  const MONTH := Number(Month, 1, 2, 1, 12)
  const YEAR := Number(Year, 4, 4, 0, 9999)
  const HOUR := Number(Hour, 1, 2, 0, 23)
  const MINUTE := Number(Minute, 1, 2, 0, 59)
  const SECOND := Number(Second, 1, 2, 0, 61)

  const CLOCK := [HOUR, Literal(':'), MINUTE, Literal(':'), SECOND]
  const NAMED_SLASHED := [DAY, Literal('/'), MonthName, Literal('/'), YEAR, Literal(':')] + CLOCK
  const NUMERIC_SLASHED := [DAY, Literal('/'), MONTH, Literal('/'), YEAR, Literal(':')] + CLOCK
  const ISO_DATE := [YEAR, Literal('-'), MONTH, Literal('-'), DAY]
  const ISO_SPACED := ISO_DATE + [Blank] + CLOCK
  const NAMED_DASHED := [DAY, Literal('-'), MonthName, Literal('-'), YEAR, Blank] + CLOCK

  /** The four formats compile to the directive lists above. */
  lemma CompiledFormats()
    ensures CompileFormat(FORMATS[0]) == Some(NAMED_SLASHED)
    ensures CompileFormat(FORMATS[1]) == Some(NUMERIC_SLASHED)
    ensures CompileFormat(FORMATS[2]) == Some(ISO_SPACED)
    ensures CompileFormat(FORMATS[3]) == Some(NAMED_DASHED)
  {
    CompiledClock();
    var clock := "%H:%M:%S";
    CompileYearClock(clock);
    CompileSpacedClock(clock);
    var yearClock, spacedClock := "/" + ("%Y" + (":" + clock)), " " + clock;
    CompileNamedSlashed(yearClock);
    CompileNumericSlashed(yearClock);
    CompileIsoSpaced(spacedClock);
    CompileNamedDashed(spacedClock);
    FormatPieces();
    DirectivePieces();
  }

  lemma CompiledClock()
    ensures CompileFormat("%H:%M:%S").Some? && CompileFormat("%H:%M:%S").value == CLOCK
  {
    var t := "";
    assert CompileFormat(t) == Some([]);
    CompileDirective('S', t);
    CompileLiteral(':', "%S" + t);
    CompileDirective('M', ":" + ("%S" + t));
    CompileLiteral(':', "%M" + (":" + ("%S" + t)));
    CompileDirective('H', ":" + ("%M" + (":" + ("%S" + t))));
    assert "%H:%M:%S" == "%H" + (":" + ("%M" + (":" + ("%S" + t))));
    assert CLOCK == [HOUR] + ([Literal(':')] + ([MINUTE] + ([Literal(':')] + ([SECOND] + []))));
  }

  lemma CompileYearClock(t: string)
    requires CompileFormat(t).Some? && CompileFormat(t).value == CLOCK
    ensures CompileFormat("/" + ("%Y" + (":" + t))).Some?
    ensures CompileFormat("/" + ("%Y" + (":" + t))).value == [Literal('/')] + ([YEAR] + ([Literal(':')] + CLOCK))
  {
    CompileLiteral(':', t);
    CompileDirective('Y', ":" + t);
    CompileLiteral('/', "%Y" + (":" + t));
  }

  lemma CompileSpacedClock(t: string)
    requires CompileFormat(t).Some? && CompileFormat(t).value == CLOCK
    ensures CompileFormat(" " + t).Some?
    ensures CompileFormat(" " + t).value == [Blank] + CLOCK
  {
    CompileBlank(t);
  }

  lemma CompileNamedSlashed(t: string)
    requires CompileFormat(t).Some? && CompileFormat(t).value == [Literal('/')] + ([YEAR] + ([Literal(':')] + CLOCK))
    ensures CompileFormat("%d" + ("/" + ("%b" + t))).Some?
    ensures CompileFormat("%d" + ("/" + ("%b" + t))).value == [DAY] + ([Literal('/')] + ([MonthName] + ([Literal('/')] + ([YEAR] + ([Literal(':')] + CLOCK)))))
  {
    CompileDirective('b', t);
    CompileLiteral('/', "%b" + t);
    CompileDirective('d', "/" + ("%b" + t));
  }

  lemma CompileNumericSlashed(t: string)
    requires CompileFormat(t).Some? && CompileFormat(t).value == [Literal('/')] + ([YEAR] + ([Literal(':')] + CLOCK))
    ensures CompileFormat("%d" + ("/" + ("%m" + t))).Some?
    ensures CompileFormat("%d" + ("/" + ("%m" + t))).value == [DAY] + ([Literal('/')] + ([MONTH] + ([Literal('/')] + ([YEAR] + ([Literal(':')] + CLOCK)))))
  {
    CompileDirective('m', t);
    CompileLiteral('/', "%m" + t);
    CompileDirective('d', "/" + ("%m" + t));
  }

  lemma CompileIsoSpaced(t: string)
    requires CompileFormat(t).Some? && CompileFormat(t).value == [Blank] + CLOCK
    ensures CompileFormat("%Y" + ("-" + ("%m" + ("-" + ("%d" + t))))).Some?
    ensures CompileFormat("%Y" + ("-" + ("%m" + ("-" + ("%d" + t))))).value == [YEAR] + ([Literal('-')] + ([MONTH] + ([Literal('-')] + ([DAY] + ([Blank] + CLOCK)))))
  {
    CompileDirective('d', t);
    CompileLiteral('-', "%d" + t);
    CompileDirective('m', "-" + ("%d" + t));
    CompileLiteral('-', "%m" + ("-" + ("%d" + t)));
    CompileDirective('Y', "-" + ("%m" + ("-" + ("%d" + t))));
  }

  lemma CompileNamedDashed(t: string)
    requires CompileFormat(t).Some? && CompileFormat(t).value == [Blank] + CLOCK
    ensures CompileFormat("%d" + ("-" + ("%b" + ("-" + ("%Y" + t))))).Some?
    ensures CompileFormat("%d" + ("-" + ("%b" + ("-" + ("%Y" + t))))).value == [DAY] + ([Literal('-')] + ([MonthName] + ([Literal('-')] + ([YEAR] + ([Blank] + CLOCK)))))
  {
    CompileDashedMonth(t);
    CompileDirective('d', "-" + ("%b" + ("-" + ("%Y" + t))));
  }

  lemma CompileDashedMonth(t: string)
    requires CompileFormat(t).Some? && CompileFormat(t).value == [Blank] + CLOCK
    ensures CompileFormat("-" + ("%b" + ("-" + ("%Y" + t)))).Some?
    ensures CompileFormat("-" + ("%b" + ("-" + ("%Y" + t)))).value == [Literal('-')] + ([MonthName] + ([Literal('-')] + ([YEAR] + ([Blank] + CLOCK))))
  {
    CompileDashedYear(t);
    CompileDirective('b', "-" + ("%Y" + t));
    CompileLiteral('-', "%b" + ("-" + ("%Y" + t)));
  }

  lemma CompileDashedYear(t: string)
    requires CompileFormat(t).Some? && CompileFormat(t).value == [Blank] + CLOCK
    ensures CompileFormat("-" + ("%Y" + t)).Some?
    ensures CompileFormat("-" + ("%Y" + t)).value == [Literal('-')] + ([YEAR] + ([Blank] + CLOCK))
  {
    CompileDirective('Y', t);
    CompileLiteral('-', "%Y" + t);
  }

  lemma FormatPieces()
    ensures FORMATS[0] == "%d" + ("/" + ("%b" + ("/" + ("%Y" + (":" + "%H:%M:%S")))))
    ensures FORMATS[1] == "%d" + ("/" + ("%m" + ("/" + ("%Y" + (":" + "%H:%M:%S")))))
    ensures FORMATS[2] == "%Y" + ("-" + ("%m" + ("-" + ("%d" + (" " + "%H:%M:%S")))))
    ensures FORMATS[3] == "%d" + ("-" + ("%b" + ("-" + ("%Y" + (" " + "%H:%M:%S")))))
  {
  }

  lemma DirectivePieces()
    ensures NAMED_SLASHED == [DAY] + ([Literal('/')] + ([MonthName] + ([Literal('/')] + ([YEAR] + ([Literal(':')] + CLOCK)))))
    ensures NUMERIC_SLASHED == [DAY] + ([Literal('/')] + ([MONTH] + ([Literal('/')] + ([YEAR] + ([Literal(':')] + CLOCK)))))
    ensures ISO_SPACED == [YEAR] + ([Literal('-')] + ([MONTH] + ([Literal('-')] + ([DAY] + ([Blank] + CLOCK)))))
    ensures NAMED_DASHED == [DAY] + ([Literal('-')] + ([MonthName] + ([Literal('-')] + ([YEAR] + ([Blank] + CLOCK)))))
  {
  }

  lemma CompileDirective(c: char, rest: string)
    requires DirectiveOf(c).Some? && CompileFormat(rest).Some?
    ensures CompileFormat("%" + [c] + rest).Some?
    ensures CompileFormat("%" + [c] + rest).value == [DirectiveOf(c).value] + CompileFormat(rest).value
  {
    assert ("%" + [c] + rest)[2..] == rest;
  }

  lemma CompileLiteral(c: char, rest: string)
    requires c != '%' && !IsSpace(c) && CompileFormat(rest).Some?
    ensures CompileFormat([c] + rest).Some?
    ensures CompileFormat([c] + rest).value == [Literal(c)] + CompileFormat(rest).value
  {
    assert ([c] + rest)[1..] == rest;
  }

  lemma CompileBlank(rest: string)
    requires CompileFormat(rest).Some?
    requires CompileFormat(rest).value == [] || CompileFormat(rest).value[0] != Blank
    ensures CompileFormat(" " + rest).Some?
    ensures CompileFormat(" " + rest).value == [Blank] + CompileFormat(rest).value
  {
    assert (" " + rest)[1..] == rest;
  }

  // ------------------------------------------------------------ matching

  function LowerAscii(s: string): (r: string)
    ensures |r| == |s|
  {
    if s == [] then []
    else [if 'A' <= s[0] <= 'Z' then (s[0] as int + 32) as char else s[0]] + LowerAscii(s[1..])
  }

  function Position(names: seq<string>, name: string): (k: nat)
    requires name in names
    ensures k < |names| && names[k] == name
  {
    if names[0] == name then 0 else 1 + Position(names[1..], name)
  }

  /**
   * The compiled format matched against the whole text, filling in `acc`;
   * None when the pattern does not match or text is left over.
   */
  function MatchFormat(dirs: seq<Directive>, s: string, acc: DateTime): Option<DateTime>
    decreases |dirs|
  {
    if dirs == [] then
      if s == [] then Some(acc) else None
    else
      match dirs[0]
      case Literal(c) =>
        if s != [] && s[0] == c then MatchFormat(dirs[1..], s[1..], acc) else None
      case Blank =>
        var t := TrimStart(s);
        if |t| < |s| then MatchFormat(dirs[1..], t, acc) else None
      case MonthName =>
        if |s| >= 3 && LowerAscii(s[..3]) in MONTH_NAMES then
          var month := Position(MONTH_NAMES, LowerAscii(s[..3])) + 1;
          MatchFormat(dirs[1..], s[3..], acc.(month := month))
        else None
      case Number(field, minDigits, maxDigits, least, greatest) =>
        DigitRunDigits(s);
        var n := DigitRun(s);
        if minDigits <= n <= maxDigits && least <= DigitsValue(s[..n]) <= greatest then
          MatchFormat(dirs[1..], s[n..], acc.With(field, DigitsValue(s[..n])))
        else None
  }

  /** `datetime.strptime(text, fmt)`; None stands for the ValueError it raises. */
  function Strptime(text: string, fmt: string): (r: Option<DateTime>)
    ensures r.Some? ==> ValidDateTime(r.value)
  {
    var dirs :- CompileFormat(fmt);
    var d :- MatchFormat(dirs, text, DEFAULT_FIELDS);
    if ValidDateTime(d) then Some(d) else None
  }

  /** The formats tried in order; the first that parses wins. */
  function FirstParse(text: string, fmts: seq<string>): (r: Option<DateTime>)
    ensures r.Some? ==> ValidDateTime(r.value)
  {
    if fmts == [] then None
    else
      match Strptime(text, fmts[0])
      case Some(d) => Some(d)
      case None => FirstParse(text, fmts[1..])
  }

  /** The first format that parses decides the result, whatever the later ones would give. */
  lemma {:induction false} FirstSuccessWins(text: string, fmts: seq<string>, k: nat)
    requires k < |fmts| && Strptime(text, fmts[k]).Some?
    requires forall j :: 0 <= j < k ==> Strptime(text, fmts[j]).None?
    ensures FirstParse(text, fmts) == Strptime(text, fmts[k])
  {
    if k > 0 {
      assert Strptime(text, fmts[0]).None?;
      assert forall j :: 0 <= j < k - 1 ==> fmts[1..][j] == fmts[j + 1];
      FirstSuccessWins(text, fmts[1..], k - 1);
    }
  }

  /** No result exactly when no format parses. */
  lemma {:induction false} FirstParseFails(text: string, fmts: seq<string>)
    ensures FirstParse(text, fmts).None? <==> forall j :: 0 <= j < |fmts| ==> Strptime(text, fmts[j]).None?
  {
    if fmts != [] {
      FirstParseFails(text, fmts[1..]);
      assert forall j :: 1 <= j < |fmts| ==> fmts[j] == fmts[1..][j - 1];
    }
  }

  // ------------------------------------------------------------ parse_timestamp

  /** What `parse_timestamp` gives back, with `Raised` for the exception that escapes it. */
  datatype TimestampOutcome = Parsed(moment: DateTime) | Unparsed | Raised

  /**
   * The text strptime sees: the first whitespace-separated word when the
   * text contains a space, the whole text otherwise; None when split()
   * finds no word and indexing its result raises IndexError.
   */
  function StrptimeInput(timeStr: string): Option<string> {
    if ' ' in timeStr then
      var words := SplitWs(timeStr);
      if words == [] then None else Some(words[0])
    else Some(timeStr)
  }

  function ParseTimestamp(timeStr: string): (outcome: TimestampOutcome)
    ensures outcome.Parsed? ==> ValidDateTime(outcome.moment)
  {
    match StrptimeInput(timeStr)
    case None => Raised
    case Some(text) =>
      match FirstParse(text, FORMATS)
      case Some(d) => Parsed(d)
      case None => Unparsed
  }

  /** The exception escapes only for text that contains a space and nothing but whitespace. */
  lemma RaisesOnlyOnBlank(timeStr: string)
    ensures ParseTimestamp(timeStr).Raised? <==> ' ' in timeStr && AllSpace(timeStr)
  {
    SplitWsEmptyIffBlank(timeStr);
  }

  /** The text handed to strptime never contains a space. */
  lemma StrptimeInputHasNoSpace(timeStr: string)
    requires StrptimeInput(timeStr).Some?
    ensures ' ' !in StrptimeInput(timeStr).value
  {
    if ' ' in timeStr {
      SplitWsWords(timeStr);
      var w := SplitWs(timeStr)[0];
      assert forall i :: 0 <= i < |w| ==> w[i] != ' ' by {
        assert NoSpace(w);
      }
    }
  }

  /** Whatever follows the first space (a time-zone offset, say) is ignored. */
  lemma CutAtFirstSpace(word: string, rest: string)
    requires word != [] && NoSpace(word)
    ensures ParseTimestamp(word + " " + rest) == ParseTimestamp(word)
  {
    assert word + " " + rest == word + (" " + rest);
    SplitWsFirstWord(word, " " + rest);
    assert (word + " " + rest)[|word|] == ' ';
    assert ' ' !in word by {
      assert forall i :: 0 <= i < |word| ==> word[i] != ' ';
    }
  }

  // ------------------------------------------------------------ rendering

  function Pow10(k: nat): (p: nat)
    ensures p >= 1
  {
    if k == 0 then 1 else 10 * Pow10(k - 1)
  }

  /** `n` written with exactly `width` digits, zero-padded on the left. */
  function Padded(n: nat, width: nat): (r: string)
    ensures |r| == width
  {
    if width == 0 then [] else Padded(n / 10, width - 1) + [DigitChar(n % 10)]
  }

  lemma {:induction false} PaddedValue(n: nat, width: nat)
    requires n < Pow10(width)
    ensures IsDigits(Padded(n, width)) && DigitsValue(Padded(n, width)) == n
  {
    if width > 0 {
      PaddedValue(n / 10, width - 1);
      var t := Padded(n / 10, width - 1);
      var r := t + [DigitChar(n % 10)];
      assert r[..|r| - 1] == t;
    }
  }

  const MONTH_ABBREVIATIONS: seq<string> :=
    ["Jan", "Feb", "Mar", "Apr", "May", "Jun", "Jul", "Aug", "Sep", "Oct", "Nov", "Dec"]

  /**
   * A text for one directive that the format's `strptime` reads back: the
   * number zero-padded to the directive's width, the English month
   * abbreviation, a single space for a whitespace run.
   */
  function Piece(x: Directive, d: DateTime): string {
    match x
    case Number(field, _, maxDigits, _, _) => Padded(if d.Get(field) < 0 then 0 else d.Get(field), maxDigits)
    case MonthName => if 1 <= d.month <= 12 then MONTH_ABBREVIATIONS[d.month - 1] else "Jan"
    case Blank => " "
    case Literal(c) => [c]
  }

  /** A text for a whole compiled format that its `strptime` reads back. */
  function Render(dirs: seq<Directive>, d: DateTime): string {
    if dirs == [] then [] else Piece(dirs[0], d) + Render(dirs[1..], d)
  }

  /** The field of `d` a directive carries, written over `acc`. */
  function Absorb(x: Directive, d: DateTime, acc: DateTime): DateTime {
    match x
    case Number(field, _, _, _, _) => acc.With(field, d.Get(field))
    case MonthName => acc.(month := d.month)
    case _ => acc
  }

  /** The fields of `d` a format carries, written over `acc`. */
  function Fill(dirs: seq<Directive>, d: DateTime, acc: DateTime): DateTime {
    if dirs == [] then acc else Fill(dirs[1..], d, Absorb(dirs[0], d, acc))
  }

  /** The value `d` holds for this directive is one the directive's pattern matches when written out. */
  predicate PieceFits(x: Directive, d: DateTime) {
    match x
    case Number(field, minDigits, maxDigits, least, greatest) =>
      1 <= minDigits <= maxDigits && least <= d.Get(field) <= greatest && d.Get(field) < Pow10(maxDigits)
    case MonthName => 1 <= d.month <= 12
    case _ => true
  }

  predicate Fits(dirs: seq<Directive>, d: DateTime) {
    forall i :: 0 <= i < |dirs| ==> PieceFits(dirs[i], d)
  }

  predicate StartsWithDigit(x: Directive) {
    x.Number? || (x.Literal? && IsDigit(x.c))
  }

  predicate StartsWithSpace(x: Directive) {
    x.Blank? || (x.Literal? && IsSpace(x.c))
  }

  /** The text after a digit field starts with a non-digit, after a whitespace run with a non-space. */
  predicate FollowedBy(x: Directive, s: string) {
    && (x.Number? ==> s == [] || !IsDigit(s[0]))
    && (x.Blank? ==> s == [] || !IsSpace(s[0]))
  }

  /** No digit field is followed by a digit and no whitespace run by whitespace. */
  predicate Separated(dirs: seq<Directive>) {
    forall i :: 0 <= i < |dirs| - 1 ==>
      (dirs[i].Number? ==> !StartsWithDigit(dirs[i + 1])) && (dirs[i].Blank? ==> !StartsWithSpace(dirs[i + 1]))
  }

  lemma PieceStart(x: Directive, y: Directive, d: DateTime, s: string)
    requires PieceFits(y, d)
    requires x.Number? ==> !StartsWithDigit(y)
    requires x.Blank? ==> !StartsWithSpace(y)
    ensures FollowedBy(x, Piece(y, d) + s)
  {
    var p := Piece(y, d);
    if y.Number? {
      PaddedValue(d.Get(y.field), y.maxDigits);
      assert IsDigit(p[0]);
    } else if y.MonthName? {
      assert p[0] in "ADFJMNOS";
    }
    assert (p + s)[0] == p[0];
  }

  lemma PieceParses(x: Directive, d: DateTime, more: seq<Directive>, s: string, acc: DateTime)
    requires PieceFits(x, d) && FollowedBy(x, s)
    ensures MatchFormat([x] + more, Piece(x, d) + s, acc) == MatchFormat(more, s, Absorb(x, d, acc))
  {
    match x
    case Literal(c) => LiteralPieceParses(c, more, s, acc);
    case Blank => BlankPieceParses(more, s, acc);
    case MonthName => MonthPieceParses(d, more, s, acc);
    case Number(_, _, _, _, _) => NumberPieceParses(x, d, more, s, acc);
  }

  lemma LiteralPieceParses(c: char, more: seq<Directive>, s: string, acc: DateTime)
    ensures MatchFormat([Literal(c)] + more, [c] + s, acc) == MatchFormat(more, s, acc)
  {
    assert ([Literal(c)] + more)[1..] == more;
    assert ([c] + s)[1..] == s;
  }

  lemma BlankPieceParses(more: seq<Directive>, s: string, acc: DateTime)
    requires s == [] || !IsSpace(s[0])
    ensures MatchFormat([Blank] + more, " " + s, acc) == MatchFormat(more, s, acc)
  {
    assert ([Blank] + more)[1..] == more;
    BlankParses(s);
  }

  lemma MonthPieceParses(d: DateTime, more: seq<Directive>, s: string, acc: DateTime)
    requires 1 <= d.month <= 12
    ensures MatchFormat([MonthName] + more, MONTH_ABBREVIATIONS[d.month - 1] + s, acc) == MatchFormat(more, s, acc.(month := d.month))
  {
    assert ([MonthName] + more)[1..] == more;
    MonthNameParses(d.month, s);
  }

  lemma NumberPieceParses(x: Directive, d: DateTime, more: seq<Directive>, s: string, acc: DateTime)
    requires x.Number? && PieceFits(x, d) && FollowedBy(x, s)
    ensures MatchFormat([x] + more, Piece(x, d) + s, acc) == MatchFormat(more, s, acc.With(x.field, d.Get(x.field)))
  {
    assert ([x] + more)[1..] == more;
    NumberParses(x, d, s);
  }

  lemma BlankParses(s: string)
    requires s == [] || !IsSpace(s[0])
    ensures TrimStart(" " + s) == s
  {
    assert (" " + s)[0] == ' ' && (" " + s)[1..] == s;
    TrimStartRemovesBlank(s);
    if s != [] {
      assert s[|s| - |TrimStart(s)|..] == TrimStart(s);
    }
  }

  lemma NumberParses(x: Directive, d: DateTime, s: string)
    requires x.Number? && PieceFits(x, d) && FollowedBy(x, s)
    ensures DigitRun(Piece(x, d) + s) == x.maxDigits
    ensures (Piece(x, d) + s)[..x.maxDigits] == Piece(x, d)
    ensures (Piece(x, d) + s)[x.maxDigits..] == s
    ensures IsDigits(Piece(x, d)) && DigitsValue(Piece(x, d)) == d.Get(x.field)
  {
    var p := Piece(x, d);
    PaddedValue(d.Get(x.field), x.maxDigits);
    assert (p + s)[..|p|] == p && (p + s)[|p|..] == s;
    DigitRunIs(p + s, |p|);
  }

  lemma MonthNameParses(month: int, s: string)
    requires 1 <= month <= 12
    ensures (MONTH_ABBREVIATIONS[month - 1] + s)[..3] == MONTH_ABBREVIATIONS[month - 1]
    ensures (MONTH_ABBREVIATIONS[month - 1] + s)[3..] == s
    ensures LowerAscii(MONTH_ABBREVIATIONS[month - 1]) == MONTH_NAMES[month - 1]
    ensures Position(MONTH_NAMES, MONTH_NAMES[month - 1]) == month - 1
  {
    var k := month - 1;
    LowerAsciiOfNames(k);
    MonthNamesDistinct();
    PositionOf(MONTH_NAMES, k);
  }

  lemma LowerAsciiOfNames(k: nat)
    requires k < 12
    ensures LowerAscii(MONTH_ABBREVIATIONS[k]) == MONTH_NAMES[k]
  {
    var a, n := MONTH_ABBREVIATIONS[k], MONTH_NAMES[k];
    assert |a| == 3 && |n| == 3;
    assert a[0] as int + 32 == n[0] as int && a[1] == n[1] && a[2] == n[2];
    assert 'A' <= a[0] <= 'Z' && 'a' <= a[1] <= 'z' && 'a' <= a[2] <= 'z';
    LowerAsciiThree(a);
  }

  lemma LowerAsciiThree(a: string)
    requires |a| == 3 && 'A' <= a[0] <= 'Z' && !('A' <= a[1] <= 'Z') && !('A' <= a[2] <= 'Z')
    ensures LowerAscii(a) == [(a[0] as int + 32) as char, a[1], a[2]]
  {
    assert a[1..][1..] == [a[2]];
    assert a[1..][1..][1..] == [];
    assert LowerAscii(a[1..][1..]) == [a[2]];
    assert LowerAscii(a[1..]) == [a[1], a[2]];
  }

  lemma MonthNamesDistinct()
    ensures forall i, j :: 0 <= i < j < |MONTH_NAMES| ==> MONTH_NAMES[i] != MONTH_NAMES[j]
  {
  }

  lemma {:induction false} PositionOf(names: seq<string>, k: nat)
    requires k < |names|
    requires forall i, j :: 0 <= i < j < |names| ==> names[i] != names[j]
    ensures Position(names, names[k]) == k
  {
    if k > 0 {
      assert names[0] != names[k];
      assert names[1..][k - 1] == names[k];
      PositionOf(names[1..], k - 1);
    }
  }

  /**
   * Writing the fields of `d` out with a format and reading them back with
   * the same format recovers them, whatever text follows.
   */
  lemma {:induction false} RenderParses(dirs: seq<Directive>, more: seq<Directive>, d: DateTime, tail: string, acc: DateTime)
    requires Separated(dirs) && Fits(dirs, d)
    requires dirs != [] ==> FollowedBy(dirs[|dirs| - 1], tail)
    ensures MatchFormat(dirs + more, Render(dirs, d) + tail, acc) == MatchFormat(more, tail, Fill(dirs, d, acc))
    decreases |dirs|
  {
    if dirs != [] {
      var x, rest := dirs[0], dirs[1..];
      var s := Render(rest, d) + tail;
      assert PieceFits(x, d);
      assert Separated(rest) by {
        assert forall i :: 0 <= i < |rest| ==> rest[i] == dirs[i + 1];
      }
      assert Fits(rest, d) by {
        assert forall i :: 0 <= i < |rest| ==> rest[i] == dirs[i + 1];
      }
      assert rest != [] ==> rest[|rest| - 1] == dirs[|dirs| - 1];
      assert dirs + more == [x] + (rest + more);
      assert Render(dirs, d) + tail == Piece(x, d) + s;
      if rest == [] {
        assert s == tail;
      } else {
        assert rest[0] == dirs[1] && PieceFits(rest[0], d);
        PieceStart(x, rest[0], d, Render(rest[1..], d) + tail);
        assert s == Piece(rest[0], d) + (Render(rest[1..], d) + tail);
      }
      PieceParses(x, d, rest + more, s, acc);
      RenderParses(rest, more, d, tail, Absorb(x, d, acc));
      assert Fill(dirs, d, acc) == Fill(rest, d, Absorb(x, d, acc));
      assert MatchFormat(dirs + more, Render(dirs, d) + tail, acc)
          == MatchFormat([x] + (rest + more), Piece(x, d) + s, acc);
    } else {
      assert dirs + more == more && Render(dirs, d) + tail == tail;
    }
  }

  lemma RenderCons(x: Directive, rest: seq<Directive>, d: DateTime)
    ensures Render([x] + rest, d) == Piece(x, d) + Render(rest, d)
  {
    assert ([x] + rest)[1..] == rest;
  }

  lemma FillCons(x: Directive, rest: seq<Directive>, d: DateTime, acc: DateTime)
    ensures Fill([x] + rest, d, acc) == Fill(rest, d, Absorb(x, d, acc))
  {
    assert ([x] + rest)[1..] == rest;
  }

  lemma {:induction false} FillClock(d: DateTime, acc: DateTime)
    ensures Fill(CLOCK, d, acc) == acc.(hour := d.hour, minute := d.minute, second := d.second)
  {
    DirectivePieces();
    var c := CLOCK;
    assert c == [HOUR] + ([Literal(':')] + ([MINUTE] + ([Literal(':')] + ([SECOND] + []))));
    FillCons(HOUR, c[1..], d, acc);
    var a1 := acc.(hour := d.hour);
    FillCons(Literal(':'), c[2..], d, a1);
    FillCons(MINUTE, c[3..], d, a1);
    var a2 := a1.(minute := d.minute);
    FillCons(Literal(':'), c[4..], d, a2);
    FillCons(SECOND, [], d, a2);
  }

  /** Each of the four formats carries every field of a timestamp. */
  lemma {:induction false} FillCovers(d: DateTime, acc: DateTime)
    ensures Fill(NAMED_SLASHED, d, acc) == d
    ensures Fill(NUMERIC_SLASHED, d, acc) == d
    ensures Fill(ISO_SPACED, d, acc) == d
    ensures Fill(NAMED_DASHED, d, acc) == d
  {
    DirectivePieces();
    var m := acc.(day := d.day);
    FillCons(DAY, NAMED_SLASHED[1..], d, acc);
    FillCons(Literal('/'), NAMED_SLASHED[2..], d, m);
    FillCons(MonthName, NAMED_SLASHED[3..], d, m);
    FillCons(Literal('/'), NAMED_SLASHED[4..], d, m.(month := d.month));
    FillCons(YEAR, NAMED_SLASHED[5..], d, m.(month := d.month));
    FillCons(Literal(':'), CLOCK, d, m.(month := d.month, year := d.year));
    FillClock(d, m.(month := d.month, year := d.year));

    FillCons(DAY, NUMERIC_SLASHED[1..], d, acc);
    FillCons(Literal('/'), NUMERIC_SLASHED[2..], d, m);
    FillCons(MONTH, NUMERIC_SLASHED[3..], d, m);
    FillCons(Literal('/'), NUMERIC_SLASHED[4..], d, m.(month := d.month));
    FillCons(YEAR, NUMERIC_SLASHED[5..], d, m.(month := d.month));
    FillCons(Literal(':'), CLOCK, d, m.(month := d.month, year := d.year));

    var y := acc.(year := d.year);
    FillCons(YEAR, ISO_SPACED[1..], d, acc);
    FillCons(Literal('-'), ISO_SPACED[2..], d, y);
    FillCons(MONTH, ISO_SPACED[3..], d, y);
    FillCons(Literal('-'), ISO_SPACED[4..], d, y.(month := d.month));
    FillCons(DAY, ISO_SPACED[5..], d, y.(month := d.month));
    FillCons(Blank, CLOCK, d, y.(month := d.month, day := d.day));
    FillClock(d, y.(month := d.month, day := d.day));

    FillCons(DAY, NAMED_DASHED[1..], d, acc);
    FillCons(Literal('-'), NAMED_DASHED[2..], d, m);
    FillCons(MonthName, NAMED_DASHED[3..], d, m);
    FillCons(Literal('-'), NAMED_DASHED[4..], d, m.(month := d.month));
    FillCons(YEAR, NAMED_DASHED[5..], d, m.(month := d.month));
    FillCons(Blank, CLOCK, d, m.(month := d.month, year := d.year));
  }

  /** A valid timestamp's fields are all values the four formats' patterns match when written out. */
  lemma ValidFits(d: DateTime)
    requires ValidDateTime(d)
    ensures Fits(NAMED_SLASHED, d) && Fits(NUMERIC_SLASHED, d)
    ensures Fits(ISO_SPACED, d) && Fits(NAMED_DASHED, d)
    ensures Fits(ISO_DATE, d) && Fits(CLOCK, d)
  {
    assert Pow10(2) == 100 && Pow10(4) == 10000;
    assert PieceFits(DAY, d) && PieceFits(MONTH, d) && PieceFits(YEAR, d);
    assert PieceFits(HOUR, d) && PieceFits(MINUTE, d) && PieceFits(SECOND, d);
    assert PieceFits(MonthName, d);
  }

  /** The four formats keep digit fields and whitespace runs apart. */
  lemma FormatsSeparated()
    ensures Separated(NAMED_SLASHED) && Separated(NUMERIC_SLASHED)
    ensures Separated(ISO_SPACED) && Separated(NAMED_DASHED)
    ensures Separated(ISO_DATE)
  {
    SlashedSeparated();
    SpacedSeparated();
  }

  lemma SlashedSeparated()
    ensures Separated(NAMED_SLASHED) && Separated(NUMERIC_SLASHED)
  {
  }

  lemma SpacedSeparated()
    ensures Separated(ISO_SPACED) && Separated(NAMED_DASHED) && Separated(ISO_DATE)
  {
  }

  /**
   * Rendering followed by strptime with the same format gives back every
   * valid timestamp, for each of the four formats.
   */
  lemma StrptimeRoundTrip(d: DateTime)
    requires ValidDateTime(d)
    ensures Strptime(Render(NAMED_SLASHED, d), FORMATS[0]) == Some(d)
    ensures Strptime(Render(NUMERIC_SLASHED, d), FORMATS[1]) == Some(d)
    ensures Strptime(Render(ISO_SPACED, d), FORMATS[2]) == Some(d)
    ensures Strptime(Render(NAMED_DASHED, d), FORMATS[3]) == Some(d)
  {
    CompiledFormats();
    ValidFits(d);
    FormatsSeparated();
    FillCovers(d, DEFAULT_FIELDS);
    RoundTripOne(NAMED_SLASHED, d);
    RoundTripOne(NUMERIC_SLASHED, d);
    RoundTripOne(ISO_SPACED, d);
    RoundTripOne(NAMED_DASHED, d);
  }

  lemma RoundTripOne(dirs: seq<Directive>, d: DateTime)
    requires Separated(dirs) && Fits(dirs, d)
    ensures MatchFormat(dirs, Render(dirs, d), DEFAULT_FIELDS) == Some(Fill(dirs, d, DEFAULT_FIELDS))
  {
    var empty: string := [];
    RenderParses(dirs, [], d, empty, DEFAULT_FIELDS);
    assert dirs + [] == dirs && Render(dirs, d) + empty == Render(dirs, d);
  }

  // ------------------------------------------------------------ parse_timestamp on rendered text

  lemma {:induction false} RenderAppend(a: seq<Directive>, b: seq<Directive>, d: DateTime)
    ensures Render(a + b, d) == Render(a, d) + Render(b, d)
    decreases |a|
  {
    if a == [] {
      assert a + b == b;
    } else {
      assert (a + b)[0] == a[0] && (a + b)[1..] == a[1..] + b;
      RenderAppend(a[1..], b, d);
    }
  }

  /** No whitespace directive, no whitespace literal. */
  predicate Unspaced(dirs: seq<Directive>) {
    forall i :: 0 <= i < |dirs| ==> !StartsWithSpace(dirs[i])
  }

  lemma PieceNoSpace(x: Directive, d: DateTime)
    requires PieceFits(x, d) && !StartsWithSpace(x)
    ensures NoSpace(Piece(x, d)) && Piece(x, d) != []
  {
    var p := Piece(x, d);
    match x
    case Number(field, _, maxDigits, _, _) =>
      PaddedValue(d.Get(field), maxDigits);
    case MonthName =>
      assert forall i :: 0 <= i < |p| ==> 'A' <= p[i] <= 'z';
    case Blank =>
    case Literal(c) =>
  }

  lemma NoSpaceAppend(a: string, b: string)
    requires NoSpace(a) && NoSpace(b)
    ensures NoSpace(a + b)
  {
    assert forall i :: 0 <= i < |a + b| ==> (a + b)[i] == if i < |a| then a[i] else b[i - |a|];
  }

  lemma {:induction false} RenderNoSpace(dirs: seq<Directive>, d: DateTime)
    requires Unspaced(dirs) && Fits(dirs, d)
    ensures NoSpace(Render(dirs, d))
    ensures dirs != [] ==> Render(dirs, d) != []
    decreases |dirs|
  {
    if dirs != [] {
      assert PieceFits(dirs[0], d) && !StartsWithSpace(dirs[0]);
      PieceNoSpace(dirs[0], d);
      assert Unspaced(dirs[1..]) && Fits(dirs[1..], d) by {
        assert forall i :: 0 <= i < |dirs| - 1 ==> dirs[1..][i] == dirs[i + 1];
      }
      RenderNoSpace(dirs[1..], d);
      NoSpaceAppend(Piece(dirs[0], d), Render(dirs[1..], d));
    }
  }

  lemma MonthNameRejectsDigit(dirs: seq<Directive>, s: string, acc: DateTime)
    requires dirs != [] && dirs[0] == MonthName && s != [] && IsDigit(s[0])
    ensures MatchFormat(dirs, s, acc) == None
  {
    if |s| >= 3 {
      var w := LowerAscii(s[..3]);
      assert w[0] == s[0];
      assert forall k :: 0 <= k < |MONTH_NAMES| ==> 'a' <= MONTH_NAMES[k][0] <= 'z';
    }
  }

  lemma NumberRejectsLongRun(dirs: seq<Directive>, s: string, acc: DateTime)
    requires dirs != [] && dirs[0].Number? && DigitRun(s) > dirs[0].maxDigits
    ensures MatchFormat(dirs, s, acc) == None
  {
  }

  lemma ClockShape()
    ensures ISO_SPACED == ISO_DATE + ([Blank] + CLOCK)
    ensures NAMED_SLASHED == [DAY, Literal('/')] + NAMED_SLASHED[2..]
    ensures NUMERIC_SLASHED == [DAY, Literal('/')] + NUMERIC_SLASHED[2..]
    ensures NUMERIC_SLASHED[2..] == [MONTH] + NUMERIC_SLASHED[3..]
    ensures NAMED_SLASHED[2] == MonthName
    ensures Unspaced(NAMED_SLASHED) && Unspaced(NUMERIC_SLASHED) && Unspaced(ISO_DATE)
  {
  }

  /** When the text handed to strptime is one word, the first format that parses it decides. */
  lemma ParseWord(word: string)
    requires word != [] && NoSpace(word)
    ensures ParseTimestamp(word) == match FirstParse(word, FORMATS) case Some(d) => Parsed(d) case None => Unparsed
  {
    assert ' ' !in word by {
      assert forall i :: 0 <= i < |word| ==> word[i] != ' ';
    }
  }

  /**
   * A Common Log Format timestamp followed by a space and anything (the
   * offset, usually) parses with the first format, the offset dropped.
   */
  lemma ClfTimestampParsed(d: DateTime, zone: string)
    requires ValidDateTime(d)
    ensures ParseTimestamp(Render(NAMED_SLASHED, d) + " " + zone) == Parsed(d)
  {
    var w := Render(NAMED_SLASHED, d);
    ValidFits(d);
    ClockShape();
    RenderNoSpace(NAMED_SLASHED, d);
    CutAtFirstSpace(w, zone);
    ParseWord(w);
    StrptimeRoundTrip(d);
  }

  /**
   * Day/month-number/year text is rejected by the first format, which wants a
   * month name, and then parsed by the second.
   */
  lemma NumericTimestampParsed(d: DateTime)
    requires ValidDateTime(d)
    ensures Strptime(Render(NUMERIC_SLASHED, d), FORMATS[0]) == None
    ensures ParseTimestamp(Render(NUMERIC_SLASHED, d)) == Parsed(d)
  {
    var w := Render(NUMERIC_SLASHED, d);
    ValidFits(d);
    ClockShape();
    FormatsSeparated();
    CompiledFormats();
    var head: seq<Directive> := [DAY, Literal('/')];
    var tail := Render(NUMERIC_SLASHED[2..], d);
    RenderAppend(head, NUMERIC_SLASHED[2..], d);
    assert Fits(head, d) && Separated(head) by {
      assert head[0] == NUMERIC_SLASHED[0] && head[1] == NUMERIC_SLASHED[1];
    }
    RenderParses(head, NAMED_SLASHED[2..], d, tail, DEFAULT_FIELDS);
    RenderCons(MONTH, NUMERIC_SLASHED[3..], d);
    assert PieceFits(MONTH, d);
    NumberParses(MONTH, d, Render(NUMERIC_SLASHED[3..], d));
    assert IsDigit(tail[0]) by {
      assert tail[0] == Piece(MONTH, d)[0];
    }
    MonthNameRejectsDigit(NAMED_SLASHED[2..], tail, Fill(head, d, DEFAULT_FIELDS));
    RenderNoSpace(NUMERIC_SLASHED, d);
    ParseWord(w);
    StrptimeRoundTrip(d);
  }

  /**
   * An ISO timestamp with a space between date and time never parses: the
   * text is cut to its date, which none of the four formats accepts alone.
   */
  lemma IsoTimestampUnparsed(d: DateTime)
    requires ValidDateTime(d)
    ensures ParseTimestamp(Render(ISO_SPACED, d)) == Unparsed
  {
    var w := Render(ISO_DATE, d);
    ValidFits(d);
    ClockShape();
    FormatsSeparated();
    CompiledFormats();
    RenderAppend(ISO_DATE, [Blank] + CLOCK, d);
    RenderCons(Blank, CLOCK, d);
    assert Render(ISO_SPACED, d) == w + " " + Render(CLOCK, d);
    RenderNoSpace(ISO_DATE, d);
    CutAtFirstSpace(w, Render(CLOCK, d));
    ParseWord(w);
    IsoDateRejected(d);
    FirstParseFails(w, FORMATS);
  }

  lemma IsoDateRejected(d: DateTime)
    requires ValidDateTime(d)
    ensures forall k :: 0 <= k < |FORMATS| ==> Strptime(Render(ISO_DATE, d), FORMATS[k]) == None
  {
    var w := Render(ISO_DATE, d);
    CompiledFormats();
    // the four-digit year is too long for a leading day field
    assert DigitRun(w) == YEAR.maxDigits by {
      IsoDateLeadingRun(d);
    }
    NumberRejectsLongRun(NAMED_SLASHED, w, DEFAULT_FIELDS);
    NumberRejectsLongRun(NUMERIC_SLASHED, w, DEFAULT_FIELDS);
    NumberRejectsLongRun(NAMED_DASHED, w, DEFAULT_FIELDS);
    // the ISO format wants the whitespace and the clock that were cut away
    assert MatchFormat(ISO_SPACED, w, DEFAULT_FIELDS) == None by {
      IsoDateNeedsClock(d);
    }
  }

  lemma IsoDateLeadingRun(d: DateTime)
    requires ValidDateTime(d)
    ensures DigitRun(Render(ISO_DATE, d)) == YEAR.maxDigits
  {
    ValidFits(d);
    var rest := ISO_DATE[1..];
    RenderCons(YEAR, rest, d);
    assert PieceFits(YEAR, d) && FollowedBy(YEAR, Render(rest, d)) by {
      RenderCons(Literal('-'), rest[1..], d);
      assert ISO_DATE[0] == YEAR && rest == [Literal('-')] + rest[1..];
    }
    NumberParses(YEAR, d, Render(rest, d));
  }

  lemma IsoDateNeedsClock(d: DateTime)
    requires ValidDateTime(d)
    ensures MatchFormat(ISO_SPACED, Render(ISO_DATE, d), DEFAULT_FIELDS) == None
  {
    ValidFits(d);
    FormatsSeparated();
    ClockShape();
    var empty: string := [];
    RenderParses(ISO_DATE, [Blank] + CLOCK, d, empty, DEFAULT_FIELDS);
    assert Render(ISO_DATE, d) + empty == Render(ISO_DATE, d);
  }

  // ------------------------------------------------------------ two lines of a real log

  lemma PaddedTwo(n: nat)
    requires n < 100
    ensures Padded(n, 2) == [DigitChar(n / 10), DigitChar(n % 10)]
  {
    var tens := n / 10;
    assert tens < 10 by {
      assert n == 10 * tens + n % 10;
    }
    assert tens % 10 == tens && tens / 10 == 0;
    assert Padded(tens, 1) == Padded(0, 0) + [DigitChar(tens)];
    assert Padded(n, 2) == Padded(tens, 1) + [DigitChar(n % 10)];
  }

  lemma Padded2025()
    ensures Padded(2025, 4) == "2025"
  {
    assert Padded(2, 1) == "2";
    assert Padded(20, 2) == "20";
    assert Padded(202, 3) == "202";
  }

  lemma ClockText(d: DateTime)
    ensures Render(CLOCK, d) == Piece(HOUR, d) + (":" + (Piece(MINUTE, d) + (":" + Piece(SECOND, d))))
  {
    var c := CLOCK;
    RenderCons(c[0], c[1..], d);
    RenderCons(c[1], c[2..], d);
    RenderCons(c[2], c[3..], d);
    RenderCons(c[3], c[4..], d);
    RenderCons(c[4], c[5..], d);
    assert c[5..] == [];
  }

  lemma ClfText(d: DateTime)
    ensures Render(NAMED_SLASHED, d) ==
      Piece(DAY, d) + ("/" + (Piece(MonthName, d) + ("/" + (Piece(YEAR, d) + (":" + Render(CLOCK, d))))))
  {
    var f := NAMED_SLASHED;
    assert f[6..] == CLOCK;
    RenderCons(f[0], f[1..], d);
    RenderCons(f[1], f[2..], d);
    RenderCons(f[2], f[3..], d);
    RenderCons(f[3], f[4..], d);
    RenderCons(f[4], f[5..], d);
    RenderCons(f[5], f[6..], d);
  }

  lemma ClfPieces(d: DateTime)
    requires d == DateTime(2025, 12, 4, 10, 0, 0)
    ensures Render(NAMED_SLASHED, d) == "04/Dec/2025:10:00:00"
  {
    var day, month, year, clock := Piece(DAY, d), Piece(MonthName, d), Piece(YEAR, d), Render(CLOCK, d);
    assert day == "04" by {
      PaddedTwo(4);
    }
    assert month == "Dec";
    assert year == "2025" by {
      Padded2025();
    }
    assert clock == "10:00:00" by {
      ExampleClock(d);
    }
    assert Render(NAMED_SLASHED, d) == day + ("/" + (month + ("/" + (year + (":" + clock))))) by {
      ClfText(d);
    }
    ClfJoined();
  }

  lemma ClfJoined()
    ensures "04" + ("/" + ("Dec" + ("/" + ("2025" + (":" + "10:00:00"))))) == "04/Dec/2025:10:00:00"
  {
  }

  lemma ExampleClock(d: DateTime)
    requires d.hour == 10 && d.minute == 0 && d.second == 0
    ensures Render(CLOCK, d) == "10:00:00"
  {
    assert Piece(HOUR, d) == "10" by {
      PaddedTwo(10);
    }
    assert Piece(MINUTE, d) == "00" && Piece(SECOND, d) == "00" by {
      PaddedTwo(0);
    }
    ClockText(d);
    ClockJoined();
  }

  lemma ClockJoined()
    ensures "10" + (":" + ("00" + (":" + "00"))) == "10:00:00"
  {
  }

  /** "04/Dec/2025:10:00:00 +0700": the offset is cut away and the first format parses the rest. */
  lemma ClfExample(text: string)
    requires text == "04/Dec/2025:10:00:00 +0700"
    ensures ParseTimestamp(text) == Parsed(DateTime(2025, 12, 4, 10, 0, 0))
  {
    var d := DateTime(2025, 12, 4, 10, 0, 0);
    var zone := "+0700";
    assert text == Render(NAMED_SLASHED, d) + " " + zone by {
      ClfPieces(d);
    }
    assert ParseTimestamp(Render(NAMED_SLASHED, d) + " " + zone) == Parsed(d) by {
      assert ValidDateTime(d);
      ClfTimestampParsed(d, zone);
    }
  }

  lemma IsoDateText(d: DateTime)
    ensures Render(ISO_DATE, d) == Piece(YEAR, d) + ("-" + (Piece(MONTH, d) + ("-" + Piece(DAY, d))))
  {
    var h := ISO_DATE;
    RenderCons(h[0], h[1..], d);
    RenderCons(h[1], h[2..], d);
    RenderCons(h[2], h[3..], d);
    RenderCons(h[3], h[4..], d);
    RenderCons(h[4], h[5..], d);
    assert h[5..] == [];
  }

  lemma IsoText(d: DateTime)
    ensures Render(ISO_SPACED, d) == Render(ISO_DATE, d) + (" " + Render(CLOCK, d))
  {
    ClockShape();
    RenderAppend(ISO_DATE, [Blank] + CLOCK, d);
    RenderCons(Blank, CLOCK, d);
  }

  lemma IsoPieces(d: DateTime)
    requires d == DateTime(2025, 12, 4, 10, 0, 0)
    ensures Render(ISO_SPACED, d) == "2025-12-04 10:00:00"
  {
    var date, clock := Render(ISO_DATE, d), Render(CLOCK, d);
    assert clock == "10:00:00" by {
      ExampleClock(d);
    }
    assert date == "2025-12-04" by {
      ExampleDate(d);
    }
    assert Render(ISO_SPACED, d) == date + (" " + clock) by {
      IsoText(d);
    }
    IsoJoined();
  }

  lemma ExampleDate(d: DateTime)
    requires d.year == 2025 && d.month == 12 && d.day == 4
    ensures Render(ISO_DATE, d) == "2025-12-04"
  {
    assert Piece(DAY, d) == "04" by {
      PaddedTwo(4);
    }
    assert Piece(MONTH, d) == "12" by {
      PaddedTwo(12);
    }
    assert Piece(YEAR, d) == "2025" by {
      Padded2025();
    }
    IsoDateText(d);
    IsoJoined();
  }

  lemma IsoJoined()
    ensures "2025" + ("-" + ("12" + ("-" + "04"))) == "2025-12-04"
    ensures "2025-12-04" + (" " + "10:00:00") == "2025-12-04 10:00:00"
  {
  }

  /** "2025-12-04 10:00:00": cut to "2025-12-04", which no format accepts, so the caller gets None. */
  lemma IsoExample(text: string)
    requires text == "2025-12-04 10:00:00"
    ensures ParseTimestamp(text) == Unparsed
  {
    var d := DateTime(2025, 12, 4, 10, 0, 0);
    assert text == Render(ISO_SPACED, d) by {
      IsoPieces(d);
    }
    assert ParseTimestamp(Render(ISO_SPACED, d)) == Unparsed by {
      assert ValidDateTime(d);
      IsoTimestampUnparsed(d);
    }
  }
}
