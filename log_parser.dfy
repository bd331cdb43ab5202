/**
 * `parse_log_file` of modules/log_parser.py: the loop that turns the lines of
 * an uploaded access log into records and seven counters.
 *
 * Every line is stripped, skipped when blank, searched for the access-log
 * pattern, and then checked in a fixed order: the ip, the timestamp, the
 * status code. The first check a line fails decides which single counter it
 * adds to; a line that passes all of them becomes a record.
 */
module LogParser {
  import opened Wrappers
  import opened Text
  import opened Severity
  import Ipv4
  import opened Timestamp
  import opened LogPattern

  /** One stored entry: ip, timestamp, status, level and response text. */
  datatype Record = Record(ipAddress: string, timestamp: DateTime, statusCode: int, logLevel: Level, responseText: string)

  /** The `stats` dictionary. */
  datatype Stats = Stats(
    totalLines: nat,
    parsedSuccess: nat,
    parseErrors: nat,
    invalidIps: nat,
    timestampErrors: nat,
    invalidStatus: nat,
    emptyLines: nat)

  const NO_STATS := Stats(0, 0, 0, 0, 0, 0, 0)

  /** What happens to one line. */
  datatype LineOutcome =
    | EmptyLine
    | NoMatch
    | InvalidIp
    | BadTimestamp
    | TimestampCrash   // parse_timestamp raised; the surrounding `except Exception` catches it
    | InvalidStatus
    | Accepted(record: Record)

  /** What an accepted record always satisfies. */
  predicate RecordOk(r: Record) {
    && Ipv4.ValidIp(r.ipAddress)
    && ValidDateTime(r.timestamp)
    && 100 <= r.statusCode <= 599
    && r.logLevel == DetermineLogLevel(r.statusCode)
    && r.responseText == DetermineResponseText(r.statusCode)
  }

  /** The checks made on the groups of a match: ip, then timestamp, then status. */
  function ClassifyGroups(g: Groups): (outcome: LineOutcome)
    ensures outcome.Accepted? ==> RecordOk(outcome.record) && outcome.record.ipAddress == g.ip
  {
    if !Ipv4.ValidIp(g.ip) then InvalidIp
    else
      match ParseTimestamp(g.time)
      case Raised => TimestampCrash
      case Unparsed => BadTimestamp
      case Parsed(moment) =>
        match ParseInt(g.status)
        case None => InvalidStatus
        case Some(code) =>
          if !(100 <= code <= 599) then InvalidStatus
          else Accepted(Record(g.ip, moment, code, DetermineLogLevel(code), DetermineResponseText(code)))
  }

  /**
   * The checks of one loop iteration, in the order the loop runs them. This
   * is the specification; the method CheckLine below follows the source's
   * control flow step by step and is proved equal to it.
   */
  function ClassifyLine(line: string): (outcome: LineOutcome)
    ensures outcome.Accepted? ==> RecordOk(outcome.record) && IsPatternIp(outcome.record.ipAddress)
  {
    var stripped := Strip(line);
    if stripped == [] then EmptyLine
    else
      match Search(stripped)
      case None => NoMatch
      case Some(m) => ClassifyGroups(m.groups)
  }

  /**
   * One more line counted under its outcome. This is the specification; the
   * method Tick below updates the counters as the loop body does.
   */
  function Count(stats: Stats, outcome: LineOutcome): Stats {
    var s := stats.(totalLines := stats.totalLines + 1);
    match outcome
    case EmptyLine => s.(emptyLines := s.emptyLines + 1)
    case NoMatch => s.(parseErrors := s.parseErrors + 1)
    case TimestampCrash => s.(parseErrors := s.parseErrors + 1)
    case InvalidIp => s.(invalidIps := s.invalidIps + 1)
    case BadTimestamp => s.(timestampErrors := s.timestampErrors + 1)
    case InvalidStatus => s.(invalidStatus := s.invalidStatus + 1)
    case Accepted(_) => s.(parsedSuccess := s.parsedSuccess + 1)
  }

  /** The outcome of every line, in line order. */
  function Classified(lines: seq<string>): seq<LineOutcome> {
    seq(|lines|, i requires 0 <= i < |lines| => ClassifyLine(lines[i]))
  }

  /** The counters after a run of outcomes. */
  function TallyOf(outcomes: seq<LineOutcome>): Stats {
    if outcomes == [] then NO_STATS
    else Count(TallyOf(outcomes[..|outcomes| - 1]), outcomes[|outcomes| - 1])
  }

  /** The record an outcome contributes, if any. */
  function RecordOf(outcome: LineOutcome): seq<Record> {
    if outcome.Accepted? then [outcome.record] else []
  }

  /** The records of a run of outcomes. */
  function AcceptedOf(outcomes: seq<LineOutcome>): seq<Record> {
    if outcomes == [] then []
    else AcceptedOf(outcomes[..|outcomes| - 1]) + RecordOf(outcomes[|outcomes| - 1])
  }

  /** The counters after the given lines. */
  function Tally(lines: seq<string>): Stats {
    TallyOf(Classified(lines))
  }

  /** The record a line contributes, if any. */
  function RecordsOf(line: string): seq<Record> {
    RecordOf(ClassifyLine(line))
  }

  /** The records produced from the given lines. */
  function Records(lines: seq<string>): seq<Record> {
    AcceptedOf(Classified(lines))
  }

  /**
   * The checks of one loop iteration, run as the loop runs them: strip, skip
   * a blank line, search, then `validate_ip`, `parse_timestamp` and `int()` on
   * the groups.
   */
  method CheckLine(line: string) returns (outcome: LineOutcome)
    ensures outcome == ClassifyLine(line)
  {
    var stripped := Strip(line);
    if stripped == [] {
      return EmptyLine;
    }
    var found := Search(stripped);
    if found.None? {
      return NoMatch;
    }
    var group := found.value.groups;
    var ipOk := Ipv4.ValidateIp(group.ip);
    if !ipOk {
      return InvalidIp;
    }
    var timestamp := ParseTimestamp(group.time);
    if timestamp.Raised? {
      return TimestampCrash;
    }
    if timestamp.Unparsed? {
      return BadTimestamp;
    }
    var statusCode := ParseInt(group.status);
    if statusCode.None? || !(100 <= statusCode.value <= 599) {
      return InvalidStatus;
    }
    var code := statusCode.value;
    return Accepted(Record(group.ip, timestamp.moment, code, DetermineLogLevel(code), DetermineResponseText(code)));
  }

  /** The uploaded text, already decoded, in; records and counters out. */
  method ParseLogFile(content: string) returns (dataList: seq<Record>, stats: Stats)
    ensures dataList == Records(SplitLines(content))
    ensures stats == Tally(SplitLines(content))
  {
    var lines := SplitLines(content);
    dataList := [];
    stats := NO_STATS;
    var i := 0;
    while i < |lines|
      invariant 0 <= i <= |lines|
      invariant dataList == Records(lines[..i])
      invariant stats == Tally(lines[..i])
    {
      var line := lines[i];
      var outcome := CheckLine(line);
      assert outcome == Classified(lines)[i];
      FoldStep(lines, i, outcome);
      i := i + 1;
      dataList, stats := Tick(dataList, stats, outcome);
    }
    assert lines[..|lines|] == lines;
  }

  /**
   * One iteration's bookkeeping: `total_lines` and the counter of the
   * outcome go up by one, and an accepted record is appended.
   */
  method Tick(dataList: seq<Record>, stats: Stats, outcome: LineOutcome) returns (dataList': seq<Record>, stats': Stats)
    ensures stats' == Count(stats, outcome)
    ensures dataList' == dataList + (if outcome.Accepted? then [outcome.record] else [])
  {
    dataList' := dataList;
    stats' := stats.(totalLines := stats.totalLines + 1);
    match outcome {
      case EmptyLine =>
        stats' := stats'.(emptyLines := stats'.emptyLines + 1);
      case NoMatch =>
        stats' := stats'.(parseErrors := stats'.parseErrors + 1);
      case InvalidIp =>
        stats' := stats'.(invalidIps := stats'.invalidIps + 1);
      case TimestampCrash =>
        stats' := stats'.(parseErrors := stats'.parseErrors + 1);
      case BadTimestamp =>
        stats' := stats'.(timestampErrors := stats'.timestampErrors + 1);
      case InvalidStatus =>
        stats' := stats'.(invalidStatus := stats'.invalidStatus + 1);
      case Accepted(entry) =>
        dataList' := dataList' + [entry];
        stats' := stats'.(parsedSuccess := stats'.parsedSuccess + 1);
    }
  }

  lemma FoldStep(lines: seq<string>, i: nat, outcome: LineOutcome)
    requires i < |lines| && outcome == Classified(lines)[i]
    ensures Tally(lines[..i + 1]) == Count(Tally(lines[..i]), outcome)
    ensures Records(lines[..i + 1]) == Records(lines[..i]) + RecordOf(outcome)
  {
    ClassifiedPrefix(lines, i);
    ClassifiedPrefix(lines, i + 1);
    OutcomesStep(Classified(lines), i);
  }

  /** The outcomes of a prefix of the lines are a prefix of the outcomes. */
  lemma ClassifiedPrefix(lines: seq<string>, n: nat)
    requires n <= |lines|
    ensures Classified(lines[..n]) == Classified(lines)[..n]
  {
  }

  /** One more line adds its outcome at the end. */
  lemma ClassifiedSnoc(lines: seq<string>, line: string)
    ensures Classified(lines + [line]) == Classified(lines) + [ClassifyLine(line)]
  {
    assert forall i :: 0 <= i < |lines| ==> (lines + [line])[i] == lines[i];
  }

  /** The outcomes of two runs of lines, one after the other. */
  lemma ClassifiedAppend(a: seq<string>, b: seq<string>)
    ensures Classified(a + b) == Classified(a) + Classified(b)
  {
    assert forall i :: 0 <= i < |a| ==> (a + b)[i] == a[i];
    assert forall i :: |a| <= i < |a + b| ==> (a + b)[i] == b[i - |a|];
  }

  lemma OutcomesStep(outcomes: seq<LineOutcome>, i: nat)
    requires i < |outcomes|
    ensures TallyOf(outcomes[..i + 1]) == Count(TallyOf(outcomes[..i]), outcomes[i])
    ensures AcceptedOf(outcomes[..i + 1]) == AcceptedOf(outcomes[..i]) + RecordOf(outcomes[i])
  {
    assert outcomes[..i + 1][..i] == outcomes[..i];
  }

  lemma OutcomesSnoc(outcomes: seq<LineOutcome>, outcome: LineOutcome)
    ensures TallyOf(outcomes + [outcome]) == Count(TallyOf(outcomes), outcome)
    ensures AcceptedOf(outcomes + [outcome]) == AcceptedOf(outcomes) + RecordOf(outcome)
  {
    assert (outcomes + [outcome])[..|outcomes|] == outcomes;
  }

  // ------------------------------------------------------------ the counters

  /** The sum of the six outcome counters. */
  function Outcomes(s: Stats): nat {
    s.emptyLines + s.parseErrors + s.invalidIps + s.timestampErrors + s.invalidStatus + s.parsedSuccess
  }

  /** Every line is counted once in total and once under exactly one outcome. */
  lemma Conservation(lines: seq<string>)
    ensures Tally(lines).totalLines == |lines|
    ensures Outcomes(Tally(lines)) == Tally(lines).totalLines
  {
    TallyConserves(Classified(lines));
  }

  lemma {:induction false} TallyConserves(outcomes: seq<LineOutcome>)
    ensures TallyOf(outcomes).totalLines == |outcomes|
    ensures Outcomes(TallyOf(outcomes)) == TallyOf(outcomes).totalLines
  {
    if outcomes != [] {
      var before := TallyOf(outcomes[..|outcomes| - 1]);
      TallyConserves(outcomes[..|outcomes| - 1]);
      CountOne(before, outcomes[|outcomes| - 1]);
    }
  }

  /** Counting a line adds one to the total and one to the outcome counters. */
  lemma CountOne(stats: Stats, outcome: LineOutcome)
    ensures Count(stats, outcome).totalLines == stats.totalLines + 1
    ensures Outcomes(Count(stats, outcome)) == Outcomes(stats) + 1
  {
  }

  /** As many records as lines counted as parsed successfully. */
  lemma RecordsCounted(lines: seq<string>)
    ensures |Records(lines)| == Tally(lines).parsedSuccess
  {
    AcceptedCounted(Classified(lines));
  }

  lemma {:induction false} AcceptedCounted(outcomes: seq<LineOutcome>)
    ensures |AcceptedOf(outcomes)| == TallyOf(outcomes).parsedSuccess
  {
    if outcomes != [] {
      AcceptedCounted(outcomes[..|outcomes| - 1]);
    }
  }

  /** Records come out in the order of their lines: those of an earlier chunk first. */
  lemma RecordsAppend(a: seq<string>, b: seq<string>)
    ensures Records(a + b) == Records(a) + Records(b)
  {
    ClassifiedAppend(a, b);
    AcceptedAppend(Classified(a), Classified(b));
  }

  lemma {:induction false} AcceptedAppend(a: seq<LineOutcome>, b: seq<LineOutcome>)
    ensures AcceptedOf(a + b) == AcceptedOf(a) + AcceptedOf(b)
    decreases |b|
  {
    if b == [] {
      assert a + b == a;
    } else {
      var c := b[..|b| - 1];
      assert (a + b)[..|a + b| - 1] == a + c;
      assert (a + b)[|a + b| - 1] == b[|b| - 1];
      AcceptedAppend(a, c);
    }
  }

  /** A single line yields its record when it is accepted and nothing otherwise. */
  lemma RecordsOfOneLine(line: string)
    ensures Records([line]) == RecordsOf(line)
    ensures |Records([line])| == (if ClassifyLine(line).Accepted? then 1 else 0)
  {
    ClassifiedSnoc([], line);
    assert [] + [line] == [line];
    OutcomesSnoc([], ClassifyLine(line));
    assert [] + [ClassifyLine(line)] == [ClassifyLine(line)];
  }

  /** Every record returned passed all the checks. */
  lemma RecordsWellFormed(lines: seq<string>)
    ensures forall k :: 0 <= k < |Records(lines)| ==> RecordOk(Records(lines)[k])
  {
    AcceptedWellFormed(Classified(lines));
  }

  lemma {:induction false} AcceptedWellFormed(outcomes: seq<LineOutcome>)
    requires forall i :: 0 <= i < |outcomes| ==> outcomes[i].Accepted? ==> RecordOk(outcomes[i].record)
    ensures forall k :: 0 <= k < |AcceptedOf(outcomes)| ==> RecordOk(AcceptedOf(outcomes)[k])
  {
    if outcomes != [] {
      AcceptedWellFormed(outcomes[..|outcomes| - 1]);
    }
  }

  /** The counter of the totals grows by one per line and no other counter shrinks. */
  lemma TallyStep(lines: seq<string>, line: string)
    ensures Tally(lines + [line]) == Count(Tally(lines), ClassifyLine(line))
  {
    ClassifiedSnoc(lines, line);
    OutcomesSnoc(Classified(lines), ClassifyLine(line));
  }

  // ------------------------------------------------------------ the order of the checks

  datatype Check = NonBlank | PatternFound | IpValid | TimestampParsed | StatusInRange

  function Rank(c: Check): nat {
    match c
    case NonBlank => 0
    case PatternFound => 1
    case IpValid => 2
    case TimestampParsed => 3
    case StatusInRange => 4
  }

  /**
   * Whether the line fails a check, each check judged on its own: the checks
   * after the pattern search look at the groups the search found, and cannot
   * fail when there are none.
   */
  predicate Fails(line: string, c: Check) {
    var stripped := Strip(line);
    var found := Search(stripped);
    match c
    case NonBlank => stripped == []
    case PatternFound => found.None?
    case IpValid => found.Some? && !Ipv4.ValidIp(found.value.groups.ip)
    case TimestampParsed => found.Some? && !ParseTimestamp(found.value.groups.time).Parsed?
    case StatusInRange => found.Some? && StatusBad(found.value.groups.status)
  }

  /** `int()` rejects the status text, or its value lies outside 100..599. */
  predicate StatusBad(status: string) {
    var code := ParseInt(status);
    code.None? || !(100 <= code.value <= 599)
  }

  /** The check an outcome stands for; none for an accepted line. */
  function Blame(outcome: LineOutcome): Option<Check> {
    match outcome
    case EmptyLine => Some(NonBlank)
    case NoMatch => Some(PatternFound)
    case InvalidIp => Some(IpValid)
    case BadTimestamp => Some(TimestampParsed)
    case TimestampCrash => Some(TimestampParsed)
    case InvalidStatus => Some(StatusInRange)
    case Accepted(_) => None
  }

  /** The line passes every check that runs before `c`. */
  predicate PassesBefore(line: string, c: Check)
    decreases Rank(c)
  {
    match c
    case NonBlank => true
    case PatternFound => !Fails(line, NonBlank)
    case IpValid => PassesBefore(line, PatternFound) && !Fails(line, PatternFound)
    case TimestampParsed => PassesBefore(line, IpValid) && !Fails(line, IpValid)
    case StatusInRange => PassesBefore(line, TimestampParsed) && !Fails(line, TimestampParsed)
  }

  /** Passing the checks before `c` means failing none ranked lower. */
  lemma PassesBeforeRanked(line: string, c: Check)
    ensures PassesBefore(line, c) <==> forall e: Check :: Rank(e) < Rank(c) ==> !Fails(line, e)
  {
    assert forall e: Check :: Rank(e) < 4 ==> e in {NonBlank, PatternFound, IpValid, TimestampParsed};
  }

  /** The outcome of each way through the checks. */
  lemma ChecksInOrder(line: string)
    ensures Fails(line, NonBlank) ==> ClassifyLine(line) == EmptyLine
    ensures !Fails(line, NonBlank) && Fails(line, PatternFound) ==> ClassifyLine(line) == NoMatch
    ensures !Fails(line, NonBlank) && !Fails(line, PatternFound) && Fails(line, IpValid) ==>
      ClassifyLine(line) == InvalidIp
    ensures !Fails(line, NonBlank) && !Fails(line, PatternFound) && !Fails(line, IpValid) && Fails(line, TimestampParsed) ==>
      ClassifyLine(line).BadTimestamp? || ClassifyLine(line).TimestampCrash?
    ensures !Fails(line, NonBlank) && !Fails(line, PatternFound) && !Fails(line, IpValid) && !Fails(line, TimestampParsed) ==>
      (Fails(line, StatusInRange) <==> ClassifyLine(line) == InvalidStatus)
    ensures !Fails(line, NonBlank) && !Fails(line, PatternFound) && !Fails(line, IpValid) && !Fails(line, TimestampParsed) ==>
      (!Fails(line, StatusInRange) <==> ClassifyLine(line).Accepted?)
  {
    EarlyChecks(line);
    if !Fails(line, NonBlank) && !Fails(line, PatternFound) {
      LateChecks(line);
    }
  }

  /** The two checks made on the line itself. */
  lemma EarlyChecks(line: string)
    ensures Fails(line, NonBlank) ==> ClassifyLine(line) == EmptyLine
    ensures !Fails(line, NonBlank) && Fails(line, PatternFound) ==> ClassifyLine(line) == NoMatch
  {
  }

  /** The three checks made on the groups of a match, as `Fails` states them. */
  lemma LateChecks(line: string)
    requires Strip(line) != [] && Search(Strip(line)).Some?
    ensures Fails(line, IpValid) ==> ClassifyLine(line) == InvalidIp
    ensures !Fails(line, IpValid) && Fails(line, TimestampParsed) ==>
      ClassifyLine(line).BadTimestamp? || ClassifyLine(line).TimestampCrash?
    ensures !Fails(line, IpValid) && !Fails(line, TimestampParsed) ==>
      (Fails(line, StatusInRange) <==> ClassifyLine(line) == InvalidStatus) &&
      (!Fails(line, StatusInRange) <==> ClassifyLine(line).Accepted?)
  {
    var g := Search(Strip(line)).value.groups;
    ClassifiedByGroups(line);
    FailsOnGroups(line);
    GroupChecksInOrder(g);
  }

  lemma ClassifiedByGroups(line: string)
    requires Strip(line) != [] && Search(Strip(line)).Some?
    ensures ClassifyLine(line) == ClassifyGroups(Search(Strip(line)).value.groups)
  {
  }

  /** On a matched line the last three checks look only at the groups. */
  lemma FailsOnGroups(line: string)
    requires Strip(line) != [] && Search(Strip(line)).Some?
    ensures var g := Search(Strip(line)).value.groups;
      && (Fails(line, IpValid) <==> !Ipv4.ValidIp(g.ip))
      && (Fails(line, TimestampParsed) <==> !ParseTimestamp(g.time).Parsed?)
      && (Fails(line, StatusInRange) <==> StatusBad(g.status))
  {
  }

  /** The checks on the groups of a match: ip, then timestamp, then status. */
  lemma GroupChecksInOrder(g: Groups)
    ensures !Ipv4.ValidIp(g.ip) ==> ClassifyGroups(g) == InvalidIp
    ensures Ipv4.ValidIp(g.ip) && !ParseTimestamp(g.time).Parsed? ==>
      ClassifyGroups(g).BadTimestamp? || ClassifyGroups(g).TimestampCrash?
    ensures Ipv4.ValidIp(g.ip) && ParseTimestamp(g.time).Parsed? ==>
      (StatusBad(g.status) <==> ClassifyGroups(g) == InvalidStatus) &&
      (!StatusBad(g.status) <==> ClassifyGroups(g).Accepted?)
  {
  }

  /**
   * A line is blamed on the first check it fails, whatever later checks
   * would say.
   */
  lemma FirstFailureBlamed(line: string, c: Check)
    ensures Blame(ClassifyLine(line)) == Some(c) <==> Fails(line, c) && PassesBefore(line, c)
  {
    ChecksInOrder(line);
  }

  /** A line becomes a record exactly when it fails no check. */
  lemma AcceptedIffNoFailure(line: string)
    ensures ClassifyLine(line).Accepted? <==> forall e: Check :: !Fails(line, e)
  {
    ChecksInOrder(line);
  }

  // ------------------------------------------------------------ what the checks amount to

  /**
   * A blank timestamp group that contains a space makes parse_timestamp
   * raise; the line is then counted as a parse error, not a timestamp error.
   */
  lemma BlankTimeIsParseError(line: string, m: Match, stats: Stats)
    requires Strip(line) != [] && Search(Strip(line)) == Some(m)
    requires Ipv4.ValidIp(m.groups.ip) && ' ' in m.groups.time && AllSpace(m.groups.time)
    ensures ClassifyLine(line) == TimestampCrash
    ensures Count(stats, ClassifyLine(line)) == stats.(totalLines := stats.totalLines + 1, parseErrors := stats.parseErrors + 1)
  {
    assert ClassifyLine(line) == TimestampCrash by {
      ClassifiedByGroups(line);
      BlankTimeCrashes(m.groups);
    }
  }

  lemma BlankTimeCrashes(g: Groups)
    requires Ipv4.ValidIp(g.ip) && ' ' in g.time && AllSpace(g.time)
    ensures ClassifyGroups(g) == TimestampCrash
  {
    RaisesOnlyOnBlank(g.time);
  }

  /** Of a matched ip only the last octet can make the line an invalid-ip line. */
  lemma InvalidIpIsHighLastOctet(line: string)
    requires Strip(line) != [] && Search(Strip(line)).Some?
    ensures var ip := Search(Strip(line)).value.groups.ip;
      ClassifyLine(line) == InvalidIp <==> DigitsValue(Split(ip, '.')[3]) > 255
  {
    ClassifiedByGroups(line);
    PatternIpValidity(Search(Strip(line)).value.groups.ip);
  }

  /** The matched status always reads as a number; only its range can reject the line. */
  lemma InvalidStatusIsOutOfRange(line: string)
    requires Strip(line) != [] && Search(Strip(line)).Some?
    requires Ipv4.ValidIp(Search(Strip(line)).value.groups.ip)
    requires ParseTimestamp(Search(Strip(line)).value.groups.time).Parsed?
    ensures var status := Search(Strip(line)).value.groups.status;
      ClassifyLine(line) == InvalidStatus <==> DigitsValue(status) < 100 || DigitsValue(status) > 599
  {
    ClassifiedByGroups(line);
    PatternStatusValue(Search(Strip(line)).value.groups.status);
  }
}
