/**
 * The parts of modules/database.py that are computation rather than I/O:
 * the filtered query `get_logs_by_filters` builds (its SQL text, its
 * parameter list, and the row predicate its WHERE clause stands for), and
 * the empty-input guard of `save_log_data`.
 */
module Database {
  import opened Wrappers
  import LogParser

  // ------------------------------------------------------------ criteria

  /** The six optional keyword arguments of `get_logs_by_filters`. */
  datatype Criteria = Criteria(
    startDate: Option<string>,
    endDate: Option<string>,
    logLevel: Option<string>,
    ipAddress: Option<string>,
    minStatus: Option<int>,
    maxStatus: Option<int>)

  const NO_CRITERIA := Criteria(None, None, None, None, None, None)

  /** Python truthiness of an optional string: None and "" are false. */
  predicate Given(o: Option<string>) {
    o.Some? && o.value != ""
  }

  /** Python truthiness of an optional int: None and 0 are false. */
  predicate GivenInt(o: Option<int>) {
    o.Some? && o.value != 0
  }

  /** The six filters; `Slot` is the fixed order in which their clauses are appended. */
  datatype Filter = StartDate | EndDate | LogLevel | IpAddress | MinStatus | MaxStatus

  function Slot(f: Filter): nat {
    match f
    case StartDate => 0
    case EndDate => 1
    case LogLevel => 2
    case IpAddress => 3
    case MinStatus => 4
    case MaxStatus => 5
  }

  /** A bound parameter of the query. */
  datatype Param = Text(text: string) | Int(number: int)

  /** The value an argument contributes, when it is truthy. */
  function Supplied(c: Criteria, f: Filter): Option<Param> {
    match f
    case StartDate => if Given(c.startDate) then Some(Text(c.startDate.value)) else None
    case EndDate => if Given(c.endDate) then Some(Text(c.endDate.value)) else None
    case LogLevel => if Given(c.logLevel) then Some(Text(c.logLevel.value)) else None
    case IpAddress => if Given(c.ipAddress) then Some(Text(c.ipAddress.value)) else None
    case MinStatus => if GivenInt(c.minStatus) then Some(Int(c.minStatus.value)) else None
    case MaxStatus => if GivenInt(c.maxStatus) then Some(Int(c.maxStatus.value)) else None
  }

  /** One supplied criterion: which filter, and the value bound to its placeholder. */
  datatype Conjunct = Conjunct(filter: Filter, value: Param)

  function Part(c: Criteria, f: Filter): seq<Conjunct> {
    match Supplied(c, f)
    case Some(v) => [Conjunct(f, v)]
    case None => []
  }

  /** The supplied criteria as conjuncts, in the order of their clauses. */
  function Conjuncts(c: Criteria): seq<Conjunct> {
    Part(c, StartDate) + Part(c, EndDate) + Part(c, LogLevel)
    + Part(c, IpAddress) + Part(c, MinStatus) + Part(c, MaxStatus)
  }

  // ------------------------------------------------------------ the query text

  const SELECT_ALL := "SELECT * FROM server_logs WHERE 1=1"
  const ORDER_BY := " ORDER BY timestamp DESC"
  const PLACEHOLDER := "%s"

  /** The clause a filter appends: `" AND <column> <op> %s"`. */
  function ClauseText(f: Filter): string {
    Lead(f) + PLACEHOLDER
  }

  /** A clause up to its placeholder. */
  function Lead(f: Filter): string {
    match f
    case StartDate => " AND timestamp >= "
    case EndDate => " AND timestamp <= "
    case LogLevel => " AND log_level = "
    case IpAddress => " AND ip_address = "
    case MinStatus => " AND status >= "
    case MaxStatus => " AND status <= "
  }

  function Clauses(cs: seq<Conjunct>): string {
    if cs == [] then [] else Clauses(cs[..|cs| - 1]) + ClauseText(cs[|cs| - 1].filter)
  }

  function Params(cs: seq<Conjunct>): seq<Param> {
    if cs == [] then [] else Params(cs[..|cs| - 1]) + [cs[|cs| - 1].value]
  }

  /** The query text for a list of conjuncts. */
  function QueryText(cs: seq<Conjunct>): string {
    SELECT_ALL + Clauses(cs) + ORDER_BY
  }

  lemma AppendAssoc(a: string, b: string, c: string)
    ensures a + b + c == a + (b + c)
  {
  }

  lemma ClausesSnoc(cs: seq<Conjunct>, k: Conjunct)
    ensures Clauses(cs + [k]) == Clauses(cs) + ClauseText(k.filter)
  {
    assert (cs + [k])[..|cs|] == cs;
  }

  lemma ParamsSnoc(cs: seq<Conjunct>, k: Conjunct)
    ensures Params(cs + [k]) == Params(cs) + [k.value]
  {
    assert (cs + [k])[..|cs|] == cs;
  }

  /** The text one guard appends: its clause when the argument is truthy, nothing otherwise. */
  function Piece(c: Criteria, f: Filter): string {
    if Supplied(c, f).Some? then ClauseText(f) else []
  }

  /** The parameters one guard appends. */
  function Value(c: Criteria, f: Filter): seq<Param> {
    if Supplied(c, f).Some? then [Supplied(c, f).value] else []
  }

  lemma {:induction false} ClausesAppend(a: seq<Conjunct>, b: seq<Conjunct>)
    ensures Clauses(a + b) == Clauses(a) + Clauses(b)
    decreases |b|
  {
    if b == [] {
      assert a + b == a;
    } else {
      var k := b[|b| - 1];
      var b' := b[..|b| - 1];
      assert a + b == (a + b') + [k];
      assert b == b' + [k];
      ClausesSnoc(a + b', k);
      ClausesSnoc(b', k);
      ClausesAppend(a, b');
      AppendAssoc(Clauses(a), Clauses(b'), ClauseText(k.filter));
    }
  }

  lemma {:induction false} ParamsAppend(a: seq<Conjunct>, b: seq<Conjunct>)
    ensures Params(a + b) == Params(a) + Params(b)
    decreases |b|
  {
    if b == [] {
      assert a + b == a;
    } else {
      var k := b[|b| - 1];
      var b' := b[..|b| - 1];
      assert a + b == (a + b') + [k];
      assert b == b' + [k];
      ParamsSnoc(a + b', k);
      ParamsSnoc(b', k);
      ParamsAppend(a, b');
    }
  }

  lemma PartText(c: Criteria, f: Filter)
    ensures Clauses(Part(c, f)) == Piece(c, f)
    ensures Params(Part(c, f)) == Value(c, f)
  {
    if Supplied(c, f).Some? {
      ClausesSnoc([], Conjunct(f, Supplied(c, f).value));
      ParamsSnoc([], Conjunct(f, Supplied(c, f).value));
    }
  }

  lemma Regroup<T>(h: seq<T>, a: seq<T>, b: seq<T>, c: seq<T>, d: seq<T>, e: seq<T>, f: seq<T>)
    ensures h + (a + b + c + d + e + f) == h + a + b + c + d + e + f
  {
  }

  /** The conjunct list, rendered, is the six guards' pieces in order. */
  lemma Assembled(c: Criteria)
    ensures QueryText(Conjuncts(c)) == SELECT_ALL + Piece(c, StartDate) + Piece(c, EndDate) + Piece(c, LogLevel)
      + Piece(c, IpAddress) + Piece(c, MinStatus) + Piece(c, MaxStatus) + ORDER_BY
    ensures Params(Conjuncts(c)) == Value(c, StartDate) + Value(c, EndDate) + Value(c, LogLevel)
      + Value(c, IpAddress) + Value(c, MinStatus) + Value(c, MaxStatus)
  {
    var p1, p2, p3 := Part(c, StartDate), Part(c, EndDate), Part(c, LogLevel);
    var p4, p5, p6 := Part(c, IpAddress), Part(c, MinStatus), Part(c, MaxStatus);
    ClausesAppend(p1, p2);
    ClausesAppend(p1 + p2, p3);
    ClausesAppend(p1 + p2 + p3, p4);
    ClausesAppend(p1 + p2 + p3 + p4, p5);
    ClausesAppend(p1 + p2 + p3 + p4 + p5, p6);
    ParamsAppend(p1, p2);
    ParamsAppend(p1 + p2, p3);
    ParamsAppend(p1 + p2 + p3, p4);
    ParamsAppend(p1 + p2 + p3 + p4, p5);
    ParamsAppend(p1 + p2 + p3 + p4 + p5, p6);
    PartText(c, StartDate);
    PartText(c, EndDate);
    PartText(c, LogLevel);
    PartText(c, IpAddress);
    PartText(c, MinStatus);
    PartText(c, MaxStatus);
    Regroup(SELECT_ALL, Piece(c, StartDate), Piece(c, EndDate), Piece(c, LogLevel),
      Piece(c, IpAddress), Piece(c, MinStatus), Piece(c, MaxStatus));
  }

  /**
   * The query and parameters `get_logs_by_filters` hands to `pd.read_sql`:
   * one clause and one parameter per truthy argument, in the fixed order.
   */
  method BuildFilterQuery(criteria: Criteria) returns (query: string, params: seq<Param>)
    ensures query == QueryText(Conjuncts(criteria))
    ensures params == Params(Conjuncts(criteria))
  {
    query := SELECT_ALL;
    params := [];

    if Given(criteria.startDate) {
      query := query + ClauseText(StartDate);
      params := params + [Text(criteria.startDate.value)];
    }
    assert query == SELECT_ALL + Piece(criteria, StartDate);
    assert params == Value(criteria, StartDate);

    if Given(criteria.endDate) {
      query := query + ClauseText(EndDate);
      params := params + [Text(criteria.endDate.value)];
    }
    assert query == SELECT_ALL + Piece(criteria, StartDate) + Piece(criteria, EndDate);
    assert params == Value(criteria, StartDate) + Value(criteria, EndDate);

    if Given(criteria.logLevel) {
      query := query + ClauseText(LogLevel);
      params := params + [Text(criteria.logLevel.value)];
    }
    assert query == SELECT_ALL + Piece(criteria, StartDate) + Piece(criteria, EndDate) + Piece(criteria, LogLevel);
    assert params == Value(criteria, StartDate) + Value(criteria, EndDate) + Value(criteria, LogLevel);

    if Given(criteria.ipAddress) {
      query := query + ClauseText(IpAddress);
      params := params + [Text(criteria.ipAddress.value)];
    }
    assert query == SELECT_ALL + Piece(criteria, StartDate) + Piece(criteria, EndDate) + Piece(criteria, LogLevel) + Piece(criteria, IpAddress);
    assert params == Value(criteria, StartDate) + Value(criteria, EndDate) + Value(criteria, LogLevel) + Value(criteria, IpAddress);

    if GivenInt(criteria.minStatus) {
      query := query + ClauseText(MinStatus);
      params := params + [Int(criteria.minStatus.value)];
    }
    assert query == SELECT_ALL + Piece(criteria, StartDate) + Piece(criteria, EndDate) + Piece(criteria, LogLevel) + Piece(criteria, IpAddress) + Piece(criteria, MinStatus);
    assert params == Value(criteria, StartDate) + Value(criteria, EndDate) + Value(criteria, LogLevel) + Value(criteria, IpAddress) + Value(criteria, MinStatus);

    if GivenInt(criteria.maxStatus) {
      query := query + ClauseText(MaxStatus);
      params := params + [Int(criteria.maxStatus.value)];
    }
    assert query == SELECT_ALL + Piece(criteria, StartDate) + Piece(criteria, EndDate) + Piece(criteria, LogLevel) + Piece(criteria, IpAddress) + Piece(criteria, MinStatus) + Piece(criteria, MaxStatus);
    assert params == Value(criteria, StartDate) + Value(criteria, EndDate) + Value(criteria, LogLevel) + Value(criteria, IpAddress) + Value(criteria, MinStatus) + Value(criteria, MaxStatus);

    query := query + ORDER_BY;
    Assembled(criteria);
  }

  // ------------------------------------------------------------ what the text promises

  /** The conjuncts are exactly the truthy arguments, each with its own value. */
  lemma ConjunctsExactly(c: Criteria)
    ensures forall k :: k in Conjuncts(c) <==> Supplied(c, k.filter) == Some(k.value)
  {
    forall k
      ensures k in Conjuncts(c) <==> Supplied(c, k.filter) == Some(k.value)
    {
      InPart(c, k);
    }
  }

  lemma InPart(c: Criteria, k: Conjunct)
    ensures k in Conjuncts(c) <==> k in Part(c, k.filter)
    ensures k in Part(c, k.filter) <==> Supplied(c, k.filter) == Some(k.value)
  {
    assert forall f :: forall j :: j in Part(c, f) ==> j.filter == f;
  }

  /** The clauses come in the fixed order start, end, level, address, minimum, maximum. */
  lemma FixedOrder(c: Criteria)
    ensures forall i, j :: 0 <= i < j < |Conjuncts(c)| ==> Slot(Conjuncts(c)[i].filter) < Slot(Conjuncts(c)[j].filter)
  {
  }

  /** An empty text argument adds nothing to the query: it counts as not given. */
  lemma EmptyTextIgnored(c: Criteria)
    ensures Conjuncts(c.(startDate := Some(""))) == Conjuncts(c.(startDate := None))
    ensures Conjuncts(c.(endDate := Some(""))) == Conjuncts(c.(endDate := None))
    ensures Conjuncts(c.(logLevel := Some(""))) == Conjuncts(c.(logLevel := None))
    ensures Conjuncts(c.(ipAddress := Some(""))) == Conjuncts(c.(ipAddress := None))
  {
  }

  /** A status bound of 0 adds nothing to the query: `min_status=0` is not a filter. */
  lemma ZeroStatusIgnored(c: Criteria)
    ensures Conjuncts(c.(minStatus := Some(0))) == Conjuncts(c.(minStatus := None))
    ensures Conjuncts(c.(maxStatus := Some(0))) == Conjuncts(c.(maxStatus := None))
  {
  }

  /** Without criteria the query selects every row, newest first, with no parameters. */
  lemma NoCriteriaQuery(expected: string)
    requires expected == "SELECT * FROM server_logs WHERE 1=1 ORDER BY timestamp DESC"
    ensures QueryText(Conjuncts(NO_CRITERIA)) == expected
    ensures Params(Conjuncts(NO_CRITERIA)) == []
  {
    var cs := Conjuncts(NO_CRITERIA);
    NoConjuncts();
    assert QueryText(cs) == SELECT_ALL + ORDER_BY by {
      assert Clauses(cs) == "";
      assert SELECT_ALL + "" == SELECT_ALL;
    }
    assert SELECT_ALL + ORDER_BY == expected;
  }

  lemma NoConjuncts()
    ensures Conjuncts(NO_CRITERIA) == []
  {
  }

  // ------------------------------------------------------------ placeholders

  /** The number of `%s` placeholders in a text. */
  function Placeholders(s: string): nat {
    if |s| < 2 then 0
    else (if s[0] == '%' && s[1] == 's' then 1 else 0) + Placeholders(s[1..])
  }

  predicate NoPercent(s: string) {
    forall i :: 0 <= i < |s| ==> s[i] != '%'
  }

  /** Text without a `%` holds no placeholder. */
  lemma {:induction false} NoPercentNoPlaceholder(s: string)
    requires NoPercent(s)
    ensures Placeholders(s) == 0
  {
    if |s| >= 2 {
      NoPercentNoPlaceholder(s[1..]);
    }
  }

  /** Joining two texts adds their placeholders, unless the first ends in a `%`. */
  lemma {:induction false} PlaceholdersAppend(a: string, b: string)
    requires a == [] || a[|a| - 1] != '%'
    ensures Placeholders(a + b) == Placeholders(a) + Placeholders(b)
  {
    if a != [] {
      assert (a + b)[1..] == a[1..] + b;
      if |a| >= 2 {
        assert (a + b)[0] == a[0] && (a + b)[1] == a[1];
        PlaceholdersAppend(a[1..], b);
      } else {
        assert (a + b)[0] == a[0] != '%';
        assert a[1..] + b == b;
      }
    } else {
      assert a + b == b;
    }
  }

  lemma LeadFacts(f: Filter)
    ensures NoPercent(Lead(f)) && |Lead(f)| > 0 && Lead(f)[|Lead(f)| - 1] != '%'
  {
  }

  /** Every clause carries exactly one placeholder and ends in `s`. */
  lemma ClausePlaceholder(f: Filter)
    ensures Placeholders(ClauseText(f)) == 1
    ensures ClauseText(f)[|ClauseText(f)| - 1] == 's'
  {
    LeadFacts(f);
    NoPercentNoPlaceholder(Lead(f));
    PlaceholdersAppend(Lead(f), PLACEHOLDER);
  }

  /** The clauses carry one placeholder per conjunct. */
  lemma {:induction false} ClausesPlaceholders(cs: seq<Conjunct>)
    ensures Placeholders(Clauses(cs)) == |cs|
    ensures cs != [] ==> Clauses(cs)[|Clauses(cs)| - 1] == 's'
  {
    if cs != [] {
      var f := cs[|cs| - 1].filter;
      ClausesPlaceholders(cs[..|cs| - 1]);
      ClausePlaceholder(f);
      PlaceholdersAppend(Clauses(cs[..|cs| - 1]), ClauseText(f));
    }
  }

  lemma FrameFacts()
    ensures NoPercent(SELECT_ALL) && SELECT_ALL[|SELECT_ALL| - 1] != '%'
    ensures NoPercent(ORDER_BY)
  {
  }

  /** Text with no placeholder of its own, ending in no `%`, before the clauses. */
  lemma HeadPlaceholders(cs: seq<Conjunct>)
    ensures Placeholders(SELECT_ALL + Clauses(cs)) == |cs|
    ensures SELECT_ALL + Clauses(cs) != [] && (SELECT_ALL + Clauses(cs))[|SELECT_ALL + Clauses(cs)| - 1] != '%'
  {
    FrameFacts();
    NoPercentNoPlaceholder(SELECT_ALL);
    ClausesPlaceholders(cs);
    PlaceholdersAppend(SELECT_ALL, Clauses(cs));
  }

  /** The query has as many placeholders as there are parameters. */
  lemma PlaceholdersMatchParams(cs: seq<Conjunct>)
    ensures Placeholders(QueryText(cs)) == |Params(cs)|
  {
    FrameFacts();
    HeadPlaceholders(cs);
    NoPercentNoPlaceholder(ORDER_BY);
    PlaceholdersAppend(SELECT_ALL + Clauses(cs), ORDER_BY);
    ParamsLength(cs);
  }

  lemma {:induction false} ParamsLength(cs: seq<Conjunct>)
    ensures |Params(cs)| == |cs|
  {
    if cs != [] {
      ParamsLength(cs[..|cs| - 1]);
    }
  }

  lemma {:induction false} ParamsAt(cs: seq<Conjunct>, i: nat)
    requires i < |cs|
    ensures |Params(cs)| == |cs| && Params(cs)[i] == cs[i].value
  {
    ParamsLength(cs);
    if i < |cs| - 1 {
      ParamsAt(cs[..|cs| - 1], i);
    }
  }

  lemma ClausesOne(k: Conjunct)
    ensures Clauses([k]) == ClauseText(k.filter)
  {
    ClausesSnoc([], k);
  }

  /**
   * Placeholders and parameters line up: the query splits at the clause of
   * the i-th conjunct, exactly i placeholders precede that clause (so its
   * `%s` is the (i+1)-th), and the i-th parameter is that conjunct's value.
   */
  lemma ClauseAligned(cs: seq<Conjunct>, i: nat)
    requires i < |cs|
    ensures QueryText(cs) == SELECT_ALL + Clauses(cs[..i]) + ClauseText(cs[i].filter) + Clauses(cs[i + 1..]) + ORDER_BY
    ensures Placeholders(SELECT_ALL + Clauses(cs[..i])) == i
    ensures |Params(cs)| == |cs| && Params(cs)[i] == cs[i].value
  {
    assert cs == cs[..i] + [cs[i]] + cs[i + 1..];
    ClausesAppend(cs[..i] + [cs[i]], cs[i + 1..]);
    ClausesAppend(cs[..i], [cs[i]]);
    ClausesOne(cs[i]);
    Regroup4(SELECT_ALL, Clauses(cs[..i]), ClauseText(cs[i].filter), Clauses(cs[i + 1..]), ORDER_BY);
    HeadPlaceholders(cs[..i]);
    ParamsAt(cs, i);
  }

  lemma Regroup4<T>(h: seq<T>, a: seq<T>, b: seq<T>, c: seq<T>, d: seq<T>)
    ensures h + (a + b + c) + d == h + a + b + c + d
  {
  }

  // ------------------------------------------------------------ the WHERE clause as a row predicate

  /** The columns of a `server_logs` row that the filters compare. */
  datatype Row = Row(timestamp: string, logLevel: string, ipAddress: string, status: int)

  /** Text order, character by character, a proper prefix first. */
  predicate TextAtMost(a: string, b: string)
    decreases |a|
  {
    a == [] || (b != [] && (a[0] < b[0] || (a[0] == b[0] && TextAtMost(a[1..], b[1..]))))
  }

  /** What one clause, with its parameter bound, asks of a row. */
  predicate Holds(row: Row, k: Conjunct) {
    match (k.filter, k.value)
    case (StartDate, Text(v)) => TextAtMost(v, row.timestamp)
    case (EndDate, Text(v)) => TextAtMost(row.timestamp, v)
    case (LogLevel, Text(v)) => row.logLevel == v
    case (IpAddress, Text(v)) => row.ipAddress == v
    case (MinStatus, Int(n)) => row.status >= n
    case (MaxStatus, Int(n)) => row.status <= n
    case _ => false
  }

  /** `WHERE 1=1 AND ...`: a row is selected when every clause holds. */
  predicate Where(row: Row, cs: seq<Conjunct>) {
    forall k :: k in cs ==> Holds(row, k)
  }

  /** The criteria read directly, argument by argument. */
  predicate Matches(row: Row, c: Criteria) {
    (Given(c.startDate) ==> TextAtMost(c.startDate.value, row.timestamp))
    && (Given(c.endDate) ==> TextAtMost(row.timestamp, c.endDate.value))
    && (Given(c.logLevel) ==> row.logLevel == c.logLevel.value)
    && (Given(c.ipAddress) ==> row.ipAddress == c.ipAddress.value)
    && (GivenInt(c.minStatus) ==> row.status >= c.minStatus.value)
    && (GivenInt(c.maxStatus) ==> row.status <= c.maxStatus.value)
  }

  /** The WHERE clause selects exactly the rows meeting every truthy argument. */
  lemma WhereMeansMatches(row: Row, c: Criteria)
    ensures Where(row, Conjuncts(c)) <==> Matches(row, c)
  {
    ConjunctsExactly(c);
    if Where(row, Conjuncts(c)) {
      Met(row, c, StartDate);
      Met(row, c, EndDate);
      Met(row, c, LogLevel);
      Met(row, c, IpAddress);
      Met(row, c, MinStatus);
      Met(row, c, MaxStatus);
    }
  }

  lemma Met(row: Row, c: Criteria, f: Filter)
    requires Where(row, Conjuncts(c))
    requires forall k :: k in Conjuncts(c) <==> Supplied(c, k.filter) == Some(k.value)
    ensures Supplied(c, f).Some? ==> Holds(row, Conjunct(f, Supplied(c, f).value))
  {
    if Supplied(c, f).Some? {
      assert Conjunct(f, Supplied(c, f).value) in Conjuncts(c);
    }
  }

  /** `c'` supplies every argument `c` supplies, with the same value. */
  predicate Narrows(c': Criteria, c: Criteria) {
    forall f :: Supplied(c, f).Some? ==> Supplied(c', f) == Supplied(c, f)
  }

  /** Supplying more criteria never admits a row that fewer criteria rejected. */
  lemma MoreCriteriaAdmitFewer(row: Row, c: Criteria, c': Criteria)
    requires Narrows(c', c)
    ensures Where(row, Conjuncts(c')) ==> Where(row, Conjuncts(c))
  {
    ConjunctsExactly(c);
    ConjunctsExactly(c');
    assert forall k :: k in Conjuncts(c) ==> k in Conjuncts(c');
  }

  /** Without criteria every row is selected. */
  lemma NoCriteriaAdmitsAll(row: Row)
    ensures Where(row, Conjuncts(NO_CRITERIA))
  {
    assert Conjuncts(NO_CRITERIA) == [];
  }

  // ------------------------------------------------------------ saving

  /**
   * The `server_logs` table as `save_log_data` sees it, with a count of the
   * times it asked the pool for a connection.
   */
  class LogStore {
    var rows: seq<LogParser.Record>
    var connectionRequests: nat

    constructor ()
      ensures rows == [] && connectionRequests == 0
    {
      rows := [];
      connectionRequests := 0;
    }

    /**
     * An empty list is refused before any connection is requested. Otherwise
     * the rows are inserted when a connection was obtained (`connected`) and
     * the database accepted the batch (`accepted`); a failed batch is rolled
     * back.
     */
    method SaveLogData(listData: seq<LogParser.Record>, connected: bool, accepted: bool) returns (saved: bool)
      modifies this
      ensures listData == [] ==> !saved && connectionRequests == old(connectionRequests)
      ensures listData != [] ==> connectionRequests == old(connectionRequests) + 1
      ensures saved <==> listData != [] && connected && accepted
      ensures rows == if saved then old(rows) + listData else old(rows)
    {
      if listData == [] {
        return false;
      }
      connectionRequests := connectionRequests + 1;
      if !connected {
        return false;
      }
      if !accepted {
        return false;
      }
      rows := rows + listData;
      return true;
    }
  }
}
