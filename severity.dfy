/**
 * Severity and reason phrase derived from an HTTP status code
 * (`determine_log_level`, `determine_response_text` and the fixed table
 * `STATUS_MESSAGES` in modules/log_parser.py).
 */
module Severity {
  import opened Wrappers
  import opened Text

  datatype Level = INFO | WARNING | ERROR {

    /** The text the pipeline stores in the `log_level` column. */
    function Name(): string {
      match this
      case INFO => "INFO"
      case WARNING => "WARNING"
      case ERROR => "ERROR"
    }

    function Rank(): nat {
      match this
      case INFO => 0
      case WARNING => 1
      case ERROR => 2
    }
  }

  /** Everything up to and including 400 is INFO, 401 to 499 WARNING, 500 and above ERROR. */
  function DetermineLogLevel(status: int): (level: Level)
    ensures level == INFO <==> status <= 400
    ensures level == WARNING <==> 400 < status < 500
    ensures level == ERROR <==> 500 <= status
  {
    if status <= 400 then INFO
    else if status < 500 then WARNING
    else ERROR
  }

  /** A higher status never gets a lower severity. */
  lemma LevelMonotone(a: int, b: int)
    requires a <= b
    ensures DetermineLogLevel(a).Rank() <= DetermineLogLevel(b).Rank()
  {
  }

  /** The stored level names tell the three levels apart. */
  lemma LevelNamesDistinct(a: Level, b: Level)
    requires a.Name() == b.Name()
    ensures a == b
  {
  }

  const STATUS_MESSAGES: map<int, string> := map[
    200 := "OK",
    201 := "Created",
    204 := "No Content",
    301 := "Moved Permanently",
    302 := "Found",
    304 := "Not Modified",
    400 := "Bad Request",
    401 := "Unauthorized",
    403 := "Forbidden",
    404 := "Not Found",
    500 := "Internal Server Error",
    502 := "Bad Gateway",
    503 := "Service Unavailable",
    504 := "Gateway Timeout"
  ]

  const FALLBACK_PREFIX: string := "HTTP "

  /**
   * The table's phrase for the fourteen listed codes; for every other code
   * "HTTP " followed by the code as `str()` writes it (sign, digits, no
   * leading zero).
   */
  function DetermineResponseText(status: int): (text: string)
    ensures status in STATUS_MESSAGES ==> text == STATUS_MESSAGES[status]
    ensures status !in STATUS_MESSAGES ==>
      |text| > |FALLBACK_PREFIX| && text[..|FALLBACK_PREFIX|] == FALLBACK_PREFIX
      && IsIntText(text[|FALLBACK_PREFIX|..], status)
  {
    if status in STATUS_MESSAGES then STATUS_MESSAGES[status]
    else
      var digits := IntToDecimal(status);
      assert (FALLBACK_PREFIX + digits)[|FALLBACK_PREFIX|..] == digits;
      FALLBACK_PREFIX + digits
  }

  /**
   * The codes a log line can carry (100..599) get either a table phrase or
   * "HTTP " and three digits, far below the 4300-digit limit of CPython's
   * int-to-str conversion.
   */
  lemma RangeFallbackShort(status: int)
    requires 100 <= status <= 599 && status !in STATUS_MESSAGES
    ensures |DetermineResponseText(status)| == |FALLBACK_PREFIX| + 3
  {
    var digits := DetermineResponseText(status)[|FALLBACK_PREFIX|..];
    assert NatToDecimal(status) == digits by {
      DecimalOfDigits(digits);
    }
    ThreeDigitDecimal(status);
  }

  /** The listed codes are exactly the fourteen of the table. */
  lemma ListedCodes(status: int)
    ensures status in STATUS_MESSAGES <==>
      status in {200, 201, 204, 301, 302, 304, 400, 401, 403, 404, 500, 502, 503, 504}
  {
  }

  /** No phrase of the table looks like a fallback text. */
  lemma PhrasesAreNotFallbacks(status: int)
    requires status in STATUS_MESSAGES
    ensures STATUS_MESSAGES[status] != [] && STATUS_MESSAGES[status][0] != FALLBACK_PREFIX[0]
  {
    ListedCodes(status);
  }

  /** The table's phrases are pairwise different. */
  lemma PhrasesDistinct(a: int, b: int)
    requires a in STATUS_MESSAGES && b in STATUS_MESSAGES && a != b
    ensures STATUS_MESSAGES[a] != STATUS_MESSAGES[b]
  {
  }

  /** The response text identifies the status code: different codes never share a text. */
  lemma ResponseTextIdentifiesStatus(a: int, b: int)
    requires DetermineResponseText(a) == DetermineResponseText(b)
    ensures a == b
  {
    var ta, tb := DetermineResponseText(a), DetermineResponseText(b);
    if a in STATUS_MESSAGES && b in STATUS_MESSAGES {
      if a != b {
        PhrasesDistinct(a, b);
      }
    } else if a in STATUS_MESSAGES {
      PhrasesAreNotFallbacks(a);
    } else if b in STATUS_MESSAGES {
      PhrasesAreNotFallbacks(b);
    } else {
      IntTextValue(ta[|FALLBACK_PREFIX|..], a, b);
    }
  }
}
