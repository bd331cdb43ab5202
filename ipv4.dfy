/**
 * The address check `validate_ip` of modules/log_parser.py.
 *
 * The check splits the address at every '.', insists on exactly four parts
 * that int() accepts (Text.ParseInt: ASCII whitespace skipped, at most
 * 4300 digits), and then range-checks the value left over from the
 * loop, that is the LAST part only.
 */
module Ipv4 {
  import opened Wrappers
  import opened Text

  /** Every part is text that int() accepts. */
  predicate AllParse(parts: seq<string>) {
    forall k :: 0 <= k < |parts| ==> ParseInt(parts[k]).Some?
  }

  /** What `validate_ip` answers, stated on the parts of the address. */
  predicate ValidIp(ipAddress: string) {
    var parts := Split(ipAddress, '.');
    && |parts| == 4
    && AllParse(parts)
    && 0 <= ParseInt(parts[3]).value <= 255
  }

  /** `validate_ip`: the loop converts every part and keeps the last value. */
  method ValidateIp(ipAddress: string) returns (valid: bool)
    ensures valid == ValidIp(ipAddress)
  {
    var parts := Split(ipAddress, '.');
    if |parts| != 4 {
      return false;
    }
    var num := 0;
    var i := 0;
    while i < |parts|
      invariant 0 <= i <= |parts|
      invariant forall k :: 0 <= k < i ==> ParseInt(parts[k]).Some?
      invariant i > 0 ==> num == ParseInt(parts[i - 1]).value
    {
      var parsed := ParseInt(parts[i]);
      if parsed.None? {
        // int(part) raised ValueError
        return false;
      }
      num := parsed.value;
      i := i + 1;
    }
    valid := 0 <= num <= 255;
  }

  /** Four plain digit strings joined by dots. */
  predicate IsDottedDecimal(parts: seq<string>) {
    |parts| == 4 && forall k :: 0 <= k < 4 ==> IsDecimal(parts[k])
  }

  /**
   * On four dot-joined digit strings the check accepts exactly when none of
   * them is longer than int()'s digit limit and the last one is at most 255;
   * the first three are never range-checked.
   */
  lemma DottedDecimalValidity(parts: seq<string>)
    requires IsDottedDecimal(parts)
    ensures ValidIp(Join(parts, '.')) <==>
      (forall k :: 0 <= k < 4 ==> |parts[k]| <= MAX_STR_DIGITS) && DigitsValue(parts[3]) <= 255
  {
    assert Split(Join(parts, '.'), '.') == parts by {
      DigitPartsRead(parts);
      JoinThenSplit(parts, '.');
    }
    DigitPartsParse(parts);
    if |parts[3]| <= MAX_STR_DIGITS {
      ParseDigits(parts[3]);
    }
  }

  /** How int() reads each of four plain digit strings; none holds a '.'. */
  lemma DigitPartsRead(parts: seq<string>)
    requires IsDottedDecimal(parts)
    ensures forall k :: 0 <= k < 4 ==> '.' !in parts[k]
    ensures forall k :: 0 <= k < 4 ==>
      ParseInt(parts[k]) == if |parts[k]| <= MAX_STR_DIGITS then Some(DigitsValue(parts[k])) else None
  {
    forall k | 0 <= k < 4
      ensures '.' !in parts[k]
      ensures ParseInt(parts[k]) == if |parts[k]| <= MAX_STR_DIGITS then Some(DigitsValue(parts[k])) else None
    {
      if |parts[k]| <= MAX_STR_DIGITS {
        ParseDigits(parts[k]);
      } else {
        TooManyDigitsRejected(parts[k]);
      }
    }
  }

  /** Four plain digit strings all parse exactly when none exceeds int()'s digit limit. */
  lemma DigitPartsParse(parts: seq<string>)
    requires IsDottedDecimal(parts)
    ensures AllParse(parts) <==> forall k :: 0 <= k < 4 ==> |parts[k]| <= MAX_STR_DIGITS
  {
    DigitPartsRead(parts);
  }

  /** Every address whose four parts are all in 0..255, written in at most int()'s digit limit, is accepted. */
  lemma InRangeQuadAccepted(parts: seq<string>)
    requires IsDottedDecimal(parts)
    requires forall k :: 0 <= k < 4 ==> DigitsValue(parts[k]) <= 255 && |parts[k]| <= MAX_STR_DIGITS
    ensures ValidIp(Join(parts, '.'))
  {
    DottedDecimalValidity(parts);
  }

  /** A part longer than int()'s digit limit is rejected, whatever its value. */
  lemma OverlongPartRejected(parts: seq<string>, k: nat)
    requires IsDottedDecimal(parts) && k < 4 && |parts[k]| > MAX_STR_DIGITS
    ensures !ValidIp(Join(parts, '.'))
  {
    DottedDecimalValidity(parts);
  }

  /**
   * A part that starts with a character int() neither skips nor reads is
   * rejected: the separators U+001C..U+001F count as whitespace for
   * `isspace()` but not for int().
   */
  lemma JunkPartRejected(parts: seq<string>, k: nat)
    requires |parts| == 4 && forall j :: 0 <= j < 4 ==> '.' !in parts[j]
    requires k < 4 && |parts[k]| > 0
    requires !IsIntSpace(parts[k][0]) && !IsDigit(parts[k][0]) && parts[k][0] != '+' && parts[k][0] != '-'
    ensures !ValidIp(Join(parts, '.'))
  {
    JoinThenSplit(parts, '.');
    LeadingJunkRejected(parts[k]);
  }

  /** `validate_ip("\x1c1.1.1.1")` is False. */
  lemma SeparatorPaddingRejected(ipAddress: string)
    requires ipAddress == "\U{1C}1.1.1.1"
    ensures !ValidIp(ipAddress)
  {
    var parts := ["\U{1C}1", "1", "1", "1"];
    JunkPartRejected(parts, 0);
    JoinFour(parts[0], parts[1], parts[2], parts[3]);
    assert Join(parts, '.') == ipAddress;
  }

  /** Only the first three parts escape the range check: 999.1.1.1 passes. */
  lemma HighFirstPartAccepted(ipAddress: string)
    requires ipAddress == "999.1.1.1"
    ensures ValidIp(ipAddress)
  {
    var parts := ["999", "1", "1", "1"];
    assert IsDottedDecimal(parts);
    DottedDecimalValidity(parts);
    assert DigitsValue("1") == 1;
    JoinFour(parts[0], parts[1], parts[2], parts[3]);
    assert Join(parts, '.') == ipAddress;
  }

  /** The last part is range-checked: 1.1.1.999 fails. */
  lemma HighLastPartRejected(ipAddress: string)
    requires ipAddress == "1.1.1.999"
    ensures !ValidIp(ipAddress)
  {
    var parts := ["1", "1", "1", "999"];
    assert IsDottedDecimal(parts);
    DottedDecimalValidity(parts);
    assert DigitsValue("999") == 999 by {
      assert "999"[..2] == "99" && "99"[..1] == "9";
    }
    JoinFour(parts[0], parts[1], parts[2], parts[3]);
    assert Join(parts, '.') == ipAddress;
  }

  lemma JoinFour(a: string, b: string, c: string, d: string)
    ensures Join([a, b, c, d], '.') == a + "." + b + "." + c + "." + d
  {
    assert [a, b, c, d][1..] == [b, c, d];
    assert [b, c, d][1..] == [c, d];
    assert [c, d][1..] == [d];
    assert Join([d], '.') == d;
    assert Join([c, d], '.') == c + "." + d;
    assert Join([b, c, d], '.') == b + "." + (c + "." + d);
  }

  /** An address without exactly three dots is always rejected. */
  lemma WrongPartCountRejected(ipAddress: string)
    requires |Split(ipAddress, '.')| != 4
    ensures !ValidIp(ipAddress)
  {
  }
}
