/**
 * The two static checks of Most_Active_Cookie: the file-name check made
 * before a log is opened, and the YYYY-MM-DD date validator (the full-date
 * form of section 5.6 of RFC 3339 with the day-of-month limits of its
 * section 5.7).
 */
module Validation {
  import opened Strings

  /** The failures the finder reports; the source raises each as a ValueError. */
  datatype Error = InvalidInput | ParseError | DateNotFound

  datatype Outcome = Pass | Fail(error: Error)

  /** check_file_csv: Fail(InvalidInput) unless the last four characters are ".csv". */
  function CheckFileCsv(path: string): (r: Outcome)
    ensures r == Pass || r == Fail(InvalidInput)
    ensures |path| < 4 ==> r == Fail(InvalidInput)
  {
    if TakeLast(path, 4) != ".csv" then Fail(InvalidInput) else Pass
  }

  /** A path passes exactly when it is some stem followed by ".csv". */
  lemma CheckFileCsvEndsWith(path: string)
    ensures CheckFileCsv(path) == Pass <==> exists stem :: path == stem + ".csv"
  {
    if CheckFileCsv(path) == Pass {
      assert path == path[..|path| - 4] + ".csv";
    } else {
      forall stem | path == stem + ".csv"
        ensures false
      {
      }
    }
  }

  /** The Gregorian leap-year rule, in the form of Appendix C of RFC 3339. */
  predicate IsLeapYear(year: nat)
  {
    year % 4 == 0 && (year % 100 != 0 || year % 400 == 0)
  }

  /** The maximum day of a month, as tabulated in section 5.7 of RFC 3339. */
  function DaysInMonth(year: nat, month: nat): nat
    requires 1 <= month <= 12
  {
    if month == 2 then (if IsLeapYear(year) then 29 else 28)
    else if month == 4 || month == 6 || month == 9 || month == 11 then 30
    else 31
  }

  predicate IsCalendarDate(year: nat, month: nat, day: nat)
  {
    1 <= month <= 12 && 1 <= day <= DaysInMonth(year, month)
  }

  /** The source's form of the leap-year test is the RFC 3339 rule. */
  lemma LeapRule(year: nat)
    ensures ((year % 4 == 0 && year % 100 != 0) || year % 400 == 0) == IsLeapYear(year)
  {
    if year % 400 == 0 {
      var q := year / 400;
      assert year == 4 * (100 * q) && year == 100 * (4 * q);
    }
  }

  /**
   * The range checks of check_valid_date on the parsed numbers, in the order
   * the source makes them; it accepts exactly the real calendar dates.
   */
  function CalendarCheck(year: nat, month: nat, day: nat): (ok: bool)
    ensures ok <==> IsCalendarDate(year, month, day)
  {
    LeapRule(year);
    var monthsWith30Days := {4, 6, 9, 11};
    if month < 1 || month > 12 then false
    else if day < 1 then false
    else if month in monthsWith30Days && day > 30 then false
    else if month == 2 && (if (year % 4 == 0 && year % 100 != 0) || year % 400 == 0 then day > 29 else day > 28) then false
    else if month !in monthsWith30Days && day > 31 then false
    else true
  }

  /**
   * check_valid_date. It never fails: a string that does not split on '-'
   * into three pieces, or whose pieces are not 4, 2 and 2 digits long, is
   * simply not valid.
   */
  function CheckValidDate(target: string): (valid: bool)
    ensures valid ==> |target| == 10 && target[4] == '-' && target[7] == '-'
  {
    var parts := Split(target, '-');
    if |parts| != 3 then false
    else if |parts[0]| != 4 || |parts[1]| != 2 || |parts[2]| != 2 then false
    else if !IsDigits(parts[0]) || !IsDigits(parts[1]) || !IsDigits(parts[2]) then false
    else
      ThreePiecesAtPositions(target);
      CalendarCheck(DigitsValue(parts[0]), DigitsValue(parts[1]), DigitsValue(parts[2]))
  }

  /** The RFC 3339 full-date form, read position by position: YYYY-MM-DD naming a real day. */
  predicate IsFullDate(s: string)
  {
    && |s| == 10 && s[4] == '-' && s[7] == '-'
    && IsDigits(s[..4]) && IsDigits(s[5..7]) && IsDigits(s[8..])
    && IsCalendarDate(DigitsValue(s[..4]), DigitsValue(s[5..7]), DigitsValue(s[8..]))
  }

  lemma JoinThree(a: string, b: string, c: string, sep: char)
    ensures Join([a, b, c], sep) == a + [sep] + b + [sep] + c
  {
    assert [a, b, c][1..] == [b, c];
    assert [b, c][1..] == [c];
    assert Join([b, c], sep) == b + [sep] + c;
    assert Join([a, b, c], sep) == a + [sep] + (b + [sep] + c);
  }

  /** Positions 4 and 7 of a full date are the only separators. */
  lemma FullDateSplits(s: string)
    requires IsFullDate(s)
    ensures Split(s, '-') == [s[..4], s[5..7], s[8..]]
  {
    var y, m, d := s[..4], s[5..7], s[8..];
    assert '-' !in y && '-' !in m && '-' !in d by {
      assert forall i :: 0 <= i < |y| ==> IsDigit(y[i]);
      assert forall i :: 0 <= i < |m| ==> IsDigit(m[i]);
      assert forall i :: 0 <= i < |d| ==> IsDigit(d[i]);
    }
    JoinThree(y, m, d, '-');
    assert s == y + ['-'] + m + ['-'] + d;
    SplitJoin([y, m, d], '-');
  }

  /** Where the fields of a date glued together with '-' sit. */
  lemma DatePositions(s: string, y: string, m: string, d: string)
    requires |y| == 4 && |m| == 2 && |d| == 2 && s == y + ['-'] + m + ['-'] + d
    ensures |s| == 10 && s[4] == '-' && s[7] == '-'
    ensures s[..4] == y && s[5..7] == m && s[8..] == d
  {
  }

  /** Three pieces of lengths 4, 2 and 2 sit at the full-date positions. */
  lemma ThreePiecesAtPositions(s: string)
    requires |Split(s, '-')| == 3
    requires |Split(s, '-')[0]| == 4 && |Split(s, '-')[1]| == 2 && |Split(s, '-')[2]| == 2
    ensures |s| == 10 && s[4] == '-' && s[7] == '-'
    ensures Split(s, '-') == [s[..4], s[5..7], s[8..]]
  {
    var parts := Split(s, '-');
    var y, m, d := parts[0], parts[1], parts[2];
    assert parts == [y, m, d];
    assert s == y + ['-'] + m + ['-'] + d by {
      JoinSplit(s, '-');
      JoinThree(y, m, d, '-');
    }
    DatePositions(s, y, m, d);
  }

  /** check_valid_date accepts exactly the full dates. */
  lemma CheckValidDateIsFullDate(s: string)
    ensures CheckValidDate(s) <==> IsFullDate(s)
  {
    if IsFullDate(s) {
      FullDateSplits(s);
    }
    if CheckValidDate(s) {
      ThreePiecesAtPositions(s);
    }
  }

  /** A date written as YYYY-MM-DD with zero-padded fields. */
  function FormatDate(year: nat, month: nat, day: nat): string
  {
    ZeroPadded(year, 4) + "-" + ZeroPadded(month, 2) + "-" + ZeroPadded(day, 2)
  }

  /** A date written with fields that fit their widths is a full date exactly when it is a real date. */
  lemma FormatDateIsFullDate(year: nat, month: nat, day: nat)
    requires year <= 9999 && month <= 99 && day <= 99
    ensures IsFullDate(FormatDate(year, month, day)) <==> IsCalendarDate(year, month, day)
  {
    var s := FormatDate(year, month, day);
    assert s[..4] == ZeroPadded(year, 4) && s[5..7] == ZeroPadded(month, 2) && s[8..] == ZeroPadded(day, 2);
    DigitsValueZeroPadded(year, 4);
    DigitsValueZeroPadded(month, 2);
    DigitsValueZeroPadded(day, 2);
  }

  /** Every real date of years 0000 to 9999, written as YYYY-MM-DD, is accepted. */
  lemma FormattedDatesAreValid(year: nat, month: nat, day: nat)
    requires year <= 9999 && IsCalendarDate(year, month, day)
    ensures CheckValidDate(FormatDate(year, month, day))
  {
    FormatDateIsFullDate(year, month, day);
    CheckValidDateIsFullDate(FormatDate(year, month, day));
  }

  /** Every accepted string is the YYYY-MM-DD form of the date it names. */
  lemma ValidDatesAreFormatted(s: string)
    requires CheckValidDate(s)
    ensures IsFullDate(s) && s == FormatDate(DigitsValue(s[..4]), DigitsValue(s[5..7]), DigitsValue(s[8..]))
  {
    CheckValidDateIsFullDate(s);
    ZeroPaddedDigitsValue(s[..4]);
    ZeroPaddedDigitsValue(s[5..7]);
    ZeroPaddedDigitsValue(s[8..]);
    assert s == s[..4] + "-" + s[5..7] + "-" + s[8..];
  }

  /** February 29 is accepted exactly in leap years. */
  lemma LeapDay(year: nat)
    requires year <= 9999
    ensures CheckValidDate(FormatDate(year, 2, 29)) <==> IsLeapYear(year)
  {
    CheckValidDateIsFullDate(FormatDate(year, 2, 29));
    FormatDateIsFullDate(year, 2, 29);
  }

  /** The date '2021-5-1' has one-digit fields and is not valid. */
  lemma ShortFieldsRejected()
    ensures !CheckValidDate("2021-5-1")
  {
    CheckValidDateIsFullDate("2021-5-1");
  }
}
