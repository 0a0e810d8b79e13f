/**
 * `getTodayDate`: the borrow date stamped on a new loan, written as
 * `${year}-${month}-${day}` with month and day padded to two digits.
 * The clock is not modelled: the calendar fields arrive as parameters.
 */
module Dates {
  import opened Wrappers

  predicate IsDigit(c: char) {
    '0' <= c <= '9'
  }

  predicate AllDigits(s: string) {
    forall i :: 0 <= i < |s| ==> IsDigit(s[i])
  }

  function DigitChar(d: nat): (c: char)
    requires d < 10
    ensures IsDigit(c)
  {
    ('0' as int + d) as char
  }

  /** `String(n)` for a non-negative integer: its decimal digits, no leading zero. */
  function Decimal(n: nat): (r: string)
    ensures r != [] && AllDigits(r)
    ensures n < 10 <==> |r| == 1
    ensures n >= 10 ==> r[0] != '0'
  {
    if n < 10 then [DigitChar(n)] else Decimal(n / 10) + [DigitChar(n % 10)]
  }

  /** The value of a string of decimal digits. */
  function DigitsValue(s: string): nat
    requires AllDigits(s)
  {
    if s == [] then 0 else 10 * DigitsValue(s[..|s| - 1]) + (s[|s| - 1] as int - '0' as int)
  }

  lemma {:induction false} DecimalRoundTrip(n: nat)
    ensures DigitsValue(Decimal(n)) == n
  {
    if n >= 10 {
      var r := Decimal(n);
      assert r[..|r| - 1] == Decimal(n / 10);
      DecimalRoundTrip(n / 10);
    }
  }

  /** The number of digits of a year of four digits. */
  lemma DecimalLengthFour(n: nat)
    requires 1000 <= n <= 9999
    ensures |Decimal(n)| == 4
  {
    assert |Decimal(n / 1000)| == 1;
    assert Decimal(n / 100) == Decimal(n / 1000) + [DigitChar(n / 100 % 10)];
    assert Decimal(n / 10) == Decimal(n / 100) + [DigitChar(n / 10 % 10)];
  }

  /** `String(year)`: a minus sign in front of a negative year. */
  function YearString(year: int): (r: string)
    ensures year >= 0 ==> r != [] && AllDigits(r)
    ensures year < 0 ==> |r| >= 2 && r[0] == '-' && AllDigits(r[1..])
    ensures year >= 10 ==> r[0] != '0'
    ensures year <= -10 ==> r[1] != '0'
    ensures year >= 0 && |r| > 1 ==> r[0] != '0'
    ensures year < 0 && |r| > 2 ==> r[1] != '0'
  {
    if year < 0 then "-" + Decimal(-year) else Decimal(year)
  }

  /** Reads back what `YearString` writes. */
  function ParseYear(s: string): Option<int> {
    if s != [] && s[0] == '-' && s[1..] != [] && AllDigits(s[1..]) then Some(-(DigitsValue(s[1..]) as int))
    else if s != [] && AllDigits(s) then Some(DigitsValue(s))
    else None
  }

  lemma YearRoundTrip(year: int)
    ensures ParseYear(YearString(year)) == Some(year)
  {
    var s := YearString(year);
    if year < 0 {
      assert s[0] == '-' && s[1..] == Decimal(-year);
      DecimalRoundTrip(-year);
    } else {
      assert IsDigit(s[0]);
      DecimalRoundTrip(year);
    }
  }

  /** `String(n).padStart(2, '0')` for a number below 100. */
  function Pad2(n: nat): (r: string)
    requires n < 100
    ensures |r| == 2 && AllDigits(r)
  {
    var d := Decimal(n);
    if |d| >= 2 then d else "0" + d
  }

  lemma Pad2RoundTrip(n: nat)
    requires n < 100
    ensures DigitsValue(Pad2(n)) == n
  {
    if n >= 10 {
      DecimalRoundTrip(n);
    } else {
      var r := Pad2(n);
      assert r == ['0', DigitChar(n)];
      assert r[..1] == "0" && DigitsValue("0") == 10 * DigitsValue([]) + 0;
    }
  }

  /**
   * `getTodayDate()` for the given calendar fields; `monthIndex` is what
   * `getMonth()` returns (0 for January) and `day` what `getDate()` returns.
   */
  function FormatDate(year: int, monthIndex: int, day: int): (r: string)
    requires 0 <= monthIndex <= 11 && 1 <= day <= 31
    ensures |r| >= 7 && r[|r| - 3] == '-' && r[|r| - 6] == '-'
  {
    YearString(year) + "-" + Pad2(monthIndex + 1) + "-" + Pad2(day)
  }

  /** Splits a `Y-MM-DD` string into year, month (1 to 12 as written) and day. */
  function ParseDate(s: string): Option<(int, int, int)> {
    var n := |s|;
    if n < 7 || s[n - 6] != '-' || s[n - 3] != '-' then None
    else if !AllDigits(s[n - 5..n - 3]) || !AllDigits(s[n - 2..]) then None
    else match ParseYear(s[..n - 6])
      case None => None
      case Some(y) => Some((y, DigitsValue(s[n - 5..n - 3]), DigitsValue(s[n - 2..])))
  }

  /** Where the three fields sit in the written date. */
  lemma FormatDateParts(year: int, monthIndex: int, day: int)
    requires 0 <= monthIndex <= 11 && 1 <= day <= 31
    ensures var s := FormatDate(year, monthIndex, day);
      var n := |s|;
      s[..n - 6] == YearString(year) && s[n - 5..n - 3] == Pad2(monthIndex + 1) && s[n - 2..] == Pad2(day)
  {
    var y, m, d := YearString(year), Pad2(monthIndex + 1), Pad2(day);
    var s := y + "-" + m + "-" + d;
    assert s == FormatDate(year, monthIndex, day);
    assert |s| == |y| + 6;
    assert s[..|y|] == y;
    assert s[|y| + 1..|y| + 3] == m;
    assert s[|y| + 4..] == d;
  }

  /** The written date gives back the calendar fields it was made from. */
  lemma FormatDateRoundTrip(year: int, monthIndex: int, day: int)
    requires 0 <= monthIndex <= 11 && 1 <= day <= 31
    ensures ParseDate(FormatDate(year, monthIndex, day)) == Some((year, monthIndex + 1, day))
  {
    FormatDateParts(year, monthIndex, day);
    YearRoundTrip(year);
    Pad2RoundTrip(monthIndex + 1);
    Pad2RoundTrip(day);
  }

  /** For a four-digit year the result has the `YYYY-MM-DD` shape. */
  lemma FormatDateShape(year: int, monthIndex: int, day: int)
    requires 0 <= monthIndex <= 11 && 1 <= day <= 31
    requires 1000 <= year <= 9999
    ensures var r := FormatDate(year, monthIndex, day);
      |r| == 10 && r[4] == '-' && r[7] == '-' &&
      AllDigits(r[..4]) && AllDigits(r[5..7]) && AllDigits(r[8..])
  {
    DecimalLengthFour(year);
    FormatDateParts(year, monthIndex, day);
    var r := FormatDate(year, monthIndex, day);
    assert |r| == 10;
  }
}
