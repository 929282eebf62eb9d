/** `formatMonthYear`: the month a payment is for, written `April 2025`, or
    `N/A` for text that is not a year and month. */
module MonthFormat {
  import opened Js

  /** The text matches `^\d{4}-\d{2}$`. */
  predicate IsYearMonth(s: string) {
    |s| == 7 && IsDigit(s[0]) && IsDigit(s[1]) && IsDigit(s[2]) && IsDigit(s[3]) && s[4] == '-'
    && IsDigit(s[5]) && IsDigit(s[6])
  }

  /** The text matches `^\d{4}-\d{2}-\d{2}$`. */
  predicate IsYearMonthDay(s: string) {
    |s| == 10 && IsYearMonth(s[..7]) && s[7] == '-' && IsDigit(s[8]) && IsDigit(s[9])
  }

  const MonthNames: seq<string> := ["January", "February", "March", "April", "May", "June", "July",
                                    "August", "September", "October", "November", "December"]

  /** The year `new Date(year, month - 1)` lands in: years 0 to 99 are read
      as 1900 to 1999. */
  function FullYear(y: nat): nat {
    if y <= 99 then 1900 + y else y
  }

  /** `toLocaleString('default', { month: 'long', year: 'numeric' })` in
      English. */
  function Render(y: nat, m: nat): (r: string)
    requires 1 <= m <= 12
    ensures |r| >= 5
  {
    MonthNames[m - 1] + " " + NatToString(FullYear(y))
  }

  /** The part of the text that is read: a full date is cut to its first
      seven characters. */
  function MonthPart(s: string): string {
    if IsYearMonthDay(s) then s[..7] else s
  }

  /** `parseInt(month, 10)` of the two month digits. */
  function MonthOf(d: string): nat
    requires IsYearMonth(d)
  {
    DecimalValue(d[5..7])
  }

  function FormatMonthYear(s: string): (r: string) {
    if s == "" then "N/A"
    else
      var d := MonthPart(s);
      if IsYearMonth(d) && 1 <= MonthOf(d) <= 12 then Render(DecimalValue(d[..4]), MonthOf(d))
      else "N/A"
  }

  /** A date is formatted as its year and month. */
  lemma FormatIgnoresDay(s: string)
    requires IsYearMonthDay(s)
    ensures FormatMonthYear(s) == FormatMonthYear(s[..7])
  {
    assert MonthPart(s[..7]) == s[..7];
  }

  /** The result is a month exactly when the text, cut to its year and
      month, has that shape and a month from 1 to 12; otherwise `N/A`. */
  lemma FormatValidIff(s: string)
    ensures FormatMonthYear(s) != "N/A" <==> IsYearMonth(MonthPart(s)) && 1 <= MonthOf(MonthPart(s)) <= 12
  {
    var d := MonthPart(s);
    if IsYearMonth(d) && 1 <= MonthOf(d) <= 12 {
      assert s != "";
      assert |FormatMonthYear(s)| >= 5;
    }
  }

  /** Text of neither shape, or an empty text, is `N/A`. */
  lemma FormatRejectsShape(s: string)
    requires !IsYearMonth(s) && !IsYearMonthDay(s)
    ensures FormatMonthYear(s) == "N/A"
  {
  }

  /** A month outside 1 to 12 is `N/A`. */
  lemma FormatRejectsMonth(s: string)
    requires IsYearMonth(s) && !(1 <= MonthOf(s) <= 12)
    ensures FormatMonthYear(s) == "N/A"
  {
  }

  /** The upload stores the chosen month with `-01` appended, and that text
      formats as the month itself. */
  lemma FormatFirstOfMonth(month: string)
    requires IsYearMonth(month)
    ensures IsYearMonthDay(month + "-01")
    ensures FormatMonthYear(month + "-01") == FormatMonthYear(month)
  {
    var s := month + "-01";
    assert s[..7] == month;
    FormatIgnoresDay(s);
  }

  /** A two-digit year is shown in the twentieth century. */
  lemma FormatTwoDigitYear(s: string)
    requires IsYearMonth(s) && 1 <= MonthOf(s) <= 12 && DecimalValue(s[..4]) <= 99
    ensures FormatMonthYear(s) == MonthNames[MonthOf(s) - 1] + " " + NatToString(1900 + DecimalValue(s[..4]))
  {
    assert MonthPart(s) == s;
    assert FullYear(DecimalValue(s[..4])) == 1900 + DecimalValue(s[..4]);
  }
}
