/** Proleptic Gregorian dates as Python's `datetime` accepts them, and the two
    `strftime` renderings the program uses for folder names and date strings. */
module Calendar {
  import opened Text

  datatype Date = Date(year: int, month: int, day: int)

  /** A timestamp with a time of day; only the metadata back-writer needs one. */
  datatype DateTime = DateTime(date: Date, hour: int, minute: int, second: int)

  predicate IsLeapYear(year: int) {
    year % 4 == 0 && (year % 100 != 0 || year % 400 == 0)
  }

  function DaysInMonth(year: int, month: int): (n: int)
    requires 1 <= month <= 12
    ensures 28 <= n <= 31
    ensures n == 31 <==> month in {1, 3, 5, 7, 8, 10, 12}
    ensures n == 29 <==> month == 2 && IsLeapYear(year)
  {
    if month == 2 then (if IsLeapYear(year) then 29 else 28)
    else if month in {4, 6, 9, 11} then 30
    else 31
  }

  /** A date `datetime` can represent: a year from MINYEAR 1 to MAXYEAR 9999, a month
      from 1 to 12, and a day that exists in that month. */
  predicate IsValid(d: Date) {
    && 1 <= d.year <= 9999
    && 1 <= d.month <= 12
    && 1 <= d.day <= DaysInMonth(d.year, d.month)
  }

  /** Two zero-padded digits, as `%m` and `%d` render. */
  function Pad2(n: nat): (s: string)
    requires n <= 99
    ensures |s| == 2 && AllDigits(s) && DecimalValue(s) == n
  {
    var s := [DigitChar(n / 10), DigitChar(n % 10)];
    assert s[..1] == [s[0]] && [s[0]][..0] == [];
    assert DecimalValue(s[..1]) == n / 10;
    s
  }

  /** Four zero-padded digits, as `%Y` renders with the Windows C runtime. */
  function Pad4(n: nat): (s: string)
    requires n <= 9999
    ensures |s| == 4 && AllDigits(s) && DecimalValue(s) == n
  {
    var s := [DigitChar(n / 1000), DigitChar(n / 100 % 10), DigitChar(n / 10 % 10), DigitChar(n % 10)];
    assert s[..1] == [s[0]] && [s[0]][..0] == [];
    assert s[..2][..1] == s[..1] && s[..3][..2] == s[..2] && s[..4] == s;
    assert DecimalValue(s[..1]) == n / 1000;
    assert DecimalValue(s[..2]) == n / 100;
    assert DecimalValue(s[..3]) == n / 10;
    s
  }

  /** `strftime("%Y-%m-%d")`: the date string of the catalogue and the day folder name. */
  function DayText(d: Date): (s: string)
    requires IsValid(d)
  {
    Pad4(d.year) + "-" + Pad2(d.month) + "-" + Pad2(d.day)
  }

  /** `strftime("%Y-%m")`: the month folder name. */
  function MonthText(d: Date): (s: string)
    requires IsValid(d)
  {
    Pad4(d.year) + "-" + Pad2(d.month)
  }

  /** Eight digits `YYYYMMDD` laid out as `YYYY-MM-DD`, with no range check. */
  function DashedDigits(d8: string): (s: string)
    requires |d8| == 8
  {
    d8[..4] + "-" + d8[4..6] + "-" + d8[6..8]
  }

  /** The (possibly impossible) date eight digits `YYYYMMDD` spell. */
  function DateOfDigits(d8: string): Date
    requires |d8| == 8 && AllDigits(d8)
  {
    Date(DecimalValue(d8[..4]), DecimalValue(d8[4..6]), DecimalValue(d8[6..8]))
  }

  /** The eight digits of a valid date. */
  function DigitsOfDate(d: Date): (d8: string)
    requires IsValid(d)
    ensures |d8| == 8 && AllDigits(d8)
  {
    Pad4(d.year) + Pad2(d.month) + Pad2(d.day)
  }

  /** Rendering a valid date and reading its digits back gives the date; the rendering
      is the dashed layout of those digits. */
  lemma DigitsOfDateRoundTrip(d: Date)
    requires IsValid(d)
    ensures DateOfDigits(DigitsOfDate(d)) == d
    ensures DashedDigits(DigitsOfDate(d)) == DayText(d)
  {
    var d8 := DigitsOfDate(d);
    assert d8[..4] == Pad4(d.year);
    assert d8[4..6] == Pad2(d.month);
    assert d8[6..8] == Pad2(d.day);
  }

  /** The month folder name is the first seven characters of the day folder name. */
  lemma MonthTextIsPrefixOfDayText(d: Date)
    requires IsValid(d)
    ensures |DayText(d)| == 10 && |MonthText(d)| == 7
    ensures MonthText(d) == DayText(d)[..7]
  {
  }

  /** Noon on the given day: the time the back-writer assumes when only a date is known. */
  function Noon(d: Date): (t: DateTime)
    ensures t.date == d && t.hour == 12 && t.minute == 0 && t.second == 0
  {
    DateTime(d, 12, 0, 0)
  }
}
