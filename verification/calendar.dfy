/** Civil dates of the proleptic Gregorian calendar, the ISO 8601 weekday,
    the Fridays of a month and the `YYYY-MM-DD` calendar-date format
    (section 4.1.2.2 of ISO 8601:2004). */
module Calendar {
  import opened Common

  datatype Date = Date(year: int, month: int, day: int)

  /** The Gregorian leap-year rule. */
  predicate IsLeapYear(y: int) {
    y % 4 == 0 && (y % 100 != 0 || y % 400 == 0)
  }

  function DaysInMonth(y: int, m: int): (n: int)
    requires 1 <= m <= 12
    ensures 28 <= n <= 31
  {
    if m == 2 then (if IsLeapYear(y) then 29 else 28)
    else if m == 4 || m == 6 || m == 9 || m == 11 then 30
    else 31
  }

  predicate ValidDate(d: Date) {
    1 <= d.month <= 12 && 1 <= d.day <= DaysInMonth(d.year, d.month)
  }

  /** Days in the years before `y`, counted from 0001-01-01. */
  function DaysBeforeYear(y: int): int {
    365 * (y - 1) + (y - 1) / 4 - (y - 1) / 100 + (y - 1) / 400
  }

  function DaysBeforeMonth(y: int, m: int): int
    requires 1 <= m <= 12
  {
    if m == 1 then 0 else DaysBeforeMonth(y, m - 1) + DaysInMonth(y, m - 1)
  }

  /** Ordinal day number; 0001-01-01 is day 1. */
  function DayNumber(d: Date): int
    requires 1 <= d.month <= 12
  {
    DaysBeforeYear(d.year) + DaysBeforeMonth(d.year, d.month) + d.day
  }

  /** ISO 8601 weekday, 1 = Monday .. 7 = Sunday (PHP's `N` format);
      0001-01-01 of the proleptic Gregorian calendar is a Monday. */
  function IsoWeekday(d: Date): (w: int)
    requires 1 <= d.month <= 12
    ensures 1 <= w <= 7
  {
    (DayNumber(d) - 1) % 7 + 1
  }

  predicate IsFriday(d: Date)
    requires 1 <= d.month <= 12
  {
    IsoWeekday(d) == 5
  }

  /** The following calendar day. */
  function NextDay(d: Date): (n: Date)
    requires ValidDate(d)
    ensures ValidDate(n)
  {
    if d.day < DaysInMonth(d.year, d.month) then d.(day := d.day + 1)
    else if d.month < 12 then Date(d.year, d.month + 1, 1)
    else Date(d.year + 1, 1, 1)
  }

  lemma DaysBeforeDecember(y: int)
    ensures DaysBeforeMonth(y, 12) == 334 + (if IsLeapYear(y) then 1 else 0)
  {
    var l := if IsLeapYear(y) then 1 else 0;
    assert DaysBeforeMonth(y, 2) == 31;
    assert DaysBeforeMonth(y, 3) == 59 + l;
    assert DaysBeforeMonth(y, 4) == 90 + l;
    assert DaysBeforeMonth(y, 5) == 120 + l;
    assert DaysBeforeMonth(y, 6) == 151 + l;
    assert DaysBeforeMonth(y, 7) == 181 + l;
    assert DaysBeforeMonth(y, 8) == 212 + l;
    assert DaysBeforeMonth(y, 9) == 243 + l;
    assert DaysBeforeMonth(y, 10) == 273 + l;
    assert DaysBeforeMonth(y, 11) == 304 + l;
  }

  /** Going from `a` to `a + 1` adds one to the quotient by a leap-rule
      divisor exactly when `a + 1` is a multiple of it. */
  lemma QuotientStep(a: int, k: int)
    requires k == 4 || k == 100 || k == 400
    ensures (a + 1) / k == a / k + (if (a + 1) % k == 0 then 1 else 0)
  {
    if k == 4 {
      assert (a + 1) / 4 == a / 4 + (if (a + 1) % 4 == 0 then 1 else 0);
    } else if k == 100 {
      assert (a + 1) / 100 == a / 100 + (if (a + 1) % 100 == 0 then 1 else 0);
    } else {
      assert (a + 1) / 400 == a / 400 + (if (a + 1) % 400 == 0 then 1 else 0);
    }
  }

  lemma YearLength(y: int)
    ensures DaysBeforeYear(y + 1) == DaysBeforeYear(y) + 365 + (if IsLeapYear(y) then 1 else 0)
  {
    QuotientStep(y - 1, 4);
    QuotientStep(y - 1, 100);
    QuotientStep(y - 1, 400);
  }

  /** The day number advances by exactly one from each day to the next,
      across month and year ends, so the weekday cycles Monday..Sunday. */
  lemma NextDayWeekday(d: Date)
    requires ValidDate(d)
    ensures DayNumber(NextDay(d)) == DayNumber(d) + 1
    ensures IsoWeekday(NextDay(d)) == IsoWeekday(d) % 7 + 1
  {
    NextDayNumber(d);
    var k := DayNumber(d) - 1;
    assert IsoWeekday(NextDay(d)) == (k + 1) % 7 + 1;
    assert IsoWeekday(d) == k % 7 + 1;
  }

  lemma NextDayNumber(d: Date)
    requires ValidDate(d)
    ensures DayNumber(NextDay(d)) == DayNumber(d) + 1
  {
    if d.day < DaysInMonth(d.year, d.month) {
    } else if d.month < 12 {
      assert DaysBeforeMonth(d.year, d.month + 1) == DaysBeforeMonth(d.year, d.month) + DaysInMonth(d.year, d.month);
    } else {
      DaysBeforeDecember(d.year);
      YearLength(d.year);
    }
  }

  /** Fridays among days 1..n of month m of year y, in day order. */
  function FridaysUpTo(y: int, m: int, n: int): seq<Date>
    requires 1 <= m <= 12
    decreases n
  {
    if n <= 0 then []
    else FridaysUpTo(y, m, n - 1) + (if IsFriday(Date(y, m, n)) then [Date(y, m, n)] else [])
  }

  /** Every Friday of the month, in ascending order. */
  function Fridays(y: int, m: int): seq<Date>
    requires 1 <= m <= 12
  {
    FridaysUpTo(y, m, DaysInMonth(y, m))
  }

  /** What `FridaysUpTo` contains: exactly the Fridays among days 1..n, ascending. */
  lemma {:induction false} FridaysUpToSpec(y: int, m: int, n: int)
    requires 1 <= m <= 12
    ensures forall d :: Date(y, m, d) in FridaysUpTo(y, m, n) <==> 1 <= d <= n && IsFriday(Date(y, m, d))
    ensures forall x :: x in FridaysUpTo(y, m, n) ==> x.year == y && x.month == m && 1 <= x.day <= n && IsFriday(x)
    ensures forall i, j :: 0 <= i < j < |FridaysUpTo(y, m, n)| ==> FridaysUpTo(y, m, n)[i].day < FridaysUpTo(y, m, n)[j].day
    decreases n
  {
    if n > 0 {
      FridaysUpToSpec(y, m, n - 1);
    }
  }

  /** `Fridays(y, m)` holds only Fridays of that month, in strictly ascending
      order, and every Friday of the month is among them. */
  lemma FridaysSpec(y: int, m: int)
    requires 1 <= m <= 12
    ensures forall x :: x in Fridays(y, m) ==> ValidDate(x) && x.year == y && x.month == m && IsoWeekday(x) == 5
    ensures forall i, j :: 0 <= i < j < |Fridays(y, m)| ==> Fridays(y, m)[i].day < Fridays(y, m)[j].day
    ensures forall d :: 1 <= d <= DaysInMonth(y, m) && IsoWeekday(Date(y, m, d)) == 5 ==> Date(y, m, d) in Fridays(y, m)
  {
    FridaysUpToSpec(y, m, DaysInMonth(y, m));
  }

  /** Day of the month of the first Friday. */
  function FirstFriday(y: int, m: int): (f: int)
    requires 1 <= m <= 12
    ensures 1 <= f <= 7
  {
    (4 - (DaysBeforeYear(y) + DaysBeforeMonth(y, m))) % 7 + 1
  }

  /** With `b` days before day 1, day `n` falls on weekday index 4 exactly
      when it is the first such day or a multiple of seven after it. */
  lemma WeekdayIndexIff(b: int, n: int)
    requires n >= 1
    ensures (b + n - 1) % 7 == 4 <==> n >= (4 - b) % 7 + 1 && (n - ((4 - b) % 7 + 1)) % 7 == 0
  {
    var f := (4 - b) % 7 + 1;
    assert (b + f - 1) % 7 == 4;
    assert (b + n - 1) - (b + f - 1) == n - f;
  }

  lemma FridayIff(y: int, m: int, n: int)
    requires 1 <= m <= 12 && n >= 1
    ensures IsFriday(Date(y, m, n)) <==> n >= FirstFriday(y, m) && (n - FirstFriday(y, m)) % 7 == 0
  {
    var b := DaysBeforeYear(y) + DaysBeforeMonth(y, m);
    assert IsoWeekday(Date(y, m, n)) == (b + n - 1) % 7 + 1;
    assert FirstFriday(y, m) == (4 - b) % 7 + 1;
    WeekdayIndexIff(b, n);
  }

  /** The Fridays among days 1..n are the first Friday and every seventh day after it. */
  lemma {:induction false} FridaysUpToArithmetic(y: int, m: int, n: int)
    requires 1 <= m <= 12
    ensures |FridaysUpTo(y, m, n)| == if n < FirstFriday(y, m) then 0 else (n - FirstFriday(y, m)) / 7 + 1
    ensures forall i :: 0 <= i < |FridaysUpTo(y, m, n)| ==> FridaysUpTo(y, m, n)[i] == Date(y, m, FirstFriday(y, m) + 7 * i)
    decreases n
  {
    if n > 0 {
      FridaysUpToArithmetic(y, m, n - 1);
      FridayIff(y, m, n);
      var f := FirstFriday(y, m);
      if n >= f && (n - f) % 7 == 0 {
        assert n == f + 7 * ((n - f) / 7);
        if n > f {
          assert (n - 1 - f) / 7 == (n - f) / 7 - 1;
        }
      } else if n > f {
        assert (n - 1 - f) / 7 == (n - f) / 7;
      }
    }
  }

  /** Consecutive Fridays of a month are seven days apart, and every month
      has four or five of them. */
  lemma FridaysArithmetic(y: int, m: int)
    requires 1 <= m <= 12
    ensures 4 <= |Fridays(y, m)| <= 5
    ensures |Fridays(y, m)| == (DaysInMonth(y, m) - FirstFriday(y, m)) / 7 + 1
    ensures forall i :: 0 <= i < |Fridays(y, m)| ==> Fridays(y, m)[i] == Date(y, m, FirstFriday(y, m) + 7 * i)
  {
    FridaysUpToArithmetic(y, m, DaysInMonth(y, m));
  }

  /** Two digits of `n`, zero-padded (PHP `str_pad($n, 2, '0', STR_PAD_LEFT)`). */
  function Pad2(n: int): (s: string)
    requires 0 <= n <= 99
    ensures |s| == 2 && IsDigit(s[0]) && IsDigit(s[1])
  {
    [Digit(n / 10), Digit(n % 10)]
  }

  /** Four digits of `n`, zero-padded. */
  function Pad4(n: int): (s: string)
    requires 0 <= n <= 9999
    ensures |s| == 4 && forall i :: 0 <= i < 4 ==> IsDigit(s[i])
  {
    Pad2(n / 100) + Pad2(n % 100)
  }

  function Digit(n: int): (c: char)
    requires 0 <= n <= 9
    ensures IsDigit(c)
  {
    (n + '0' as int) as char
  }

  function Pow10(n: nat): (p: int)
    ensures p >= 1
  {
    if n == 0 then 1 else 10 * Pow10(n - 1)
  }

  predicate IsDigit(c: char) { '0' <= c <= '9' }

  function DigitValue(c: char): int requires IsDigit(c) { c as int - '0' as int }

  /** Decimal value of a string of digits. */
  function DigitsValue(s: string): (v: int)
    requires forall i :: 0 <= i < |s| ==> IsDigit(s[i])
    ensures 0 <= v < Pow10(|s|)
  {
    if s == [] then 0 else DigitsValue(s[..|s| - 1]) * 10 + DigitValue(s[|s| - 1])
  }

  /** `YYYY-MM-DD`, the extended calendar-date format of ISO 8601 (PHP `Y-m-d`). */
  function FormatDate(d: Date): (s: string)
    requires 0 <= d.year <= 9999 && ValidDate(d)
    ensures |s| == 10 && s[4] == '-' && s[7] == '-'
  {
    Pad4(d.year) + "-" + Pad2(d.month) + "-" + Pad2(d.day)
  }

  predicate AllDigits(s: string) { forall i :: 0 <= i < |s| ==> IsDigit(s[i]) }

  /** Reads a `YYYY-MM-DD` string back into a valid date, or fails. */
  function ParseDate(s: string): (r: Option<Date>)
    ensures r.Some? ==> ValidDate(r.value) && 0 <= r.value.year <= 9999
  {
    if |s| == 10 && s[4] == '-' && s[7] == '-' && AllDigits(s[..4]) && AllDigits(s[5..7]) && AllDigits(s[8..]) then
      var d := Date(DigitsValue(s[..4]), DigitsValue(s[5..7]), DigitsValue(s[8..]));
      if ValidDate(d) && d.year <= 9999 then Some(d) else None
    else None
  }

  lemma DigitRoundTrip(n: int)
    requires 0 <= n <= 9
    ensures DigitValue(Digit(n)) == n
  {
  }

  lemma Pad2Value(n: int)
    requires 0 <= n <= 99
    ensures DigitsValue(Pad2(n)) == n
  {
    var s := Pad2(n);
    assert s[..1] == [Digit(n / 10)];
    assert s[..1][..0] == [];
    DigitRoundTrip(n / 10);
    DigitRoundTrip(n % 10);
    assert DigitsValue(s[..1]) == n / 10;
    assert s[1] == Digit(n % 10);
  }

  lemma Pad4Value(n: int)
    requires 0 <= n <= 9999
    ensures DigitsValue(Pad4(n)) == n
  {
    var s := Pad4(n);
    var hi, lo := n / 100, n % 100;
    assert s[..3] == Pad2(hi) + [Pad2(lo)[0]];
    assert s[..3][..2] == Pad2(hi);
    assert s[..2] == Pad2(hi);
    Pad2Value(hi);
    assert DigitsValue(s[..2]) == hi;
    assert DigitsValue(s[..3]) == hi * 10 + lo / 10;
  }

  /** Parsing a formatted date gives the date back. */
  lemma ParseFormatDate(d: Date)
    requires 0 <= d.year <= 9999 && ValidDate(d)
    ensures ParseDate(FormatDate(d)) == Some(d)
  {
    var s := FormatDate(d);
    assert s[..4] == Pad4(d.year);
    assert s[5..7] == Pad2(d.month);
    assert s[8..] == Pad2(d.day);
    Pad4Value(d.year);
    Pad2Value(d.month);
    Pad2Value(d.day);
  }

  /** A month whose first Friday is followed by exactly three more. */
  lemma FourFridays(y: int, m: int)
    requires 1 <= m <= 12 && FirstFriday(y, m) + 21 <= DaysInMonth(y, m) < FirstFriday(y, m) + 28
    ensures var f := FirstFriday(y, m);
      Fridays(y, m) == [Date(y, m, f), Date(y, m, f + 7), Date(y, m, f + 14), Date(y, m, f + 21)]
  {
    FridaysArithmetic(y, m);
  }

  /** Leap-year reference month: February 2024 has 29 days and Fridays 2, 9, 16, 23. */
  lemma FridaysFebruary2024()
    ensures Fridays(2024, 2) == [Date(2024, 2, 2), Date(2024, 2, 9), Date(2024, 2, 16), Date(2024, 2, 23)]
  {
    assert DaysBeforeYear(2024) == 738885;
    assert DaysBeforeMonth(2024, 2) == 31;
    assert FirstFriday(2024, 2) == 2;
    FourFridays(2024, 2);
  }

  /** Common-year reference month: February 2026 has 28 days and Fridays 6, 13, 20, 27. */
  lemma FridaysFebruary2026()
    ensures Fridays(2026, 2) == [Date(2026, 2, 6), Date(2026, 2, 13), Date(2026, 2, 20), Date(2026, 2, 27)]
  {
    assert DaysBeforeYear(2026) == 739616;
    assert DaysBeforeMonth(2026, 2) == 31;
    assert FirstFriday(2026, 2) == 6;
    FourFridays(2026, 2);
  }

  /** A month with room for a fifth Friday after the first. */
  lemma FiveFridays(y: int, m: int)
    requires 1 <= m <= 12 && FirstFriday(y, m) + 28 <= DaysInMonth(y, m)
    ensures var f := FirstFriday(y, m);
      |Fridays(y, m)| == 5 && Fridays(y, m)[0] == Date(y, m, f) && Fridays(y, m)[4] == Date(y, m, f + 28)
  {
    FridaysArithmetic(y, m);
  }

  /** A five-Friday month: May 2026 starts on a Friday. */
  lemma FridaysMay2026()
    ensures |Fridays(2026, 5)| == 5 && Fridays(2026, 5)[0] == Date(2026, 5, 1) && Fridays(2026, 5)[4] == Date(2026, 5, 29)
  {
    assert DaysBeforeYear(2026) == 739616;
    assert DaysBeforeMonth(2026, 5) == 120;
    assert FirstFriday(2026, 5) == 1;
    FiveFridays(2026, 5);
  }

  /** A stored month key: exactly `YYYY-MM`, four digits, a dash and two digits. */
  predicate IsMonthKey(s: string) {
    |s| == 7 && s[4] == '-' && AllDigits(s[..4]) && AllDigits(s[5..])
  }

  function KeyYear(s: string): (y: int)
    requires IsMonthKey(s)
    ensures 0 <= y <= 9999
  {
    assert Pow10(4) == 10000;
    DigitsValue(s[..4])
  }

  function KeyMonth(s: string): (m: int)
    requires IsMonthKey(s)
    ensures 0 <= m <= 99
  {
    assert Pow10(2) == 100;
    DigitsValue(s[5..])
  }

  /** `YYYY-MM` (PHP `Y-m`) for a four-digit year. */
  function FormatMonthKey(y: int, m: int): (s: string)
    requires 0 <= y <= 9999 && 0 <= m <= 99
    ensures IsMonthKey(s)
  {
    Pad4(y) + "-" + Pad2(m)
  }

  /** Reading a formatted key gives its year and month back. */
  lemma MonthKeyRoundTrip(y: int, m: int)
    requires 0 <= y <= 9999 && 0 <= m <= 99
    ensures KeyYear(FormatMonthKey(y, m)) == y && KeyMonth(FormatMonthKey(y, m)) == m
  {
    var s := FormatMonthKey(y, m);
    assert s[..4] == Pad4(y);
    assert s[5..] == Pad2(m);
    Pad4Value(y);
    Pad2Value(m);
  }

  /** Months counted from January of year 0. */
  function MonthIndex(y: int, m: int): int { 12 * y + m - 1 }

  /** The calendar month before (y, m), counted on the month index as PHP's
      `DateTime` does: a month number outside 1..12 overflows into the
      neighbouring years, so month 0 is December of the year before. */
  function PreviousMonth(y: int, m: int): (r: (int, int))
    ensures 1 <= r.1 <= 12
    ensures MonthIndex(r.0, r.1) == MonthIndex(y, m) - 1
  {
    var k := MonthIndex(y, m) - 1;
    (k / 12, k % 12 + 1)
  }

  /** The calendar month after (y, m). */
  function NextMonth(y: int, m: int): (r: (int, int))
    requires 1 <= m <= 12
    ensures 1 <= r.1 <= 12
    ensures MonthIndex(r.0, r.1) == MonthIndex(y, m) + 1
  {
    if m == 12 then (y + 1, 1) else (y, m + 1)
  }

  /** A month is determined by its index. */
  lemma MonthIndexInjective(y1: int, m1: int, y2: int, m2: int)
    requires 1 <= m1 <= 12 && 1 <= m2 <= 12
    requires MonthIndex(y1, m1) == MonthIndex(y2, m2)
    ensures y1 == y2 && m1 == m2
  {
    assert 12 * (y1 - y2) == m2 - m1;
  }

  /** Going back a month and forward again, or the other way, returns to the start. */
  lemma PreviousNextInverse(y: int, m: int)
    requires 1 <= m <= 12
    ensures NextMonth(PreviousMonth(y, m).0, PreviousMonth(y, m).1) == (y, m)
    ensures PreviousMonth(NextMonth(y, m).0, NextMonth(y, m).1) == (y, m)
  {
    var p := PreviousMonth(y, m);
    var n := NextMonth(y, m);
    var pn := NextMonth(p.0, p.1);
    var np := PreviousMonth(n.0, n.1);
    MonthIndexInjective(pn.0, pn.1, y, m);
    MonthIndexInjective(np.0, np.1, y, m);
  }

  /** The previous month as `DateTime::createFromFormat('Y-m', key)` followed by
      `modify('first day of last month')` computes it: the unparsed day of the
      month is taken from today, and a day past the end of the month rolls the
      date into the next month before the step back. */
  function PreviousMonthAsWritten(y: int, m: int, today: int): (r: (int, int))
    requires 1 <= m <= 12 && 1 <= today <= 31
    ensures 1 <= r.1 <= 12
    ensures MonthIndex(r.0, r.1) == MonthIndex(y, m) - 1 || MonthIndex(r.0, r.1) == MonthIndex(y, m)
  {
    var start := if today <= DaysInMonth(y, m) then (y, m) else NextMonth(y, m);
    PreviousMonth(start.0, start.1)
  }

  /** The as-written computation gives the previous month exactly when today's
      day fits in the requested month, and the requested month itself otherwise. */
  lemma PreviousMonthAsWrittenCases(y: int, m: int, today: int)
    requires 1 <= m <= 12 && 1 <= today <= 31
    ensures today <= DaysInMonth(y, m) ==> PreviousMonthAsWritten(y, m, today) == PreviousMonth(y, m)
    ensures today > DaysInMonth(y, m) ==> PreviousMonthAsWritten(y, m, today) == (y, m)
    ensures PreviousMonthAsWritten(y, m, today) != PreviousMonth(y, m) <==> today > DaysInMonth(y, m)
  {
    PreviousNextInverse(y, m);
  }

  /** On the 31st, the lookup for April 2024 lands on April itself, not March. */
  lemma PreviousMonthOverflowExample()
    ensures PreviousMonthAsWritten(2024, 4, 31) == (2024, 4)
    ensures PreviousMonth(2024, 4) == (2024, 3)
  {
    PreviousMonthAsWrittenCases(2024, 4, 31);
  }
}
