/** Proleptic Gregorian calendar dates, the fixed-width `YYYY-MM-DD` text
    form the video data uses for them, and a day number for each date that
    counts days from 1970-01-01, so that the difference of two day numbers
    is the number of whole days between the dates. */
module Calendar {
  import opened Wrappers
  import opened Decimal

  datatype Date = Date(year: int, month: int, day: int)

  predicate IsLeapYear(y: int) {
    y % 4 == 0 && (y % 100 != 0 || y % 400 == 0)
  }

  function DaysInMonth(y: int, m: int): (n: nat)
    requires 1 <= m <= 12
    ensures 28 <= n <= 31
  {
    if m == 2 then (if IsLeapYear(y) then 29 else 28)
    else if m == 4 || m == 6 || m == 9 || m == 11 then 30
    else 31
  }

  predicate ValidDate(d: Date) {
    1 <= d.month <= 12 && 1 <= d.day <= DaysInMonth(d.year, d.month)
  }

  function YearLength(y: int): nat {
    if IsLeapYear(y) then 366 else 365
  }

  /** Days from 0001-01-01 to January 1 of year y (negative before year 1). */
  function DaysBeforeYear(y: int): int {
    365 * (y - 1) + (y - 1) / 4 - (y - 1) / 100 + (y - 1) / 400
  }

  /** Days from January 1 of year y to the first of month m (m == 13 is the
      first of the following January). */
  function DaysBeforeMonth(y: int, m: int): nat
    requires 1 <= m <= 13
  {
    if m == 1 then 0 else DaysBeforeMonth(y, m - 1) + DaysInMonth(y, m - 1)
  }

  /** The day number of 1970-01-01 counted from 0001-01-01. */
  const UnixEpochDays := 719162

  /** Whole days from 1970-01-01 to d: the value of getTime() / 86400000 at
      the UTC midnight that begins d. The number falls inside d's own year;
      NextDayNumber and DayNumberInjective say that it counts days. */
  function DayNumber(d: Date): (n: int)
    requires ValidDate(d)
    ensures DaysBeforeYear(d.year) - UnixEpochDays <= n
    ensures n < DaysBeforeYear(d.year) + YearLength(d.year) - UnixEpochDays
  {
    DaysBeforeMonthGrows(d.year, d.month, 13);
    DaysBeforeMonthWholeYear(d.year);
    DaysBeforeYear(d.year) + DaysBeforeMonth(d.year, d.month) + d.day - 1 - UnixEpochDays
  }

  /** The calendar date that follows d: an independent statement of how the
      calendar advances, against which DayNumber is checked. */
  function NextDay(d: Date): (n: Date)
    requires ValidDate(d)
    ensures ValidDate(n)
  {
    if d.day < DaysInMonth(d.year, d.month) then Date(d.year, d.month, d.day + 1)
    else if d.month < 12 then Date(d.year, d.month + 1, 1)
    else Date(d.year + 1, 1, 1)
  }

  /** Strict chronological order of dates, field by field. */
  predicate Before(a: Date, b: Date) {
    a.year < b.year
    || (a.year == b.year && a.month < b.month)
    || (a.year == b.year && a.month == b.month && a.day < b.day)
  }

  lemma DivStep(y: int, k: int)
    requires k > 0
    ensures y / k - (y - 1) / k == if y % k == 0 then 1 else 0
  {
    var q, r := (y - 1) / k, (y - 1) % k;
    assert y - 1 == k * q + r && 0 <= r < k;
    if r == k - 1 {
      assert y == k * (q + 1);
      DivMulUnique(y, k, q + 1, 0);
    } else {
      assert y == k * q + (r + 1);
      DivMulUnique(y, k, q, r + 1);
    }
  }

  lemma DivMulUnique(x: int, k: int, q: int, r: int)
    requires k > 0 && 0 <= r < k && x == k * q + r
    ensures x / k == q && x % k == r
  {
    var q', r' := x / k, x % k;
    assert x == k * q' + r' && 0 <= r' < k;
    if q' > q {
      assert k * q' >= k * (q + 1) by { MulMonotone(k, q + 1, q'); }
    } else if q' < q {
      assert k * q >= k * (q' + 1) by { MulMonotone(k, q' + 1, q); }
    }
  }

  lemma MulMonotone(k: int, a: int, b: int)
    requires k > 0 && a <= b
    ensures k * a <= k * b
  {
    assert k * b - k * a == k * (b - a);
  }

  /** Consecutive years start YearLength apart: the Gregorian leap rule is
      what the closed form of DaysBeforeYear counts. */
  lemma DaysBeforeNextYear(y: int)
    ensures DaysBeforeYear(y + 1) == DaysBeforeYear(y) + YearLength(y)
  {
    DivStep(y, 4);
    DivStep(y, 100);
    DivStep(y, 400);
    assert y % 100 == 0 ==> y % 4 == 0 by {
      if y % 100 == 0 {
        DivMulUnique(y, 4, 25 * (y / 100), 0);
      }
    }
    assert y % 400 == 0 ==> y % 100 == 0 by {
      if y % 400 == 0 {
        DivMulUnique(y, 100, 4 * (y / 400), 0);
      }
    }
  }

  lemma DaysBeforeMonthWholeYear(y: int)
    ensures DaysBeforeMonth(y, 13) == YearLength(y)
  {
    var feb := DaysInMonth(y, 2);
    assert DaysBeforeMonth(y, 2) == 31;
    assert DaysBeforeMonth(y, 3) == 31 + feb;
    assert DaysBeforeMonth(y, 4) == 62 + feb;
    assert DaysBeforeMonth(y, 5) == 92 + feb;
    assert DaysBeforeMonth(y, 6) == 123 + feb;
    assert DaysBeforeMonth(y, 7) == 153 + feb;
    assert DaysBeforeMonth(y, 8) == 184 + feb;
    assert DaysBeforeMonth(y, 9) == 215 + feb;
    assert DaysBeforeMonth(y, 10) == 245 + feb;
    assert DaysBeforeMonth(y, 11) == 276 + feb;
    assert DaysBeforeMonth(y, 12) == 306 + feb;
    assert DaysBeforeMonth(y, 13) == 337 + feb;
  }

  lemma {:induction false} DaysBeforeMonthGrows(y: int, m1: int, m2: int)
    requires 1 <= m1 <= m2 <= 13
    ensures DaysBeforeMonth(y, m1) <= DaysBeforeMonth(y, m2)
    ensures m1 < m2 ==> DaysBeforeMonth(y, m1) + DaysInMonth(y, m1) <= DaysBeforeMonth(y, m2)
    decreases m2 - m1
  {
    if m1 < m2 {
      DaysBeforeMonthGrows(y, m1 + 1, m2);
    }
  }

  lemma {:induction false} DaysBeforeYearGrows(y1: int, y2: int)
    requires y1 < y2
    ensures DaysBeforeYear(y1) + YearLength(y1) <= DaysBeforeYear(y2)
    decreases y2 - y1
  {
    DaysBeforeNextYear(y1);
    if y1 + 1 < y2 {
      DaysBeforeYearGrows(y1 + 1, y2);
    }
  }

  /** Day numbers count days: the next calendar date has the next number. */
  lemma NextDayNumber(d: Date)
    requires ValidDate(d)
    ensures DayNumber(NextDay(d)) == DayNumber(d) + 1
  {
    if d.day == DaysInMonth(d.year, d.month) && d.month == 12 {
      DaysBeforeNextYear(d.year);
      DaysBeforeMonthWholeYear(d.year);
    }
  }

  /** Day numbers follow chronological order, so distinct dates have
      distinct numbers. */
  lemma DayNumberOrder(a: Date, b: Date)
    requires ValidDate(a) && ValidDate(b)
    ensures Before(a, b) ==> DayNumber(a) < DayNumber(b)
  {
    if a.year < b.year {
      DaysBeforeMonthGrows(a.year, a.month, 13);
      DaysBeforeMonthWholeYear(a.year);
      DaysBeforeYearGrows(a.year, b.year);
    } else if a.year == b.year && a.month < b.month {
      DaysBeforeMonthGrows(a.year, a.month, b.month);
    }
  }

  lemma DayNumberInjective(a: Date, b: Date)
    requires ValidDate(a) && ValidDate(b)
    ensures DayNumber(a) == DayNumber(b) <==> a == b
  {
    DayNumberOrder(a, b);
    DayNumberOrder(b, a);
  }

  lemma UnixEpochIsDayZero()
    ensures DayNumber(Date(1970, 1, 1)) == 0
  {
  }

  /** The fixed-width date text `YYYY-MM-DD`, read as a calendar date; None
      for text of another shape or a date that does not exist. */
  function ParseDate(s: string): (r: Option<Date>)
    ensures r.Some? ==> ValidDate(r.value) && 0 <= r.value.year <= 9999
  {
    if |s| == 10 && s[4] == '-' && s[7] == '-'
       && AllDigits(s[..4]) && AllDigits(s[5..7]) && AllDigits(s[8..])
    then
      var d := Date(DigitsValue(s[..4]), DigitsValue(s[5..7]), DigitsValue(s[8..]));
      if ValidDate(d) then Some(d) else None
    else None
  }

  /** The `YYYY-MM-DD` text of a date with a four-digit year. */
  function FormatDate(d: Date): (s: string)
    requires ValidDate(d) && 0 <= d.year <= 9999
  {
    FixedWidth(d.year, 4) + "-" + FixedWidth(d.month, 2) + "-" + FixedWidth(d.day, 2)
  }

  /** ParseDate and FormatDate are inverse to each other: every date with a
      four-digit year has exactly one text, and it parses back. */
  lemma ParseDateIff(s: string, d: Date)
    requires ValidDate(d) && 0 <= d.year <= 9999
    ensures ParseDate(s) == Some(d) <==> s == FormatDate(d)
  {
    if s == FormatDate(d) {
      var y, m, dd := FixedWidth(d.year, 4), FixedWidth(d.month, 2), FixedWidth(d.day, 2);
      assert s[..4] == y && s[5..7] == m && s[8..] == dd;
      DigitsValueOfFixedWidth(d.year, 4);
      DigitsValueOfFixedWidth(d.month, 2);
      DigitsValueOfFixedWidth(d.day, 2);
    }
    if ParseDate(s) == Some(d) {
      FixedWidthOfDigits(s[..4]);
      FixedWidthOfDigits(s[5..7]);
      FixedWidthOfDigits(s[8..]);
      assert s == s[..4] + "-" + s[5..7] + "-" + s[8..];
    }
  }

  /** The fields of a well-shaped date text, digit by digit. */
  lemma ParseDateDigits(y3: char, y2: char, y1: char, y0: char, m1: char, m0: char, d1: char, d0: char)
    requires IsDigit(y3) && IsDigit(y2) && IsDigit(y1) && IsDigit(y0)
    requires IsDigit(m1) && IsDigit(m0) && IsDigit(d1) && IsDigit(d0)
    ensures var d := Date(1000 * DigitValue(y3) + 100 * DigitValue(y2) + 10 * DigitValue(y1) + DigitValue(y0),
                          10 * DigitValue(m1) + DigitValue(m0),
                          10 * DigitValue(d1) + DigitValue(d0));
      ParseDate([y3, y2, y1, y0, '-', m1, m0, '-', d1, d0]) == if ValidDate(d) then Some(d) else None
  {
    var s := [y3, y2, y1, y0, '-', m1, m0, '-', d1, d0];
    assert s[..4] == [y3, y2, y1, y0];
    assert s[5..7] == [m1, m0];
    assert s[8..] == [d1, d0];
    DigitsValueOfFour(y3, y2, y1, y0);
    DigitsValueOfTwo(m1, m0);
    DigitsValueOfTwo(d1, d0);
  }
}
