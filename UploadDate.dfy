/** formatUploadDate: how long ago a video was uploaded, as "Today",
    "Yesterday", "N days ago" or a count of weeks, months or years. Both
    dates are taken at midnight, so only the whole-day difference between
    the two calendar dates matters; that difference is classified by an
    if-cascade on one integer. */
module UploadDate {
  import opened Wrappers
  import opened Decimal
  import opened Text
  import opened Calendar

  /** What an upload-date label says. */
  datatype Age =
    | Today
    | Yesterday
    | DaysAgo(days: int)
    | WeeksAgo(weeks: int)
    | MonthsAgo(months: int)
    | YearsAgo(years: int)

  /** The cascade on the whole-day difference d (reference minus upload).
      No branch guards a negative d: an upload after the reference date
      reaches the "days ago" branch with its negative count. */
  function ClassifyDays(d: int): (a: Age)
    ensures a == Today <==> d == 0
    ensures a == Yesterday <==> d == 1
    ensures a.DaysAgo? <==> d < 7 && d != 0 && d != 1
    ensures a.DaysAgo? ==> a.days == d
    ensures a.WeeksAgo? <==> 7 <= d < 30
    ensures a.WeeksAgo? ==> 1 <= a.weeks <= 4 && 7 * a.weeks <= d < 7 * a.weeks + 7
    ensures a.MonthsAgo? <==> 30 <= d < 365
    ensures a.MonthsAgo? ==> 1 <= a.months <= 12 && 30 * a.months <= d < 30 * a.months + 30
    ensures a.YearsAgo? <==> 365 <= d
    ensures a.YearsAgo? ==> 1 <= a.years && 365 * a.years <= d < 365 * a.years + 365
  {
    if d == 0 then Today
    else if d == 1 then Yesterday
    else if d < 7 then DaysAgo(d)
    else if d < 30 then WeeksAgo(d / 7)
    else if d < 365 then MonthsAgo(d / 30)
    else YearsAgo(d / 365)
  }

  /** "week" for a count of one, "weeks" otherwise (and likewise for the
      other units). */
  function Unit(word: string, count: int): string {
    if count == 1 then word else word + "s"
  }

  /** The label of an age: "Today" and "Yesterday" name exactly those two
      ages, and every counted age ends in " ago". ParseRenderAge proves
      that the label reads back to the age. */
  function RenderAge(a: Age): (r: string)
    ensures r == "Today" <==> a == Today
    ensures r == "Yesterday" <==> a == Yesterday
    ensures a != Today && a != Yesterday ==> EndsWith(r, " ago")
  {
    match a
    case Today => "Today"
    case Yesterday => "Yesterday"
    case DaysAgo(n) => IntToString(n) + " days ago"
    case WeeksAgo(n) => IntToString(n) + " " + Unit("week", n) + " ago"
    case MonthsAgo(n) => IntToString(n) + " " + Unit("month", n) + " ago"
    case YearsAgo(n) => IntToString(n) + " " + Unit("year", n) + " ago"
  }

  /** Reads a label back: the inverse of RenderAge. The count ends at the
      first space; what follows names the unit. */
  function ParseAge(s: string): Option<Age> {
    if s == "Today" then Some(Today)
    else if s == "Yesterday" then Some(Yesterday)
    else
      var k := IndexOf(s, ' ');
      match ParseInt(s[..k])
      case None => None
      case Some(n) =>
        var rest := s[k..];
        if rest == " days ago" then Some(DaysAgo(n))
        else if rest == " week ago" || rest == " weeks ago" then Some(WeeksAgo(n))
        else if rest == " month ago" || rest == " months ago" then Some(MonthsAgo(n))
        else if rest == " year ago" || rest == " years ago" then Some(YearsAgo(n))
        else None
  }

  lemma IntToStringHasNoSpace(n: int)
    ensures ' ' !in IntToString(n)
  {
  }

  /** A label with a count splits at the end of the count. */
  lemma ParseCountedAge(n: int, rest: string)
    requires |rest| > 0 && rest[0] == ' '
    ensures var s := IntToString(n) + rest;
      s != "Today" && s != "Yesterday"
      && IndexOf(s, ' ') == |IntToString(n)|
      && ParseInt(s[..IndexOf(s, ' ')]) == Some(n)
      && s[IndexOf(s, ' ')..] == rest
  {
    var i := IntToString(n);
    IntToStringHasNoSpace(n);
    IndexOfAppended(i, rest, ' ');
    ParseIntIff(i, n);
    assert (i + rest)[..|i|] == i && (i + rest)[|i|..] == rest;
    assert "Today"[0] != '-' && !IsDigit("Today"[0]);
    assert "Yesterday"[0] != '-' && !IsDigit("Yesterday"[0]);
  }

  /** Distinct ages render to distinct labels: each label reads back to the
      age it came from. */
  lemma ParseRenderAge(a: Age)
    ensures ParseAge(RenderAge(a)) == Some(a)
  {
    match a
    case Today =>
    case Yesterday =>
    case DaysAgo(n) => ParseDaysAgo(n);
    case WeeksAgo(n) => ParseWeeksAgo(n);
    case MonthsAgo(n) => ParseMonthsAgo(n);
    case YearsAgo(n) => ParseYearsAgo(n);
  }

  lemma ParseDaysAgo(n: int)
    ensures ParseAge(RenderAge(DaysAgo(n))) == Some(DaysAgo(n))
  {
    ParseCountedAge(n, " days ago");
  }

  lemma ParseWeeksAgo(n: int)
    ensures ParseAge(RenderAge(WeeksAgo(n))) == Some(WeeksAgo(n))
  {
    var rest := if n == 1 then " week ago" else " weeks ago";
    assert RenderAge(WeeksAgo(n)) == IntToString(n) + rest;
    ParseCountedAge(n, rest);
  }

  lemma ParseMonthsAgo(n: int)
    ensures ParseAge(RenderAge(MonthsAgo(n))) == Some(MonthsAgo(n))
  {
    var rest := if n == 1 then " month ago" else " months ago";
    assert RenderAge(MonthsAgo(n)) == IntToString(n) + rest;
    ParseCountedAge(n, rest);
  }

  lemma ParseYearsAgo(n: int)
    ensures ParseAge(RenderAge(YearsAgo(n))) == Some(YearsAgo(n))
  {
    var rest := if n == 1 then " year ago" else " years ago";
    assert RenderAge(YearsAgo(n)) == IntToString(n) + rest;
    ParseCountedAge(n, rest);
  }

  /** The age of an upload relative to a reference date: the cascade on
      the whole-day difference between the two calendar dates. */
  function UploadAge(upload: Date, reference: Date): Age
    requires ValidDate(upload) && ValidDate(reference)
  {
    ClassifyDays(DayNumber(reference) - DayNumber(upload))
  }

  /** The reference date text counts only when it is given and non-empty
      (the source tests it for truthiness); otherwise today's date, which
      the caller supplies in place of the clock, is the reference. */
  predicate UsesReference(currentDateStr: Option<string>) {
    currentDateStr.Some? && currentDateStr.value != ""
  }

  predicate AcceptsDates(uploadDate: string, currentDateStr: Option<string>, today: Date) {
    ParseDate(uploadDate).Some? && ValidDate(today)
    && (UsesReference(currentDateStr) ==> ParseDate(currentDateStr.value).Some?)
  }

  function ReferenceDate(currentDateStr: Option<string>, today: Date): (d: Date)
    requires ValidDate(today)
    requires UsesReference(currentDateStr) ==> ParseDate(currentDateStr.value).Some?
    ensures ValidDate(d)
    ensures UsesReference(currentDateStr) ==> ParseDate(currentDateStr.value) == Some(d)
    ensures !UsesReference(currentDateStr) ==> d == today
  {
    if UsesReference(currentDateStr) then ParseDate(currentDateStr.value).value else today
  }

  /** The card's upload-date label. It names exactly the age of the
      upload: it reads back to the classification of the whole-day
      difference of the two dates. ParseAge also accepts "1 weeks ago",
      so the choice between "week" and "weeks" is not fixed here; PluralLaw
      states it. */
  function FormatUploadDate(uploadDate: string, currentDateStr: Option<string>, today: Date): (r: string)
    requires AcceptsDates(uploadDate, currentDateStr, today)
    ensures ParseAge(r)
         == Some(ClassifyDays(DayNumber(ReferenceDate(currentDateStr, today)) - DayNumber(ParseDate(uploadDate).value)))
  {
    var age := UploadAge(ParseDate(uploadDate).value, ReferenceDate(currentDateStr, today));
    ParseRenderAge(age);
    RenderAge(age)
  }

  /** "Today" exactly when both are the same calendar date. */
  lemma TodayIffSameDate(upload: Date, reference: Date)
    requires ValidDate(upload) && ValidDate(reference)
    ensures UploadAge(upload, reference) == Today <==> upload == reference
  {
    DayNumberInjective(upload, reference);
  }

  /** "Yesterday" exactly when the reference is the day after the upload. */
  lemma YesterdayIffDayBefore(upload: Date, reference: Date)
    requires ValidDate(upload) && ValidDate(reference)
    ensures UploadAge(upload, reference) == Yesterday <==> NextDay(upload) == reference
  {
    NextDayNumber(upload);
    DayNumberInjective(NextDay(upload), reference);
  }

  /** Moving both dates one day forward leaves the label unchanged: only
      the difference of the dates matters. */
  lemma UploadAgeShift(upload: Date, reference: Date)
    requires ValidDate(upload) && ValidDate(reference)
    ensures UploadAge(NextDay(upload), NextDay(reference)) == UploadAge(upload, reference)
  {
    NextDayNumber(upload);
    NextDayNumber(reference);
  }

  /** The unit word is plural ("...s ago") for every count except 1, which
      the day differences 7..13, 30..59 and 365..729 produce. */
  lemma PluralLaw(d: int)
    requires d != 0 && d != 1
    ensures EndsWith(RenderAge(ClassifyDays(d)), "s ago")
        <==> !(7 <= d < 14 || 30 <= d < 60 || 365 <= d < 730)
  {
    match ClassifyDays(d)
    case DaysAgo(n) =>
      EndsWithSame(IntToString(n), " days ago", "s ago");
    case WeeksAgo(n) =>
      PluralTail(n, "week");
    case MonthsAgo(n) =>
      PluralTail(n, "month");
    case YearsAgo(n) =>
      PluralTail(n, "year");
  }

  lemma PluralTail(n: int, word: string)
    requires |word| > 0 && word[|word| - 1] != 's'
    ensures EndsWith(IntToString(n) + " " + Unit(word, n) + " ago", "s ago") <==> n != 1
  {
    var rest := " " + Unit(word, n) + " ago";
    assert IntToString(n) + " " + Unit(word, n) + " ago" == IntToString(n) + rest;
    EndsWithSame(IntToString(n), rest, "s ago");
    assert rest[|rest| - 5] == Unit(word, n)[|Unit(word, n)| - 1];
  }

  /** Day numbers for the longer spans of the unit tests. */
  lemma FebruaryToMarch()
    ensures DayNumber(Date(2025, 3, 9)) - DayNumber(Date(2025, 2, 20)) == 17
  {
    assert DaysBeforeMonth(2025, 3) == 59;
  }

  lemma DecemberToMarch()
    ensures DayNumber(Date(2025, 3, 9)) - DayNumber(Date(2024, 12, 9)) == 90
  {
    assert DaysBeforeMonth(2024, 12) == 335 by { DaysBeforeMonthWholeYear(2024); }
    assert DaysBeforeMonth(2025, 3) == 59;
  }

  lemma TwoYearsToMarch()
    ensures DayNumber(Date(2025, 3, 9)) - DayNumber(Date(2023, 3, 9)) == 731
  {
    assert DaysBeforeMonth(2023, 3) == 59;
    assert DaysBeforeMonth(2025, 3) == 59;
  }

  /* The unit tests, all read against the reference date 2025-03-09. The
     texts are passed as parameters fixed by the requires clause. */

  lemma TodayExample(upload: string, reference: string, today: Date)
    requires upload == "2025-03-09" && reference == "2025-03-09" && ValidDate(today)
    ensures ParseDate(upload) == Some(Date(2025, 3, 9)) && ParseDate(reference) == Some(Date(2025, 3, 9))
    ensures FormatUploadDate(upload, Some(reference), today) == "Today"
  {
    ParseDateDigits('2', '0', '2', '5', '0', '3', '0', '9');
    ParseDateDigits('2', '0', '2', '5', '0', '3', '0', '9');
    assert RenderAge(ClassifyDays(0)) == "Today";
  }

  lemma YesterdayExample(upload: string, reference: string, today: Date)
    requires upload == "2025-03-08" && reference == "2025-03-09" && ValidDate(today)
    ensures ParseDate(upload) == Some(Date(2025, 3, 8)) && ParseDate(reference) == Some(Date(2025, 3, 9))
    ensures FormatUploadDate(upload, Some(reference), today) == "Yesterday"
  {
    ParseDateDigits('2', '0', '2', '5', '0', '3', '0', '8');
    ParseDateDigits('2', '0', '2', '5', '0', '3', '0', '9');
    assert RenderAge(ClassifyDays(1)) == "Yesterday";
  }

  lemma DaysAgoExample(upload: string, reference: string, today: Date)
    requires upload == "2025-03-05" && reference == "2025-03-09" && ValidDate(today)
    ensures ParseDate(upload) == Some(Date(2025, 3, 5)) && ParseDate(reference) == Some(Date(2025, 3, 9))
    ensures FormatUploadDate(upload, Some(reference), today) == "4 days ago"
  {
    ParseDateDigits('2', '0', '2', '5', '0', '3', '0', '5');
    ParseDateDigits('2', '0', '2', '5', '0', '3', '0', '9');
    assert RenderAge(ClassifyDays(4)) == "4 days ago";
  }

  lemma WeeksAgoExample(upload: string, reference: string, today: Date)
    requires upload == "2025-02-20" && reference == "2025-03-09" && ValidDate(today)
    ensures ParseDate(upload) == Some(Date(2025, 2, 20)) && ParseDate(reference) == Some(Date(2025, 3, 9))
    ensures FormatUploadDate(upload, Some(reference), today) == "2 weeks ago"
  {
    ParseDateDigits('2', '0', '2', '5', '0', '2', '2', '0');
    ParseDateDigits('2', '0', '2', '5', '0', '3', '0', '9');
    FebruaryToMarch();
    assert RenderAge(ClassifyDays(17)) == "2 weeks ago";
  }

  lemma MonthsAgoExample(upload: string, reference: string, today: Date)
    requires upload == "2024-12-09" && reference == "2025-03-09" && ValidDate(today)
    ensures ParseDate(upload) == Some(Date(2024, 12, 9)) && ParseDate(reference) == Some(Date(2025, 3, 9))
    ensures FormatUploadDate(upload, Some(reference), today) == "3 months ago"
  {
    ParseDateDigits('2', '0', '2', '4', '1', '2', '0', '9');
    ParseDateDigits('2', '0', '2', '5', '0', '3', '0', '9');
    DecemberToMarch();
    assert RenderAge(ClassifyDays(90)) == "3 months ago";
  }

  lemma YearsAgoExample(upload: string, reference: string, today: Date)
    requires upload == "2023-03-09" && reference == "2025-03-09" && ValidDate(today)
    ensures ParseDate(upload) == Some(Date(2023, 3, 9)) && ParseDate(reference) == Some(Date(2025, 3, 9))
    ensures FormatUploadDate(upload, Some(reference), today) == "2 years ago"
  {
    ParseDateDigits('2', '0', '2', '3', '0', '3', '0', '9');
    ParseDateDigits('2', '0', '2', '5', '0', '3', '0', '9');
    TwoYearsToMarch();
    assert RenderAge(ClassifyDays(731)) == "2 years ago";
  }

  /** An upload three days after the reference date reaches the "days ago"
      branch with a negative count. */
  lemma FutureUploadExample(upload: string, reference: string, today: Date)
    requires upload == "2025-03-12" && reference == "2025-03-09" && ValidDate(today)
    ensures ParseDate(upload) == Some(Date(2025, 3, 12)) && ParseDate(reference) == Some(Date(2025, 3, 9))
    ensures FormatUploadDate(upload, Some(reference), today) == "-3 days ago"
  {
    ParseDateDigits('2', '0', '2', '5', '0', '3', '1', '2');
    ParseDateDigits('2', '0', '2', '5', '0', '3', '0', '9');
    assert RenderAge(ClassifyDays(-3)) == "-3 days ago";
  }

  /** Without a reference date, or with an empty one, today's date is the
      reference. */
  lemma ClockIsDefaultReference(uploadDate: string, today: Date)
    requires ParseDate(uploadDate).Some? && ValidDate(today)
    ensures FormatUploadDate(uploadDate, None, today) == RenderAge(UploadAge(ParseDate(uploadDate).value, today))
    ensures FormatUploadDate(uploadDate, Some(""), today) == FormatUploadDate(uploadDate, None, today)
  {
  }
}
