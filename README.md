# Bird-nest video gallery: display-string formatters

A Dafny model of the formatting helpers in `app/utils/youtube-data.ts` of the
bird-nest live-stream gallery. Each video card shows three derived strings:

- **view count** (`formatViewCount`): `"{n} views"` below a thousand,
  `"{x.y}K views"` from a thousand, `"{x.y}M views"` from a million, the
  million test coming first;
- **upload age** (`formatUploadDate`): `"Today"`, `"Yesterday"`, `"N days ago"`,
  or a count of weeks, months or years with a singular unit exactly when the
  count is 1, computed from the whole-day difference between the upload date
  and a reference date (both `YYYY-MM-DD`, both taken at midnight);
- **watch link** (`getYouTubeVideoUrl`): `https://www.youtube.com/watch?v=` followed
  by the video id.

The video record (`app/types/youtube.ts`) is the datatype
`YouTubeTypes.YouTubeVideo`, and the static list of `app/data/videos.ts` is the
constant `VideoData.BirdNestVideos`.

Modules, one per component:

| file | module | what it holds |
|---|---|---|
| `Wrappers.dfy` | `Wrappers` | `Option` |
| `Text.dfy` | `Text` | suffix test and first-index search on strings |
| `Decimal.dfy` | `Decimal` | decimal text of integers (what a template literal prints), fixed-width digit groups, and the parsers that read both back |
| `Calendar.dfy` | `Calendar` | Gregorian dates, leap years, day numbers counted from 1970-01-01, the `YYYY-MM-DD` parser and its inverse |
| `ViewCount.dfy` | `ViewCount` | `FormatViewCount` and the label reader that inverts it |
| `UploadDate.dfy` | `UploadDate` | the day-difference classifier, `FormatUploadDate`, and the label reader that inverts it |
| `VideoUrl.dfy` | `VideoUrl` | `GetYouTubeVideoUrl` and the id extractor that inverts it |
| `YouTubeTypes.dfy` | `YouTubeTypes` | the video record |
| `VideoData.dfy` | `VideoData` | the static video list |

Modelling choices:

- `toFixed(1)` is taken on the exact quotient. `ViewCount.Tenths` rounds it to
  the nearest tenth, with ties going up. The result is printed as whole digits,
  a point and one digit.
- `formatViewCount` is modelled on exact integers of any size. A negative
  count fails both threshold tests and is printed as `"-5 views"`. The limits
  of JavaScript numbers (exactness up to 2^53, exponent notation from 10^21)
  are listed under "Left out".
  Counts from 999,950 to 999,999 stay in the thousand branch and print as
  `"1000.0K views"` (`ViewCount.NearMillionStaysInThousands`).
- Each parsed date becomes a calendar day number. This is the value of
  `getTime() / 86400000` at its UTC midnight. The difference of the two
  numbers is the source's `diffInDays` when both dates land on the same local
  calendar dates as their texts name. "Left out" says when the host's time
  zone breaks that.
- The optional reference date is an `Option<string>`. The source tests it for
  truthiness, so `None` and `Some("")` both fall back to today's date. The model
  takes today's date as a parameter in place of the clock: it stands for the
  host's local calendar date.
- No branch of the cascade guards a negative difference, that is, an upload
  after the reference date. Such a difference reaches the `"N days ago"`
  branch, e.g. `"-3 days ago"` (`UploadDate.FutureUploadExample`).
- Every formatter has a partner, a reader that inverts it: `ParseViewCount`,
  `ParseAge`, `VideoIdFromUrl`, `ParseNat`/`ParseInt` for numerals and
  `FormatDate` for `ParseDate`. Lemmas prove that reading back recovers what the
  label means. `NextDay` is an independent statement of how the calendar
  advances, and `DayNumber` is checked against it.

## Model

| member | source | states |
|---|---|---|
| `Decimal.NatToString` | app/utils/youtube-data.ts:38 | the printed form of a natural number is a canonical numeral: non-empty, digits only, no leading zero |
| `Decimal.IntToString` | app/utils/youtube-data.ts:38 | the printed form of an integer starts with '-' exactly when it is negative, and the rest is a canonical numeral other than "0" |
| `Decimal.ParseNatIff` | app/utils/youtube-data.ts:38 | a string reads as the natural number n exactly when it is the printed form of n |
| `Decimal.ParseIntIff` | app/utils/youtube-data.ts:38 | a string reads as the integer i exactly when it is the printed form of i, sign included |
| `Decimal.DigitsValueOfFixedWidth` | app/utils/youtube-data.ts:51 | a number below 10^w written in w zero-padded digits reads back as itself |
| `Decimal.FixedWidthOfDigits` | app/utils/youtube-data.ts:51 | a w-digit group is the zero-padded form of the number it denotes |
| `Calendar.DaysBeforeNextYear` | app/utils/youtube-data.ts:61-62 | consecutive years start 365 days apart, or 366 after a Gregorian leap year |
| `Calendar.DaysBeforeMonthWholeYear` | app/utils/youtube-data.ts:61-62 | the twelve month lengths add up to the length of the year |
| `Calendar.NextDayNumber` | app/utils/youtube-data.ts:57-62 | the calendar date after d has day number one more than d, across month and year ends |
| `Calendar.DayNumberOrder` | app/utils/youtube-data.ts:57-62 | an earlier calendar date has a smaller day number |
| `Calendar.DayNumberInjective` | app/utils/youtube-data.ts:57-62 | two valid dates have the same day number exactly when they are the same date |
| `Calendar.DayNumber` | app/utils/youtube-data.ts:57-62 | a date's day number lies in its own year: at least the number of that year's January 1 and less than it plus the year's length |
| `Calendar.UnixEpochIsDayZero` | app/utils/youtube-data.ts:61 | day numbers count from 1970-01-01, the origin of getTime() |
| `Calendar.ParseDate` | app/utils/youtube-data.ts:51-53 | a parsed `YYYY-MM-DD` text is a date that exists, with a four-digit year |
| `Calendar.ParseDateIff` | app/utils/youtube-data.ts:51-53 | a text parses to date d exactly when it is d's zero-padded `YYYY-MM-DD` form |
| `ViewCount.Tenths` | app/utils/youtube-data.ts:33-36 | t tenths lie within half a tenth of n / scale, and a tie goes to the larger t |
| `ViewCount.OneDecimal` | app/utils/youtube-data.ts:33-36 | a `toFixed(1)` rendering of t tenths has a point second to last and, after it, the digit t mod 10 |
| `ViewCount.ParseOneDecimalRoundTrip` | app/utils/youtube-data.ts:33-36 | a one-decimal rendering reads back as the same number of tenths |
| `ViewCount.FormatViewCount` | app/utils/youtube-data.ts:31-39 | every label ends in " views"; it ends in "M views" exactly when n >= 1000000 and in "K views" exactly when 1000 <= n < 1000000 |
| `ViewCount.FormatViewCountMeaning` | app/utils/youtube-data.ts:31-39 | every label reads back: a plain count equal to n when n < 1000; tenths of a thousand within half a tenth of n/1000 when 1000 <= n < 1000000; tenths of a million within half a tenth of n/1000000 when n >= 1000000 |
| `ViewCount.SmallCountHasNoPoint` | app/utils/youtube-data.ts:38 | below a thousand the label has no decimal point, ends in " views", and the text before that reads as n |
| `ViewCount.LargeCountHasOneDecimal` | app/utils/youtube-data.ts:32-36 | from a thousand up, the label has a point followed by exactly one digit, then "M views" from a million on and "K views" below it |
| `ViewCount.PlainExample` | tests/unit/utils/youtube-data.test.ts:11-13 | 500 gives "500 views" |
| `ViewCount.ThousandsExamples` | tests/unit/utils/youtube-data.test.ts:15-18 | 1500 gives "1.5K views", 15000 gives "15.0K views" |
| `ViewCount.MillionsExamples` | tests/unit/utils/youtube-data.test.ts:20-23 | 1500000 gives "1.5M views", 15000000 gives "15.0M views" |
| `ViewCount.NearMillionStaysInThousands` | app/utils/youtube-data.ts:32-36 | 999999 takes the thousand branch and prints "1000.0K views" |
| `UploadDate.ClassifyDays` | app/utils/youtube-data.ts:64-93 | Today iff d = 0; Yesterday iff d = 1; days iff d < 7 apart from those two, with count d, negatives included; weeks iff 7 <= d < 30 with count w in 1..4 and 7w <= d < 7w+7; months iff 30 <= d < 365 with count m in 1..12 and 30m <= d < 30m+30; years iff d >= 365 with count y >= 1 and 365y <= d < 365y+365 |
| `UploadDate.RenderAge` | app/utils/youtube-data.ts:64-93 | the label is "Today" exactly for Today and "Yesterday" exactly for Yesterday; every counted age ends in " ago" |
| `UploadDate.ParseRenderAge` | app/utils/youtube-data.ts:65-93 | every age label reads back as the age it came from, so distinct ages give distinct labels |
| `UploadDate.PluralLaw` | app/utils/youtube-data.ts:80-93 | apart from Today and Yesterday, a label ends in "s ago" except for day differences 7..13, 30..59 and 365..729, where the count is 1 |
| `UploadDate.ReferenceDate` | app/utils/youtube-data.ts:52-54 | the reference is the date the reference text parses to when that text is given and non-empty, and today's date otherwise |
| `UploadDate.FormatUploadDate` | app/utils/youtube-data.ts:47-94 | the label reads back as the classification of the reference day number minus the upload day number, where the reference is the given date text when non-empty and today's date otherwise |
| `UploadDate.TodayIffSameDate` | app/utils/youtube-data.ts:57-67 | "Today" exactly when upload and reference are the same calendar date |
| `UploadDate.YesterdayIffDayBefore` | app/utils/youtube-data.ts:57-72 | "Yesterday" exactly when the reference is the calendar day after the upload |
| `UploadDate.UploadAgeShift` | app/utils/youtube-data.ts:57-62 | moving both dates one calendar day forward leaves the age unchanged |
| `UploadDate.ClockIsDefaultReference` | app/utils/youtube-data.ts:52-54 | with no reference text, or an empty one, the age is measured against today's date |
| `UploadDate.FebruaryToMarch` | tests/unit/utils/youtube-data.test.ts:42-44 | 2025-02-20 is 17 days before 2025-03-09 |
| `UploadDate.DecemberToMarch` | tests/unit/utils/youtube-data.test.ts:46-48 | 2024-12-09 is 90 days before 2025-03-09 |
| `UploadDate.TwoYearsToMarch` | tests/unit/utils/youtube-data.test.ts:50-52 | 2023-03-09 is 731 days before 2025-03-09, across the leap day of 2024 |
| `UploadDate.TodayExample` | tests/unit/utils/youtube-data.test.ts:30-32 | 2025-03-09 against 2025-03-09 gives "Today" |
| `UploadDate.YesterdayExample` | tests/unit/utils/youtube-data.test.ts:34-36 | 2025-03-08 against 2025-03-09 gives "Yesterday" |
| `UploadDate.DaysAgoExample` | tests/unit/utils/youtube-data.test.ts:38-40 | 2025-03-05 against 2025-03-09 gives "4 days ago" |
| `UploadDate.WeeksAgoExample` | tests/unit/utils/youtube-data.test.ts:42-44 | 2025-02-20 against 2025-03-09 gives "2 weeks ago" |
| `UploadDate.MonthsAgoExample` | tests/unit/utils/youtube-data.test.ts:46-48 | 2024-12-09 against 2025-03-09 gives "3 months ago" |
| `UploadDate.YearsAgoExample` | tests/unit/utils/youtube-data.test.ts:50-52 | 2023-03-09 against 2025-03-09 gives "2 years ago" |
| `UploadDate.FutureUploadExample` | app/utils/youtube-data.ts:75-77 | an upload three days after the reference gives "-3 days ago" |
| `VideoUrl.GetYouTubeVideoUrl` | app/utils/youtube-data.ts:101-103 | the link is the fixed watch-page prefix followed by exactly the id |
| `VideoUrl.VideoIdFromUrlIff` | app/utils/youtube-data.ts:101-103 | a link carries id v exactly when it is the link built from v |
| `VideoUrl.GetYouTubeVideoUrlInjective` | app/utils/youtube-data.ts:101-103 | distinct ids give distinct links |
| `VideoUrl.GetYouTubeVideoUrlExample` | tests/unit/utils/youtube-data.test.ts:56-60 | "abc123" gives "https://www.youtube.com/watch?v=abc123" |
| `VideoData.BirdNestCard` | app/data/videos.ts:6-17 | the list holds one record; its time zone fields come as a pair, its upload date parses to 2021-09-16, its count prints as "15.4K views", and its link carries its id |

## Left out

- `fetchYouTubeVideos` (app/utils/youtube-data.ts:7-24) is left out. It is network I/O: `fetch`, JSON decoding, `window.location` and `console.error`. Every failure becomes an empty list.
- `formatLocalTime` and `LocalTimeInfo` are left out. The card rendering imports them, but no file here defines them, and they depend on `Intl` and the time zone database.
- FormatViewCount: counts are JavaScript numbers, exact only up to 2^53. The model takes exact integers of any size. From 10^21 in magnitude, `${viewCount}` prints exponent notation, for instance "-1e+21 views". From 10^27 up, `toFixed(1)` of the quotient does the same, for instance "1e+21M views". The model prints plain digits for every count.
- FormatViewCount: `toFixed(1)` runs on binary doubles. An exact `.x5` tie can round down, for instance 1450/1000 is stored just below 1.45. The model rounds the exact quotient half up. Non-integer counts are not modelled.
- FormatUploadDate: requires both dates to be valid `YYYY-MM-DD` texts. An unparseable text gives NaN in the source, which falls through to "NaN years ago". Other formats that the JavaScript `Date` parser accepts are not modelled either.
- FormatUploadDate: the source parses each text as UTC midnight, then `setHours(0, 0, 0, 0)` cuts it to local midnight. The model uses calendar day numbers, with `today` standing for the host's local date. West of UTC, the upload text's UTC midnight falls on the previous local day. The reference text does too, but `new Date()` does not. So on the default path, the one the card takes (app/islands/youtube-feed.tsx:105), the source's difference is one more than the model's there: an upload dated today reads "Yesterday", and one dated yesterday reads "2 days ago". At or east of UTC, and with an explicit reference text in any zone, both dates move alike and the model agrees.
- FormatUploadDate: a spring-forward daylight-saving change between the two local midnights makes the gap one hour short of whole days, and the source's floor then gives one day less. The model counts calendar days.
- The card rendering, hover state, routes, page layout and build configuration are presentational and are not modelled.
