/** formatViewCount: a view count as "{n} views", "{x.y}K views" or
    "{x.y}M views". The one-decimal rendering of toFixed(1) is taken on the
    exact quotient, as a whole number of tenths rounded half up. */
module ViewCount {
  import opened Wrappers
  import opened Decimal
  import opened Text

  const Thousand := 1000
  const Million := 1000000

  /** n / scale rounded to the nearest tenth, ties upward, counted in tenths:
      t / 10 is within one twentieth of n / scale. */
  function Tenths(n: nat, scale: nat): (t: nat)
    requires scale > 0 && scale % 20 == 0
    ensures 2 * t * scale <= 20 * n + scale && 20 * n < (2 * t + 1) * scale
  {
    var unit, half := scale / 10, scale / 20;
    var t := (n + half) / unit;
    var r := (n + half) % unit;
    assert n + half == unit * t + r;
    assert scale == 10 * unit && unit == 2 * half;
    assert 2 * t * scale == 20 * (unit * t);
    t
  }

  /** A number of tenths as digits, a point and exactly one digit. */
  function OneDecimal(t: nat): (s: string)
    ensures |s| >= 3 && s[|s| - 2] == '.' && IsDigit(s[|s| - 1])
    ensures DigitValue(s[|s| - 1]) == t % 10
  {
    NatToString(t / 10) + "." + [DigitChar(t % 10)]
  }

  /** The card's view-count label. Its unit suffix follows the magnitude
      alone: "M views" from a million up, "K views" from a thousand below
      a million, and a bare count (which ends in a digit) otherwise. */
  function FormatViewCount(viewCount: int): (r: string)
    ensures EndsWith(r, " views")
    ensures EndsWith(r, "M views") <==> viewCount >= Million
    ensures EndsWith(r, "K views") <==> Thousand <= viewCount < Million
  {
    var (head, suffix) :=
      if viewCount >= Million then (OneDecimal(Tenths(viewCount, Million)), "M views")
      else if viewCount >= Thousand then (OneDecimal(Tenths(viewCount, Thousand)), "K views")
      else (IntToString(viewCount), " views");
    LabelSuffix(head, suffix);
    head + suffix
  }

  /** A label is a head ending in a digit followed by its unit suffix, so
      the suffix alone decides which unit it ends with. */
  lemma LabelSuffix(head: string, suffix: string)
    requires |head| > 0 && IsDigit(head[|head| - 1])
    requires suffix in {"M views", "K views", " views"}
    ensures EndsWith(head + suffix, " views")
    ensures EndsWith(head + suffix, "M views") <==> suffix == "M views"
    ensures EndsWith(head + suffix, "K views") <==> suffix == "K views"
  {
    var r := head + suffix;
    assert r[|r| - 6..] == " views";
    assert r[|r| - 7] == if suffix == " views" then head[|head| - 1] else suffix[0];
  }

  /** What a view-count label says: a plain count, or a number of tenths of
      a thousand or of a million. */
  datatype ViewLabel = Plain(count: int) | Thousands(tenths: nat) | Millions(tenths: nat)

  function ParseOneDecimal(s: string): Option<nat> {
    if |s| >= 3 && s[|s| - 2] == '.' && IsDigit(s[|s| - 1]) then
      match ParseNat(s[..|s| - 2])
      case Some(w) => Some(10 * w + DigitValue(s[|s| - 1]))
      case None => None
    else None
  }

  /** Reads a label back: the inverse of FormatViewCount. */
  function ParseViewCount(s: string): Option<ViewLabel> {
    if !EndsWith(s, " views") then None
    else
      var body := s[..|s| - 6];
      if |body| > 0 && body[|body| - 1] == 'M' then
        match ParseOneDecimal(body[..|body| - 1])
        case Some(t) => Some(Millions(t))
        case None => None
      else if |body| > 0 && body[|body| - 1] == 'K' then
        match ParseOneDecimal(body[..|body| - 1])
        case Some(t) => Some(Thousands(t))
        case None => None
      else
        match ParseInt(body)
        case Some(i) => Some(Plain(i))
        case None => None
  }

  lemma ParseOneDecimalRoundTrip(t: nat)
    ensures ParseOneDecimal(OneDecimal(t)) == Some(t)
  {
    var s := OneDecimal(t);
    var w := NatToString(t / 10);
    assert s[..|s| - 2] == w;
    ParseNatIff(w, t / 10);
    DigitValueOfChar(t % 10);
  }

  /** The label of every view count reads back to what it means: counts
      below a thousand verbatim (negative ones included, which reach the
      last branch), larger ones as the nearest tenth of a thousand or of a
      million, the million branch winning from a million upward. */
  lemma FormatViewCountMeaning(n: int)
    ensures match ParseViewCount(FormatViewCount(n))
      case Some(Plain(c)) => n < Thousand && c == n
      case Some(Thousands(t)) =>
        Thousand <= n < Million && 2 * t * Thousand <= 20 * n + Thousand && 20 * n < (2 * t + 1) * Thousand
      case Some(Millions(t)) =>
        Million <= n && 2 * t * Million <= 20 * n + Million && 20 * n < (2 * t + 1) * Million
      case None => false
  {
    var s := FormatViewCount(n);
    if n >= Thousand {
      var t := if n >= Million then Tenths(n, Million) else Tenths(n, Thousand);
      var unit := if n >= Million then 'M' else 'K';
      var d := OneDecimal(t);
      assert s == d + [unit] + " views";
      assert s[..|s| - 6] == d + [unit];
      assert (d + [unit])[..|d|] == d;
      ParseOneDecimalRoundTrip(t);
    } else {
      var i := IntToString(n);
      assert s[..|s| - 6] == i;
      ParseIntIff(i, n);
      assert IsDigit(i[|i| - 1]) by {
        if n < 0 { assert i[|i| - 1] == i[1..][|i| - 2]; }
      }
    }
  }

  /** Below a thousand the label has no decimal point: it is the count's
      own digits followed by " views". */
  lemma SmallCountHasNoPoint(n: int)
    requires n < Thousand
    ensures EndsWith(FormatViewCount(n), " views")
    ensures '.' !in FormatViewCount(n)
    ensures ParseInt(FormatViewCount(n)[..|FormatViewCount(n)| - 6]) == Some(n)
  {
    var s, i := FormatViewCount(n), IntToString(n);
    assert s[..|s| - 6] == i;
    ParseIntIff(i, n);
  }

  /** From a thousand upward the label ends in "K views" or "M views" and
      has exactly one digit after its point. */
  lemma LargeCountHasOneDecimal(n: int)
    requires n >= Thousand
    ensures var s := FormatViewCount(n);
      |s| >= 10 && s[|s| - 9] == '.' && IsDigit(s[|s| - 8])
      && (if n >= Million then EndsWith(s, "M views") else EndsWith(s, "K views"))
  {
    var t := if n >= Million then Tenths(n, Million) else Tenths(n, Thousand);
    var w := NatToString(t / 10);
    var s := FormatViewCount(n);
    assert |s| == |w| + 9;
  }

  lemma PlainExample()
    ensures FormatViewCount(500) == "500 views"
  {
    assert NatToString(500) == "500";
  }

  lemma ThousandsExamples()
    ensures FormatViewCount(1500) == "1.5K views"
    ensures FormatViewCount(15000) == "15.0K views"
  {
    OneAndAHalfThousand();
    FifteenThousand();
  }

  lemma OneAndAHalfThousand()
    ensures FormatViewCount(1500) == "1.5K views"
  {
    assert Tenths(1500, Thousand) == 15;
    assert NatToString(1) == "1";
  }

  lemma FifteenThousand()
    ensures FormatViewCount(15000) == "15.0K views"
  {
    assert Tenths(15000, Thousand) == 150;
    assert NatToString(15) == "15";
  }

  lemma MillionsExamples()
    ensures FormatViewCount(1500000) == "1.5M views"
    ensures FormatViewCount(15000000) == "15.0M views"
  {
    assert Tenths(1500000, Million) == 15;
    assert Tenths(15000000, Million) == 150;
    assert NatToString(15) == "15";
    assert OneDecimal(15) == "1.5" && OneDecimal(150) == "15.0";
  }

  /** Just below a million the thousand branch rounds up to a four-digit
      count of thousands rather than switching to millions. */
  lemma NearMillionStaysInThousands()
    ensures FormatViewCount(999999) == "1000.0K views"
  {
    assert NatToString(1000) == "1000";
  }
}
