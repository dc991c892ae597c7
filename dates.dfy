/** `DateTime` as a tick count (100 ns units since 0001-01-01 00:00), the two
    bound parsers `ParseMinDate`/`ParseMaxDate`, and a concrete parser for
    the bare `yyyy-MM-dd` format. */
module Dates {
  import opened Text

  const TicksPerDay: int := 864_000_000_000

  /** `DateTime.MaxValue.Ticks`: the last tick of 9999-12-31. */
  const MaxTicks: int := 3_155_378_975_999_999_999

  /** A representable `DateTime`. */
  type Ticks = t: int | 0 <= t <= MaxTicks

  const MinValue: Ticks := 0
  const MaxValue: Ticks := MaxTicks

  /** The first tick of the last representable day, 9999-12-31. */
  const LastDay: Ticks := MaxTicks + 1 - TicksPerDay

  /** `t.Date`: midnight at the start of the day containing `t`. */
  function DateOf(t: Ticks): (d: Ticks)
    ensures d <= t < d + TicksPerDay
    ensures d % TicksPerDay == 0
  {
    t - t % TicksPerDay
  }

  /** Whether `t.Date.AddDays(1)` is representable (it throws on the last day). */
  predicate HasNextDay(t: Ticks) {
    DateOf(t) < LastDay
  }

  /** `t.Date.AddDays(1).AddTicks(-1)`: the last tick of the day containing `t`. */
  function EndOfDay(t: Ticks): (e: Ticks)
    requires HasNextDay(t)
    ensures t <= e
    ensures DateOf(e) == DateOf(t)
    ensures e % TicksPerDay == TicksPerDay - 1
  {
    DateOf(t) + TicksPerDay - 1
  }

  /** Two instants lie in the same calendar day exactly when the later one is
      no later than the last tick of the earlier one's day. */
  lemma SameDayWindow(t: Ticks, x: Ticks)
    requires HasNextDay(t) && t <= x
    ensures x <= EndOfDay(t) <==> DateOf(x) == DateOf(t)
  {
    var d := DateOf(t);
    if x <= EndOfDay(t) {
      assert d <= x < d + TicksPerDay;
      DayStartUnique(x, d);
    }
  }

  lemma DayStartUnique(x: Ticks, d: Ticks)
    requires d % TicksPerDay == 0 && d <= x < d + TicksPerDay
    ensures DateOf(x) == d
  {
    var q := d / TicksPerDay;
    assert d == q * TicksPerDay;
    assert x == q * TicksPerDay + (x - d);
  }

  /** `DateTime.TryParseExact` over the engine's four formats, under the
      invariant culture and the machine's time zone; `None` when no format
      matches. */
  type DateParser = string -> Option<Ticks>

  /** `ParseMinDate`: the parsed instant, or `MinValue` when the text is
      missing, empty or unparsable. */
  function ParseMinDate(s: Option<string>, parse: DateParser): (t: Ticks)
    ensures s.Some? && s.value != "" && parse(s.value).Some? ==> t == parse(s.value).value
    ensures !(s.Some? && s.value != "" && parse(s.value).Some?) ==> t == MinValue
  {
    if s.None? || s.value == "" then MinValue
    else match parse(s.value)
      case Some(t) => t
      case None => MinValue
  }

  /** `ParseMaxDate` can run without overflowing `AddDays`. */
  predicate MaxDateRepresentable(s: Option<string>, parse: DateParser) {
    s.Some? && s.value != "" && parse(s.value).Some? ==> HasNextDay(parse(s.value).value)
  }

  /** `ParseMaxDate`: the last tick of the parsed value's calendar day, or
      `MaxValue` when the text is missing, empty or unparsable. */
  function ParseMaxDate(s: Option<string>, parse: DateParser): (t: Ticks)
    requires MaxDateRepresentable(s, parse)
    ensures s.Some? && s.value != "" && parse(s.value).Some? ==>
              t == EndOfDay(parse(s.value).value) && t != MaxValue
    ensures !(s.Some? && s.value != "" && parse(s.value).Some?) ==> t == MaxValue
  {
    if s.None? || s.value == "" then MaxValue
    else match parse(s.value)
      case Some(t) => EndOfDay(t)
      case None => MaxValue
  }

  // ---------------------------------------------------------------------
  // The bare date format "yyyy-MM-dd" (proleptic Gregorian calendar)
  // ---------------------------------------------------------------------

  predicate IsLeapYear(y: int) {
    y % 4 == 0 && (y % 100 != 0 || y % 400 == 0)
  }

  function DaysInMonth(y: int, m: int): int
    requires 1 <= m <= 12
  {
    if m == 2 then (if IsLeapYear(y) then 29 else 28)
    else if m == 4 || m == 6 || m == 9 || m == 11 then 30
    else 31
  }

  /** Days in the months of year `y` before month `m`. */
  function DaysBeforeMonth(y: int, m: int): (n: int)
    requires 1 <= m <= 12
    ensures 0 <= n && n + DaysInMonth(y, m) <= (if IsLeapYear(y) then 366 else 365)
  {
    var common := [0, 31, 59, 90, 120, 151, 181, 212, 243, 273, 304, 334][m - 1];
    if m > 2 && IsLeapYear(y) then common + 1 else common
  }

  /** Days from 0001-01-01 to January 1st of year `y`. */
  function DaysBeforeYear(y: int): int
    requires 1 <= y
  {
    var p := y - 1;
    365 * p + p / 4 - p / 100 + p / 400
  }

  predicate ValidDate(y: int, m: int, d: int) {
    1 <= y <= 9999 && 1 <= m <= 12 && 1 <= d <= DaysInMonth(y, m)
  }

  /** Days from 0001-01-01 to the given date. */
  function DayNumber(y: int, m: int, d: int): (n: int)
    requires ValidDate(y, m, d)
    ensures 0 <= n <= LastDay / TicksPerDay
  {
    DaysBeforeYearBound(y);
    DaysBeforeYear(y) + DaysBeforeMonth(y, m) + d - 1
  }

  /** Every year up to 9999 leaves room for its days before the last
      representable day. */
  lemma DaysBeforeYearBound(y: int)
    requires 1 <= y <= 9999
    ensures 0 <= DaysBeforeYear(y)
    ensures DaysBeforeYear(y) + (if IsLeapYear(y) then 366 else 365) <= LastDay / TicksPerDay + 1
  {
    var p := y - 1;
    assert p / 100 <= p / 4;
    if y < 9999 {
      assert 365 * p <= 365 * 9997;
      assert p / 4 <= 2499 && p / 400 <= 24;
    }
  }

  /** Midnight at the start of a valid date. */
  function Midnight(y: int, m: int, d: int): (t: Ticks)
    requires ValidDate(y, m, d)
    ensures t % TicksPerDay == 0
    ensures HasNextDay(t) <==> DayNumber(y, m, d) < LastDay / TicksPerDay
  {
    var n := DayNumber(y, m, d);
    MultipleOfDay(n);
    n * TicksPerDay
  }

  lemma MultipleOfDay(n: nat)
    requires n <= LastDay / TicksPerDay
    ensures 0 <= n * TicksPerDay <= LastDay
    ensures (n * TicksPerDay) % TicksPerDay == 0
    ensures n * TicksPerDay < LastDay <==> n < LastDay / TicksPerDay
  {
    assert LastDay == (LastDay / TicksPerDay) * TicksPerDay;
  }

  /** The value of a fixed-width run of digits. */
  function FixedDigits(s: string, from: nat, count: nat): Option<nat>
    requires from + count <= |s|
  {
    if AllDigits(s[from..from + count]) then Some(DigitsValue(s[from..from + count])) else None
  }

  /** The text has the shape of "yyyy-MM-dd": four, two and two digits
      separated by hyphens. */
  predicate IsoShaped(s: string) {
    |s| == 10 && s[4] == '-' && s[7] == '-'
    && AllDigits(s[0..4]) && AllDigits(s[5..7]) && AllDigits(s[8..10])
  }

  function IsoYear(s: string): nat
    requires IsoShaped(s)
  {
    DigitsValue(s[0..4])
  }

  function IsoMonth(s: string): nat
    requires IsoShaped(s)
  {
    DigitsValue(s[5..7])
  }

  function IsoDay(s: string): nat
    requires IsoShaped(s)
  {
    DigitsValue(s[8..10])
  }

  /** The format "yyyy-MM-dd": it accepts exactly the text of that shape
      that names a valid calendar date, and gives that date's midnight. */
  function ParseIsoDate(s: string): (r: Option<Ticks>)
    ensures r.Some? <==> IsoShaped(s) && ValidDate(IsoYear(s), IsoMonth(s), IsoDay(s))
    ensures r.Some? ==> r.value == Midnight(IsoYear(s), IsoMonth(s), IsoDay(s))
    ensures r.Some? ==> r.value % TicksPerDay == 0
  {
    if |s| != 10 || s[4] != '-' || s[7] != '-' then None
    else
      match (FixedDigits(s, 0, 4), FixedDigits(s, 5, 2), FixedDigits(s, 8, 2))
      case (Some(y), Some(m), Some(d)) =>
        if ValidDate(y, m, d) then Some(Midnight(y, m, d)) else None
      case _ => None
  }

  function Pow10(w: nat): (p: nat)
    ensures p >= 1
  {
    if w == 0 then 1 else 10 * Pow10(w - 1)
  }

  /** `n` written with exactly `w` digits, zero-padded on the left (the
      `yyyy`, `MM` and `dd` fields). */
  function FixedText(n: nat, w: nat): (t: string)
    ensures |t| == w && AllDigits(t)
  {
    if w == 0 then [] else FixedText(n / 10, w - 1) + [DigitChar(n % 10)]
  }

  /** Zero-padded digits read back as the number they were written from. */
  lemma {:induction false} FixedTextValue(n: nat, w: nat)
    requires n < Pow10(w)
    ensures DigitsValue(FixedText(n, w)) == n
  {
    if w > 0 {
      var t := FixedText(n, w);
      assert n / 10 < Pow10(w - 1);
      FixedTextValue(n / 10, w - 1);
      assert t[..w - 1] == FixedText(n / 10, w - 1);
      assert t[w - 1] == DigitChar(n % 10);
    }
  }

  /** The "yyyy-MM-dd" text of a date. */
  function IsoText(y: nat, m: nat, d: nat): (t: string)
    ensures |t| == 10
  {
    FixedText(y, 4) + "-" + FixedText(m, 2) + "-" + FixedText(d, 2)
  }

  /** Every valid date's "yyyy-MM-dd" text parses to that date's midnight. */
  lemma IsoDateRoundTrip(y: nat, m: nat, d: nat)
    requires ValidDate(y, m, d)
    ensures ParseIsoDate(IsoText(y, m, d)) == Some(Midnight(y, m, d))
  {
    var t := IsoText(y, m, d);
    assert t[0..4] == FixedText(y, 4);
    assert t[5..7] == FixedText(m, 2);
    assert t[8..10] == FixedText(d, 2);
    FixedTextValue(y, 4);
    FixedTextValue(m, 2);
    FixedTextValue(d, 2);
  }
  /** A run of digits is the zero-padded text of its own value. */
  lemma {:induction false} DigitsFixedText(x: string)
    requires AllDigits(x)
    ensures DigitsValue(x) < Pow10(|x|)
    ensures FixedText(DigitsValue(x), |x|) == x
  {
    if |x| > 0 {
      var init := x[..|x| - 1];
      var v := DigitsValue(x);
      var last := x[|x| - 1] as int - '0' as int;
      DigitsFixedText(init);
      assert v / 10 == DigitsValue(init) && v % 10 == last;
      assert x == init + [DigitChar(last)];
    }
  }

  /** The parser accepts only the canonical text of the date it returns. */
  lemma IsoDateCanonical(s: string)
    requires ParseIsoDate(s).Some?
    ensures s == IsoText(IsoYear(s), IsoMonth(s), IsoDay(s))
  {
    DigitsFixedText(s[0..4]);
    DigitsFixedText(s[5..7]);
    DigitsFixedText(s[8..10]);
    assert s == s[0..4] + "-" + s[5..7] + "-" + s[8..10];
  }
}
