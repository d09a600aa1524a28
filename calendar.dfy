/** Calendar dates as Python's `datetime` handles them: parsing with
    `strptime(s, "%Y-%m-%d")`, parsing a clock with `"%H:%M"`, formatting
    with `strftime("%Y-%m-%d")`, and the proleptic Gregorian day number
    (`date.toordinal()`) that `timedelta(days=...)` arithmetic moves along. */
module Calendar {
  import opened Wrappers
  import opened Text

  datatype Date = Date(year: int, month: int, day: int)

  /** A time of day read by `%H:%M`. */
  datatype Clock = Clock(hour: nat, minute: nat)

  predicate IsLeapYear(y: int) {
    y % 4 == 0 && (y % 100 != 0 || y % 400 == 0)
  }

  function DaysInMonth(y: int, m: int): (n: int)
    requires 1 <= m <= 12
    ensures 28 <= n <= 31
  {
    if m == 2 then (if IsLeapYear(y) then 29 else 28)
    else if m == 4 || m == 6 || m == 9 || m == 11 then 30
    else 31
  }

  /** The dates `datetime` can represent: years 1 to 9999. */
  predicate ValidDate(d: Date) {
    1 <= d.year <= 9999 && 1 <= d.month <= 12 && 1 <= d.day <= DaysInMonth(d.year, d.month)
  }

  /** `%m` of `strptime`: the regular expression `1[0-2]|0[1-9]|[1-9]`. */
  predicate IsMonthToken(t: string) {
    (|t| == 1 && '1' <= t[0] <= '9')
    || (|t| == 2 && ((t[0] == '1' && '0' <= t[1] <= '2') || (t[0] == '0' && '1' <= t[1] <= '9')))
  }

  /** `%d` of `strptime`: the regular expression `3[01]|[12]\d|0[1-9]|[1-9]| [1-9]`. */
  predicate IsDayToken(t: string) {
    (|t| == 1 && '1' <= t[0] <= '9')
    || (|t| == 2 && ((t[0] == '3' && '0' <= t[1] <= '1')
                     || ('1' <= t[0] <= '2' && IsDigit(t[1]))
                     || ((t[0] == '0' || t[0] == ' ') && '1' <= t[1] <= '9')))
  }

  /** `%H` of `strptime`: the regular expression `2[0-3]|[0-1]\d|\d`. */
  predicate IsHourToken(t: string) {
    (|t| == 1 && IsDigit(t[0]))
    || (|t| == 2 && ((t[0] == '2' && '0' <= t[1] <= '3') || ('0' <= t[0] <= '1' && IsDigit(t[1]))))
  }

  /** `%M` of `strptime`: the regular expression `[0-5]\d|\d`. */
  predicate IsMinuteToken(t: string) {
    (|t| == 1 && IsDigit(t[0])) || (|t| == 2 && '0' <= t[0] <= '5' && IsDigit(t[1]))
  }

  /** The number a `%d` token stands for; `" 7"` is 7. */
  function DayTokenValue(t: string): nat
    requires IsDayToken(t)
  {
    if t[0] == ' ' then DigitsValue(t[1..]) else DigitsValue(t)
  }

  /** `datetime.strptime(s, "%Y-%m-%d")`; `None` where Python raises `ValueError`. */
  function ParseIsoDate(s: string): (r: Option<Date>)
    ensures r.Some? ==> ValidDate(r.value)
  {
    if |s| < 5 || !AllDigits(s[..4]) || s[4] != '-' then None
    else
      var parts := Split(s[5..], '-');
      if |parts| != 2 || !IsMonthToken(parts[0]) || !IsDayToken(parts[1]) then None
      else
        var d := Date(DigitsValue(s[..4]), DigitsValue(parts[0]), DayTokenValue(parts[1]));
        if ValidDate(d) then Some(d) else None
  }

  /** `datetime.strptime(s, "%H:%M")` reduced to the clock it reads. */
  function ParseClock(s: string): (r: Option<Clock>)
    ensures r.Some? ==> r.value.hour < 24 && r.value.minute < 60
  {
    var parts := Split(s, ':');
    if |parts| != 2 || !IsHourToken(parts[0]) || !IsMinuteToken(parts[1]) then None
    else
      ClockTokenBounds(parts[0], parts[1]);
      Some(Clock(DigitsValue(parts[0]), DigitsValue(parts[1])))
  }

  lemma DigitsValue1(t: string)
    requires |t| == 1 && AllDigits(t)
    ensures DigitsValue(t) == DigitValue(t[0])
  {
    assert t[..0] == [];
  }

  lemma ClockTokenBounds(h: string, m: string)
    requires IsHourToken(h) && IsMinuteToken(m)
    ensures DigitsValue(h) < 24 && DigitsValue(m) < 60
  {
    if |h| == 1 { DigitsValue1(h); } else { DigitsValue2(h); }
    if |m| == 1 { DigitsValue1(m); } else { DigitsValue2(m); }
  }

  /** The minute of the day a clock stands for. */
  function MinuteOfDay(c: Clock): (m: nat)
    ensures c.hour < 24 && c.minute < 60 ==> m < 1440
  {
    60 * c.hour + c.minute
  }

  function Pad2(n: nat): (r: string)
    requires n < 100
    ensures |r| == 2 && AllDigits(r)
  {
    [DigitChar(n / 10), DigitChar(n % 10)]
  }

  function Pad4(n: nat): (r: string)
    requires n < 10000
    ensures |r| == 4 && AllDigits(r)
  {
    Pad2(n / 100) + Pad2(n % 100)
  }

  /** `strftime("%Y-%m-%d")`, with the year written in four digits. */
  function FormatIsoDate(d: Date): (r: string)
    requires ValidDate(d)
    ensures |r| == 10 && r[4] == '-' && r[7] == '-'
  {
    Pad4(d.year) + "-" + Pad2(d.month) + "-" + Pad2(d.day)
  }

  lemma DigitRoundTrip(c: char)
    requires IsDigit(c)
    ensures DigitChar(DigitValue(c)) == c
  {
  }

  lemma DigitsValue2(t: string)
    requires |t| == 2 && AllDigits(t)
    ensures DigitsValue(t) == 10 * DigitValue(t[0]) + DigitValue(t[1])
  {
    assert t[..1] == [t[0]];
    DigitsValue1(t[..1]);
  }

  lemma DigitsValue4(t: string)
    requires |t| == 4 && AllDigits(t)
    ensures DigitsValue(t) == 100 * DigitsValue(t[..2]) + DigitsValue(t[2..])
  {
    assert t[..3][..2] == t[..2];
    assert t[..3][2] == t[2];
    DigitsValue2(t[..2]);
    DigitsValue2(t[2..]);
  }

  /** Reading a rendered two-digit number gives the number back. */
  lemma Pad2Read(n: nat)
    requires n < 100
    ensures DigitsValue(Pad2(n)) == n
  {
    DigitsValue2(Pad2(n));
  }

  /** Rendering the number of a two-digit token gives the token back. */
  lemma Pad2Write(t: string)
    requires |t| == 2 && AllDigits(t)
    ensures Pad2(DigitsValue(t)) == t
  {
    DigitsValue2(t);
    DigitRoundTrip(t[0]);
    DigitRoundTrip(t[1]);
  }

  lemma DivMod100(a: nat, b: nat)
    requires a < 100 && b < 100
    ensures (100 * a + b) / 100 == a && (100 * a + b) % 100 == b
  {
  }

  /** Reading a rendered four-digit year gives the year back. */
  lemma Pad4Read(n: nat)
    requires n < 10000
    ensures DigitsValue(Pad4(n)) == n
  {
    var p := Pad4(n);
    DigitsValue4(p);
    assert p[..2] == Pad2(n / 100) && p[2..] == Pad2(n % 100);
    Pad2Read(n / 100);
    Pad2Read(n % 100);
  }

  /** Rendering the number of a four-digit token gives the token back. */
  lemma Pad4Write(t: string)
    requires |t| == 4 && AllDigits(t)
    ensures Pad4(DigitsValue(t)) == t
  {
    var hi, lo := t[..2], t[2..];
    DigitsValue4(t);
    DivMod100(DigitsValue(hi), DigitsValue(lo));
    Pad2Write(hi);
    Pad2Write(lo);
    assert hi + lo == t;
  }

  /** The pieces `strptime` reads back from a formatted date. */
  lemma FormattedParts(d: Date)
    requires ValidDate(d)
    ensures FormatIsoDate(d)[..4] == Pad4(d.year)
    ensures Split(FormatIsoDate(d)[5..], '-') == [Pad2(d.month), Pad2(d.day)]
  {
    var s := FormatIsoDate(d);
    var m, dd := Pad2(d.month), Pad2(d.day);
    assert s[5..] == m + "-" + dd;
    assert '-' !in m && '-' !in dd;
    SplitAt(m, dd, '-');
    SplitNoSeparator(dd, '-');
  }

  /** Formatting a date and parsing it back gives the same date. */
  lemma {:induction false} ParseFormat(d: Date)
    requires ValidDate(d)
    ensures ParseIsoDate(FormatIsoDate(d)) == Some(d)
  {
    var s := FormatIsoDate(d);
    var y, m, dd := Pad4(d.year), Pad2(d.month), Pad2(d.day);
    FormattedParts(d);
    Pad4Read(d.year);
    Pad2Read(d.month);
    Pad2Read(d.day);
    assert DigitsValue(dd) == d.day;
  }

  /** The strings `strftime("%Y-%m-%d")` can produce: four digits, `-`,
      two digits, `-`, two digits, naming a valid date. */
  predicate IsCanonicalIsoDate(s: string) {
    |s| == 10 && AllDigits(s[..4]) && s[4] == '-' && AllDigits(s[5..7]) && s[7] == '-'
    && AllDigits(s[8..]) && ParseIsoDate(s).Some?
  }

  /** Parsing a canonical date and formatting it again gives the same text. */
  lemma {:induction false} FormatParse(s: string)
    requires IsCanonicalIsoDate(s)
    ensures FormatIsoDate(ParseIsoDate(s).value) == s
  {
    var d := ParseIsoDate(s).value;
    var m, dd := s[5..7], s[8..];
    assert s[5..] == m + "-" + dd;
    assert '-' !in m && '-' !in dd;
    SplitAt(m, dd, '-');
    SplitNoSeparator(dd, '-');
    assert d.month == DigitsValue(m);
    assert dd[0] != ' ';
    assert d.day == DigitsValue(dd);
    Pad4Write(s[..4]);
    Pad2Write(m);
    Pad2Write(dd);
    assert s == s[..4] + "-" + m + "-" + dd;
  }

  /** 366 days in a leap year, 365 in the others. */
  function DaysInYear(y: int): nat {
    if IsLeapYear(y) then 366 else 365
  }

  /** The days of the years before `y`, one year after the other. */
  function DaysBeforeYear(y: int): nat
    requires y >= 1
    decreases y
  {
    if y == 1 then 0 else DaysBeforeYear(y - 1) + DaysInYear(y - 1)
  }

  /** `_days_before_year` of the `datetime` module: the closed form
      `365 * p + p // 4 - p // 100 + p // 400` with `p = y - 1`. */
  lemma {:induction false} DaysBeforeYearClosed(y: int)
    requires y >= 1
    ensures DaysBeforeYear(y) == 365 * (y - 1) + (y - 1) / 4 - (y - 1) / 100 + (y - 1) / 400
    decreases y
  {
    if y > 1 {
      DaysBeforeYearClosed(y - 1);
      LeapCountStep(y - 1);
    }
  }

  /** Counting multiples of 4, less those of 100, plus those of 400, up to
      `x` adds one for `x` exactly when `x` is a leap year. */
  lemma LeapCountStep(x: int)
    requires x >= 1
    ensures x / 4 - x / 100 + x / 400
            == (x - 1) / 4 - (x - 1) / 100 + (x - 1) / 400 + (if IsLeapYear(x) then 1 else 0)
  {
    var p := x - 1;
    assert (p + 1) / 4 == p / 4 + (if (p + 1) % 4 == 0 then 1 else 0);
    assert (p + 1) / 100 == p / 100 + (if (p + 1) % 100 == 0 then 1 else 0);
    assert (p + 1) / 400 == p / 400 + (if (p + 1) % 400 == 0 then 1 else 0);
    if x % 400 == 0 {
      assert x % 100 == 0 && x % 4 == 0 by {
        assert x == 400 * (x / 400);
      }
    } else if x % 100 == 0 {
      assert x % 4 == 0 by {
        assert x == 100 * (x / 100);
      }
    }
  }

  function DaysBeforeMonth(y: int, m: int): nat
    requires 1 <= m <= 12
  {
    [0, 31, 59, 90, 120, 151, 181, 212, 243, 273, 304, 334][m - 1]
    + (if m > 2 && IsLeapYear(y) then 1 else 0)
  }

  /** `date.toordinal()`: 0001-01-01 is day 1. */
  function Ordinal(d: Date): int
    requires ValidDate(d)
  {
    DaysBeforeYear(d.year) + DaysBeforeMonth(d.year, d.month) + d.day
  }

  /** 9999-12-31, the last date `datetime` can hold. */
  const LastDate: Date := Date(9999, 12, 31)

  /** The day number of `LastDate`. */
  const MaxOrdinal: int := 3652059

  lemma LastDateOrdinal()
    ensures ValidDate(LastDate) && Ordinal(LastDate) == MaxOrdinal
  {
    DaysBeforeYearClosed(9999);
  }

  /** `d + timedelta(days=1)`; on `LastDate` Python raises `OverflowError`. */
  function NextDay(d: Date): (r: Date)
    requires ValidDate(d) && d != LastDate
    ensures ValidDate(r)
    ensures Ordinal(r) == Ordinal(d) + 1
  {
    if d.day < DaysInMonth(d.year, d.month) then Date(d.year, d.month, d.day + 1)
    else if d.month < 12 then Date(d.year, d.month + 1, 1)
    else Date(d.year + 1, 1, 1)
  }

  /** Day numbers order dates: different valid dates have different numbers,
      and the last date has the largest. */
  lemma OrdinalBounds(d: Date)
    requires ValidDate(d)
    ensures 1 <= Ordinal(d) <= MaxOrdinal
    ensures Ordinal(d) == MaxOrdinal <==> d == LastDate
  {
    LastDateOrdinal();
    if d.year < 9999 {
      DaysBeforeYearGrows(d.year + 1, 9999);
    }
  }

  lemma {:induction false} DaysBeforeYearGrows(a: int, b: int)
    requires 1 <= a <= b
    ensures DaysBeforeYear(a) <= DaysBeforeYear(b)
    decreases b - a
  {
    if a < b {
      DaysBeforeYearGrows(a + 1, b);
    }
  }
}
