/**
 * Calendar arithmetic of the life grid: proleptic Gregorian dates, day
 * numbers, validation of day/month/year input, the `YYYY-MM-DD` calendar date
 * form of ISO 8601 (section 4.1.2.2 of ISO 8601:2004, extended format), whole
 * weeks lived, age in years/months/days, and week numbers of section 4.1.4 of
 * ISO 8601:2004. Local time is taken to be UTC; "now" is always a parameter.
 */
module Dates {

  import opened Wrappers
  import opened Strings
  import opened Decimal

  datatype Date = Date(year: int, month: int, day: int)

  predicate IsLeapYear(y: int) {
    y % 4 == 0 && (y % 100 != 0 || y % 400 == 0)
  }

  function DaysInYear(y: int): int {
    if IsLeapYear(y) then 366 else 365
  }

  function DaysInMonth(y: int, m: int): (n: int)
    ensures 28 <= n <= 31
  {
    if m == 2 then (if IsLeapYear(y) then 29 else 28)
    else if m == 4 || m == 6 || m == 9 || m == 11 then 30
    else 31
  }

  /** A real calendar date: month 1..12 and a day that month has. */
  predicate ValidDate(d: Date) {
    1 <= d.month <= 12 && 1 <= d.day <= DaysInMonth(d.year, d.month)
  }

  type CalendarDate = d: Date | ValidDate(d) witness Date(1970, 1, 1)

  /** Days from 0001-01-01 to January 1 of year `y` (negative before year 1). */
  function DaysBeforeYear(y: int): int {
    var p := y - 1;
    365 * p + p / 4 - p / 100 + p / 400
  }

  /** Days of the year `y` before the first day of month `m`. */
  function DaysBeforeMonth(y: int, m: int): int
    requires 1 <= m <= 12
  {
    var common :=
      if m == 1 then 0 else if m == 2 then 31 else if m == 3 then 59
      else if m == 4 then 90 else if m == 5 then 120 else if m == 6 then 151
      else if m == 7 then 181 else if m == 8 then 212 else if m == 9 then 243
      else if m == 10 then 273 else if m == 11 then 304 else 334;
    if m > 2 && IsLeapYear(y) then common + 1 else common
  }

  /** The day number `Date.UTC(y, m - 1, d)` stands for: a day past the month's end carries over. */
  function RawDayNumber(y: int, m: int, d: int): int
    requires 1 <= m <= 12
  {
    DaysBeforeYear(y) + DaysBeforeMonth(y, m) + d - 1
  }

  /** Days since 0001-01-01, which is day 0. */
  function DayNumber(d: CalendarDate): int {
    RawDayNumber(d.year, d.month, d.day)
  }

  lemma DaysBeforeYearStep(y: int)
    ensures DaysBeforeYear(y + 1) == DaysBeforeYear(y) + DaysInYear(y)
  {
    var p := y - 1;
    DivStep4(p);
    DivStep100(p);
    DivStep400(p);
    LeapDivisors(y);
    assert DaysBeforeYear(y + 1) == 365 * p + 365 + (p + 1) / 4 - (p + 1) / 100 + (p + 1) / 400;
  }

  /** Every multiple of 400 is a multiple of 100, and every multiple of 100 one of 4. */
  lemma LeapDivisors(y: int)
    ensures y % 400 == 0 ==> y % 100 == 0
    ensures y % 100 == 0 ==> y % 4 == 0
  {
    if y % 400 == 0 {
      var k := y / 400;
      assert y == 100 * (4 * k);
      MultipleMod(4 * k);
    }
    if y % 100 == 0 {
      var k := y / 100;
      assert y == 4 * (25 * k);
      MultipleMod(25 * k);
    }
  }

  lemma MultipleMod(k: int)
    ensures (100 * k) % 100 == 0 && (4 * k) % 4 == 0
  {
  }

  lemma DivStep4(p: int)
    ensures (p + 1) / 4 == p / 4 + (if (p + 1) % 4 == 0 then 1 else 0)
  {
  }

  lemma DivStep100(p: int)
    ensures (p + 1) / 100 == p / 100 + (if (p + 1) % 100 == 0 then 1 else 0)
  {
  }

  lemma DivStep400(p: int)
    ensures (p + 1) / 400 == p / 400 + (if (p + 1) % 400 == 0 then 1 else 0)
  {
  }

  lemma MonthStep(y: int, m: int)
    requires 1 <= m <= 12
    ensures m < 12 ==> DaysBeforeMonth(y, m + 1) == DaysBeforeMonth(y, m) + DaysInMonth(y, m)
    ensures m == 12 ==> DaysBeforeMonth(y, m) + DaysInMonth(y, m) == DaysInYear(y)
  {
  }

  lemma {:induction false} DaysBeforeYearMonotone(a: int, b: int)
    requires a < b
    ensures DaysBeforeYear(a) + DaysInYear(a) <= DaysBeforeYear(b)
    decreases b - a
  {
    DaysBeforeYearStep(a);
    if a + 1 < b {
      DaysBeforeYearMonotone(a + 1, b);
    }
  }

  lemma {:induction false} DaysBeforeMonthMonotone(y: int, a: int, b: int)
    requires 1 <= a < b <= 12
    ensures DaysBeforeMonth(y, a) + DaysInMonth(y, a) <= DaysBeforeMonth(y, b)
    decreases b - a
  {
    MonthStep(y, a);
    if a + 1 < b {
      DaysBeforeMonthMonotone(y, a + 1, b);
    }
  }

  /** Whole 400-year cycles shift the start of a year by 146097 days each. */
  lemma CycleShift(y: int, q: int)
    ensures DaysBeforeYear(y + 400 * q) == DaysBeforeYear(y) + 146097 * q
  {
    var p := y - 1;
    assert (p + 400 * q) / 4 == p / 4 + 100 * q;
    assert (p + 400 * q) / 100 == p / 100 + 4 * q;
    assert (p + 400 * q) / 400 == p / 400 + q;
  }

  /**
   * A year that starts on or before day `n` and at most a year or two before
   * the year holding it: whole 400-year cycles, then 366 days per year.
   */
  function StartYear(n: int): (y: int)
    ensures DaysBeforeYear(y) <= n
  {
    var q := n / 146097;
    var r := n % 146097;
    var j := r / 366;
    CycleShift(1 + j, q);
    assert DaysBeforeYear(1 + j) <= 366 * j;
    1 + j + 400 * q
  }

  function YearSearch(y: int, n: int): (r: int)
    requires DaysBeforeYear(y) <= n
    ensures DaysBeforeYear(r) <= n < DaysBeforeYear(r) + DaysInYear(r)
    decreases n - DaysBeforeYear(y)
  {
    DaysBeforeYearStep(y);
    if n < DaysBeforeYear(y) + DaysInYear(y) then y else YearSearch(y + 1, n)
  }

  function MonthSearch(y: int, m: int, rem: int): (r: int)
    requires 1 <= m <= 12 && DaysBeforeMonth(y, m) <= rem < DaysInYear(y)
    ensures 1 <= r <= 12 && DaysBeforeMonth(y, r) <= rem < DaysBeforeMonth(y, r) + DaysInMonth(y, r)
    decreases 12 - m
  {
    MonthStep(y, m);
    if rem < DaysBeforeMonth(y, m) + DaysInMonth(y, m) then m else MonthSearch(y, m + 1, rem)
  }

  /** The calendar date of day number `n`. */
  function FromDayNumber(n: int): (d: CalendarDate)
    ensures DayNumber(d) == n
    ensures DaysBeforeYear(d.year) <= n < DaysBeforeYear(d.year) + DaysInYear(d.year)
  {
    var y := YearSearch(StartYear(n), n);
    var rem := n - DaysBeforeYear(y);
    var m := MonthSearch(y, 1, rem);
    Date(y, m, rem - DaysBeforeMonth(y, m) + 1)
  }

  lemma DayNumberInYear(d: CalendarDate)
    ensures DaysBeforeYear(d.year) <= DayNumber(d) < DaysBeforeYear(d.year) + DaysInYear(d.year)
  {
    MonthStep(d.year, d.month);
    if d.month < 12 {
      DaysBeforeMonthMonotone(d.year, d.month, 12);
      MonthStep(d.year, 12);
    }
  }

  /** Chronological order of dates, field by field. */
  predicate Before(a: Date, b: Date) {
    a.year < b.year
    || (a.year == b.year && (a.month < b.month || (a.month == b.month && a.day < b.day)))
  }

  /** Day numbers are ordered as the dates they number. */
  lemma DayNumberOrder(a: CalendarDate, b: CalendarDate)
    ensures Before(a, b) ==> DayNumber(a) < DayNumber(b)
  {
    DayNumberInYear(a);
    DayNumberInYear(b);
    if a.year < b.year {
      DaysBeforeYearMonotone(a.year, b.year);
    } else if a.year == b.year && a.month < b.month {
      DaysBeforeMonthMonotone(a.year, a.month, b.month);
    }
  }

  lemma DayNumberOrderIff(a: CalendarDate, b: CalendarDate)
    ensures Before(a, b) <==> DayNumber(a) < DayNumber(b)
    ensures a == b <==> DayNumber(a) == DayNumber(b)
  {
    DayNumberOrder(a, b);
    DayNumberOrder(b, a);
  }

  lemma FromDayNumberOfDayNumber(d: CalendarDate)
    ensures FromDayNumber(DayNumber(d)) == d
  {
    DayNumberOrderIff(FromDayNumber(DayNumber(d)), d);
  }

  lemma YearOfDay(n: int, y: int)
    requires DaysBeforeYear(y) <= n < DaysBeforeYear(y) + DaysInYear(y)
    ensures FromDayNumber(n).year == y
  {
    var r := FromDayNumber(n).year;
    if r < y {
      DaysBeforeYearMonotone(r, y);
    } else if y < r {
      DaysBeforeYearMonotone(y, r);
    }
  }

  /** `getUTCDay()` of day `n`: 0 for Sunday up to 6 for Saturday; day 0 is a Monday. */
  function UtcDay(n: int): int {
    (n + 1) % 7
  }

  /** `getUTCDay() || 7`: ISO 8601 weekday number, 1 for Monday up to 7 for Sunday. */
  function IsoWeekday(n: int): (w: int)
    ensures 1 <= w <= 7 && w == n % 7 + 1
  {
    var u := UtcDay(n);
    if u == 0 then 7 else u
  }

  /** Day number of 1970-01-01, the origin of JavaScript time values. */
  const UnixEpochDay: int := 719162

  lemma UnixEpochIsThursday()
    ensures DayNumber(Date(1970, 1, 1)) == UnixEpochDay
    ensures IsoWeekday(UnixEpochDay) == 4
    ensures IsoWeekday(DayNumber(Date(2000, 1, 1))) == 6
  {
  }

  const MsPerDay: int := 24 * 60 * 60 * 1000
  const MsPerWeek: int := 7 * MsPerDay

  /** `new Date("YYYY-MM-DD").getTime()`: UTC midnight of the date in epoch milliseconds. */
  function MidnightMs(d: CalendarDate): int {
    (DayNumber(d) - UnixEpochDay) * MsPerDay
  }

  /** The (UTC) calendar date of the instant `ms`. */
  function DateOfMs(ms: int): (d: CalendarDate)
    ensures MidnightMs(d) <= ms < MidnightMs(d) + MsPerDay
  {
    var q := ms / MsPerDay;
    DayOfMsBounds(ms);
    FromDayNumber(q + UnixEpochDay)
  }

  /** The whole days before `ms` and the milliseconds into the day. */
  lemma DayOfMsBounds(ms: int)
    ensures (ms / MsPerDay) * MsPerDay <= ms < (ms / MsPerDay) * MsPerDay + MsPerDay
  {
  }

  /** Day `q` after the epoch is the one whose milliseconds hold `ms`. */
  lemma MsDay(ms: int, q: int)
    requires q * MsPerDay <= ms < q * MsPerDay + MsPerDay
    ensures ms / MsPerDay == q
  {
  }

  /** Later days have later midnights, a whole day apart at least. */
  lemma MidnightOrder(a: CalendarDate, b: CalendarDate)
    ensures DayNumber(a) <= DayNumber(b) ==> MidnightMs(a) <= MidnightMs(b)
    ensures DayNumber(a) < DayNumber(b) ==> MidnightMs(a) + MsPerDay <= MidnightMs(b)
  {
    var x := DayNumber(b) - DayNumber(a);
    assert MidnightMs(b) - MidnightMs(a) == x * MsPerDay;
  }

  lemma DateOfMidnight(d: CalendarDate, t: int)
    requires 0 <= t < MsPerDay
    ensures DateOfMs(MidnightMs(d) + t) == d
  {
    MsDay(MidnightMs(d) + t, DayNumber(d) - UnixEpochDay);
    DateOfMsIs(MidnightMs(d) + t, DayNumber(d));
    FromDayNumberOfDayNumber(d);
  }

  /** The date of `ms` is day `n` when `ms` falls within day `n - UnixEpochDay` after the epoch. */
  lemma DateOfMsIs(ms: int, n: int)
    requires ms / MsPerDay + UnixEpochDay == n
    ensures DateOfMs(ms) == FromDayNumber(n)
  {
  }

  function Max(a: int, b: int): int {
    if a >= b then a else b
  }

  // ---------------------------------------------------------------------------
  // weeksBetween

  /** `weeksBetween`: whole weeks from the birth date's midnight to `nowMs`, never below 0. */
  function WeeksBetween(birth: CalendarDate, nowMs: int): (w: nat)
    ensures w == 0 <==> nowMs < MidnightMs(birth) + MsPerWeek
    ensures w > 0 ==> MidnightMs(birth) + w * MsPerWeek <= nowMs < MidnightMs(birth) + (w + 1) * MsPerWeek
  {
    var diff := nowMs - MidnightMs(birth);
    Max(0, diff / MsPerWeek)
  }

  lemma WeeksBetweenMonotone(birth: CalendarDate, now1: int, now2: int)
    requires now1 <= now2
    ensures WeeksBetween(birth, now1) <= WeeksBetween(birth, now2)
  {
    var d1, d2 := now1 - MidnightMs(birth), now2 - MidnightMs(birth);
    assert d1 / MsPerWeek <= d2 / MsPerWeek;
  }

  lemma WeeksBetweenWholeWeeks(birth: CalendarDate, w: nat)
    ensures WeeksBetween(birth, MidnightMs(birth) + w * MsPerWeek) == w
  {
    assert (w * MsPerWeek) / MsPerWeek == w;
  }

  // ---------------------------------------------------------------------------
  // isValidDateParts and parseDMYToISO

  /** What `Number(text)` yields, as far as validation looks at it. */
  datatype Number = Integer(value: int) | NonInteger

  /**
   * `isValidDateParts(d, m, y)`: integers, year 1900..9999, month 1..12, day
   * 1..31, and `Date.UTC(y, m - 1, d)` reads back the same year, month and day.
   */
  predicate IsValidDateParts(d: Number, m: Number, y: Number)
    ensures IsValidDateParts(d, m, y) ==>
      d.Integer? && m.Integer? && y.Integer? && 1900 <= y.value <= 9999
      && ValidDate(Date(y.value, m.value, d.value))
  {
    if !d.Integer? || !m.Integer? || !y.Integer? then false
    else if y.value < 1900 || y.value > 9999 then false
    else if m.value < 1 || m.value > 12 then false
    else if d.value < 1 || d.value > 31 then false
    else
      var test := FromDayNumber(RawDayNumber(y.value, m.value, d.value));
      test.year == y.value && test.month == m.value && test.day == d.value
  }

  /** Validation accepts exactly the real Gregorian dates of years 1900..9999. */
  lemma IsValidDatePartsIff(d: Number, m: Number, y: Number)
    ensures IsValidDateParts(d, m, y) <==>
      d.Integer? && m.Integer? && y.Integer? && 1900 <= y.value <= 9999
      && ValidDate(Date(y.value, m.value, d.value))
  {
    if d.Integer? && m.Integer? && y.Integer? && 1900 <= y.value <= 9999
       && ValidDate(Date(y.value, m.value, d.value))
    {
      FromDayNumberOfDayNumber(Date(y.value, m.value, d.value));
    }
  }

  /** February 29 passes exactly in leap years; day 31 never passes in a 30-day month or February. */
  lemma IsValidDatePartsMonthEnds(y: int, m: int)
    requires 1900 <= y <= 9999
    ensures IsValidDateParts(Integer(29), Integer(2), Integer(y)) <==> IsLeapYear(y)
    ensures m == 2 || m == 4 || m == 6 || m == 9 || m == 11 ==>
      !IsValidDateParts(Integer(31), Integer(m), Integer(y))
    ensures 1 <= m <= 12 ==> IsValidDateParts(Integer(28), Integer(m), Integer(y))
  {
    IsValidDatePartsIff(Integer(29), Integer(2), Integer(y));
    IsValidDatePartsIff(Integer(31), Integer(m), Integer(y));
    IsValidDatePartsIff(Integer(28), Integer(m), Integer(y));
  }

  /** `YYYY-MM-DD`: `String(n).padStart(width, "0")` for each field. */
  function FormatIso(d: CalendarDate): string {
    PadStart(IntToString(d.year), 4, '0') + "-"
    + PadStart(IntToString(d.month), 2, '0') + "-"
    + PadStart(IntToString(d.day), 2, '0')
  }

  /** Reads a `YYYY-MM-DD` string back; anything else, or a date that does not exist, is None. */
  function ParseIsoDate(s: string): Option<CalendarDate> {
    if |s| == 10 && s[4] == '-' && s[7] == '-'
       && AllDigits(s[..4]) && AllDigits(s[5..7]) && AllDigits(s[8..])
    then
      var d := Date(ValueOf(s[..4]), ValueOf(s[5..7]), ValueOf(s[8..]));
      if ValidDate(d) then Some(d) else None
    else None
  }

  lemma FormatIsoDigits(d: CalendarDate)
    requires 0 <= d.year <= 9999
    ensures FormatIso(d) == Digits(d.year, 4) + "-" + Digits(d.month, 2) + "-" + Digits(d.day, 2)
  {
    PaddedIsDigits(d.year, 4);
    PaddedIsDigits(d.month, 2);
    PaddedIsDigits(d.day, 2);
  }

  /** The three fields of a `YYYY-MM-DD` string sit at offsets 0, 5 and 8. */
  lemma IsoFields(a: string, b: string, c: string)
    requires |a| == 4 && |b| == 2 && |c| == 2
    ensures var s := a + "-" + b + "-" + c;
      |s| == 10 && s[4] == '-' && s[7] == '-' && s[..4] == a && s[5..7] == b && s[8..] == c
  {
    var s := a + "-" + b + "-" + c;
    assert s[..4] == a;
    assert s[5..7] == b;
    assert s[8..] == c;
  }

  /** Formatting a date of years 0..9999 and reading it back gives the date. */
  lemma {:induction false} ParseFormatIso(d: CalendarDate)
    requires 0 <= d.year <= 9999
    ensures |FormatIso(d)| == 10
    ensures ParseIsoDate(FormatIso(d)) == Some(d)
  {
    FormatIsoDigits(d);
    IsoFields(Digits(d.year, 4), Digits(d.month, 2), Digits(d.day, 2));
    ValueOfDigits(d.year, 4);
    ValueOfDigits(d.month, 2);
    ValueOfDigits(d.day, 2);
  }

  /** A string the parser accepts is the formatted form of the date it yields. */
  lemma {:induction false} FormatParseIso(s: string)
    requires ParseIsoDate(s).Some?
    ensures FormatIso(ParseIsoDate(s).value) == s
  {
    var a, b, c := s[..4], s[5..7], s[8..];
    assert |a| == 4 && |b| == 2 && |c| == 2;
    DigitsOfValue(a);
    DigitsOfValue(b);
    DigitsOfValue(c);
    var d: CalendarDate := Date(ValueOf(a), ValueOf(b), ValueOf(c));
    assert ParseIsoDate(s) == Some(d);
    FormatIsoDigits(d);
    IsoSplit(s);
  }

  lemma IsoSplit(s: string)
    requires |s| == 10 && s[4] == '-' && s[7] == '-'
    ensures s == s[..4] + "-" + s[5..7] + "-" + s[8..]
  {
  }

  /** `parseDMYToISO`: None when validation fails, else the padded `YYYY-MM-DD` string. */
  function ParseDMYToISO(d: Number, m: Number, y: Number): (r: Option<string>)
    ensures r.None? <==> !IsValidDateParts(d, m, y)
  {
    if !IsValidDateParts(d, m, y) then None
    else
      var dd := PadStart(IntToString(d.value), 2, '0');
      var mm := PadStart(IntToString(m.value), 2, '0');
      var yyyy := PadStart(IntToString(y.value), 4, '0');
      Some(yyyy + "-" + mm + "-" + dd)
  }

  lemma ParseDMYToISOFields(d: Number, m: Number, y: Number)
    requires IsValidDateParts(d, m, y)
    ensures var s := ParseDMYToISO(d, m, y).value;
      |s| == 10 && s[4] == '-' && s[7] == '-'
      && AllDigits(s[..4]) && AllDigits(s[5..7]) && AllDigits(s[8..])
      && ValueOf(s[..4]) == y.value && ValueOf(s[5..7]) == m.value && ValueOf(s[8..]) == d.value
      && ParseIsoDate(s) == Some(Date(y.value, m.value, d.value))
  {
    IsValidDatePartsIff(d, m, y);
    var date := Date(y.value, m.value, d.value);
    assert ParseDMYToISO(d, m, y).value == FormatIso(date);
    ParseFormatIso(date);
    FormatIsoDigits(date);
    ValueOfDigits(date.year, 4);
    ValueOfDigits(date.month, 2);
    ValueOfDigits(date.day, 2);
  }

  /** Strings of three fixed-width fields joined by dashes compare field by field. */
  lemma IsoTextOrder(a1: string, b1: string, c1: string, a2: string, b2: string, c2: string)
    requires |a1| == |a2| && |b1| == |b2|
    ensures LexLess(a1 + "-" + b1 + "-" + c1, a2 + "-" + b2 + "-" + c2) <==>
      LexLess(a1, a2) || (a1 == a2 && (LexLess(b1, b2) || (b1 == b2 && LexLess(c1, c2))))
    ensures a1 + "-" + b1 + "-" + c1 == a2 + "-" + b2 + "-" + c2 <==> a1 == a2 && b1 == b2 && c1 == c2
  {
    var x1, x2 := a1 + "-", a2 + "-";
    var y1, y2 := x1 + b1, x2 + b2;
    var z1, z2 := y1 + "-", y2 + "-";
    LexLessIrreflexive("-");
    LexLessConcat(a1, a2, "-", "-");
    ConcatEq(a1, a2, "-", "-");
    LexLessConcat(x1, x2, b1, b2);
    ConcatEq(x1, x2, b1, b2);
    LexLessConcat(y1, y2, "-", "-");
    ConcatEq(y1, y2, "-", "-");
    LexLessConcat(z1, z2, c1, c2);
    ConcatEq(z1, z2, c1, c2);
  }

  /** On years 0..9999, comparing `YYYY-MM-DD` strings orders dates chronologically. */
  lemma {:induction false} IsoStringOrder(a: CalendarDate, b: CalendarDate)
    requires 0 <= a.year <= 9999 && 0 <= b.year <= 9999
    ensures LexLess(FormatIso(a), FormatIso(b)) <==> DayNumber(a) < DayNumber(b)
    ensures FormatIso(a) == FormatIso(b) <==> a == b
  {
    FormatIsoDigits(a);
    FormatIsoDigits(b);
    DigitsOrder(a.year, b.year, 4);
    DigitsOrder(a.month, b.month, 2);
    DigitsOrder(a.day, b.day, 2);
    IsoTextOrder(Digits(a.year, 4), Digits(a.month, 2), Digits(a.day, 2),
                 Digits(b.year, 4), Digits(b.month, 2), Digits(b.day, 2));
    DayNumberOrderIff(a, b);
  }

  // ---------------------------------------------------------------------------
  // ageBreakdown

  datatype Age = Age(years: int, months: int, days: int)

  /** The length of the month before month `m` of year `y` (December of `y - 1` for January). */
  function PreviousMonthLength(y: int, m: int): int {
    if m == 1 then DaysInMonth(y - 1, 12) else DaysInMonth(y, m - 1)
  }

  /** `new Date(y, m - 1, 0).getDate()`: day 0 of a month is the last day of the month before. */
  lemma PreviousMonthLengthIsDayZero(y: int, m: int)
    requires 1 <= m <= 12
    ensures FromDayNumber(RawDayNumber(y, m, 0)) ==
      if m == 1 then Date(y - 1, 12, PreviousMonthLength(y, m)) else Date(y, m - 1, PreviousMonthLength(y, m))
  {
    var last := if m == 1 then Date(y - 1, 12, 31) else Date(y, m - 1, DaysInMonth(y, m - 1));
    if m == 1 {
      DaysBeforeYearStep(y - 1);
      MonthStep(y - 1, 12);
    } else {
      MonthStep(y, m - 1);
    }
    assert DayNumber(last) == RawDayNumber(y, m, 0);
    FromDayNumberOfDayNumber(last);
  }

  /**
   * `ageBreakdown` as written: field differences, then a negative day
   * difference borrows the length of the month before `now`'s month, then a
   * negative month difference borrows a year.
   */
  function AgeBreakdown(birth: CalendarDate, now: CalendarDate): (a: Age)
    ensures 0 <= a.months <= 11
    ensures a.days == now.day - birth.day
              + (if now.day < birth.day then PreviousMonthLength(now.year, now.month) else 0)
    ensures a.years * 12 + a.months
              == (now.year * 12 + now.month) - (birth.year * 12 + birth.month)
                 - (if now.day < birth.day then 1 else 0)
  {
    var years := now.year - birth.year;
    var months := now.month - birth.month;
    var days := now.day - birth.day;
    var months1 := if days < 0 then months - 1 else months;
    var days1 := if days < 0 then days + PreviousMonthLength(now.year, now.month) else days;
    if months1 < 0 then Age(years - 1, months1 + 12, days1) else Age(years, months1, days1)
  }

  /** Whole years: the difference of years, less one while this year's birthday is still ahead. */
  lemma AgeYearsAreWholeYears(birth: CalendarDate, now: CalendarDate)
    ensures AgeBreakdown(birth, now).years
      == now.year - birth.year
         - (if now.month < birth.month || (now.month == birth.month && now.day < birth.day) then 1 else 0)
  {
  }

  lemma AgeYearsNonNegative(birth: CalendarDate, now: CalendarDate)
    requires !Before(now, birth)
    ensures AgeBreakdown(birth, now).years >= 0
  {
    AgeYearsAreWholeYears(birth, now);
  }

  lemma AgeBreakdownExample()
    ensures AgeBreakdown(Date(2000, 3, 15), Date(2024, 3, 10)) == Age(23, 11, 24)
  {
  }

  /** The day count of `ageBreakdown` as written goes negative: 1990-01-31 to 2023-03-01. */
  lemma AgeBreakdownNegativeDays()
    ensures AgeBreakdown(Date(1990, 1, 31), Date(2023, 3, 1)) == Age(33, 1, -2)
  {
  }

  /**
   * `ageBreakdown` with the borrow corrected: when the day of birth does not
   * exist in the month before `now`'s month, the last day of that month stands
   * for it, so the day count never goes below zero.
   */
  function AgeBreakdownCorrected(birth: CalendarDate, now: CalendarDate): (a: Age)
    ensures 0 <= a.months <= 11 && 0 <= a.days <= 30
    ensures a.years == AgeBreakdown(birth, now).years
    ensures a.months == AgeBreakdown(birth, now).months
    ensures now.day >= birth.day ==> a == AgeBreakdown(birth, now)
  {
    var years := now.year - birth.year;
    var months := now.month - birth.month;
    var days := now.day - birth.day;
    var prev := PreviousMonthLength(now.year, now.month);
    var anniversary := if birth.day < prev then birth.day else prev;
    var months1 := if days < 0 then months - 1 else months;
    var days1 := if days < 0 then prev - anniversary + now.day else days;
    if months1 < 0 then Age(years - 1, months1 + 12, days1) else Age(years, months1, days1)
  }

  lemma AgeBreakdownCorrectedExample()
    ensures AgeBreakdownCorrected(Date(1990, 1, 31), Date(2023, 3, 1)) == Age(33, 1, 1)
  {
  }

  // ---------------------------------------------------------------------------
  // isoWeek and isoWeeksInYear

  /** `Math.ceil(a / 7)`. */
  function CeilDiv7(a: int): int {
    -((-a) / 7)
  }

  /** The Thursday of the Monday-to-Sunday week holding day `n`. */
  function ThursdayOf(n: int): (t: int)
    ensures IsoWeekday(t) == 4 && n - 3 <= t <= n + 3
  {
    var q := n / 7;
    assert n + 4 - IsoWeekday(n) == 7 * q + 3;
    n + 4 - IsoWeekday(n)
  }

  /** How `Date.UTC` reads a year: 0 to 99 stand for 1900 to 1999. */
  function UtcYear(y: int): int {
    if 0 <= y <= 99 then 1900 + y else y
  }

  /** The day `Date.UTC(y, m - 1, d)` stands for; a day past the month's end carries over. */
  function UtcDayNumber(y: int, m: int, d: int): int
    requires 1 <= m <= 12
  {
    RawDayNumber(UtcYear(y), m, d)
  }

  /** The Thursday of the week `isoWeek` puts `date` in, after `Date.UTC` has read its year. */
  function IsoThursday(date: CalendarDate): int {
    ThursdayOf(UtcDayNumber(date.year, date.month, date.day))
  }

  /** The week-numbering year as `isoWeek` sees it: the calendar year of that Thursday. */
  function IsoWeekYear(date: CalendarDate): int {
    FromDayNumber(IsoThursday(date)).year
  }

  /**
   * `isoWeek`: move to the Thursday of the date's week, then count the weeks
   * of that Thursday's year up to it. The count lies in 1..53 unless that
   * Thursday falls in a year 0..99, which `Date.UTC` reads as 19xx again.
   */
  function IsoWeek(date: CalendarDate): (w: int)
    ensures !(0 <= IsoWeekYear(date) <= 99) ==> 1 <= w <= 53
  {
    var thursday := IsoThursday(date);
    var yearStart := UtcDayNumber(FromDayNumber(thursday).year, 1, 1);
    var diffDays := (thursday - yearStart) + 1;
    CeilDiv7(diffDays)
  }

  /** A date of a year 0..99 is numbered as the same day of month of 1900..1999. */
  lemma IsoWeekTwoDigitYear(date: CalendarDate)
    requires 0 <= date.year <= 99 && ValidDate(Date(1900 + date.year, date.month, date.day))
    ensures IsoWeek(date) == IsoWeek(Date(1900 + date.year, date.month, date.day))
  {
    var later := Date(1900 + date.year, date.month, date.day);
    assert UtcYear(later.year) == UtcYear(date.year);
    assert IsoThursday(later) == IsoThursday(date);
  }

  /** The first Thursday of year `y`; by ISO 8601 the week holding it is week 1. */
  function FirstThursday(y: int): (n: int)
    ensures DaysBeforeYear(y) <= n < DaysBeforeYear(y) + 7 && IsoWeekday(n) == 4
  {
    var jan1 := DaysBeforeYear(y);
    var r, q := (3 - jan1) % 7, (3 - jan1) / 7;
    assert jan1 + r == 7 * (-q) + 3;
    SevenSplit(-q, 3);
    jan1 + r
  }

  lemma SevenSplit(k: int, r: int)
    requires 0 <= r < 7
    ensures (7 * k + r) % 7 == r && (7 * k + r) / 7 == k
  {
  }

  lemma CeilDiv7Of(k: int, r: int)
    requires 1 <= r <= 7
    ensures CeilDiv7(7 * k + r) == k + 1
  {
  }

  lemma SameWeekdayGap(a: int, b: int)
    requires a % 7 == b % 7 && a <= b
    ensures b - a == 7 * ((b - a) / 7)
  {
  }

  /** Of two days with the same weekday, the one in the first week of a span comes first. */
  lemma SameWeekdayFirst(start: int, a: int, b: int)
    requires a % 7 == b % 7 && start <= a < start + 7 && start <= b
    ensures a <= b
  {
  }

  /**
   * Section 4.1.4 of ISO 8601:2004: week 1 of a year holds its first
   * Thursday, weeks start on Monday, and the week number counts weeks from there.
   */
  lemma {:induction false} IsoWeekCountsFromFirstThursday(date: CalendarDate)
    ensures var t := IsoThursday(date);
      var first := FirstThursday(IsoWeekYear(date));
      first <= t && (t - first) % 7 == 0 &&
      (!(0 <= IsoWeekYear(date) <= 99) ==> IsoWeek(date) == (t - first) / 7 + 1)
  {
    var t := IsoThursday(date);
    var y := FromDayNumber(t).year;
    var jan1 := DaysBeforeYear(y);
    var first := FirstThursday(y);
    assert jan1 <= t;
    SameWeekdayFirst(jan1, first, t);
    SameWeekdayGap(first, t);
    var k := (t - first) / 7;
    assert DayNumber(Date(y, 1, 1)) == jan1;
    assert t - jan1 + 1 == 7 * k + (first - jan1 + 1);
    CeilDiv7Of(k, first - jan1 + 1);
  }

  /** `isoWeeksInYear`: the week number of December 31, or 52 when that day is in week 1. */
  function IsoWeeksInYear(year: int): (r: int)
    ensures year != -1 ==> r == 52 || r == 53
  {
    var dec31 := Date(UtcYear(year), 12, 31);
    var wk := IsoWeek(dec31);
    IsoWeeksInYearBound(year);
    if wk == 1 then 52 else wk
  }

  lemma IsoWeeksInYearBound(year: int)
    ensures year != -1 ==> IsoWeek(Date(UtcYear(year), 12, 31)) in {1, 52, 53}
  {
    var y := UtcYear(year);
    var dec31 := Date(y, 12, 31);
    assert UtcYear(y) == y;
    var n := DayNumber(dec31);
    assert UtcDayNumber(y, 12, 31) == n;
    MonthStep(y, 12);
    DaysBeforeYearStep(y);
    assert n == DaysBeforeYear(y + 1) - 1;
    var t := ThursdayOf(n);
    if t <= n {
      YearOfDay(t, y);
    } else {
      DaysBeforeYearStep(y + 1);
      YearOfDay(t, y + 1);
    }
  }

  /** Two days of one seven-day span with the same weekday are the same day. */
  lemma SameWeekdayEqual(start: int, a: int, b: int)
    requires a % 7 == b % 7 && start <= a < start + 7 && start <= b < start + 7
    ensures a == b
  {
    SameWeekdayFirst(start, a, b);
    SameWeekdayFirst(start, b, a);
  }

  /**
   * Thursdays around a year end: `t` is the Thursday of the week of the last
   * day of a year of `d1 - d0` days, `f0` and `f1` are the first Thursdays of
   * that year and the next.
   */
  lemma ThursdaysAroundYearEnd(d0: int, d1: int, t: int, f0: int, f1: int)
    requires 365 <= d1 - d0 <= 366
    requires d0 <= f0 < d0 + 7 && d1 <= f1 < d1 + 7 && d1 - 4 <= t <= d1 + 2
    requires f0 % 7 == 3 && f1 % 7 == 3 && t % 7 == 3
    ensures t < d1 ==> (t - f0) % 7 == 0 && (t - f0) / 7 >= 1 && (f1 - f0) / 7 == (t - f0) / 7 + 1
    ensures t >= d1 ==> f1 == t && (f1 - f0) / 7 == 52
  {
    if t < d1 {
      SameWeekdayEqual(d1, f1, t + 7);
      SameWeekdayGap(f0, t);
    } else {
      SameWeekdayEqual(d1, f1, t);
      SameWeekdayGap(f0, f1);
    }
  }

  /** The Thursday of the week of 31 December `d`, and the week-numbering year it gives. */
  lemma Dec31Thursday(d: CalendarDate)
    requires d.month == 12 && d.day == 31 && d.year != -1 && !(0 <= d.year <= 99)
    ensures var t := IsoThursday(d);
      var d1 := DaysBeforeYear(d.year + 1);
      && t == ThursdayOf(d1 - 1)
      && 365 <= d1 - DaysBeforeYear(d.year) <= 366
      && (t < d1 ==> IsoWeekYear(d) == d.year)
      && (t >= d1 ==> IsoWeekYear(d) == d.year + 1)
  {
    var y := d.year;
    var d1 := DaysBeforeYear(y + 1);
    assert UtcYear(y) == y;
    MonthStep(y, 12);
    DaysBeforeYearStep(y);
    var t := IsoThursday(d);
    assert t == ThursdayOf(d1 - 1);
    if t < d1 {
      YearOfDay(t, y);
    } else {
      DaysBeforeYearStep(y + 1);
      YearOfDay(t, y + 1);
    }
  }

  /** The week number of 31 December `d`: that of its Thursday in its own year, or week 1 of the next year. */
  lemma Dec31Week(d: CalendarDate)
    requires d.month == 12 && d.day == 31 && d.year != -1 && !(0 <= d.year <= 99)
    ensures var t := IsoThursday(d);
      var d1 := DaysBeforeYear(d.year + 1);
      && (t < d1 ==> IsoWeek(d) == (t - FirstThursday(d.year)) / 7 + 1)
      && (t >= d1 ==> IsoWeek(d) == (t - FirstThursday(d.year + 1)) / 7 + 1)
  {
    Dec31Thursday(d);
    if IsoThursday(d) < DaysBeforeYear(d.year + 1) {
      WeekInYear(d, d.year);
    } else {
      WeekInYear(d, d.year + 1);
    }
  }

  /** Knowing the week-numbering year `y` of a date fixes its week number. */
  lemma WeekInYear(date: CalendarDate, y: int)
    requires IsoWeekYear(date) == y && !(0 <= y <= 99)
    ensures IsoWeek(date) == (IsoThursday(date) - FirstThursday(y)) / 7 + 1
  {
    IsoWeekCountsFromFirstThursday(date);
  }

  /**
   * The week count read off the week number `wk` of the last day of a year:
   * week 1 of the next year means 52 weeks, any other number is the count.
   */
  lemma WeeksFromYearEnd(d0: int, d1: int, t: int, f0: int, f1: int, wk: int)
    requires 365 <= d1 - d0 <= 366
    requires d0 <= f0 < d0 + 7 && d1 <= f1 < d1 + 7 && d1 - 4 <= t <= d1 + 2
    requires f0 % 7 == 3 && f1 % 7 == 3 && t % 7 == 3
    requires t < d1 ==> wk == (t - f0) / 7 + 1
    requires t >= d1 ==> wk == (t - f1) / 7 + 1
    ensures (if wk == 1 then 52 else wk) == (f1 - f0) / 7
  {
    ThursdaysAroundYearEnd(d0, d1, t, f0, f1);
  }

  /** The week count read off the week number of 31 December `d` is the gap between the two first Thursdays. */
  lemma Dec31Count(d: CalendarDate)
    requires d.month == 12 && d.day == 31 && d.year != -1 && !(0 <= d.year <= 99)
    ensures (if IsoWeek(d) == 1 then 52 else IsoWeek(d)) == (FirstThursday(d.year + 1) - FirstThursday(d.year)) / 7
  {
    Dec31Thursday(d);
    Dec31Week(d);
    WeeksFromYearEnd(DaysBeforeYear(d.year), DaysBeforeYear(d.year + 1), IsoThursday(d),
      FirstThursday(d.year), FirstThursday(d.year + 1), IsoWeek(d));
  }

  /**
   * `isoWeeksInYear` counts the ISO weeks of the year `Date.UTC` reads: the
   * whole weeks from its first Thursday to the first Thursday of the next year.
   */
  lemma {:induction false} IsoWeeksInYearCounts(year: int)
    requires year != -1
    ensures var y := UtcYear(year);
      IsoWeeksInYear(year) == (FirstThursday(y + 1) - FirstThursday(y)) / 7
  {
    var y := UtcYear(year);
    var d: CalendarDate := Date(y, 12, 31);
    Dec31Count(d);
  }

  /** `isoWeeksInYear(y)` for a year 0..99 is that of 1900..1999. */
  lemma IsoWeeksInYearTwoDigit(year: int)
    requires 0 <= year <= 99
    ensures IsoWeeksInYear(year) == IsoWeeksInYear(1900 + year)
  {
  }
}
