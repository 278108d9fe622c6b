/**
 * The date/week helpers the marks panel and the mark form share (each file
 * has its own copy): shifting a `YYYY-MM-DD` date by whole days, and the week
 * of the grid a date falls in counted from the date of birth. Local time is
 * taken to be UTC, so a day is always 24 hours.
 */
module WeekDates {

  import opened Wrappers
  import opened Decimal
  import opened Dates

  /** The date `days` days after `d` (before it for negative `days`). */
  function AddDays(d: CalendarDate, days: int): (r: CalendarDate)
    ensures DayNumber(r) == DayNumber(d) + days
  {
    FromDayNumber(DayNumber(d) + days)
  }

  /** `` `${y}-${m}-${dd}` ``: month and day padded to two digits, the year not padded. */
  function LocalText(d: CalendarDate): string {
    IntToString(d.year) + "-" + PadStart(IntToString(d.month), 2, '0') + "-"
    + PadStart(IntToString(d.day), 2, '0')
  }

  /** What the getters of an invalid `Date` give: `String(NaN)` for each field. */
  const InvalidDateText: string := "NaN-NaN-NaN"

  /** `addDays(iso, days)`: the text read as a date, shifted, written back. */
  function AddDaysText(iso: string, days: int): (r: string)
    ensures ParseIsoDate(iso).None? ==> r == InvalidDateText
  {
    match ParseIsoDate(iso)
    case None => InvalidDateText
    case Some(d) => LocalText(AddDays(d, days))
  }

  /** `isoFromWeekIndex(dobISO, w)`: the first day of week `w` of the grid. */
  function IsoFromWeekIndex(dobISO: string, w: int): (r: string)
    ensures ParseIsoDate(dobISO).None? ==> r == InvalidDateText
    ensures ParseIsoDate(dobISO).Some? ==> r == LocalText(AddDays(ParseIsoDate(dobISO).value, w * 7))
  {
    AddDaysText(dobISO, w * 7)
  }

  /** The week of the grid `date` falls in: whole weeks since birth, never below 0. */
  function WeekOfDate(dob: CalendarDate, date: CalendarDate): (w: nat)
    ensures w == 0 <==> DayNumber(date) - DayNumber(dob) < 7
    ensures w > 0 ==> 7 * w <= DayNumber(date) - DayNumber(dob) < 7 * w + 7
  {
    Max(0, (DayNumber(date) - DayNumber(dob)) / 7)
  }

  /**
   * `weekIndexFromISO(dobISO, dateISO)`; None where the source computes NaN,
   * because one of the texts is not a date.
   */
  function WeekIndexFromISO(dobISO: string, dateISO: string): (r: Option<nat>)
    ensures r.Some? <==> ParseIsoDate(dobISO).Some? && ParseIsoDate(dateISO).Some?
  {
    match (ParseIsoDate(dobISO), ParseIsoDate(dateISO))
    case (Some(a), Some(b)) => Some(WeekOfDate(a, b))
    case _ => None
  }

  /** From year 1000 on, the unpadded year has four digits and the text is the `YYYY-MM-DD` form. */
  lemma LocalTextIsIso(d: CalendarDate)
    requires 1000 <= d.year
    ensures LocalText(d) == FormatIso(d)
  {
    NatToStringLengthAtLeast(d.year, 3);
  }

  /** Shifting a formatted date by text is shifting it by day numbers. */
  lemma AddDaysTextOfIso(d: CalendarDate, days: int)
    requires 0 <= d.year <= 9999
    ensures AddDaysText(FormatIso(d), days) == LocalText(AddDays(d, days))
  {
    ParseFormatIso(d);
  }

  /** Every day of week `w` (from day `7w` to day `7w + 6` after birth) is in week `w`. */
  lemma WeekOfDateInRange(dob: CalendarDate, date: CalendarDate, w: nat)
    requires 7 * w <= DayNumber(date) - DayNumber(dob) <= 7 * w + 6
    ensures WeekOfDate(dob, date) == w
  {
  }

  /** The days of week `w >= 1` are exactly the days from `7w` to `7w + 6` after birth. */
  lemma WeekOfDateIff(dob: CalendarDate, date: CalendarDate, w: nat)
    requires w >= 1
    ensures WeekOfDate(dob, date) == w <==> 7 * w <= DayNumber(date) - DayNumber(dob) <= 7 * w + 6
  {
  }

  /**
   * The round trip: the first day of week `w`, written and read back, lies in
   * week `w`, for dates the four-digit text covers.
   */
  lemma WeekRoundTrip(dob: CalendarDate, w: nat)
    requires 0 <= dob.year <= 9999
    requires 1000 <= AddDays(dob, w * 7).year <= 9999
    ensures WeekIndexFromISO(FormatIso(dob), IsoFromWeekIndex(FormatIso(dob), w)) == Some(w)
  {
    var start := AddDays(dob, w * 7);
    AddDaysTextOfIso(dob, w * 7);
    LocalTextIsIso(start);
    ParseFormatIso(dob);
    ParseFormatIso(start);
    WeekOfDateInRange(dob, start, w);
  }
}
