/**
 * The onboarding form: the ordered checks on the date of birth and the life
 * expectancy, and the two store calls a confirmed form makes. The message
 * texts are replaced by the check that failed.
 */
module Onboarding {

  import opened Wrappers
  import opened Dates
  import opened StoreApi

  /** The checks of `validate`, in the order it makes them; a failing one is the error shown. */
  datatype Check =
    | DatePresent
    | DateValid
    | NotInFuture
    | AgeAtMost110
    | ExpectancyIsNumber
    | ExpectancyInRange
    | AgeBelowExpectancy

  const Checks: seq<Check> :=
    [DatePresent, DateValid, NotInFuture, AgeAtMost110, ExpectancyIsNumber, ExpectancyInRange, AgeBelowExpectancy]

  const MaxAge: int := 110
  const MinExpectancy: real := 60.0
  const MaxExpectancy: real := 110.0

  /** The expectancy field: `Number(value || 0)`, which may be infinite or NaN. */
  datatype Expectancy = Finite(value: real) | NonFinite

  /** `useState<number>(80)`. */
  const DefaultExpectancy: Expectancy := Finite(80.0)

  /** `ageBreakdown(dateISO).years` at the instant `nowMs`. */
  function AgeYears(dob: CalendarDate, nowMs: int): int {
    AgeBreakdownCorrected(dob, DateOfMs(nowMs)).years
  }

  /** An age of `years` whole years is below the expectancy `e`. */
  predicate Below(years: int, e: real) {
    (years as real) < e
  }

  /**
   * Whether one check passes, each on its own: the checks after the second
   * pass only for a text that is a date.
   */
  predicate Holds(c: Check, dateISO: string, expectancy: Expectancy, nowMs: int) {
    match c
    case DatePresent => dateISO != ""
    case DateValid => ParseIsoDate(dateISO).Some?
    case NotInFuture => ParseIsoDate(dateISO).Some? && MidnightMs(ParseIsoDate(dateISO).value) <= nowMs
    case AgeAtMost110 => ParseIsoDate(dateISO).Some? && AgeYears(ParseIsoDate(dateISO).value, nowMs) <= MaxAge
    case ExpectancyIsNumber => expectancy.Finite?
    case ExpectancyInRange => expectancy.Finite? && MinExpectancy <= expectancy.value <= MaxExpectancy
    case AgeBelowExpectancy =>
      ParseIsoDate(dateISO).Some? && expectancy.Finite?
      && Below(AgeYears(ParseIsoDate(dateISO).value, nowMs), expectancy.value)
  }

  /** The first of `checks` that does not pass. */
  function FirstFailing(checks: seq<Check>, dateISO: string, expectancy: Expectancy, nowMs: int): (r: Option<Check>)
    ensures r.None? <==> forall i :: 0 <= i < |checks| ==> Holds(checks[i], dateISO, expectancy, nowMs)
    ensures r.Some? ==> exists i :: 0 <= i < |checks| && checks[i] == r.value
                          && !Holds(checks[i], dateISO, expectancy, nowMs)
                          && forall j :: 0 <= j < i ==> Holds(checks[j], dateISO, expectancy, nowMs)
  {
    if checks == [] then None
    else if !Holds(checks[0], dateISO, expectancy, nowMs) then Some(checks[0])
    else
      var r := FirstFailing(checks[1..], dateISO, expectancy, nowMs);
      assert forall i :: 1 <= i < |checks| ==> checks[i] == checks[1..][i - 1];
      if r.Some? then
        var i :| 0 <= i < |checks[1..]| && checks[1..][i] == r.value
                 && !Holds(checks[1..][i], dateISO, expectancy, nowMs)
                 && forall j :: 0 <= j < i ==> Holds(checks[1..][j], dateISO, expectancy, nowMs);
        assert checks[i + 1] == r.value;
        r
      else r
  }

  /**
   * `validate()`: the date must be there, be a date, not lie after now and
   * give an age of at most 110; the expectancy must be a number from 60 to
   * 110 and above the age.
   */
  function Validate(dateISO: string, expectancy: Expectancy, nowMs: int): (r: Option<Check>)
    ensures r.None? ==>
      && ParseIsoDate(dateISO).Some?
      && var dob := ParseIsoDate(dateISO).value;
         MidnightMs(dob) <= nowMs
         && AgeYears(dob, nowMs) <= MaxAge
         && expectancy.Finite? && MinExpectancy <= expectancy.value <= MaxExpectancy
         && Below(AgeYears(dob, nowMs), expectancy.value)
    ensures dateISO == "" ==> r == Some(DatePresent)
  {
    if dateISO == "" then Some(DatePresent)
    else if ParseIsoDate(dateISO).None? then Some(DateValid)
    else
      var dob := ParseIsoDate(dateISO).value;
      if MidnightMs(dob) > nowMs then Some(NotInFuture)
      else
        var years := AgeYears(dob, nowMs);
        if years > MaxAge then Some(AgeAtMost110)
        else if expectancy.NonFinite? then Some(ExpectancyIsNumber)
        else if expectancy.value < MinExpectancy || expectancy.value > MaxExpectancy then Some(ExpectancyInRange)
        else if !Below(years, expectancy.value) then Some(AgeBelowExpectancy)
        else None
  }

  lemma FirstFailingCons(c: Check, rest: seq<Check>, dateISO: string, expectancy: Expectancy, nowMs: int)
    ensures FirstFailing([c] + rest, dateISO, expectancy, nowMs)
            == if Holds(c, dateISO, expectancy, nowMs) then FirstFailing(rest, dateISO, expectancy, nowMs) else Some(c)
  {
    assert ([c] + rest)[1..] == rest;
  }

  /** `validate` check by check: the first one that fails is reported. */
  lemma ValidateByChecks(d: string, e: Expectancy, n: int)
    ensures Validate(d, e, n) ==
      if !Holds(DatePresent, d, e, n) then Some(DatePresent)
      else if !Holds(DateValid, d, e, n) then Some(DateValid)
      else if !Holds(NotInFuture, d, e, n) then Some(NotInFuture)
      else if !Holds(AgeAtMost110, d, e, n) then Some(AgeAtMost110)
      else if !Holds(ExpectancyIsNumber, d, e, n) then Some(ExpectancyIsNumber)
      else if !Holds(ExpectancyInRange, d, e, n) then Some(ExpectancyInRange)
      else if !Holds(AgeBelowExpectancy, d, e, n) then Some(AgeBelowExpectancy)
      else None
  {
    if d != "" && ParseIsoDate(d).Some? {
      var dob := ParseIsoDate(d).value;
      var years := AgeYears(dob, n);
      assert Holds(AgeAtMost110, d, e, n) <==> years <= MaxAge;
      assert e.Finite? ==> (Holds(AgeBelowExpectancy, d, e, n) <==> Below(years, e.value));
    }
  }

  /** `validate` reports the first check of the fixed order that fails, and nothing when all pass. */
  lemma ValidateIsFirstFailing(dateISO: string, expectancy: Expectancy, nowMs: int)
    ensures Validate(dateISO, expectancy, nowMs) == FirstFailing(Checks, dateISO, expectancy, nowMs)
  {
    var d, e, n := dateISO, expectancy, nowMs;
    var c7 := [AgeBelowExpectancy];
    var c6 := [ExpectancyInRange] + c7;
    var c5 := [ExpectancyIsNumber] + c6;
    var c4 := [AgeAtMost110] + c5;
    var c3 := [NotInFuture] + c4;
    var c2 := [DateValid] + c3;
    assert Checks == [DatePresent] + c2;
    FirstFailingCons(AgeBelowExpectancy, [], d, e, n);
    assert c7 == [AgeBelowExpectancy] + [];
    FirstFailingCons(ExpectancyInRange, c7, d, e, n);
    FirstFailingCons(ExpectancyIsNumber, c6, d, e, n);
    FirstFailingCons(AgeAtMost110, c5, d, e, n);
    FirstFailingCons(NotInFuture, c4, d, e, n);
    FirstFailingCons(DateValid, c3, d, e, n);
    FirstFailingCons(DatePresent, c2, d, e, n);
    ValidateByChecks(d, e, n);
  }

  /** A date of birth at or before now's midnight passes the future check whatever the time of day. */
  lemma NotInFutureByDay(dob: CalendarDate, nowMs: int)
    ensures MidnightMs(dob) <= nowMs <==> DayNumber(dob) <= DayNumber(DateOfMs(nowMs))
  {
    var today := DateOfMs(nowMs);
    MidnightOrder(dob, today);
    MidnightOrder(today, dob);
  }

  /** What a confirmed form does: the error it shows, the store calls it makes, and the DOB it reports. */
  datatype Outcome = Outcome(error: Option<Check>, calls: seq<StoreCall>, confirmed: Option<string>)

  /**
   * `submit`: a failing check is shown and nothing is written; otherwise the
   * DOB and the expectancy are stored, in that order, and the DOB is reported.
   */
  function Submit(dateISO: string, expectancy: Expectancy, nowMs: int): (o: Outcome)
    ensures o.error == Validate(dateISO, expectancy, nowMs)
    ensures o.error.Some? ==> o.calls == [] && o.confirmed.None?
    ensures o.error.None? ==>
      o.calls == [SetDob(dateISO), SetExpectancy(expectancy.value)] && o.confirmed == Some(dateISO)
  {
    var err := Validate(dateISO, expectancy, nowMs);
    if err.Some? then Outcome(err, [], None)
    else Outcome(None, [SetDob(dateISO), SetExpectancy(expectancy.value)], Some(dateISO))
  }

  /**
   * Everything onboarding writes is in policy: the stored DOB is a real
   * date not after today, at most 110 years back, and the stored expectancy
   * is from 60 to 110 and above the age.
   */
  lemma {:induction false} WrittenValuesValid(dateISO: string, expectancy: Expectancy, nowMs: int, c: StoreCall)
    requires c in Submit(dateISO, expectancy, nowMs).calls
    ensures c.SetDob? ==>
      ParseIsoDate(c.dobISO).Some?
      && DayNumber(ParseIsoDate(c.dobISO).value) <= DayNumber(DateOfMs(nowMs))
      && AgeYears(ParseIsoDate(c.dobISO).value, nowMs) <= MaxAge
    ensures c.SetExpectancy? ==>
      MinExpectancy <= c.years <= MaxExpectancy
      && Below(AgeYears(ParseIsoDate(dateISO).value, nowMs), c.years)
    ensures c.SetDob? || c.SetExpectancy?
  {
    var o := Submit(dateISO, expectancy, nowMs);
    assert o.error.None?;
    NotInFutureByDay(ParseIsoDate(dateISO).value, nowMs);
  }

  /** With the default expectancy, a past date of birth under 60 years back is accepted. */
  lemma DefaultAcceptsYoung(dob: CalendarDate, nowMs: int)
    requires 0 <= dob.year <= 9999
    requires MidnightMs(dob) <= nowMs && AgeYears(dob, nowMs) < 60
    ensures Validate(FormatIso(dob), DefaultExpectancy, nowMs) == None
  {
    ParseFormatIso(dob);
  }

  /** A date of birth after now is refused as in the future, whatever the expectancy. */
  lemma FutureRefused(dob: CalendarDate, expectancy: Expectancy, nowMs: int)
    requires 0 <= dob.year <= 9999 && DayNumber(DateOfMs(nowMs)) < DayNumber(dob)
    ensures Validate(FormatIso(dob), expectancy, nowMs) == Some(NotInFuture)
  {
    ParseFormatIso(dob);
    NotInFutureByDay(dob, nowMs);
  }
}
