/**
 * The marks panel: the date range a grid week selects, the five-way filter
 * over the listed marks, the sorted tag list, and the week a new mark starts
 * in.
 */
module MarksPanel {

  import opened Wrappers
  import opened Strings
  import opened Dates
  import opened StoreApi
  import opened Sequences
  import opened WeekDates
  import opened MarkModal

  // ---------------------------------------------------------------------------
  // The range of a grid week

  /**
   * The effect on `weekIndexFilter`: with a week and a DOB, the range runs
   * from the week's first day to six days later; None leaves the range as it
   * was.
   */
  function WeekFilterRange(dob: Option<string>, weekIndexFilter: Option<int>): (r: Option<(string, string)>)
    ensures r.Some? <==> weekIndexFilter.Some? && Truthy(dob)
    ensures r.Some? ==> r.value.0 == IsoFromWeekIndex(dob.value, weekIndexFilter.value)
                        && r.value.1 == AddDaysText(r.value.0, 6)
  {
    if weekIndexFilter.Some? && Truthy(dob) then
      var start := IsoFromWeekIndex(dob.value, weekIndexFilter.value);
      Some((start, AddDaysText(start, 6)))
    else None
  }

  /** The inclusive bounds on a mark's date; an empty bound imposes nothing. */
  predicate InDateRange(dateISO: string, fromISO: string, toISO: string)
    ensures fromISO == "" && toISO == "" ==> InDateRange(dateISO, fromISO, toISO)
    ensures dateISO == "" ==> (InDateRange(dateISO, fromISO, toISO) <==> fromISO == "" && toISO == "")
  {
    (fromISO == "" || (dateISO != "" && !LexLess(dateISO, fromISO)))
    && (toISO == "" || (dateISO != "" && !LexLess(toISO, dateISO)))
  }

  /** Comparing `YYYY-MM-DD` texts of years 0..9999 is comparing the dates. */
  lemma DateRangeChronological(d: CalendarDate, a: CalendarDate, b: CalendarDate)
    requires 0 <= d.year <= 9999 && 0 <= a.year <= 9999 && 0 <= b.year <= 9999
    ensures InDateRange(FormatIso(d), FormatIso(a), FormatIso(b))
            <==> DayNumber(a) <= DayNumber(d) <= DayNumber(b)
  {
    ParseFormatIso(d);
    ParseFormatIso(a);
    ParseFormatIso(b);
    IsoStringOrder(d, a);
    IsoStringOrder(b, d);
  }

  lemma AddDaysTwice(d: CalendarDate, a: int, b: int)
    ensures AddDays(AddDays(d, a), b) == AddDays(d, a + b)
  {
    DayNumberOrderIff(AddDays(AddDays(d, a), b), AddDays(d, a + b));
  }

  lemma YearOrder(a: CalendarDate, b: CalendarDate)
    requires DayNumber(a) <= DayNumber(b)
    ensures a.year <= b.year
  {
    DayNumberOrderIff(b, a);
  }

  /** The range of week `w`, as texts of its first and last day. */
  lemma {:induction false} WeekRangeTexts(dob: CalendarDate, w: nat)
    requires 0 <= dob.year <= 9999
    requires 1000 <= AddDays(dob, w * 7).year && AddDays(dob, w * 7 + 6).year <= 9999
    ensures 1000 <= AddDays(dob, w * 7 + 6).year && AddDays(dob, w * 7).year <= 9999
    ensures WeekFilterRange(Some(FormatIso(dob)), Some(w))
            == Some((FormatIso(AddDays(dob, w * 7)), FormatIso(AddDays(dob, w * 7 + 6))))
  {
    AddDaysTwice(dob, w * 7, 6);
    YearOrder(AddDays(dob, w * 7), AddDays(dob, w * 7 + 6));
    WeekRangeTextsWithin(dob, w);
  }

  lemma WeekRangeTextsWithin(dob: CalendarDate, w: nat)
    requires 0 <= dob.year <= 9999
    requires 1000 <= AddDays(dob, w * 7).year <= 9999 && 1000 <= AddDays(dob, w * 7 + 6).year <= 9999
    ensures WeekFilterRange(Some(FormatIso(dob)), Some(w))
            == Some((FormatIso(AddDays(dob, w * 7)), FormatIso(AddDays(dob, w * 7 + 6))))
  {
    ParseFormatIso(dob);
    RangeOfParsed(FormatIso(dob), dob, w);
    LocalTextIsIso(AddDays(dob, w * 7));
    LocalTextIsIso(AddDays(dob, w * 7 + 6));
  }

  /** The range of week `w` for a date text that reads as `dob`: the local texts of its first and last day. */
  lemma RangeOfParsed(t: string, dob: CalendarDate, w: nat)
    requires ParseIsoDate(t) == Some(dob)
    requires 1000 <= AddDays(dob, w * 7).year <= 9999
    ensures WeekFilterRange(Some(t), Some(w)) == Some((LocalText(AddDays(dob, w * 7)), LocalText(AddDays(dob, w * 7 + 6))))
  {
    ShiftParsed(t, dob, w * 7);
    LastDayText(dob, w);
    RangeOfTexts(t, w, LocalText(AddDays(dob, w * 7)), LocalText(AddDays(dob, w * 7 + 6)));
  }

  /** Six days on from the local text of week `w`'s first day is the local text of its last day. */
  lemma LastDayText(dob: CalendarDate, w: nat)
    requires 1000 <= AddDays(dob, w * 7).year <= 9999
    ensures AddDaysText(LocalText(AddDays(dob, w * 7)), 6) == LocalText(AddDays(dob, w * 7 + 6))
  {
    AddDaysTwice(dob, w * 7, 6);
    ShiftLocal(AddDays(dob, w * 7), 6);
  }

  /** Shifting the local text of a date of four-digit year is taking the local text of the shifted date. */
  lemma ShiftLocal(d: CalendarDate, days: int)
    requires 1000 <= d.year <= 9999
    ensures AddDaysText(LocalText(d), days) == LocalText(AddDays(d, days))
  {
    LocalTextParses(d);
    ShiftParsed(LocalText(d), d, days);
  }

  /** The range of week `w` is the text `w * 7` days on from the DOB text, and the text six days on from that. */
  lemma RangeOfTexts(t: string, w: nat, first: string, last: string)
    requires t != "" && AddDaysText(t, w * 7) == first && AddDaysText(first, 6) == last
    ensures WeekFilterRange(Some(t), Some(w)) == Some((first, last))
  {
  }

  lemma ShiftParsed(t: string, d: CalendarDate, days: int)
    requires ParseIsoDate(t) == Some(d)
    ensures t != "" && AddDaysText(t, days) == LocalText(AddDays(d, days))
  {
  }

  lemma LocalTextParses(d: CalendarDate)
    requires 1000 <= d.year <= 9999
    ensures ParseIsoDate(LocalText(d)) == Some(d)
  {
    LocalTextIsIso(d);
    ParseFormatIso(d);
  }

  /**
   * The range set for week `w` holds exactly the dates 7w to 7w + 6 days
   * after birth; from week 1 on, those are exactly the dates of week `w`.
   */
  lemma {:induction false} WeekRangeIsWeek(dob: CalendarDate, w: nat, d: CalendarDate)
    requires 0 <= dob.year <= 9999 && 0 <= d.year <= 9999
    requires 1000 <= AddDays(dob, w * 7).year && AddDays(dob, w * 7 + 6).year <= 9999
    ensures var range := WeekFilterRange(Some(FormatIso(dob)), Some(w));
      range.Some?
      && (InDateRange(FormatIso(d), range.value.0, range.value.1)
          <==> 7 * w <= DayNumber(d) - DayNumber(dob) <= 7 * w + 6)
      && (InDateRange(FormatIso(d), range.value.0, range.value.1) ==> WeekOfDate(dob, d) == w)
      && (w >= 1 ==> (InDateRange(FormatIso(d), range.value.0, range.value.1) <==> WeekOfDate(dob, d) == w))
  {
    WeekRangeTexts(dob, w);
    DateRangeChronological(d, AddDays(dob, w * 7), AddDays(dob, w * 7 + 6));
    if 7 * w <= DayNumber(d) - DayNumber(dob) <= 7 * w + 6 {
      WeekOfDateInRange(dob, d, w);
    }
    if w >= 1 {
      WeekOfDateIff(dob, d, w);
    }
  }

  /**
   * "New" with a range active: the form opens in the week of the range's
   * first day; without a DOB or a range it opens with no fields.
   */
  function NewMarkInitial(dob: Option<string>, fromISO: string): (i: Initial)
    ensures Truthy(dob) && fromISO != "" ==>
      i == NoFields.(weekIndex := Some(WeekNumber(dob.value, fromISO)))
    ensures !(Truthy(dob) && fromISO != "") ==> i == NoFields
  {
    if Truthy(dob) && fromISO != "" then NoFields.(weekIndex := Some(WeekNumber(dob.value, fromISO)))
    else NoFields
  }

  /** Choosing week `w` in the grid and pressing "New" starts a mark in week `w`. */
  lemma {:induction false} NewMarkInSelectedWeek(dob: CalendarDate, w: nat)
    requires 0 <= dob.year <= 9999
    requires 1000 <= AddDays(dob, w * 7).year <= 9999
    ensures var range := WeekFilterRange(Some(FormatIso(dob)), Some(w));
      range.Some?
      && NewMarkInitial(Some(FormatIso(dob)), range.value.0) == NoFields.(weekIndex := Some(Num(w)))
  {
    ParseFormatIso(dob);
    assert FormatIso(dob) != "";
    var start := AddDays(dob, w * 7);
    AddDaysTextOfIso(dob, w * 7);
    LocalTextIsIso(start);
    ParseFormatIso(start);
    assert FormatIso(start) != "";
    WeekRoundTrip(dob, w);
  }

  // ---------------------------------------------------------------------------
  // The filter

  /** `"all" | LifeMark["kind"]`. */
  datatype FilterKind = AllKinds | OnlyKind(kind: Kind)

  /** The panel's filter state: query, tag (`"all"` for any), kind and date bounds. */
  datatype MarkFilter = MarkFilter(q: string, tag: string, kind: FilterKind, fromISO: string, toISO: string)

  /** The query, trimmed and lower-cased, occurs in the lower-cased title or notes. */
  predicate MatchesQuery(m: LifeMark, q: string)
    ensures Trim(q) == "" ==> MatchesQuery(m, q)
    ensures Includes(ToLower(m.title), ToLower(Trim(q))) ==> MatchesQuery(m, q)
  {
    var qLower := ToLower(Trim(q));
    qLower == ""
    || Includes(ToLower(m.title), qLower)
    || (Truthy(m.notes) && Includes(ToLower(m.notes.value), qLower))
  }

  /** The `filter` callback: all five conditions hold. */
  predicate Passes(m: LifeMark, f: MarkFilter)
    ensures Passes(m, f) ==> MatchesQuery(m, f.q) && InDateRange(m.dateISO, f.fromISO, f.toISO)
    ensures f.tag != "all" && Passes(m, f) ==> m.tag == Some(f.tag)
    ensures f.kind.OnlyKind? && Passes(m, f) ==> m.kind == f.kind.kind
    ensures f.tag == "all" && f.kind.AllKinds? && f.fromISO == "" && f.toISO == "" ==>
      (Passes(m, f) <==> MatchesQuery(m, f.q))
  {
    && MatchesQuery(m, f.q)
    && (f.tag == "all" || m.tag == Some(f.tag))
    && (f.kind.AllKinds? || m.kind == f.kind.kind)
    && InDateRange(m.dateISO, f.fromISO, f.toISO)
  }

  /** The query ignores case and surrounding whitespace. */
  lemma QueryNormalised(m: LifeMark, q: string)
    ensures MatchesQuery(m, ToLower(q)) <==> MatchesQuery(m, q)
    ensures MatchesQuery(m, Trim(q)) <==> MatchesQuery(m, q)
  {
    TrimLower(q);
    ToLowerIdempotent(Trim(q));
    TrimIdempotent(q);
  }

  /** A blank query, tag "all", kind "all" and no dates let every mark through. */
  lemma NoFilterPassesAll(m: LifeMark, q: string)
    requires Trim(q) == ""
    ensures Passes(m, MarkFilter(q, "all", AllKinds, "", ""))
  {
  }

  /** A non-blank query matches where it occurs at some position of the lower-cased title or notes. */
  lemma QueryMeansOccurrence(m: LifeMark, q: string)
    requires ToLower(Trim(q)) != ""
    ensures var qLower := ToLower(Trim(q));
      MatchesQuery(m, q) <==>
        (exists i :: OccursAt(ToLower(m.title), qLower, i))
        || (Truthy(m.notes) && exists i :: OccursAt(ToLower(m.notes.value), qLower, i))
  {
    var qLower := ToLower(Trim(q));
    IncludesAt(ToLower(m.title), qLower);
    if Truthy(m.notes) {
      IncludesAt(ToLower(m.notes.value), qLower);
    }
  }

  /** `data.filter(...)`: the marks that pass, in list order. */
  function Filtered(data: seq<LifeMark>, f: MarkFilter): (r: seq<LifeMark>)
    ensures IsSubsequence(r, data)
    ensures forall i :: 0 <= i < |r| ==> Passes(r[i], f)
    ensures forall m :: m in data && Passes(m, f) ==> m in r
    ensures forall m :: m in data ==> multiset(r)[m] == if Passes(m, f) then multiset(data)[m] else 0
  {
    FilterMultiset(data, m => Passes(m, f));
    Filter(data, m => Passes(m, f))
  }

  /** Without any filter the panel lists every mark. */
  lemma NoFilterListsAll(data: seq<LifeMark>, q: string)
    requires Trim(q) == ""
    ensures Filtered(data, MarkFilter(q, "all", AllKinds, "", "")) == data
  {
    forall i | 0 <= i < |data| ensures Passes(data[i], MarkFilter(q, "all", AllKinds, "", "")) {
      NoFilterPassesAll(data[i], q);
    }
    FilterAll(data, m => Passes(m, MarkFilter(q, "all", AllKinds, "", "")));
  }

  // ---------------------------------------------------------------------------
  // The tag list

  predicate StrictlySorted(s: seq<string>) {
    forall i, j :: 0 <= i < j < |s| ==> LexLess(s[i], s[j])
  }

  /** Some mark carries the non-empty tag `t`. */
  predicate HasTag(data: seq<LifeMark>, t: string) {
    t != "" && exists i :: 0 <= i < |data| && data[i].tag == Some(t)
  }

  /** `t` put in its place in a sorted list, unless already there. */
  function InsertSorted(t: string, s: seq<string>): (r: seq<string>)
    requires StrictlySorted(s)
    ensures StrictlySorted(r)
    ensures forall x :: x in r <==> x == t || x in s
  {
    if s == [] then [t]
    else if t == s[0] then s
    else if LexLess(t, s[0]) then
      forall j | 0 <= j < |s| ensures LexLess(t, s[j]) {
        if j > 0 { LexLessTransitive(t, s[0], s[j]); }
      }
      [t] + s
    else
      var rest := InsertSorted(t, s[1..]);
      LexLessTotal(t, s[0]);
      forall x | x in rest ensures LexLess(s[0], x) {
        if x != t {
          var j :| 1 <= j < |s| && s[j] == x;
        }
      }
      [s[0]] + rest
  }

  /**
   * `tags`: the non-empty tags of the marks, each once, in sorted order
   * (`Array.from(set).sort()`).
   */
  function Tags(data: seq<LifeMark>): (r: seq<string>)
    ensures StrictlySorted(r)
    ensures forall t :: t in r <==> HasTag(data, t)
    decreases |data|
  {
    if data == [] then []
    else
      var init, m := data[..|data| - 1], data[|data| - 1];
      var r0 := Tags(init);
      assert data == init + [m];
      assert forall t :: HasTag(data, t) <==> HasTag(init, t) || (t != "" && m.tag == Some(t)) by {
        forall t | HasTag(data, t) ensures HasTag(init, t) || (t != "" && m.tag == Some(t)) {
          var i :| 0 <= i < |data| && data[i].tag == Some(t);
          if i < |init| { assert init[i] == data[i]; }
        }
        forall t | HasTag(init, t) ensures HasTag(data, t) {
          var i :| 0 <= i < |init| && init[i].tag == Some(t);
          assert data[i] == init[i];
        }
      }
      if m.tag.Some? && m.tag.value != "" then InsertSorted(m.tag.value, r0) else r0
  }

  /** Strictly sorted lists with the same elements are equal. */
  lemma {:induction false} SortedUnique(a: seq<string>, b: seq<string>)
    requires StrictlySorted(a) && StrictlySorted(b)
    requires forall x :: x in a <==> x in b
    ensures a == b
    decreases |a|
  {
    if a != [] {
      assert a[0] in a;
    }
    if b != [] {
      assert b[0] in b;
    }
    if a != [] && b != [] {
      assert a[0] in b && b[0] in a;
      if a[0] != b[0] {
        var j :| 0 <= j < |a| && a[j] == b[0];
        var k :| 0 <= k < |b| && b[k] == a[0];
        LexLessAsymmetric(a[0], b[0]);
        assert false;
      }
      forall x | x in a[1..] ensures x in b[1..] {
        var j :| 0 <= j < |a[1..]| && a[1..][j] == x;
        assert LexLess(a[0], a[j + 1]) && a[j + 1] == x && x in a;
        LexLessIrreflexive(x);
        var k :| 0 <= k < |b| && b[k] == x;
        assert k != 0;
        assert b[1..][k - 1] == x;
      }
      forall x | x in b[1..] ensures x in a[1..] {
        var j :| 0 <= j < |b[1..]| && b[1..][j] == x;
        assert LexLess(b[0], b[j + 1]) && b[j + 1] == x && x in b;
        LexLessIrreflexive(x);
        var k :| 0 <= k < |a| && a[k] == x;
        assert k != 0;
        assert a[1..][k - 1] == x;
      }
      SortedUnique(a[1..], b[1..]);
    }
  }

  /** Any sorted, duplicate-free list of exactly the tags present is `Tags(data)`. */
  lemma TagsAreDetermined(data: seq<LifeMark>, r: seq<string>)
    requires StrictlySorted(r) && forall t :: t in r <==> HasTag(data, t)
    ensures r == Tags(data)
  {
    SortedUnique(r, Tags(data));
  }
}
