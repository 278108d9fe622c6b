/**
 * The form that creates or edits a mark: the fields it opens with, and the
 * one store call its submission makes.
 */
module MarkModal {

  import opened Wrappers
  import opened Dates
  import opened StoreApi
  import opened WeekDates

  /** `Partial<LifeMark> & { weekIndex?: number }`: what the form is opened with. */
  datatype Initial = Initial(
    id: Option<string>,
    title: Option<string>,
    kind: Option<Kind>,
    dateISO: Option<string>,
    weekIndex: Option<Num>,
    tag: Option<string>,
    notes: Option<string>)

  const NoFields: Initial := Initial(None, None, None, None, None, None, None)

  /** A whole mark handed to the form for editing. */
  function FromMark(m: LifeMark): Initial {
    Initial(Some(m.id), Some(m.title), Some(m.kind), Some(m.dateISO), Some(Num(m.weekIndex)), m.tag, m.notes)
  }

  /** The form's state. */
  datatype Form = Form(
    id: Option<string>,
    title: string,
    kind: Kind,
    dateISO: string,
    tag: string,
    notes: string)

  /** A JavaScript string used as a condition: present and non-empty. */
  predicate Truthy(s: Option<string>) {
    s.Some? && s.value != ""
  }

  /** `x || undefined` for a string field. */
  function OrAbsent(s: string): (r: Option<string>)
    ensures r.None? <==> s == ""
    ensures r.Some? ==> r.value == s
  {
    if s == "" then None else Some(s)
  }

  /**
   * `weekIndexFromISO(dobISO, dateISO)` as a JavaScript number: NaN when one
   * of the texts is not a date.
   */
  function WeekNumber(dobISO: string, dateISO: string): (n: Num)
    ensures n.NaN? <==> WeekIndexFromISO(dobISO, dateISO).None?
    ensures n.Num? ==> n.value == WeekIndexFromISO(dobISO, dateISO).value && n.value >= 0
  {
    match WeekIndexFromISO(dobISO, dateISO)
    case Some(w) => Num(w)
    case None => NaN
  }

  /** `isoFromWeekIndex(dobISO, n)`; a NaN week makes an invalid date, written as NaN fields. */
  function WeekStart(dobISO: string, n: Num): (r: string)
    ensures n.NaN? ==> r == InvalidDateText
  {
    match n
    case Num(w) => IsoFromWeekIndex(dobISO, w)
    case NaN => InvalidDateText
  }

  /**
   * The effect that runs when the form opens: absent fields take their
   * defaults, and the date is the given one, else the first day of the given
   * week, else today (`today` is the local calendar date).
   */
  function OpenForm(initial: Option<Initial>, dob: Option<string>, today: CalendarDate): (f: Form)
    ensures var i := initial.GetOr(NoFields);
      && f.id == i.id
      && f.title == i.title.GetOr("") && f.kind == i.kind.GetOr(Note)
      && f.tag == i.tag.GetOr("") && f.notes == i.notes.GetOr("")
      && f.dateISO != ""
      && (Truthy(i.dateISO) ==> f.dateISO == i.dateISO.value)
      && (!Truthy(i.dateISO) && i.weekIndex.Some? && Truthy(dob) ==>
            f.dateISO == WeekStart(dob.value, i.weekIndex.value))
      && (!Truthy(i.dateISO) && !(i.weekIndex.Some? && Truthy(dob)) ==> f.dateISO == LocalText(today))
  {
    var i := initial.GetOr(NoFields);
    var next0 := i.dateISO.GetOr("");
    var next1 := if next0 == "" && i.weekIndex.Some? && Truthy(dob)
                 then WeekStart(dob.value, i.weekIndex.value) else next0;
    var next2 := if next1 == "" then LocalText(today) else next1;
    Form(i.id, i.title.GetOr(""), i.kind.GetOr(Note), next2, i.tag.GetOr(""), i.notes.GetOr(""))
  }

  /** The week a submission records: from the form's date and the DOB when both are there. */
  function SubmittedWeek(f: Form, initial: Option<Initial>, dob: Option<string>): (w: Num)
    ensures Truthy(dob) && f.dateISO != "" ==> w == WeekNumber(dob.value, f.dateISO)
    ensures Truthy(dob) && f.dateISO != "" && w.Num? ==> w.value >= 0
    ensures !(Truthy(dob) && f.dateISO != "") ==> w == initial.GetOr(NoFields).weekIndex.GetOr(Num(0))
  {
    if Truthy(dob) && f.dateISO != "" then WeekNumber(dob.value, f.dateISO)
    else initial.GetOr(NoFields).weekIndex.GetOr(Num(0))
  }

  /**
   * `onSubmit`: exactly one store call, an update of the form's mark when it
   * has an id and an addition otherwise; empty tag and notes are left out,
   * and an empty date becomes today's UTC date.
   */
  function Submit(f: Form, initial: Option<Initial>, dob: Option<string>, todayUtc: CalendarDate): (c: StoreCall)
    ensures c.AddMark? || c.UpdateMark?
    ensures c.UpdateMark? <==> Truthy(f.id)
    ensures c.UpdateMark? ==> c.id == f.id.value
    ensures c.payload.title == f.title && c.payload.kind == f.kind
    ensures c.payload.dateISO == if f.dateISO != "" then f.dateISO else FormatIso(todayUtc)
    ensures c.payload.tag == OrAbsent(f.tag) && c.payload.notes == OrAbsent(f.notes)
    ensures c.payload.weekIndex == SubmittedWeek(f, initial, dob)
  {
    var payload := MarkPayload(
      f.title, f.kind,
      if f.dateISO != "" then f.dateISO else FormatIso(todayUtc),
      SubmittedWeek(f, initial, dob),
      OrAbsent(f.tag), OrAbsent(f.notes));
    if Truthy(f.id) then UpdateMark(f.id.value, payload) else AddMark(payload)
  }

  /** Opened with only a week and a DOB, the form proposes the first day of that week. */
  lemma OpenedForWeek(dobISO: string, w: int, today: CalendarDate)
    requires dobISO != ""
    ensures OpenForm(Some(NoFields.(weekIndex := Some(Num(w)))), Some(dobISO), today)
            == Form(None, "", Note, IsoFromWeekIndex(dobISO, w), "", "")
  {
  }

  /** A new, untitled note whose date lies in week `w` is added in week `w`. */
  lemma SubmitNewNote(dobISO: string, dateISO: string, w: int, initial: Option<Initial>, todayUtc: CalendarDate)
    requires dobISO != "" && dateISO != "" && WeekNumber(dobISO, dateISO) == Num(w)
    ensures Submit(Form(None, "", Note, dateISO, "", ""), initial, Some(dobISO), todayUtc)
            == AddMark(MarkPayload("", Note, dateISO, Num(w), None, None))
  {
  }

  /**
   * Opening the form for week `w` and submitting it untouched adds a note in
   * week `w`: the proposed date lies in that week.
   */
  lemma {:induction false} OpenForWeekThenSubmit(dob: CalendarDate, w: nat, today: CalendarDate, todayUtc: CalendarDate)
    requires 0 <= dob.year <= 9999
    requires 1000 <= AddDays(dob, w * 7).year <= 9999
    ensures var initial := Some(NoFields.(weekIndex := Some(Num(w))));
      var f := OpenForm(initial, Some(FormatIso(dob)), today);
      Submit(f, initial, Some(FormatIso(dob)), todayUtc)
        == AddMark(MarkPayload("", Note, IsoFromWeekIndex(FormatIso(dob), w), Num(w), None, None))
  {
    var initial := Some(NoFields.(weekIndex := Some(Num(w))));
    ParseFormatIso(dob);
    var dobText := FormatIso(dob);
    assert dobText != "";
    var start := IsoFromWeekIndex(dobText, w);
    OpenedForWeek(dobText, w, today);
    WeekRoundTrip(dob, w);
    assert WeekNumber(dobText, start) == Num(w);
    SubmitNewNote(dobText, start, w, initial, todayUtc);
  }

  /**
   * Editing a mark and saving it untouched updates that mark with its own
   * fields, its week recomputed from its date when there is a DOB.
   */
  lemma {:induction false} EditThenSubmit(m: LifeMark, dob: Option<string>, today: CalendarDate, todayUtc: CalendarDate)
    requires m.id != "" && m.dateISO != ""
    requires m.tag != Some("") && m.notes != Some("")
    ensures var f := OpenForm(Some(FromMark(m)), dob, today);
      var week := if Truthy(dob) then WeekNumber(dob.value, m.dateISO) else Num(m.weekIndex);
      Submit(f, Some(FromMark(m)), dob, todayUtc)
        == UpdateMark(m.id, MarkPayload(m.title, m.kind, m.dateISO, week, m.tag, m.notes))
  {
    var f := OpenForm(Some(FromMark(m)), dob, today);
    assert f.dateISO == m.dateISO;
    assert OrAbsent(f.tag) == m.tag;
    assert OrAbsent(f.notes) == m.notes;
  }
}
