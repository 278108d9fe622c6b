/**
 * The marks store as its callers see it: the shape of a mark and the calls
 * that change the store. Only the calls are modelled; how the store keeps
 * marks (`listMarks`, `addMark`, `updateMark`, `removeMark`,
 * `setExpectancy`) is not part of this model.
 */
module StoreApi {

  import opened Wrappers

  /** `LifeMark["kind"]`. */
  datatype Kind = Milestone | Plan | Note

  /**
   * A JavaScript number as a submitted week carries it: an integer, or NaN
   * where the week was computed from a text that is not a date.
   */
  datatype Num = Num(value: int) | NaN

  /** `LifeMark`: a dated entry placed in one week of the grid. */
  datatype LifeMark = LifeMark(
    id: string,
    title: string,
    kind: Kind,
    dateISO: string,
    weekIndex: int,
    tag: Option<string>,
    notes: Option<string>)

  /** `Omit<LifeMark, "id">`: what a form submits. */
  datatype MarkPayload = MarkPayload(
    title: string,
    kind: Kind,
    dateISO: string,
    weekIndex: Num,
    tag: Option<string>,
    notes: Option<string>)

  /** A call into the store. */
  datatype StoreCall =
    | AddMark(payload: MarkPayload)
    | UpdateMark(id: string, payload: MarkPayload)
    | SetDob(dobISO: string)
    | SetExpectancy(years: real)
}
