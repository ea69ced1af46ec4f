/** The records of the schedule editor (src/components/schedule/types.ts). */
module Types {
  import opened Wrappers

  type Id = string

  /** A scheduled interval `[start, end)` on one day of the week. The source
      keeps `startTime` and `endTime` as clock strings; the model keeps the
      minute values those strings denote (see `Utils.StoredMinutes`). */
  datatype Entry = Entry(id: Id, day: nat, start: int, end: int)

  datatype DragKind = Create | Edit

  /** Which part of a strip the pointer grabbed; `New` is the handle of a
      create session. */
  datatype Handle = Start | End | Move | New

  /** An open drag session. The source's `isDragging` flag is always true while
      a session exists, so it is not a field here. */
  datatype DragState = DragState(
    kind: DragKind,
    day: nat,
    handle: Handle,
    scheduleId: Option<Id>,
    initialStart: Option<int>,
    initialMouse: int,
    left: int,
    right: int)

  /** JavaScript truthiness of an optional id: `undefined`, `null` and `""`
      are all falsy. */
  predicate Truthy(id: Option<Id>) {
    id.Some? && id.value != ""
  }
}
