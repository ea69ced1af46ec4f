# Schedule editor: a Dafny model

This project models the core of a weekly schedule editor written in
TypeScript/React. It covers two parts of the editor:

- **Time arithmetic.** The clock-string functions of
  `src/components/schedule/utils.ts`: `timeToMinutes`, `minutesToTime`,
  `formatTimeToDisplayOnStrip` and `createInitialSchedules`.
- **The editing engine.** The logic inside the `ScheduleEditor` component
  (`src/components/schedule/ScheduleEditor.tsx`):
  - the interval store `schedules`;
  - the boundary resolver `getBoundaries`;
  - the drag-session state machine: row and strip mouse-down, mouse move and
    mouse up;
  - the manual-entry save with its "new interval wins" overlap resolution;
  - the two delete handlers and the `schedulesByDay` grouping.

Entries keep minutes of the day as integers, not `"HH:MM"` strings. Every
place where the source writes a minute with `minutesToTime` and later reads it
with `timeToMinutes` is modelled by `Utils.StoredMinutes`. That function clamps
its argument to `[0, 1440]`, and `Utils.RoundTrip` proves it equals the
read-back. `timeToMinutes` returns `Option<int>`, where `None` stands for
JavaScript's `NaN`.

Modules, one per file:

| file | module | contents |
|---|---|---|
| `wrappers.dfy` | `Wrappers` | `Option` |
| `types.dfy` | `Types` | `Entry`, `DragState`, JavaScript truthiness of an id |
| `utils.dfy` | `Utils` | the clock-string functions and their round trips |
| `store.dfy` | `Store` | `filter`, `find` and the stable `sort` on the store; the invariants (day-disjoint, well-formed, unique ids, on the 15-minute grid, sorted) |
| `boundaries.dfy` | `Gap` | `getBoundaries` as a function and its gap lemmas |
| `drag.dfy` | `Drag` | snapping, session start, the pointer-move updater, the create commit; when a session is *safe* |
| `manual.dfy` | `Manual` | the panel draft, `handleManualEntrySave` as a function, its counting and disjointness lemmas |
| `editor.dfy` | `Editor` | class `ScheduleEditor`: its fields are the component's state, and one method per handler, each proved against the functions above |

The drag paths keep the no-overlap invariant only when some conditions hold,
and the model states those conditions explicitly:

- **The on-grid condition.** The pointer is clamped first and snapped
  afterwards. So a gap edge off the 15-minute grid can be overshot: a right
  edge of 308 lets the pointer reach 315 (`Drag.PointerOvershoot`). The safety
  lemmas therefore require on-grid stores and gaps.
- **The anchor condition.** An edit session's gap is found around the snapped
  pointer, not around the entry. A press on a strip is always over the strip,
  so on an on-grid store the snapped pointer lies on the entry, edges
  included. On an off-grid store it can snap past the entry's edge into a
  neighbour: the gap then contains that neighbour, and a move creates an
  overlap (`Drag.EditAnchorOutsideEntry`). `Drag.BeginEditSafe` therefore
  requires the snapped pointer to lie on the entry, edges included.
- **Zero-length entries.** A resize can leave an entry with start equal to
  end (`Drag.ResizeToZeroLength`). An empty neighbour sitting exactly at the
  snapped pointer closes the gap to that one minute, so `Drag.BeginEditSafe`
  also requires the day's other entries to be non-empty.
- **Fresh ids.** The ids of new entries come from `Date.now()`. Distinct ids
  are kept only when the caller's id is not in the store already
  (`Store.FreshId`, `Manual.FreshStamp`).

The manual save keeps the store day-disjoint with no condition beyond a
disjoint input (`Manual.ManualSavePreserves`).

## Model

| member | source | states |
|---|---|---|
| Utils.TimeToMinutesSpecial | src/components/schedule/utils.ts:6-7 | `"24:00"` reads as 1440 and the empty string as 0 |
| Utils.TimeToMinutesFields | src/components/schedule/utils.ts:5-10 | two digit runs joined by a colon read as hours × 60 + minutes, with `"24:00"` agreeing with its special case |
| Utils.ClockTimeValue | src/components/schedule/utils.ts:8-9 | a zero-padded clock time `"00:00"`..`"23:59"` reads as HH × 60 + MM, a value below 1440 |
| Utils.TimeToMinutes | src/components/schedule/utils.ts:5-10 | a value read is never negative; `NaN` only for a string other than `""` and `"24:00"` |
| Utils.MinutesToTime | src/components/schedule/utils.ts:12-18 | below 1440 the result is a zero-padded clock time; from 1440 up it is `"24:00"` |
| Utils.MinutesToTimeCollapses | src/components/schedule/utils.ts:13-14 | every value from 1440 up gives `"24:00"` and every value from 0 down gives `"00:00"`, so the function is not injective |
| Utils.MinutesToTimeShape | src/components/schedule/utils.ts:15-17 | for 0 < m < 1440 the result is `TwoDigits(m / 60) + ":" + TwoDigits(m % 60)`, a clock time whose fields denote m / 60 and m % 60 |
| Utils.MinutesToTimeClock | src/components/schedule/utils.ts:15-17 | for 0 < m < 1440 the result is a clock time whose value is m |
| Utils.RoundTrip | src/components/schedule/utils.ts:5-18 | reading back what `minutesToTime(m)` wrote gives m clamped to [0, 1440]; this is the identity on [0, 1440] |
| Utils.ReverseRoundTrip | src/components/schedule/utils.ts:5-18 | writing back what was read from a clock time, or from `"24:00"`, gives the same string |
| Utils.FormatTimeToDisplayOnStrip | src/components/schedule/utils.ts:20-24 | the result is never `"24:00"`, and every other input is returned unchanged |
| Utils.DisplayIdempotent | src/components/schedule/utils.ts:20-24 | formatting twice is formatting once; `"24:00"` shows as `"00:00"` and `""` as `""` |
| Utils.CreateInitialSchedules | src/components/schedule/utils.ts:26-32 | one entry per day index i, on day i, whose start and end are what `"00:00"` and `"24:00"` read as; pairwise distinct ids |
| Utils.InitialIdsDistinct | src/components/schedule/utils.ts:28 | the ids `sched-day-i` of different day indexes differ |
| Store.InitialSchedulesValid | src/components/schedule/utils.ts:26-32 | the initial store is day-disjoint, well-formed, on the grid, sorted by day and start, with unique ids |
| Store.Filter | src/components/schedule/ScheduleEditor.tsx:395-399 | `filter` keeps exactly the elements the test accepts, and the result is no longer than the input |
| Store.FindById | src/components/schedule/ScheduleEditor.tsx:159-160 | some entry is found iff an entry has the id, and the one found is the first with that id |
| Store.Sort | src/components/schedule/ScheduleEditor.tsx:267-273 | the result is sorted by the comparator and is a permutation of the input |
| Store.DeleteByIdSpec | src/components/schedule/ScheduleEditor.tsx:395-399 | exactly the entries with the id go, the rest stay in order (the deletion distributes over concatenation); disjointness, well-formedness, unique ids, the grid and sortedness are kept |
| Store.DeleteDaySpec | src/components/schedule/ScheduleEditor.tsx:477-479 | exactly the entries of the day go, the rest stay in order, the day is left empty; every invariant is kept |
| Store.UniqueIdsSub | src/components/schedule/ScheduleEditor.tsx:267-273 | any sub-collection of a store with distinct ids, in any order (a filter, a sort), has distinct ids |
| Store.UniqueIdsAppend | src/components/schedule/ScheduleEditor.tsx:267-273 | two stores with distinct ids and no id in common join into a store with distinct ids |
| Store.OnDaySnoc | src/components/schedule/ScheduleEditor.tsx:486-489 | appending an entry appends it to its own day's group only |
| Gap.Considered | src/components/schedule/ScheduleEditor.tsx:89-90 | the considered entries are exactly those of the day whose id is not the excluded one |
| Gap.Scan | src/components/schedule/ScheduleEditor.tsx:98-106 | the scan never lowers the left edge, stays below 1440, keeps the anchor between the edges, and takes each edge from the start value or from an entry's edge |
| Gap.BoundariesWithin | src/components/schedule/ScheduleEditor.tsx:83-107 | (0, 1440) without an anchor; with an anchor a in [0, 1440], 0 ≤ left ≤ a ≤ right ≤ 1440; each edge is an edge of the day or of a considered entry |
| Gap.BoundariesFreeGap | src/components/schedule/ScheduleEditor.tsx:89-106 | when no considered entry has the anchor strictly inside it, no considered entry overlaps the open gap (left, right) |
| Gap.BoundariesOnGrid | src/components/schedule/ScheduleEditor.tsx:94-106 | on a store whose edges are on the 15-minute grid, both edges of the gap are on the grid |
| Gap.BoundariesIgnoreOthers | src/components/schedule/ScheduleEditor.tsx:89-90 | inserting an entry of another day, or the excluded entry, anywhere in the store leaves the result unchanged |
| Gap.BoundariesExample | src/components/schedule/ScheduleEditor.tsx:83-107 | entries 60-120 and 300-360 with anchor 200 give the gap (120, 300) |
| Editor.ScheduleEditor.GetBoundaries | src/components/schedule/ScheduleEditor.tsx:83-110 | the loop with its `break` returns exactly `Gap.Boundaries` of the store |
| Drag.Snap | src/components/schedule/ScheduleEditor.tsx:118-119 | `Math.round(r / 15) * 15` is a multiple of 15 within 7.5 of r |
| Drag.PointerWithin | src/components/schedule/ScheduleEditor.tsx:187-194 | the clamped-then-snapped pointer minute is a multiple of 15, and when both gap edges are on the grid it lies in [left, right] |
| Drag.PointerOvershoot | src/components/schedule/ScheduleEditor.tsx:187-194 | with a right edge of 308 the snapped pointer reaches 315, past the edge |
| Drag.BeginCreateSafe | src/components/schedule/ScheduleEditor.tsx:118-140 | a create session is refused iff the snapped minute is in [start, end) of an entry of the day; a session begun inside the day on an on-grid store is safe |
| Drag.BeginEdit | src/components/schedule/ScheduleEditor.tsx:159-176 | an edit session opens iff some entry has the id |
| Drag.BeginEditSafe | src/components/schedule/ScheduleEditor.tsx:157-176 | on a disjoint, well-formed, on-grid store with unique ids whose other entries of the day are non-empty, with the snapped pointer on the entry (edges included), the session is safe, its anchor and recorded start are on the grid, and it records the entry's start and the handle |
| Drag.EditAnchorOutsideEntry | src/components/schedule/ScheduleEditor.tsx:157-165 | on an off-grid store a press at 113 on the strip 112-118 snaps to 120, outside the entry; the gap is the whole day, holding the neighbour 118-200, and a move then makes the two entries overlap |
| Drag.MoveUpdate | src/components/schedule/ScheduleEditor.tsx:196-230 | the store keeps its length, ids and days; only entries with the session's id change; the start handle keeps the end and the end handle the start; a create session changes nothing |
| Drag.EditWithinGap | src/components/schedule/ScheduleEditor.tsx:199-225 | start := min(cur, end) for the start handle, end := max(cur, start) for the end handle, the clamped start and a kept duration for a move; the entry stays in the gap |
| Drag.MoveWithinGap | src/components/schedule/ScheduleEditor.tsx:211-225 | in any gap inside the day at least as long as the strip, a move keeps the strip's length, keeps it within the gap and starts it at the clamped start, wherever the strip was before |
| Drag.EditKeepsWellFormed | src/components/schedule/ScheduleEditor.tsx:199-225 | in any session and at any pointer minute, an edit leaves a well-formed entry within the day with start ≤ end, keeping its id and day |
| Drag.MoveUpdateKeeps | src/components/schedule/ScheduleEditor.tsx:196-230 | whatever the session, a pointer move keeps a well-formed store well-formed and distinct ids distinct |
| Drag.EditOnGrid | src/components/schedule/ScheduleEditor.tsx:199-225 | an on-grid entry edited in an on-grid gap, at an on-grid pointer, anchor and recorded start, stays on the grid |
| Drag.MoveFollowsPointer | src/components/schedule/ScheduleEditor.tsx:211-221 | a move that fits in the gap starts exactly at the initial start plus the pointer's travel |
| Drag.MoveUpdatePreserves | src/components/schedule/ScheduleEditor.tsx:196-230 | a move of a safe session keeps the session safe; it keeps disjointness (given unique ids), unique ids, well-formedness and the grid; a move keeps every strip's length |
| Drag.ResizeToZeroLength | src/components/schedule/ScheduleEditor.tsx:203-206 | dragging the start handle of 60-120 past its end leaves the empty entry 120-120 |
| Drag.CreateCommitSpec | src/components/schedule/ScheduleEditor.tsx:236-276 | a release adds exactly one entry [min(anchor, final), max(anchor, final)] on the session's day iff it spans at least 15 minutes, and the result is sorted; otherwise the store is unchanged |
| Drag.CreateSpanInGap | src/components/schedule/ScheduleEditor.tsx:245-259 | the span a safe create session commits lies in its gap and on the grid |
| Drag.CreateCommitPreserves | src/components/schedule/ScheduleEditor.tsx:260-273 | committing a safe create session keeps disjointness, well-formedness and the grid |
| Drag.CreateCommitUnique | src/components/schedule/ScheduleEditor.tsx:260-273 | committing with an id no entry carries keeps ids distinct |
| Manual.BlankDraft | src/components/schedule/ScheduleEditor.tsx:302-307 | the blank draft, `"00:00"` to `"23:59"` with no day, is one the form can hold |
| Manual.OpenDraft | src/components/schedule/ScheduleEditor.tsx:293-300 | the draft for an entry starting before 1440 is one the form can hold, and its end is never `"24:00"` |
| Manual.FormMinutes | src/components/schedule/ScheduleEditor.tsx:329-330 | a form time reads as a minute in [0, 1440], and below 1440 unless it is `"24:00"` |
| Manual.PanelRoundTrip | src/components/schedule/ScheduleEditor.tsx:296-330 | what the panel shows for an entry reads back as its start and end; an end of `"24:00"` is shown as `"23:59"` and read back as 1440, and an end of 1439 also comes back as 1440 |
| Manual.ManualSaveValidation | src/components/schedule/ScheduleEditor.tsx:325-334 | no day selected is refused first, then an end not after the start (with `"23:59"` read as 1440); otherwise the save succeeds |
| Manual.ResolveDayCount | src/components/schedule/ScheduleEditor.tsx:343-357 | one target day drops exactly its entries that overlap the new interval and keeps every other entry as often as it occurred |
| Manual.ResolveAllCount | src/components/schedule/ScheduleEditor.tsx:342-358 | the day loop drops exactly the entries of target days that overlap the new interval |
| Manual.ResolveAllFlag | src/components/schedule/ScheduleEditor.tsx:342-358 | the flag of the day loop is set iff some entry of a target day overlapped the new interval |
| Manual.NewEntriesCount | src/components/schedule/ScheduleEditor.tsx:359-366 | the second loop pushes exactly one entry per target day, spanning the new interval under its manual id |
| Manual.NewEntriesDisjoint | src/components/schedule/ScheduleEditor.tsx:359-366 | the pushed entries of distinct days are pairwise apart |
| Manual.ManualIdsDistinct | src/components/schedule/ScheduleEditor.tsx:361 | one clock reading gives different days different ids |
| Manual.NewEntriesUnique | src/components/schedule/ScheduleEditor.tsx:359-366 | the pushed entries of distinct days carry distinct ids |
| Manual.ManualSaveUnique | src/components/schedule/ScheduleEditor.tsx:337-371 | a save keeps ids distinct when no entry of the store already carries one of the new ids |
| Manual.BaseCount | src/components/schedule/ScheduleEditor.tsx:339-341 | the save starts from the store without the entries carrying a truthy editing id |
| Manual.ManualSaveCommit | src/components/schedule/ScheduleEditor.tsx:337-371 | a successful save keeps every entry it does not drop (the edited one, target-day overlaps), adds one new entry per target day, and leaves the store sorted by day and start |
| Manual.ManualSaveFlag | src/components/schedule/ScheduleEditor.tsx:336-353 | the flag is set iff an entry other than the edited one overlapped the new interval on a target day |
| Manual.SavedMember | src/components/schedule/ScheduleEditor.tsx:337-371 | every entry after a save is a kept entry of the store or a new entry of a target day |
| Manual.ManualSavePreserves | src/components/schedule/ScheduleEditor.tsx:337-371 | a save keeps a day-disjoint store day-disjoint and a well-formed store well-formed |
| Manual.EndOfDaySentinel | src/components/schedule/ScheduleEditor.tsx:330-335 | an end of `"23:59"` stores 1440, which the strip shows as `"00:00"` |
| Manual.NoSavedEnd1439 | src/components/schedule/ScheduleEditor.tsx:330-335 | no save stores the end minute 1439 |
| Manual.ResaveKeepsEntry | src/components/schedule/ScheduleEditor.tsx:323-371 | re-saving an entry unchanged from the panel gives back the same interval under a new id, drops nothing else and reports no replacement |
| Manual.ManualSaveReplacesDefault | src/components/schedule/ScheduleEditor.tsx:323-371 | on any store whose only entry on a day is its full-day default, saving one interval on that day alone makes the new entry the day's only one, keeps every other day's entries and reports the replacement |
| Manual.ManualSaveOnlyDefault | src/components/schedule/ScheduleEditor.tsx:323-371 | on a store holding one day's full-day default only, the same save leaves exactly the new entry |
| Manual.ExampleStartTime | src/components/schedule/ScheduleEditor.tsx:329 | the start `"09:00"` reads as 540 |
| Manual.ExampleEndTime | src/components/schedule/ScheduleEditor.tsx:330 | the end `"17:00"` reads as 1020 |
| Manual.ExampleResolve | src/components/schedule/ScheduleEditor.tsx:342-358 | 09:00-17:00 on day 2 drops that day's full-day default and sets the flag |
| Editor.ScheduleEditor.constructor | src/components/schedule/ScheduleEditor.tsx:41-68 | the store is `initialSchedules` or the initial store, with no session and a closed, blank panel; the initial store is tidy, on the grid, with unique ids |
| Editor.ScheduleEditor.ResetSchedules | src/components/schedule/ScheduleEditor.tsx:41-43 | the store is replaced and nothing else changes |
| Editor.ScheduleEditor.RowMouseDown | src/components/schedule/ScheduleEditor.tsx:112-143 | the session becomes `Drag.BeginCreate` of the store, or stays as it was when that refuses; a safe state stays safe |
| Editor.ScheduleEditor.StripDragStart | src/components/schedule/ScheduleEditor.tsx:145-179 | the session becomes `Drag.BeginEdit` of the store, or stays as it was when no entry has the id; under the conditions of `Drag.BeginEditSafe` the new session is safe |
| Editor.ScheduleEditor.MouseMove | src/components/schedule/ScheduleEditor.tsx:181-234 | the store becomes `Drag.MoveUpdate` of the session; any session keeps the store well-formed and its ids distinct; a safe session stays safe and keeps a tidy store tidy and an on-grid store on the grid |
| Editor.ScheduleEditor.MouseUp | src/components/schedule/ScheduleEditor.tsx:236-279 | the store becomes `Drag.CreateCommit` of the session and the session ends; a safe session keeps the store tidy and on the grid; an id no entry carries keeps ids distinct |
| Editor.ScheduleEditor.OpenManualEntryPanel | src/components/schedule/ScheduleEditor.tsx:292-316 | the draft of the entry or the blank draft, in an open panel; the store and the session are unchanged |
| Editor.ScheduleEditor.SaveManualEntry | src/components/schedule/ScheduleEditor.tsx:323-388 | the outcome is `Manual.ManualSave`; a save replaces the store and closes the panel, a refusal changes nothing; a tidy store stays tidy; ids stay distinct when no entry carries one of the new ids |
| Editor.Save | src/components/schedule/ScheduleEditor.tsx:323-371 | the validations and the two loops compute exactly `Manual.ManualSave` |
| Editor.ResolveDays | src/components/schedule/ScheduleEditor.tsx:342-358 | the first `days.forEach` computes exactly `Manual.ResolveAll`: the kept entries and the flag |
| Editor.PushEntries | src/components/schedule/ScheduleEditor.tsx:359-366 | the second `days.forEach` appends exactly `Manual.NewEntries` |
| Editor.ScheduleEditor.DeleteScheduleFromManualPanel | src/components/schedule/ScheduleEditor.tsx:390-414 | with a truthy editing id, every entry with that id goes and the panel closes; otherwise nothing changes; a tidy store stays tidy, distinct ids stay distinct and an on-grid store stays on the grid |
| Editor.ScheduleEditor.DeleteDaySchedules | src/components/schedule/ScheduleEditor.tsx:476-483 | every entry of the day goes and nothing else changes; a tidy store stays tidy, distinct ids stay distinct and an on-grid store stays on the grid |
| Editor.ScheduleEditor.SchedulesByDay | src/components/schedule/ScheduleEditor.tsx:485-490 | the keys are exactly the days holding an entry, and each group is that day's entries in store order |

## Left out

- Pixel-to-minute conversion (`getGridProperties`, `getBoundingClientRect`, `x / gridWidth * 1440`) depends on the DOM and uses floating point. The pointer is a whole raw minute passed in by the caller, so the path where `getGridProperties` returns `null` is not modelled.
- Window listener wiring, manual-panel positioning and dragging, toast messages and all JSX are not modelled. They are UI and notification code. The save keeps only the boolean "removed" flag.
- Editing the draft's fields and toggling its days happen in JSX handlers, which are not modelled. The draft's days are a duplicate-free sequence in `Set` insertion order.
- React's scheduling of `setState` updaters is not modelled. The save is one function returning the new store together with the flag, so the flag is read after the updater has run.
- `Date.now()` is not modelled. The ids it produces are built from parameters: `stamp` for the manual save and `freshId` for a create commit. Nothing in the source makes them unused (two saves in one millisecond repeat an id), so distinct ids are kept only under the premise that the new ids are fresh (`Store.FreshId`, `Manual.FreshStamp`).
- The `isDragging` field of `DragState` is always true while a session exists, so it is not a field of the model.
- `handleFinalSave` / `onSave` is not modelled. It hands the store to the caller.
- `constants.ts` is not part of this model. The number of days `daysOfWeek` has is a parameter `dayCount`.
- Utils.TimeToMinutes: `Number(field)` is modelled only for runs of decimal digits (the empty run as 0); signs, spaces, decimals and exponents are read as `NaN`. Strings outside the form's values never reach the save.
- Utils.TimeToMinutes: `timeStr.split(':')` is modelled by its first two fields only, which are all the source destructures.
- Manual.OpenDraft: a stored start of 1440 would show as `"24:00"`, which the form cannot hold. The draft is valid only for entries starting before the end of the day.
- Manual.PanelRoundTrip: an entry ending at 1439 is shown as `"23:59"` and so is re-saved ending at 1440. The lemma states this exception rather than a plain round trip.
- Drag.BeginEditSafe: requires the snapped pointer to lie on the entry, edges included, the store to be on the grid and the day's other entries to be non-empty. Off the grid the snapped pointer can leave the entry and give an unsafe gap (`Drag.EditAnchorOutsideEntry`); an empty neighbour at the pointer shrinks the gap to one minute.
- Editor.ScheduleEditor.SaveManualEntry: not proved to keep the store on the grid, because a manual time may be any minute. After such a save the drag safety results apply only to stores that are on the grid again.
- Drag.MoveUpdatePreserves: disjointness is proved only for stores with unique ids, since the updater rewrites every entry carrying the session's id.
- Editor.ScheduleEditor.RowMouseDown: safety is proved only for raw minutes inside the day and for on-grid stores, because an off-grid edge can be overshot (`Drag.PointerOvershoot`).
- Editor.ScheduleEditor.MouseMove: a pointer move is not proved to keep the store sorted by day and start. The source does not re-sort after a move either.
- Store.Sort: the insertion sort is stable, like JavaScript's `sort`, but stability is not stated as a contract. The comparator reads the entries' minutes directly instead of re-parsing their strings.
- Editor.ScheduleEditor.SchedulesByDay: the result is a `map` from day numbers. The source's `Record` is keyed by strings.
