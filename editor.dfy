/** The state of the `ScheduleEditor` component of
    src/components/schedule/ScheduleEditor.tsx and the handlers that change
    it. Each `setState` call becomes an assignment to a field; each handler
    is proved against the pure functions of `Gap`, `Drag` and `Manual`, and
    says which invariants of the store and the session it keeps. */
module Editor {
  import opened Wrappers
  import opened Types
  import opened Utils
  import opened Store
  import opened Gap
  import opened Drag
  import opened Manual

  class ScheduleEditor {
    /** `schedules`, the interval store. */
    var schedules: seq<Entry>
    /** `dragState`: the open drag session, if any. */
    var session: Option<DragState>
    /** `manualEntryData`: the contents of the manual-entry panel. */
    var draft: Draft
    /** `isManualEntryPanelOpen`. */
    var panelOpen: bool

    /** The panel holds values its time inputs can show. */
    predicate Valid()
      reads this
    {
      ValidDraft(draft)
    }

    /** No two entries of one day overlap and every entry lies within the
        day. */
    predicate Tidy()
      reads this
    {
      DayDisjoint(schedules) && WellFormed(schedules)
    }

    /** The open session, if any, is safe for the store: a create session's
        anchor lies in its free gap, and an edit session's entry lies in its
        free gap on a store with distinct ids. */
    predicate SessionSafe()
      reads this
    {
      match session
      case None => true
      case Some(st) =>
        || CreateSafe(schedules, st)
        || (EditSafe(schedules, st) && UniqueIds(schedules))
    }

    /** The initial state: `initialSchedules || createInitialSchedules()`,
        no session and a closed, blank panel. */
    constructor (initial: Option<seq<Entry>>, dayCount: nat)
      ensures schedules == (if initial.Some? then initial.value else CreateInitialSchedules(dayCount))
      ensures session == None && draft == BlankDraft() && !panelOpen
      ensures Valid()
      ensures initial.None? ==> Tidy() && OnGrid(schedules) && UniqueIds(schedules)
    {
      schedules := if initial.Some? then initial.value else CreateInitialSchedules(dayCount);
      session := None;
      draft := BlankDraft();
      panelOpen := false;
      InitialSchedulesValid(dayCount);
    }

    /** The effect on `[initialSchedules]`: the store is replaced, nothing
        else changes. */
    method ResetSchedules(initial: Option<seq<Entry>>, dayCount: nat)
      modifies this
      ensures schedules == (if initial.Some? then initial.value else CreateInitialSchedules(dayCount))
      ensures session == old(session) && draft == old(draft) && panelOpen == old(panelOpen)
      ensures initial.None? ==> Tidy() && OnGrid(schedules) && UniqueIds(schedules)
    {
      schedules := if initial.Some? then initial.value else CreateInitialSchedules(dayCount);
      InitialSchedulesValid(dayCount);
    }

    /** `getBoundaries(dayIndex, excludeId, dragInfo)`: the sorted scan over
        the considered entries, stopping at the first one that starts at or
        after the anchor. */
    method GetBoundaries(day: nat, exclude: Option<Id>, anchor: Option<int>) returns (b: Bounds)
      ensures b == Boundaries(schedules, day, exclude, anchor)
    {
      var ds := Sort(ByStart, Considered(schedules, day, exclude));
      var left, right := 0, DayMinutes;
      if anchor.None? {
        return Bounds(left, right);
      }
      var a := anchor.value;
      var i := 0;
      while i < |ds|
        invariant 0 <= i <= |ds|
        invariant Scan(ds, a, 0) == Scan(ds[i..], a, left)
        invariant right == DayMinutes
      {
        var x := ds[i];
        assert ds[i..][0] == x && ds[i..][1..] == ds[i + 1..];
        if x.end <= a {
          left := Max(left, x.end);
        }
        if x.start >= a {
          right := Min(right, x.start);
          break;
        }
        i := i + 1;
      }
      b := Bounds(left, right);
    }

    /** `handleRowMouseDown(dayIndex, e)` with the pointer at minute `raw`:
        a create session anchored at the snapped minute, unless that minute
        is inside an entry of the day. */
    method RowMouseDown(day: nat, raw: int)
      modifies this
      ensures var st := BeginCreate(old(schedules), day, raw);
        session == if st.Some? then st else old(session)
      ensures schedules == old(schedules) && draft == old(draft) && panelOpen == old(panelOpen)
      ensures 0 <= raw <= DayMinutes && OnGrid(schedules) && old(SessionSafe()) ==> SessionSafe()
    {
      var a := Snap(raw);
      if Inside(schedules, day, a) {
        return;
      }
      var b := GetBoundaries(day, None, Some(a));
      session := Some(DragState(Create, day, New, None, None, a, b.left, b.right));
      BeginCreateSafe(schedules, day, raw);
    }

    /** `handleStripDragStart(dayIndex, handle, scheduleId, e)` with the
        pointer at minute `raw`: an edit session on the entry with the id,
        unless no entry has it. A session begun on a tidy, on-grid store
        with distinct ids and no other empty entry on the day, in the
        entry's own row with the snapped pointer on the entry, edges
        included, is safe. */
    method StripDragStart(day: nat, handle: Handle, id: Id, raw: int)
      requires handle != New
      modifies this
      ensures var st := BeginEdit(old(schedules), day, handle, id, raw);
        session == if st.Some? then st else old(session)
      ensures schedules == old(schedules) && draft == old(draft) && panelOpen == old(panelOpen)
      ensures
        && old(SessionSafe()) && Tidy() && UniqueIds(schedules) && OnGrid(schedules)
        && FindById(schedules, id).Some?
        && (var x := FindById(schedules, id).value;
              day == x.day && x.start <= Snap(raw) <= x.end && OthersNonEmpty(schedules, day, id))
        ==> SessionSafe()
    {
      var a := Snap(raw);
      var found := FindById(schedules, id);
      if found.None? {
        return;
      }
      var b := GetBoundaries(day, Some(id), Some(a));
      session := Some(DragState(Edit, day, handle, Some(id), Some(found.value.start), a, b.left, b.right));
      if Tidy() && UniqueIds(schedules) && OnGrid(schedules) && day == found.value.day
        && found.value.start <= a <= found.value.end && OthersNonEmpty(schedules, day, id)
      {
        BeginEditSafe(schedules, handle, id, raw);
      }
    }

    /** `handleMouseMove` with the pointer at minute `raw`: an edit session
        rewrites its entry; nothing else changes. Any session keeps the
        store well-formed and its ids distinct; a safe session stays safe
        and keeps a tidy store tidy and an on-grid store on the grid. */
    method MouseMove(raw: int)
      modifies this
      ensures schedules == if old(session).Some? then MoveUpdate(old(schedules), old(session).value, raw) else old(schedules)
      ensures session == old(session) && draft == old(draft) && panelOpen == old(panelOpen)
      ensures old(WellFormed(schedules)) ==> WellFormed(schedules)
      ensures old(UniqueIds(schedules)) ==> UniqueIds(schedules)
      ensures old(SessionSafe()) ==> SessionSafe()
      ensures old(SessionSafe()) && old(Tidy()) ==> Tidy()
      ensures old(SessionSafe()) && old(OnGrid(schedules)) ==> OnGrid(schedules)
    {
      if session.None? {
        return;
      }
      var st := session.value;
      MoveUpdateKeeps(schedules, st, raw);
      if EditSafe(schedules, st) && UniqueIds(schedules) {
        MoveUpdatePreserves(schedules, st, raw);
      }
      schedules := MoveUpdate(schedules, st, raw);
    }

    /** `handleMouseUp` with the pointer at minute `raw`: a create session
        commits its entry, with id `freshId`, and every session ends. A safe
        session leaves a tidy, on-grid store tidy and on the grid, and an id
        no entry carries keeps ids distinct. */
    method MouseUp(raw: int, freshId: Id)
      modifies this
      ensures schedules == if old(session).Some? then CreateCommit(old(schedules), old(session).value, raw, freshId) else old(schedules)
      ensures session == None && draft == old(draft) && panelOpen == old(panelOpen)
      ensures old(SessionSafe()) && old(Tidy()) ==> Tidy()
      ensures old(SessionSafe()) && old(OnGrid(schedules)) ==> OnGrid(schedules)
      ensures old(UniqueIds(schedules)) && FreshId(old(schedules), freshId) ==> UniqueIds(schedules)
    {
      if session.None? {
        return;
      }
      var st := session.value;
      CreateCommitUnique(schedules, st, raw, freshId);
      if CreateSafe(schedules, st) {
        CreateCommitPreserves(schedules, st, raw, freshId);
      }
      schedules := CreateCommit(schedules, st, raw, freshId);
      session := None;
    }

    /** `openManualEntryPanel(scheduleToEdit)`: the draft of the entry, or a
        blank draft, in an open panel. */
    method OpenManualEntryPanel(toEdit: Option<Entry>)
      modifies this
      ensures draft == if toEdit.Some? then OpenDraft(toEdit.value) else BlankDraft()
      ensures panelOpen
      ensures schedules == old(schedules) && session == old(session)
      ensures toEdit.None? || toEdit.value.start < DayMinutes ==> Valid()
    {
      draft := if toEdit.Some? then OpenDraft(toEdit.value) else BlankDraft();
      panelOpen := true;
    }

    /** `handleManualEntrySave` with the clock reading `stamp`: after the
        two validations, the day loop drops the overlapping entries of each
        target day and sets the flag, the second loop pushes one new entry
        per day, and the store is re-sorted; a save closes the panel. The
        frame leaves the draft and the drag session as they were. A save
        keeps a tidy store tidy, and keeps ids distinct when no entry
        already carries one of the new ids. */
    method SaveManualEntry(stamp: nat) returns (outcome: SaveOutcome)
      requires Valid()
      modifies this`schedules, this`panelOpen
      ensures outcome == ManualSave(old(schedules), old(draft), stamp)
      ensures outcome.Saved? ==> schedules == outcome.schedules && !panelOpen
      ensures !outcome.Saved? ==> schedules == old(schedules) && panelOpen == old(panelOpen)
      ensures old(Tidy()) ==> Tidy()
      ensures old(UniqueIds(schedules)) && FreshStamp(old(schedules), old(draft).days, stamp) ==> UniqueIds(schedules)
    {
      var store, d := schedules, draft;
      outcome := Save(store, d, stamp);
      if outcome.Saved? {
        var next := outcome.schedules;
        assert DayDisjoint(store) && WellFormed(store) ==> DayDisjoint(next) && WellFormed(next) by {
          ManualSavePreserves(store, d, stamp);
        }
        assert UniqueIds(store) && FreshStamp(store, d.days, stamp) ==> UniqueIds(next) by {
          ManualSaveUnique(store, d, stamp);
        }
        schedules := next;
        panelOpen := false;
      }
    }

    /** `handleDeleteScheduleFromManualPanel`: with a truthy id in the panel,
        every entry with that id goes and the panel closes; otherwise
        nothing changes. Every invariant of the store is kept. */
    method DeleteScheduleFromManualPanel()
      modifies this
      ensures schedules == if Truthy(draft.editingId) then DeleteById(old(schedules), draft.editingId.value) else old(schedules)
      ensures panelOpen == (old(panelOpen) && !Truthy(draft.editingId))
      ensures draft == old(draft) && session == old(session)
      ensures old(Tidy()) ==> Tidy()
      ensures old(UniqueIds(schedules)) ==> UniqueIds(schedules)
      ensures old(OnGrid(schedules)) ==> OnGrid(schedules)
    {
      if !Truthy(draft.editingId) {
        return;
      }
      DeleteByIdSpec(schedules, draft.editingId.value);
      schedules := DeleteById(schedules, draft.editingId.value);
      panelOpen := false;
    }

    /** `handleDeleteDaySchedules(dayIndexToDelete)`: every entry of the day
        goes. Every invariant of the store is kept. */
    method DeleteDaySchedules(day: nat)
      modifies this
      ensures schedules == DeleteDay(old(schedules), day)
      ensures session == old(session) && draft == old(draft) && panelOpen == old(panelOpen)
      ensures old(Tidy()) ==> Tidy()
      ensures old(UniqueIds(schedules)) ==> UniqueIds(schedules)
      ensures old(OnGrid(schedules)) ==> OnGrid(schedules)
    {
      DeleteDaySpec(schedules, day);
      schedules := DeleteDay(schedules, day);
    }

    /** `schedulesByDay`: the `reduce` that groups the store by day. Its
        keys are exactly the days holding an entry, and each group is the
        day's entries in store order. */
    method SchedulesByDay() returns (groups: map<nat, seq<Entry>>)
      ensures forall d :: d in groups <==> exists x :: x in schedules && x.day == d
      ensures forall d :: d in groups ==> groups[d] == OnDay(schedules, d) && groups[d] != []
    {
      var s := schedules;
      groups := map[];
      var i := 0;
      while i < |s|
        invariant 0 <= i <= |s|
        invariant forall d :: d in groups <==> OnDay(s[..i], d) != []
        invariant forall d :: d in groups ==> groups[d] == OnDay(s[..i], d)
      {
        var x := s[i];
        assert s[..i + 1] == s[..i] + [x];
        OnDaySnoc(s[..i], x);
        groups := groups[x.day := (if x.day in groups then groups[x.day] else []) + [x]];
        i := i + 1;
      }
      assert s[..i] == s;
      forall d ensures OnDay(s, d) != [] <==> exists x :: x in s && x.day == d {
        OnDayNonEmpty(s, d);
      }
    }
  }

  /** The computation of `handleManualEntrySave` on the store and the
      draft: the two validations, the two loops over the target days and
      the re-sort. */
  method Save(store: seq<Entry>, draft: Draft, stamp: nat) returns (outcome: SaveOutcome)
    requires ValidDraft(draft)
    ensures outcome == ManualSave(store, draft, stamp)
  {
    var days := draft.days;
    if |days| == 0 {
      return NoDaysSelected;
    }
    var s := FormMinutes(draft.startTime);
    var e := FormMinutes(EndTimeForSave(draft.endTime));
    if e <= s {
      return EndNotAfterStart;
    }
    var kept, removed := ResolveDays(Base(store, draft.editingId), days, s, e);
    var updated := PushEntries(kept, days, stamp, s, StoredMinutes(e));
    outcome := Saved(Sort(ByDayStart, updated), removed);
  }

  /** The first `days.forEach` of `handleManualEntrySave`: for each target
      day in turn, the flag is set when an entry of the day overlaps the new
      interval, and the day's entries are replaced by those that do not. */
  method ResolveDays(base: seq<Entry>, days: seq<nat>, s: int, e: int) returns (updated: seq<Entry>, removed: bool)
    ensures (updated, removed) == ResolveAll(base, days, s, e)
  {
    updated, removed := base, false;
    var i := 0;
    while i < |days|
      invariant 0 <= i <= |days|
      invariant (updated, removed) == ResolveAll(base, days[..i], s, e)
    {
      assert ResolveAll(base, days[..i + 1], s, e) ==
        (ResolveDay(updated, days[i], s, e), removed || Conflict(updated, days[i], s, e)) by {
        assert days[..i + 1][..i] == days[..i] && days[..i + 1][i] == days[i];
      }
      removed := removed || Conflict(updated, days[i], s, e);
      updated := ResolveDay(updated, days[i], s, e);
      i := i + 1;
    }
    assert days[..i] == days;
  }

  /** The second `days.forEach`: one new entry per target day, pushed in
      the order of the days. */
  method PushEntries(kept: seq<Entry>, days: seq<nat>, stamp: nat, s: int, end: int) returns (updated: seq<Entry>)
    ensures updated == kept + NewEntries(days, stamp, s, end)
  {
    updated := kept;
    var i := 0;
    while i < |days|
      invariant 0 <= i <= |days|
      invariant updated == kept + NewEntries(days[..i], stamp, s, end)
    {
      assert days[..i + 1][..i] == days[..i];
      updated := updated + [Entry(ManualId(stamp, days[i]), days[i], s, end)];
      i := i + 1;
    }
    assert days[..i] == days;
  }
}
