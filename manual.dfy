/** The manual-entry panel of src/components/schedule/ScheduleEditor.tsx:
    the form draft, the save that resolves it against the store with a
    destructive "new interval wins" merge, and the draft the panel is
    opened with. */
module Manual {
  import opened Wrappers
  import opened Types
  import opened Utils
  import opened Store

  /** `manualEntryData`: the selected days in the insertion order of the
      source's `Set`, the two form times and the id of the entry being
      edited. */
  datatype Draft = Draft(days: seq<nat>, startTime: string, endTime: string, editingId: Option<Id>)

  /** What `handleManualEntrySave` leads to: one of the two validation
      errors, or the new store with the flag saying whether an overlapping
      entry was dropped. */
  datatype SaveOutcome = NoDaysSelected | EndNotAfterStart | Saved(schedules: seq<Entry>, removed: bool)

  /** The values of a time input: empty, or a clock time. */
  predicate IsFormTime(s: string) {
    s == "" || IsClockTime(s)
  }

  /** A `Set` has no repeated element. */
  predicate NoDup(days: seq<nat>) {
    forall i, j :: 0 <= i < j < |days| ==> days[i] != days[j]
  }

  /** A draft the form can hold. */
  predicate ValidDraft(d: Draft) {
    IsFormTime(d.startTime) && IsFormTime(d.endTime) && NoDup(d.days)
  }

  /** The draft of a new entry: no day, from `"00:00"` to `"23:59"`. */
  function BlankDraft(): (d: Draft)
    ensures ValidDraft(d)
  {
    ClockOf2359();
    MidnightIsClockTime();
    Draft([], "00:00", "23:59", None)
  }

  /** The form cannot show `"24:00"`; the panel shows an end-of-day entry
      as `"23:59"` ... */
  function PanelEnd(endTime: string): string {
    if endTime == "24:00" then "23:59" else endTime
  }

  /** ... and the save reads `"23:59"` back as the end of the day. */
  function EndTimeForSave(endTime: string): string {
    if endTime == "23:59" then "24:00" else endTime
  }

  /** `openManualEntryPanel(scheduleToEdit)`: the draft for an existing
      entry, its id being edited, on its own day. */
  function OpenDraft(x: Entry): (d: Draft)
    ensures x.start < DayMinutes ==> ValidDraft(d)
    ensures d.endTime != "24:00"
  {
    EndOfDayIsNotClock();
    ClockOf2359();
    MidnightIsClockTime();
    Draft([x.day], MinutesToTime(x.start), PanelEnd(MinutesToTime(x.end)), Some(x.id))
  }

  /** The minute value of a form time or of `"24:00"`. */
  function FormMinutes(s: string): (m: int)
    requires IsFormTime(s) || s == "24:00"
    ensures TimeToMinutes(s) == Some(m)
    ensures 0 <= m <= DayMinutes
    ensures s != "24:00" ==> m < DayMinutes
  {
    TimeToMinutesSpecial();
    if s == "" then 0
    else if s == "24:00" then DayMinutes
    else ClockTimeValue(s); ClockValue(s)
  }

  /** The half-open overlap test `start < existingEnd && end > existingStart`. */
  predicate Overlaps(x: Entry, s: int, e: int) {
    s < x.end && e > x.start
  }

  function Clear(s: int, e: int): Entry -> bool {
    (x: Entry) => !Overlaps(x, s, e)
  }

  /** One target day of the save: the entries of other days, then the
      entries of the day that do not overlap the new interval. */
  function ResolveDay(u: seq<Entry>, d: nat, s: int, e: int): seq<Entry> {
    DeleteDay(u, d) + Filter(OnDay(u, d), Clear(s, e))
  }

  /** One target day drops exactly the entries of the day that overlap the
      new interval, and keeps every other entry as often as it occurred. */
  lemma ResolveDayCount(u: seq<Entry>, d: nat, s: int, e: int)
    ensures forall x :: multiset(ResolveDay(u, d, s, e))[x] == if x.day == d && Overlaps(x, s, e) then 0 else multiset(u)[x]
  {
    forall x ensures multiset(ResolveDay(u, d, s, e))[x] == if x.day == d && Overlaps(x, s, e) then 0 else multiset(u)[x] {
      FilterCount(u, (y: Entry) => y.day != d, x);
      FilterCount(u, (y: Entry) => y.day == d, x);
      FilterCount(OnDay(u, d), Clear(s, e), x);
    }
  }

  /** Some entry of day `d` overlaps the new interval. */
  predicate Conflict(u: seq<Entry>, d: nat, s: int, e: int) {
    exists x :: x in u && x.day == d && Overlaps(x, s, e)
  }

  /** `days.forEach(...)` over the target days in order; the flag is
      `conflictingSchedulesRemoved`. */
  function ResolveAll(u: seq<Entry>, days: seq<nat>, s: int, e: int): (seq<Entry>, bool)
    decreases |days|
  {
    if days == [] then (u, false)
    else
      var (v, c) := ResolveAll(u, days[..|days| - 1], s, e);
      var d := days[|days| - 1];
      (ResolveDay(v, d, s, e), c || Conflict(v, d, s, e))
  }

  lemma LastDay(days: seq<nat>)
    requires days != []
    ensures forall y: nat :: y in days <==> y in days[..|days| - 1] || y == days[|days| - 1]
  {
    assert days == days[..|days| - 1] + [days[|days| - 1]];
  }

  /** Every entry of a target day that overlaps the new interval is dropped
      and nothing else. */
  lemma {:induction false} ResolveAllCount(u: seq<Entry>, days: seq<nat>, s: int, e: int)
    ensures forall x :: multiset(ResolveAll(u, days, s, e).0)[x] == if x.day in days && Overlaps(x, s, e) then 0 else multiset(u)[x]
    decreases |days|
  {
    if days != [] {
      var pre, d := days[..|days| - 1], days[|days| - 1];
      LastDay(days);
      ResolveAllCount(u, pre, s, e);
      var v := ResolveAll(u, pre, s, e).0;
      ResolveDayCount(v, d, s, e);
    }
  }

  /** The flag of `ResolveAll` is set exactly when some entry of a target
      day overlaps the new interval. */
  lemma {:induction false} ResolveAllFlag(u: seq<Entry>, days: seq<nat>, s: int, e: int)
    ensures ResolveAll(u, days, s, e).1 <==> exists x :: x in u && x.day in days && Overlaps(x, s, e)
    decreases |days|
  {
    if days != [] {
      var pre, d := days[..|days| - 1], days[|days| - 1];
      LastDay(days);
      ResolveAllFlag(u, pre, s, e);
      ResolveAllCount(u, pre, s, e);
      var (v, c) := ResolveAll(u, pre, s, e);
      assert ResolveAll(u, days, s, e).1 == (c || Conflict(v, d, s, e));
      FlagStep(u, v, pre, d, s, e);
    }
  }

  lemma FlagStep(u: seq<Entry>, v: seq<Entry>, pre: seq<nat>, d: nat, s: int, e: int)
    requires forall x :: multiset(v)[x] == if x.day in pre && Overlaps(x, s, e) then 0 else multiset(u)[x]
    ensures Conflict(v, d, s, e) || (exists x :: x in u && x.day in pre && Overlaps(x, s, e))
      <==> exists x :: x in u && (x.day in pre || x.day == d) && Overlaps(x, s, e)
  {
    if x :| x in v && x.day == d && Overlaps(x, s, e) {
      assert multiset(v)[x] > 0;
      assert x in u;
    }
    if x :| x in u && x.day == d && Overlaps(x, s, e) {
      if x.day !in pre {
        assert multiset(v)[x] == multiset(u)[x];
        assert x in v;
      }
    }
  }

  /** The id a manual save gives the entry of day `d`:
      `manual-sched-${Date.now()}-${day}` with the clock reading `stamp`. */
  function ManualId(stamp: nat, d: nat): Id {
    "manual-sched-" + ToDecimal(stamp) + "-" + ToDecimal(d)
  }

  /** No entry of the store already carries the id a save with the clock
      reading `stamp` gives one of the target days. */
  predicate FreshStamp(store: seq<Entry>, days: seq<nat>, stamp: nat) {
    forall x, d :: x in store && d in days ==> x.id != ManualId(stamp, d)
  }

  /** The entries a save pushes, one per target day in order. */
  function NewEntries(days: seq<nat>, stamp: nat, s: int, e: int): seq<Entry> {
    if days == [] then []
    else
      var d := days[|days| - 1];
      NewEntries(days[..|days| - 1], stamp, s, e) + [Entry(ManualId(stamp, d), d, s, e)]
  }

  /** What the save starts from: the store without the entry being edited,
      when the id is truthy. */
  function Base(store: seq<Entry>, editingId: Option<Id>): seq<Entry> {
    if Truthy(editingId) then DeleteById(store, editingId.value) else store
  }

  /** `handleManualEntrySave`: validation in order (no day, then end not
      after start once `"23:59"` reads as 1440), then the merge into the
      store from `Base`, the new entries and the sort by day and start. */
  function ManualSave(store: seq<Entry>, draft: Draft, stamp: nat): SaveOutcome
    requires IsFormTime(draft.startTime) && IsFormTime(draft.endTime)
  {
    if |draft.days| == 0 then NoDaysSelected
    else
      var s := FormMinutes(draft.startTime);
      var e := FormMinutes(EndTimeForSave(draft.endTime));
      if e <= s then EndNotAfterStart
      else
        Saved(Merged(store, draft.editingId, draft.days, stamp, s, e, StoredMinutes(e)),
              ResolveAll(Base(store, draft.editingId), draft.days, s, e).1)
  }

  /** The store a successful save leaves: the entries the day loop keeps,
      then the new entries ending at the stored minute `end`, sorted by day
      and start. */
  function Merged(store: seq<Entry>, editingId: Option<Id>, days: seq<nat>, stamp: nat, s: int, e: int, end: int): seq<Entry> {
    Sort(ByDayStart, ResolveAll(Base(store, editingId), days, s, e).0 + NewEntries(days, stamp, s, end))
  }

  /** An entry the save drops from the store: the one being edited, or one
      overlapping the new interval on a target day. */
  predicate Dropped(draft: Draft, s: int, e: int, x: Entry) {
    || (Truthy(draft.editingId) && x.id == draft.editingId.value)
    || (x.day in draft.days && Overlaps(x, s, e))
  }

  // ---------------------------------------------------------------------
  // Lemmas

  lemma ClockOf2359()
    ensures IsClockTime("23:59") && ClockValue("23:59") == DayMinutes - 1
  {
    assert "23:59"[..2] == ['2', '3'] && "23:59"[3..] == ['5', '9'];
    DigitsValuePair('2', '3');
    DigitsValuePair('5', '9');
  }

  lemma EndOfDayIsNotClock()
    ensures !IsClockTime("24:00")
  {
    assert "24:00"[..2] == ['2', '4'];
    DigitsValuePair('2', '4');
  }

  /** The only clock time that reads as minute 1439 is `"23:59"`. */
  lemma Only2359(t: string)
    requires IsClockTime(t) && ClockValue(t) == DayMinutes - 1
    ensures t == "23:59"
  {
    var h, m := DigitsValue(t[..2]), DigitsValue(t[3..]);
    assert h == 23 && m == 59;
    ClockTimeRebuild(t);
    ClockOf2359();
    ClockTimeRebuild("23:59");
  }

  /** The new entries are exactly one per target day, each spanning the
      new interval with its manual id. */
  lemma {:induction false} NewEntriesCount(days: seq<nat>, stamp: nat, s: int, e: int)
    requires NoDup(days)
    ensures var n := NewEntries(days, stamp, s, e);
      forall x :: multiset(n)[x] == if x.day in days && x == Entry(ManualId(stamp, x.day), x.day, s, e) then 1 else 0
  {
    if days != [] {
      var pre, d := days[..|days| - 1], days[|days| - 1];
      assert days == pre + [d];
      assert NoDup(pre);
      assert d !in pre;
      NewEntriesCount(pre, stamp, s, e);
    }
  }

  /** The new entries of distinct days are pairwise apart; `DisjointMerge`
      sets them apart from the kept entries. */
  lemma {:induction false} NewEntriesDisjoint(days: seq<nat>, stamp: nat, s: int, e: int)
    requires NoDup(days)
    ensures DayDisjoint(NewEntries(days, stamp, s, e))
  {
    if days != [] {
      var pre, d := days[..|days| - 1], days[|days| - 1];
      assert days == pre + [d];
      assert NoDup(pre);
      assert d !in pre;
      NewEntriesDisjoint(pre, stamp, s, e);
      NewEntriesCount(pre, stamp, s, e);
      var n := NewEntries(pre, stamp, s, e);
      assert forall x :: x in n ==> x.day in pre by {
        forall x | x in n ensures x.day in pre { assert multiset(n)[x] > 0; }
      }
      DayDisjointAppend(n, [Entry(ManualId(stamp, d), d, s, e)]);
    }
  }

  /** One clock reading gives different days different ids. */
  lemma ManualIdsDistinct(stamp: nat, d1: nat, d2: nat)
    requires d1 != d2
    ensures ManualId(stamp, d1) != ManualId(stamp, d2)
  {
    var p := "manual-sched-" + ToDecimal(stamp) + "-";
    assert ToDecimal(d1) == ManualId(stamp, d1)[|p|..];
    assert ToDecimal(d2) == ManualId(stamp, d2)[|p|..];
  }

  /** The new entries of distinct days carry distinct ids. */
  lemma {:induction false} NewEntriesUnique(days: seq<nat>, stamp: nat, s: int, e: int)
    requires NoDup(days)
    ensures UniqueIds(NewEntries(days, stamp, s, e))
  {
    if days != [] {
      var pre, d := days[..|days| - 1], days[|days| - 1];
      assert days == pre + [d];
      assert NoDup(pre);
      assert d !in pre;
      NewEntriesUnique(pre, stamp, s, e);
      NewEntriesCount(pre, stamp, s, e);
      var n := NewEntries(pre, stamp, s, e);
      var y := Entry(ManualId(stamp, d), d, s, e);
      forall x, z | x in n && z in [y] ensures x.id != z.id {
        assert multiset(n)[x] > 0;
        ManualIdsDistinct(stamp, x.day, d);
      }
      UniqueIdsAppend(n, [y]);
    }
  }

  /** A successful save keeps ids distinct when no entry of the store
      already carries one of the new ids. */
  lemma ManualSaveUnique(store: seq<Entry>, draft: Draft, stamp: nat)
    requires ValidDraft(draft)
    ensures var out := ManualSave(store, draft, stamp);
      out.Saved? && UniqueIds(store) && FreshStamp(store, draft.days, stamp) ==> UniqueIds(out.schedules)
  {
    var s := FormMinutes(draft.startTime);
    var e := FormMinutes(EndTimeForSave(draft.endTime));
    var out := ManualSave(store, draft, stamp);
    if out.Saved? && UniqueIds(store) && FreshStamp(store, draft.days, stamp) {
      var kept := ResolveAll(Base(store, draft.editingId), draft.days, s, e).0;
      var n := NewEntries(draft.days, stamp, s, e);
      SavedShape(store, draft, stamp);
      assert multiset(out.schedules) == multiset(kept + n);
      KeptFacts(store, draft.editingId, draft.days, s, e);
      UniqueIdsSub(kept, store);
      NewEntriesUnique(draft.days, stamp, s, e);
      NewFacts(draft.days, stamp, s, e);
      FreshAcross(kept, store, n, draft.days, stamp);
      UniqueIdsAppend(kept, n);
      UniqueIdsSub(out.schedules, kept + n);
    }
  }

  /** Entries taken from a store that carries none of the new ids share
      no id with the new entries. */
  lemma FreshAcross(kept: seq<Entry>, store: seq<Entry>, n: seq<Entry>, days: seq<nat>, stamp: nat)
    requires multiset(kept) <= multiset(store) && FreshStamp(store, days, stamp)
    requires forall y :: y in n ==> y.day in days && y.id == ManualId(stamp, y.day)
    ensures forall x, y :: x in kept && y in n ==> x.id != y.id
  {
    forall x, y | x in kept && y in n ensures x.id != y.id {
      assert multiset(kept)[x] > 0;
      assert x in store;
    }
  }

  /** Validation, in order: no day selected, then end not after start once
      `"23:59"` reads as the end of the day; either leaves the store
      without a new snapshot. */
  lemma ManualSaveValidation(store: seq<Entry>, draft: Draft, stamp: nat)
    requires IsFormTime(draft.startTime) && IsFormTime(draft.endTime)
    ensures var out := ManualSave(store, draft, stamp);
      var s := FormMinutes(draft.startTime);
      var e := FormMinutes(EndTimeForSave(draft.endTime));
      && (out == NoDaysSelected <==> draft.days == [])
      && (out == EndNotAfterStart <==> draft.days != [] && e <= s)
      && (out.Saved? <==> draft.days != [] && s < e)
  {
  }

  /** The store a save starts from holds every entry but the one being
      edited. */
  lemma BaseCount(store: seq<Entry>, editingId: Option<Id>)
    ensures forall x :: multiset(Base(store, editingId))[x] ==
                          if Truthy(editingId) && x.id == editingId.value then 0 else multiset(store)[x]
  {
    if Truthy(editingId) { DeleteByIdSpec(store, editingId.value); }
  }

  /** A successful save keeps every entry it does not drop, as often as it
      occurred, adds exactly one new entry per target day spanning the new
      interval, and leaves the store sorted by day and start. Entries of
      other days are therefore untouched, apart from the edited one. */
  lemma ManualSaveCommit(store: seq<Entry>, draft: Draft, stamp: nat)
    requires ValidDraft(draft)
    ensures var out := ManualSave(store, draft, stamp);
      var s := FormMinutes(draft.startTime);
      var e := FormMinutes(EndTimeForSave(draft.endTime));
      out.Saved? ==>
        && Sorted(ByDayStart, out.schedules)
        && forall x :: multiset(out.schedules)[x] ==
             (if Dropped(draft, s, e, x) then 0 else multiset(store)[x])
             + (if x.day in draft.days && x == Entry(ManualId(stamp, x.day), x.day, s, e) then 1 else 0)
  {
    var s := FormMinutes(draft.startTime);
    var e := FormMinutes(EndTimeForSave(draft.endTime));
    var out := ManualSave(store, draft, stamp);
    if out.Saved? {
      SavedShape(store, draft, stamp);
      CommitCount(store, draft, stamp, s, e, out.schedules);
    }
  }

  /** A successful save stores the merge of the kept and the new entries,
      the new ones ending at the end minute itself. */
  lemma SavedShape(store: seq<Entry>, draft: Draft, stamp: nat)
    requires IsFormTime(draft.startTime) && IsFormTime(draft.endTime)
    ensures var out := ManualSave(store, draft, stamp);
      var s := FormMinutes(draft.startTime);
      var e := FormMinutes(EndTimeForSave(draft.endTime));
      out.Saved? ==> out.schedules == Merged(store, draft.editingId, draft.days, stamp, s, e, e)
  {
    var s := FormMinutes(draft.startTime);
    var e := FormMinutes(EndTimeForSave(draft.endTime));
    if |draft.days| != 0 && s < e {
      assert StoredMinutes(e) == e;
      assert ManualSave(store, draft, stamp).schedules
        == Merged(store, draft.editingId, draft.days, stamp, s, e, StoredMinutes(e));
    }
  }

  lemma CommitCount(store: seq<Entry>, draft: Draft, stamp: nat, s: int, e: int, r: seq<Entry>)
    requires NoDup(draft.days)
    requires r == Merged(store, draft.editingId, draft.days, stamp, s, e, e)
    ensures Sorted(ByDayStart, r)
    ensures forall x :: multiset(r)[x] ==
               (if Dropped(draft, s, e, x) then 0 else multiset(store)[x])
               + (if x.day in draft.days && x == Entry(ManualId(stamp, x.day), x.day, s, e) then 1 else 0)
  {
    MergedCount(store, draft.editingId, draft.days, stamp, s, e, e);
    forall x ensures multiset(r)[x] ==
      (if Dropped(draft, s, e, x) then 0 else multiset(store)[x])
      + (if x.day in draft.days && x == Entry(ManualId(stamp, x.day), x.day, s, e) then 1 else 0)
    {
      assert Dropped(draft, s, e, x) <==>
        (Truthy(draft.editingId) && x.id == draft.editingId.value) || (x.day in draft.days && Overlaps(x, s, e));
    }
  }

  lemma MergedCount(store: seq<Entry>, editingId: Option<Id>, days: seq<nat>, stamp: nat, s: int, e: int, end: int)
    requires NoDup(days)
    ensures var r := Merged(store, editingId, days, stamp, s, e, end);
      forall x :: multiset(r)[x] ==
        (if (Truthy(editingId) && x.id == editingId.value) || (x.day in days && Overlaps(x, s, e)) then 0 else multiset(store)[x])
        + (if x.day in days && x == Entry(ManualId(stamp, x.day), x.day, s, end) then 1 else 0)
  {
    var b := Base(store, editingId);
    var kept := ResolveAll(b, days, s, e).0;
    var n := NewEntries(days, stamp, s, end);
    assert multiset(Merged(store, editingId, days, stamp, s, e, end)) == multiset(kept) + multiset(n);
    ResolveAllCount(b, days, s, e);
    BaseCount(store, editingId);
    NewEntriesCount(days, stamp, s, end);
  }

  /** The flag of a successful save is set exactly when an entry other than
      the edited one, on a target day, overlapped the new interval. */
  lemma ManualSaveFlag(store: seq<Entry>, draft: Draft, stamp: nat)
    requires IsFormTime(draft.startTime) && IsFormTime(draft.endTime)
    ensures var out := ManualSave(store, draft, stamp);
      var s := FormMinutes(draft.startTime);
      var e := FormMinutes(EndTimeForSave(draft.endTime));
      out.Saved? ==>
        (out.removed <==> exists x :: x in store && !(Truthy(draft.editingId) && x.id == draft.editingId.value)
                                      && x.day in draft.days && Overlaps(x, s, e))
  {
    var s := FormMinutes(draft.startTime);
    var e := FormMinutes(EndTimeForSave(draft.endTime));
    var b := Base(store, draft.editingId);
    ResolveAllFlag(b, draft.days, s, e);
    BaseCount(store, draft.editingId);
    assert forall x :: x in b <==> x in store && !(Truthy(draft.editingId) && x.id == draft.editingId.value) by {
      forall x ensures x in b <==> x in store && !(Truthy(draft.editingId) && x.id == draft.editingId.value) {
        assert x in b <==> multiset(b)[x] > 0;
        assert x in store <==> multiset(store)[x] > 0;
      }
    }
  }

  /** Every entry a successful save leaves is a kept entry of the store or
      the new entry of a target day. */
  lemma SavedMember(store: seq<Entry>, draft: Draft, stamp: nat, x: Entry)
    requires ValidDraft(draft)
    requires ManualSave(store, draft, stamp).Saved?
    requires x in ManualSave(store, draft, stamp).schedules
    ensures var s := FormMinutes(draft.startTime);
      var e := FormMinutes(EndTimeForSave(draft.endTime));
      || (x in store && !Dropped(draft, s, e, x))
      || (x.day in draft.days && x == Entry(ManualId(stamp, x.day), x.day, s, e))
  {
    ManualSaveCommit(store, draft, stamp);
    assert multiset(ManualSave(store, draft, stamp).schedules)[x] > 0;
  }

  /** Kept entries that do not overlap the new interval on a target day,
      joined with new entries of that interval on distinct target days, form
      a day-disjoint store. */
  lemma DisjointMerge(kept: seq<Entry>, n: seq<Entry>, days: seq<nat>, s: int, e: int)
    requires DayDisjoint(kept) && DayDisjoint(n)
    requires forall y :: y in n ==> y.day in days && y.start == s && y.end == e
    requires forall x :: x in kept ==> !(x.day in days && Overlaps(x, s, e))
    ensures DayDisjoint(kept + n)
  {
    DayDisjointAppend(kept, n);
  }

  /** A successful save keeps the store day-disjoint and well-formed: the
      kept entries of a target day never overlap its new entry, and the new
      entries lie on distinct days. */
  lemma ManualSavePreserves(store: seq<Entry>, draft: Draft, stamp: nat)
    requires ValidDraft(draft)
    ensures var out := ManualSave(store, draft, stamp);
      out.Saved? ==>
        && (DayDisjoint(store) ==> DayDisjoint(out.schedules))
        && (WellFormed(store) ==> WellFormed(out.schedules))
  {
    var s := FormMinutes(draft.startTime);
    var e := FormMinutes(EndTimeForSave(draft.endTime));
    var out := ManualSave(store, draft, stamp);
    if out.Saved? {
      var kept := ResolveAll(Base(store, draft.editingId), draft.days, s, e).0;
      var n := NewEntries(draft.days, stamp, s, e);
      assert multiset(out.schedules) == multiset(kept + n);
      if DayDisjoint(store) {
        KeptFacts(store, draft.editingId, draft.days, s, e);
        NewFacts(draft.days, stamp, s, e);
        DayDisjointSub(kept, store);
        NewEntriesDisjoint(draft.days, stamp, s, e);
        DisjointMerge(kept, n, draft.days, s, e);
        DayDisjointSub(out.schedules, kept + n);
      }
      if WellFormed(store) {
        forall x | x in out.schedules ensures 0 <= x.start <= x.end <= DayMinutes {
          SavedMember(store, draft, stamp, x);
        }
      }
    }
  }

  /** The entries the day loop keeps come from the store, and none of them
      overlaps the new interval on a target day. */
  lemma KeptFacts(store: seq<Entry>, editingId: Option<Id>, days: seq<nat>, s: int, e: int)
    ensures var kept := ResolveAll(Base(store, editingId), days, s, e).0;
      && multiset(kept) <= multiset(store)
      && forall x :: x in kept ==> !(x.day in days && Overlaps(x, s, e))
  {
    var b := Base(store, editingId);
    var kept := ResolveAll(b, days, s, e).0;
    ResolveAllCount(b, days, s, e);
    assert multiset(kept) <= multiset(store) by {
      BaseCount(store, editingId);
    }
    forall x | x in kept ensures !(x.day in days && Overlaps(x, s, e)) {
      assert multiset(kept)[x] > 0;
    }
  }

  /** Every new entry spans the new interval on a target day, with that
      day's manual id. */
  lemma NewFacts(days: seq<nat>, stamp: nat, s: int, e: int)
    requires NoDup(days)
    ensures forall y :: y in NewEntries(days, stamp, s, e) ==>
      y.day in days && y.start == s && y.end == e && y.id == ManualId(stamp, y.day)
  {
    var n := NewEntries(days, stamp, s, e);
    NewEntriesCount(days, stamp, s, e);
    forall y | y in n ensures y.day in days && y.start == s && y.end == e && y.id == ManualId(stamp, y.day) {
      assert multiset(n)[y] > 0;
    }
  }

  /** Submitting the end time `"23:59"` stores the end of the day, 1440,
      which the strip displays as `"00:00"`. */
  lemma EndOfDaySentinel(store: seq<Entry>, draft: Draft, stamp: nat)
    requires ValidDraft(draft) && draft.endTime == "23:59"
    ensures var out := ManualSave(store, draft, stamp);
      out.Saved? ==> forall x :: x in out.schedules && x !in store ==>
        x.end == DayMinutes && FormatTimeToDisplayOnStrip(MinutesToTime(x.end)) == "00:00"
  {
    var out := ManualSave(store, draft, stamp);
    if out.Saved? {
      forall x | x in out.schedules && x !in store ensures x.end == DayMinutes {
        SavedMember(store, draft, stamp, x);
      }
    }
  }

  /** No save stores the end minute 1439: the only form time reading as
      1439 is `"23:59"`, which the save reads as 1440. */
  lemma NoSavedEnd1439(store: seq<Entry>, draft: Draft, stamp: nat)
    requires ValidDraft(draft)
    ensures var out := ManualSave(store, draft, stamp);
      out.Saved? ==> forall x :: x in out.schedules && x !in store ==> x.end != DayMinutes - 1
  {
    var t := EndTimeForSave(draft.endTime);
    var e := FormMinutes(t);
    assert e != DayMinutes - 1 by {
      if e == DayMinutes - 1 {
        TimeToMinutesSpecial();
        ClockTimeValue(t);
        Only2359(t);
      }
    }
    var out := ManualSave(store, draft, stamp);
    if out.Saved? {
      forall x | x in out.schedules && x !in store ensures x.end == e {
        SavedMember(store, draft, stamp, x);
      }
    }
  }

  /** What the panel shows for an entry reads back as the entry's own
      minutes: in particular an end of `"24:00"` is shown as `"23:59"` and
      read back as 1440. An end at 1439 is the one exception: it is shown
      as `"23:59"` too, and so reads back as 1440. */
  lemma PanelRoundTrip(x: Entry)
    requires 0 <= x.start < x.end <= DayMinutes
    ensures FormMinutes(OpenDraft(x).startTime) == x.start
    ensures FormMinutes(EndTimeForSave(OpenDraft(x).endTime)) == if x.end == DayMinutes - 1 then DayMinutes else x.end
  {
    assert FormMinutes(OpenDraft(x).startTime) == x.start by {
      RoundTrip(x.start);
    }
    var m := MinutesToTime(x.end);
    assert OpenDraft(x).endTime == PanelEnd(m);
    if x.end == DayMinutes {
      TimeToMinutesSpecial();
    } else {
      MinutesToTimeClock(x.end);
      EndOfDayIsNotClock();
      assert PanelEnd(m) == m;
      if x.end == DayMinutes - 1 {
        Only2359(m);
        TimeToMinutesSpecial();
      } else {
        ClockOf2359();
        assert m != "23:59";
        RoundTrip(x.end);
      }
    }
  }

  /** Re-saving an entry from the panel unchanged gives back the same
      interval under a fresh manual id, drops nothing else and reports no
      replacement: saving the same draft twice never duplicates it. */
  lemma ResaveKeepsEntry(store: seq<Entry>, x: Entry, stamp: nat)
    requires x in store && DayDisjoint(store)
    requires 0 <= x.start < x.end <= DayMinutes && x.end != DayMinutes - 1 && x.id != ""
    ensures var out := ManualSave(store, OpenDraft(x), stamp);
      && out.Saved? && !out.removed
      && forall y :: multiset(out.schedules)[y] ==
           multiset(DeleteById(store, x.id))[y] + (if y == x.(id := ManualId(stamp, x.day)) then 1 else 0)
  {
    var d := OpenDraft(x);
    PanelRoundTrip(x);
    ManualSaveValidation(store, d, stamp);
    ManualSaveCommit(store, d, stamp);
    ResaveFlag(store, x, stamp);
    ResaveStore(store, x, stamp, d, ManualSave(store, d, stamp).schedules);
  }

  /** The counting step of `ResaveKeepsEntry`: with `x` clear of every other
      entry of its day, only `x` itself is dropped. */
  lemma ResaveStore(store: seq<Entry>, x: Entry, stamp: nat, d: Draft, r: seq<Entry>)
    requires x in store && DayDisjoint(store) && x.id != ""
    requires d.days == [x.day] && d.editingId == Some(x.id)
    requires forall z :: multiset(r)[z] ==
               (if Dropped(d, x.start, x.end, z) then 0 else multiset(store)[z])
               + (if z.day in d.days && z == Entry(ManualId(stamp, z.day), z.day, x.start, x.end) then 1 else 0)
    ensures forall y :: multiset(r)[y] ==
               multiset(DeleteById(store, x.id))[y] + (if y == x.(id := ManualId(stamp, x.day)) then 1 else 0)
  {
    assert forall y :: multiset(DeleteById(store, x.id))[y] == if y.id == x.id then 0 else multiset(store)[y] by {
      DeleteByIdSpec(store, x.id);
    }
    OthersClear(store, x);
    forall y ensures multiset(r)[y] ==
      multiset(DeleteById(store, x.id))[y] + (if y == x.(id := ManualId(stamp, x.day)) then 1 else 0)
    {
      var isNew := y.day in d.days && y == Entry(ManualId(stamp, y.day), y.day, x.start, x.end);
      assert isNew <==> y == x.(id := ManualId(stamp, x.day)) by {
        if y.day == x.day {
          assert ManualId(stamp, y.day) == ManualId(stamp, x.day);
        } else {
          assert y.day != x.(id := ManualId(stamp, x.day)).day;
        }
      }
      if y in store {
        assert Dropped(d, x.start, x.end, y) <==> y.id == x.id;
      } else {
        assert multiset(store)[y] == 0;
      }
    }
  }

  lemma ResaveFlag(store: seq<Entry>, x: Entry, stamp: nat)
    requires x in store && DayDisjoint(store)
    requires 0 <= x.start < x.end <= DayMinutes && x.end != DayMinutes - 1 && x.id != ""
    ensures var out := ManualSave(store, OpenDraft(x), stamp);
      out.Saved? ==> !out.removed
  {
    var d := OpenDraft(x);
    PanelRoundTrip(x);
    OthersClear(store, x);
    ManualSaveFlag(store, d, stamp);
    assert d.days == [x.day];
  }

  /** In a disjoint store, no entry with another id overlaps `x` on its day. */
  lemma OthersClear(store: seq<Entry>, x: Entry)
    requires x in store && DayDisjoint(store)
    ensures forall y :: y in store && y.id != x.id ==> !(y.day == x.day && Overlaps(y, x.start, x.end))
  {
    var i :| 0 <= i < |store| && store[i] == x;
    forall y | y in store && y.id != x.id ensures !(y.day == x.day && Overlaps(y, x.start, x.end)) {
      var j :| 0 <= j < |store| && store[j] == y;
      assert Apart(store[i], store[j]);
    }
  }

  /** On a store whose only entry on a day is its full-day default, a save
      of one interval on that day alone replaces the default with the single
      new entry on that day, keeps every other day's entries as they were
      and reports the replacement. `ExampleStartTime` and `ExampleEndTime`
      show that the draft `09:00`-`17:00` reads as minutes 540 to 1020. */
  lemma ManualSaveReplacesDefault(store: seq<Entry>, x: Entry, draft: Draft, stamp: nat)
    requires x in store && x.start == 0 && x.end == DayMinutes
    requires forall y :: y in store && y.day == x.day ==> y == x
    requires ValidDraft(draft) && draft.days == [x.day] && draft.editingId == None
    requires 0 <= FormMinutes(draft.startTime) < FormMinutes(EndTimeForSave(draft.endTime))
    ensures var s := FormMinutes(draft.startTime);
      var e := FormMinutes(EndTimeForSave(draft.endTime));
      var out := ManualSave(store, draft, stamp);
      && out.Saved? && out.removed
      && OnDay(out.schedules, x.day) == [Entry(ManualId(stamp, x.day), x.day, s, e)]
      && forall y: Entry :: y.day != x.day ==> multiset(out.schedules)[y] == multiset(store)[y]
  {
    var s := FormMinutes(draft.startTime);
    var e := FormMinutes(EndTimeForSave(draft.endTime));
    var out := ManualSave(store, draft, stamp);
    ReplaceFlag(store, x, draft, stamp);
    ManualSaveCommit(store, draft, stamp);
    ReplaceDayCount(store, x, draft, stamp, s, e, out.schedules);
  }

  /** The counting step of `ManualSaveReplacesDefault`: the default is
      dropped, the new entry is the day's only one and other days keep
      their entries. */
  lemma ReplaceDayCount(store: seq<Entry>, x: Entry, draft: Draft, stamp: nat, s: int, e: int, r: seq<Entry>)
    requires x.start == 0 && x.end == DayMinutes
    requires forall y :: y in store && y.day == x.day ==> y == x
    requires draft.days == [x.day] && draft.editingId == None && 0 <= s < e <= DayMinutes
    requires forall z :: multiset(r)[z] ==
               (if Dropped(draft, s, e, z) then 0 else multiset(store)[z])
               + (if z.day in draft.days && z == Entry(ManualId(stamp, z.day), z.day, s, e) then 1 else 0)
    ensures OnDay(r, x.day) == [Entry(ManualId(stamp, x.day), x.day, s, e)]
    ensures forall y: Entry :: y.day != x.day ==> multiset(r)[y] == multiset(store)[y]
  {
    var n := Entry(ManualId(stamp, x.day), x.day, s, e);
    var o := OnDay(r, x.day);
    forall z ensures multiset(o)[z] == if z == n then 1 else 0 {
      FilterCount(r, (y: Entry) => y.day == x.day, z);
      if z.day == x.day && z != n {
        if z in store {
          assert z == x && Dropped(draft, s, e, z);
        } else {
          assert multiset(store)[z] == 0;
        }
      }
    }
    OnlyElement(o, n);
  }

  /** With the full-day default as the whole store, the save leaves exactly
      the new entry. */
  lemma ManualSaveOnlyDefault(x: Entry, draft: Draft, stamp: nat)
    requires x.start == 0 && x.end == DayMinutes
    requires ValidDraft(draft) && draft.days == [x.day] && draft.editingId == None
    requires 0 <= FormMinutes(draft.startTime) < FormMinutes(EndTimeForSave(draft.endTime))
    ensures var s := FormMinutes(draft.startTime);
      var e := FormMinutes(EndTimeForSave(draft.endTime));
      ManualSave([x], draft, stamp) == Saved([Entry(ManualId(stamp, x.day), x.day, s, e)], true)
  {
    var s := FormMinutes(draft.startTime);
    var e := FormMinutes(EndTimeForSave(draft.endTime));
    var out := ManualSave([x], draft, stamp);
    ReplaceFlag([x], x, draft, stamp);
    ManualSaveCommit([x], draft, stamp);
    ReplaceDefaultStore(x, draft, stamp, s, e, out.schedules);
  }

  /** The counting step of `ManualSaveOnlyDefault`: only the new entry is
      left. */
  lemma ReplaceDefaultStore(x: Entry, draft: Draft, stamp: nat, s: int, e: int, r: seq<Entry>)
    requires x.start == 0 && x.end == DayMinutes
    requires draft.days == [x.day] && draft.editingId == None && 0 <= s < e <= DayMinutes
    requires forall z :: multiset(r)[z] ==
               (if Dropped(draft, s, e, z) then 0 else multiset([x])[z])
               + (if z.day in draft.days && z == Entry(ManualId(stamp, z.day), z.day, s, e) then 1 else 0)
    ensures r == [Entry(ManualId(stamp, x.day), x.day, s, e)]
  {
    var n := Entry(ManualId(stamp, x.day), x.day, s, e);
    forall z ensures multiset(r)[z] == if z == n then 1 else 0 {
      if z == x {
        assert Dropped(draft, s, e, z);
      } else if z != n {
        assert multiset([x])[z] == 0;
      }
    }
    OnlyElement(r, n);
  }

  /** A save on the default's day overlaps the default, so it succeeds
      and reports a replacement. */
  lemma ReplaceFlag(store: seq<Entry>, x: Entry, draft: Draft, stamp: nat)
    requires x in store && x.start == 0 && x.end == DayMinutes
    requires ValidDraft(draft) && draft.days == [x.day] && draft.editingId == None
    requires 0 <= FormMinutes(draft.startTime) < FormMinutes(EndTimeForSave(draft.endTime))
    ensures ManualSave(store, draft, stamp).Saved? && ManualSave(store, draft, stamp).removed
  {
    var s := FormMinutes(draft.startTime);
    var e := FormMinutes(EndTimeForSave(draft.endTime));
    ManualSaveValidation(store, draft, stamp);
    ManualSaveFlag(store, draft, stamp);
    assert Overlaps(x, s, e);
  }

  lemma ExampleStartTime()
    ensures IsClockTime("09:00") && FormMinutes("09:00") == 540
  {
    ClockReading("09:00", '0', '9', '0', '0', 540);
  }

  lemma ExampleEndTime()
    ensures IsClockTime("17:00") && FormMinutes(EndTimeForSave("17:00")) == 1020
  {
    ClockReading("17:00", '1', '7', '0', '0', 1020);
    assert EndTimeForSave("17:00") == "17:00";
  }

  lemma ClockReading(s: string, a: char, b: char, c: char, d: char, v: int)
    requires s == [a, b, ':', c, d] && IsDigit(a) && IsDigit(b) && IsDigit(c) && IsDigit(d)
    requires DigitValue(a) * 10 + DigitValue(b) <= 23 && DigitValue(c) * 10 + DigitValue(d) <= 59
    requires v == (DigitValue(a) * 10 + DigitValue(b)) * 60 + DigitValue(c) * 10 + DigitValue(d)
    ensures IsClockTime(s) && TimeToMinutes(s) == Some(v)
  {
    assert s[..2] == [a, b] && s[3..] == [c, d];
    DigitsValuePair(a, b);
    DigitsValuePair(c, d);
    ClockTimeValue(s);
  }

  lemma ExampleResolve()
    ensures ResolveAll([Entry("sched-day-2", 2, 0, DayMinutes)], [2], 540, 1020) == ([], true)
  {
    var old0 := Entry("sched-day-2", 2, 0, DayMinutes);
    assert [2][..0] == [];
    assert ResolveAll([old0], [], 540, 1020) == ([old0], false);
    assert DeleteDay([old0], 2) == [];
    assert Filter(OnDay([old0], 2), Clear(540, 1020)) == [];
    assert Conflict([old0], 2, 540, 1020) by { assert old0 in [old0]; }
  }
}
