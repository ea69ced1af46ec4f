/** The drag sessions of src/components/schedule/ScheduleEditor.tsx:
    starting a create or edit session, applying a pointer move and
    committing on release. A pointer position is a whole minute of the day;
    the pixel arithmetic that produces it is not part of this model. */
module Drag {
  import opened Wrappers
  import opened Types
  import opened Utils
  import opened Store
  import opened Gap

  /** `Math.round(r / 15) * 15`: the multiple of 15 nearest to `r`, which is
      unique because a whole minute is never exactly halfway between two
      multiples of 15. */
  function Snap(r: int): (m: int)
    ensures m % 15 == 0
    ensures 2 * m - 15 <= 2 * r < 2 * m + 15
  {
    (r + 7) / 15 * 15
  }

  /** The pointer minute of a move or release: the raw minute clamped into
      the session's gap, then snapped. */
  function PointerMinute(st: DragState, raw: int): int {
    Snap(Max(st.left, Min(raw, st.right)))
  }

  /** The entry a pointer move at snapped minute `cur` makes of `e`. */
  function EditEntry(e: Entry, st: DragState, cur: int): Entry {
    match st.handle
    case Start => e.(start := StoredMinutes(Min(cur, e.end)))
    case End => e.(end := StoredMinutes(Max(cur, e.start)))
    case Move =>
      var dur := e.end - e.start;
      var c := MoveStart(st, cur, dur);
      e.(start := StoredMinutes(c), end := StoredMinutes(c + dur))
    case New => e
  }

  /** Where a moved strip starts: the start it had when the drag began,
      shifted by the pointer's travel, clamped so the strip stays within
      the gap. */
  function MoveStart(st: DragState, cur: int, dur: int): int {
    Max(st.left, Min(st.initialStart.GetOr(0) + (cur - st.initialMouse), st.right - dur))
  }

  /** `handleMouseMove`: an edit session rewrites every entry with the
      session's id; a create session changes nothing. */
  function MoveUpdate(s: seq<Entry>, st: DragState, raw: int): (r: seq<Entry>)
    ensures |r| == |s|
    ensures !(st.kind == Edit && Truthy(st.scheduleId)) ==> r == s
    ensures forall i :: 0 <= i < |s| ==> r[i].id == s[i].id && r[i].day == s[i].day
    ensures forall i :: 0 <= i < |s| && Some(s[i].id) != st.scheduleId ==> r[i] == s[i]
    ensures forall i :: 0 <= i < |s| && st.handle == Start ==> r[i].end == s[i].end
    ensures forall i :: 0 <= i < |s| && st.handle == End ==> r[i].start == s[i].start
    ensures st.handle == New ==> r == s
  {
    if st.kind == Edit && Truthy(st.scheduleId) then
      var cur := PointerMinute(st, raw);
      seq(|s|, i requires 0 <= i < |s| =>
        if s[i].id == st.scheduleId.value then EditEntry(s[i], st, cur) else s[i])
    else s
  }

  /** The interval a release at `raw` would create: from the smaller to the
      larger of the anchor and the pointer minute, as stored. */
  function CreateSpan(st: DragState, raw: int): (int, int) {
    var f := PointerMinute(st, raw);
    (StoredMinutes(Min(st.initialMouse, f)), StoredMinutes(Max(st.initialMouse, f)))
  }

  /** `handleMouseUp`: a create session adds the new entry when it spans at
      least 15 minutes and re-sorts the store by day and start; any other
      session leaves the store alone. */
  function CreateCommit(s: seq<Entry>, st: DragState, raw: int, freshId: Id): seq<Entry> {
    if st.kind != Create then s
    else
      var (lo, hi) := CreateSpan(st, raw);
      if hi - lo >= 15 then Sort(ByDayStart, s + [Entry(freshId, st.day, lo, hi)]) else s
  }

  /** A same-day entry that has the minute `a` in `[start, end)`. */
  predicate Inside(s: seq<Entry>, day: nat, a: int) {
    exists x :: x in s && x.day == day && x.start <= a < x.end
  }

  /** `handleRowMouseDown`: no session when the snapped minute falls inside
      an entry of the day; otherwise a create session anchored there, bounded
      by the free gap around it. */
  function BeginCreate(s: seq<Entry>, day: nat, raw: int): Option<DragState> {
    var a := Snap(raw);
    if Inside(s, day, a) then None
    else
      var b := Boundaries(s, day, None, Some(a));
      Some(DragState(Create, day, New, None, None, a, b.left, b.right))
  }

  /** `handleStripDragStart`: an edit session on the first entry with the
      id, bounded by the gap around the snapped minute with that id
      excluded; no session when no entry has the id. */
  function BeginEdit(s: seq<Entry>, day: nat, handle: Handle, id: Id, raw: int): (r: Option<DragState>)
    requires handle != New
    ensures r.Some? <==> exists x :: x in s && x.id == id
  {
    var a := Snap(raw);
    match FindById(s, id)
    case None => None
    case Some(x) =>
      var b := Boundaries(s, day, Some(id), Some(a));
      Some(DragState(Edit, day, handle, Some(id), Some(x.start), a, b.left, b.right))
  }

  // ---------------------------------------------------------------------
  // What a session keeps true

  /** No entry of the session's day, other than the one being edited, meets
      the open gap `(left, right)`. */
  predicate GapFree(s: seq<Entry>, st: DragState) {
    forall x :: x in s && x.day == st.day && Some(x.id) != st.scheduleId ==>
      x.start >= st.right || x.end <= st.left
  }

  /** The gap lies within the day and its edges are on the grid. */
  predicate GridGap(st: DragState) {
    0 <= st.left <= st.right <= DayMinutes && st.left % 15 == 0 && st.right % 15 == 0
  }

  /** A create session whose anchor lies in its free, on-grid gap. */
  predicate CreateSafe(s: seq<Entry>, st: DragState) {
    && st.kind == Create && st.scheduleId.None?
    && GapFree(s, st) && GridGap(st)
    && st.left <= st.initialMouse <= st.right && st.initialMouse % 15 == 0
  }

  /** An edit session whose entry lies, on the session's day, within its
      free, on-grid gap, and whose anchor and recorded start are on the
      grid. */
  predicate EditSafe(s: seq<Entry>, st: DragState) {
    && st.kind == Edit && st.scheduleId.Some?
    && GapFree(s, st) && GridGap(st)
    && st.initialMouse % 15 == 0 && st.initialStart.GetOr(0) % 15 == 0
    && forall x :: x in s && x.id == st.scheduleId.value ==>
      x.day == st.day && st.left <= x.start <= x.end <= st.right
  }

  // ---------------------------------------------------------------------
  // Lemmas

  /** On an on-grid gap the pointer minute never leaves the gap. */
  lemma PointerWithin(st: DragState, raw: int)
    requires st.left <= st.right && st.left % 15 == 0 && st.right % 15 == 0
    ensures st.left <= PointerMinute(st, raw) <= st.right
    ensures PointerMinute(st, raw) % 15 == 0
  {
    var c := Max(st.left, Min(raw, st.right));
    var m := Snap(c);
    assert m == 15 * (m / 15) && st.left == 15 * (st.left / 15) && st.right == 15 * (st.right / 15);
  }

  /** When a gap edge is off the grid the snapped pointer can pass it: a
      gap ending at 05:08 lets the pointer reach 05:15. */
  lemma PointerOvershoot()
    ensures PointerMinute(DragState(Create, 0, New, None, None, 300, 0, 308), 400) == 315
  {
  }

  /** Releasing a create session adds exactly one entry, on the session's
      day and from the nearer to the farther of anchor and pointer, when it
      spans at least 15 minutes, and then the store is sorted; otherwise, and
      for an edit session, the store is unchanged. */
  lemma CreateCommitSpec(s: seq<Entry>, st: DragState, raw: int, freshId: Id)
    ensures var r := CreateCommit(s, st, raw, freshId);
      var (lo, hi) := CreateSpan(st, raw);
      && (st.kind == Create && hi - lo >= 15 ==>
            && multiset(r) == multiset(s) + multiset{Entry(freshId, st.day, lo, hi)}
            && Sorted(ByDayStart, r))
      && (st.kind != Create || hi - lo < 15 ==> r == s)
    ensures var (lo, hi) := CreateSpan(st, raw);
      && 0 <= lo <= hi <= DayMinutes
      && (0 <= st.initialMouse <= DayMinutes ==> lo <= st.initialMouse <= hi)
  {
  }

  /** The entry a safe create session commits lies within its gap and on
      the grid. */
  lemma CreateSpanInGap(st: DragState, raw: int)
    requires GridGap(st) && st.left <= st.initialMouse <= st.right && st.initialMouse % 15 == 0
    ensures var (lo, hi) := CreateSpan(st, raw);
      st.left <= lo <= hi <= st.right && lo % 15 == 0 && hi % 15 == 0
  {
    PointerWithin(st, raw);
  }

  /** Committing a safe create session keeps the day-disjointness,
      well-formedness and grid invariants of the store. */
  lemma CreateCommitPreserves(s: seq<Entry>, st: DragState, raw: int, freshId: Id)
    requires CreateSafe(s, st)
    ensures var r := CreateCommit(s, st, raw, freshId);
      && (DayDisjoint(s) ==> DayDisjoint(r))
      && (WellFormed(s) ==> WellFormed(r))
      && (OnGrid(s) ==> OnGrid(r))
  {
    var r := CreateCommit(s, st, raw, freshId);
    var n := Entry(freshId, st.day, CreateSpan(st, raw).0, CreateSpan(st, raw).1);
    CreateSpanInGap(st, raw);
    CommitMembers(s, st, raw, freshId);
    assert WellFormed(s) ==> WellFormed(r) by {
      if WellFormed(s) {
        forall x | x in r ensures 0 <= x.start <= x.end <= DayMinutes {
          if x != n { assert x in s; }
        }
      }
    }
    assert OnGrid(s) ==> OnGrid(r) by {
      if OnGrid(s) {
        forall x | x in r ensures x.start % 15 == 0 && x.end % 15 == 0 {
          if x != n { assert x in s; }
        }
      }
    }
    assert DayDisjoint(s) ==> DayDisjoint(r) by {
      if DayDisjoint(s) && r != s {
        assert forall x, y :: x in s && y in [n] ==> Apart(x, y) by {
          forall x, y | x in s && y in [n] ensures Apart(x, y) {
            assert y == n;
          }
        }
        DayDisjointAppend(s, [n]);
        DayDisjointSub(r, s + [n]);
      }
    }
  }

  /** Committing with an id no entry carries keeps ids distinct. */
  lemma CreateCommitUnique(s: seq<Entry>, st: DragState, raw: int, freshId: Id)
    ensures UniqueIds(s) && FreshId(s, freshId) ==> UniqueIds(CreateCommit(s, st, raw, freshId))
  {
    var r := CreateCommit(s, st, raw, freshId);
    var n := Entry(freshId, st.day, CreateSpan(st, raw).0, CreateSpan(st, raw).1);
    if UniqueIds(s) && FreshId(s, freshId) && r != s {
      CommitMembers(s, st, raw, freshId);
      assert forall x, y :: x in s && y in [n] ==> x.id != y.id;
      UniqueIdsAppend(s, [n]);
      UniqueIdsSub(r, s + [n]);
    }
  }

  /** A commit either leaves the store alone or holds the store's entries
      and the new one, and nothing else. */
  lemma CommitMembers(s: seq<Entry>, st: DragState, raw: int, freshId: Id)
    ensures var r := CreateCommit(s, st, raw, freshId);
      var n := Entry(freshId, st.day, CreateSpan(st, raw).0, CreateSpan(st, raw).1);
      && (r == s || multiset(r) == multiset(s + [n]))
      && forall x :: x in r ==> x in s || x == n
  {
    var r := CreateCommit(s, st, raw, freshId);
    var n := Entry(freshId, st.day, CreateSpan(st, raw).0, CreateSpan(st, raw).1);
    if r != s {
      assert r == Sort(ByDayStart, s + [n]);
      assert forall x :: x in r ==> x in multiset(s + [n]);
    }
  }

  /** A create session begins exactly when the snapped minute is in no
      entry of the day, and a session begun on an on-grid store, inside the
      day, is safe. */
  lemma BeginCreateSafe(s: seq<Entry>, day: nat, raw: int)
    ensures BeginCreate(s, day, raw).None? <==> Inside(s, day, Snap(raw))
    ensures 0 <= raw <= DayMinutes && OnGrid(s) && BeginCreate(s, day, raw).Some? ==>
      var st := BeginCreate(s, day, raw).value;
      CreateSafe(s, st) && st.day == day && st.initialMouse == Snap(raw)
  {
    var a := Snap(raw);
    if 0 <= raw <= DayMinutes && OnGrid(s) && !Inside(s, day, a) {
      assert 0 <= a <= DayMinutes;
      BoundariesWithin(s, day, None, Some(a));
      BoundariesOnGrid(s, day, None, Some(a));
      BoundariesFreeGap(s, day, None, a);
    }
  }

  /** Every entry of the day, other than those with the id, spans at least
      one minute. */
  predicate OthersNonEmpty(s: seq<Entry>, day: nat, id: Id) {
    forall y :: y in s && y.day == day && y.id != id ==> y.start < y.end
  }

  /** An edit session begun with the snapped pointer on its entry, edges
      included, on a disjoint, well-formed, on-grid store with distinct ids
      whose other entries of the day are not empty, is safe. */
  lemma BeginEditSafe(s: seq<Entry>, handle: Handle, id: Id, raw: int)
    requires handle != New
    requires DayDisjoint(s) && WellFormed(s) && UniqueIds(s) && OnGrid(s)
    requires FindById(s, id).Some?
    requires var x := FindById(s, id).value;
      x.start <= Snap(raw) <= x.end && OthersNonEmpty(s, x.day, id)
    ensures var x := FindById(s, id).value;
      var st := BeginEdit(s, x.day, handle, id, raw).value;
      EditSafe(s, st) && st.initialStart == Some(x.start) && st.handle == handle
  {
    var x := FindById(s, id).value;
    var k :| FirstAt(s, id, k, x);
    var a := Snap(raw);
    var b := Boundaries(s, x.day, Some(id), Some(a));
    var st := BeginEdit(s, x.day, handle, id, raw).value;
    assert st == DragState(Edit, x.day, handle, Some(id), Some(x.start), a, b.left, b.right);
    assert x in s && x.start % 15 == 0;
    assert GapFree(s, st) && GridGap(st) && b.left <= x.start && x.end <= b.right by {
      OthersApart(s, k);
      GapAroundEntry(s, x, a);
    }
    assert forall z :: z in s && z.id == id ==> z == x by {
      forall z | z in s && z.id == id ensures z == x {
        var j :| 0 <= j < |s| && s[j] == z;
      }
    }
  }

  /** In a disjoint store with distinct ids, every other entry of the day of
      `s[k]` is apart from it. */
  lemma OthersApart(s: seq<Entry>, k: int)
    requires DayDisjoint(s) && UniqueIds(s) && 0 <= k < |s|
    ensures forall y :: y in s && y.day == s[k].day && y.id != s[k].id ==> Apart(s[k], y)
  {
    forall y | y in s && y.day == s[k].day && y.id != s[k].id ensures Apart(s[k], y) {
      var j :| 0 <= j < |s| && s[j] == y;
      assert j != k;
    }
  }

  /** The gap around a minute of an entry, edges included, with that
      entry's id excluded, is free, on the grid and holds the whole entry
      when the other entries of the day are apart from it and not empty. */
  lemma GapAroundEntry(s: seq<Entry>, x: Entry, a: int)
    requires WellFormed(s) && OnGrid(s) && x in s && x.start <= a <= x.end
    requires forall y :: y in s && y.day == x.day && y.id != x.id ==> Apart(x, y)
    requires OthersNonEmpty(s, x.day, x.id)
    ensures var b := Boundaries(s, x.day, Some(x.id), Some(a));
      && 0 <= b.left <= x.start && x.end <= b.right <= DayMinutes
      && b.left % 15 == 0 && b.right % 15 == 0
      && forall y :: y in s && y.day == x.day && Some(y.id) != Some(x.id) ==>
           y.start >= b.right || y.end <= b.left
  {
    var day, id := x.day, x.id;
    var b := Boundaries(s, day, Some(id), Some(a));
    assert 0 <= b.left <= x.start && x.end <= b.right <= DayMinutes by {
      assert 0 <= a <= DayMinutes;
      BoundariesWithin(s, day, Some(id), Some(a));
      GapHoldsEntry(s, x, a, b);
    }
    assert b.left % 15 == 0 && b.right % 15 == 0 by {
      BoundariesOnGrid(s, day, Some(id), Some(a));
    }
    assert NoStraddle(s, day, Some(id), a) by {
      EntryNoStraddle(s, x, a);
    }
    BoundariesFreeGap(s, day, Some(id), a);
  }

  /** No entry apart from `x` on its day straddles a minute of `x`. */
  lemma EntryNoStraddle(s: seq<Entry>, x: Entry, a: int)
    requires x.start <= a <= x.end
    requires forall y :: y in s && y.day == x.day && y.id != x.id ==> Apart(x, y)
    ensures NoStraddle(s, x.day, Some(x.id), a)
  {
  }

  /** A gap around a minute of `x`, each of whose boundaries is the edge
      of the day or an edge of a non-empty entry apart from `x`, holds the
      whole of `x`. */
  lemma GapHoldsEntry(s: seq<Entry>, x: Entry, a: int, b: Bounds)
    requires WellFormed(s) && x in s && x.start <= a <= x.end
    requires forall y :: y in s && y.day == x.day && y.id != x.id ==> Apart(x, y)
    requires OthersNonEmpty(s, x.day, x.id)
    requires b.left <= a <= b.right
    requires b.left == 0 || exists y :: y in s && y.day == x.day && Some(y.id) != Some(x.id) && b.left == y.end
    requires b.right == DayMinutes || exists y :: y in s && y.day == x.day && Some(y.id) != Some(x.id) && b.right == y.start
    ensures b.left <= x.start && x.end <= b.right
  {
    if b.left != 0 {
      var y :| y in s && y.day == x.day && Some(y.id) != Some(x.id) && b.left == y.end;
      assert Apart(x, y) && y.start < y.end;
    }
    if b.right != DayMinutes {
      var y :| y in s && y.day == x.day && Some(y.id) != Some(x.id) && b.right == y.start;
      assert Apart(x, y) && y.start < y.end;
    }
  }

  /** A pointer move of a safe edit session keeps the store day-disjoint,
      keeps the session safe, keeps ids, well-formedness and the grid, and
      keeps each moved strip's length. */
  lemma MoveUpdatePreserves(s: seq<Entry>, st: DragState, raw: int)
    requires EditSafe(s, st)
    ensures var r := MoveUpdate(s, st, raw);
      && EditSafe(r, st)
      && (DayDisjoint(s) && UniqueIds(s) ==> DayDisjoint(r))
      && (UniqueIds(s) ==> UniqueIds(r))
      && (WellFormed(s) ==> WellFormed(r))
      && (OnGrid(s) ==> OnGrid(r))
      && (st.handle == Move ==> forall i :: 0 <= i < |s| ==> r[i].end - r[i].start == s[i].end - s[i].start)
  {
    var r := MoveUpdate(s, st, raw);
    var id := st.scheduleId.value;
    MoveEdited(s, st, raw);
    MoveMembers(s, st, raw);
    assert OnGrid(s) ==> OnGrid(r) by {
      if OnGrid(s) {
        forall x | x in r ensures x.start % 15 == 0 && x.end % 15 == 0 {
          if x.id != id { assert x in s; }
        }
      }
    }
    assert DayDisjoint(s) && UniqueIds(s) ==> DayDisjoint(r) by {
      if DayDisjoint(s) && UniqueIds(s) {
        forall i, j | 0 <= i < |r| && 0 <= j < |r| && i != j ensures Apart(r[i], r[j]) {
          if s[i].id == id {
            assert s[j].id != id;
            assert s[j] in s;
          } else if s[j].id == id {
            assert s[i] in s;
          }
        }
      }
    }
  }

  /** After a move, the entries with the session's id lie within the gap on
      the session's day, and every other entry is one of the store's. */
  lemma MoveMembers(s: seq<Entry>, st: DragState, raw: int)
    requires EditSafe(s, st)
    ensures var r := MoveUpdate(s, st, raw);
      var id := st.scheduleId.value;
      forall x :: x in r ==>
        && (x.id == id ==> x.day == st.day && st.left <= x.start <= x.end <= st.right)
        && (x.id == id && OnGrid(s) ==> x.start % 15 == 0 && x.end % 15 == 0)
        && (x.id != id ==> x in s)
  {
    var r := MoveUpdate(s, st, raw);
    var id := st.scheduleId.value;
    MoveEdited(s, st, raw);
    forall x | x in r ensures x.id == id ==> x.day == st.day && st.left <= x.start <= x.end <= st.right
      ensures x.id == id && OnGrid(s) ==> x.start % 15 == 0 && x.end % 15 == 0
      ensures x.id != id ==> x in s
    {
      var i :| 0 <= i < |r| && r[i] == x;
      assert s[i] in s;
    }
  }

  /** Each entry a safe edit session rewrites stays, on the session's day,
      within the gap, stays on the grid when it was, and a moved entry
      keeps its length. */
  lemma MoveEdited(s: seq<Entry>, st: DragState, raw: int)
    requires EditSafe(s, st)
    ensures var r := MoveUpdate(s, st, raw);
      forall i :: 0 <= i < |s| && s[i].id == st.scheduleId.value ==>
        && r[i].day == st.day && st.left <= r[i].start <= r[i].end <= st.right
        && (st.handle == Move ==> r[i].end - r[i].start == s[i].end - s[i].start)
        && (s[i].start % 15 == 0 && s[i].end % 15 == 0 ==> r[i].start % 15 == 0 && r[i].end % 15 == 0)
  {
    var r := MoveUpdate(s, st, raw);
    PointerWithin(st, raw);
    var cur := PointerMinute(st, raw);
    forall i | 0 <= i < |s| && s[i].id == st.scheduleId.value
      ensures r[i].day == st.day && st.left <= r[i].start <= r[i].end <= st.right
      ensures st.handle == Move ==> r[i].end - r[i].start == s[i].end - s[i].start
      ensures s[i].start % 15 == 0 && s[i].end % 15 == 0 ==> r[i].start % 15 == 0 && r[i].end % 15 == 0
    {
      assert s[i] in s;
      EditWithinGap(s[i], st, cur);
      if s[i].start % 15 == 0 && s[i].end % 15 == 0 {
        EditOnGrid(s[i], st, cur);
      }
    }
  }

  /** Whatever the session, a pointer move keeps every entry within the
      day and not ending before it starts, and keeps ids distinct. */
  lemma MoveUpdateKeeps(s: seq<Entry>, st: DragState, raw: int)
    ensures var r := MoveUpdate(s, st, raw);
      && (WellFormed(s) ==> WellFormed(r))
      && (UniqueIds(s) ==> UniqueIds(r))
  {
    var r := MoveUpdate(s, st, raw);
    if WellFormed(s) && r != s {
      var cur := PointerMinute(st, raw);
      forall x | x in r ensures 0 <= x.start <= x.end <= DayMinutes {
        var i :| 0 <= i < |r| && r[i] == x;
        assert s[i] in s;
        if s[i].id == st.scheduleId.value {
          EditKeepsWellFormed(s[i], st, cur);
        }
      }
    }
  }

  /** One edit, at any pointer minute and in any session, leaves a
      well-formed entry well-formed: each edge is clamped into the day and
      an edge dragged past the other stops at it. */
  lemma EditKeepsWellFormed(e: Entry, st: DragState, cur: int)
    requires 0 <= e.start <= e.end <= DayMinutes
    ensures var n := EditEntry(e, st, cur);
      0 <= n.start <= n.end <= DayMinutes && n.id == e.id && n.day == e.day
  {
  }

  /** A move in any gap inside the day that is at least as long as the
      strip keeps the strip's length, keeps it within the gap and follows
      `MoveStart`, wherever the strip was. */
  lemma MoveWithinGap(e: Entry, st: DragState, cur: int)
    requires st.handle == Move
    requires 0 <= st.left && st.right <= DayMinutes
    requires 0 <= e.end - e.start <= st.right - st.left
    ensures var n := EditEntry(e, st, cur);
      && st.left <= n.start && n.end <= st.right
      && n.start == MoveStart(st, cur, e.end - e.start)
      && n.end - n.start == e.end - e.start
  {
  }

  /** An on-grid entry edited in a safe session at an on-grid pointer
      minute stays on the grid: every candidate edge is a multiple of 15. */
  lemma EditOnGrid(e: Entry, st: DragState, cur: int)
    requires GridGap(st) && st.left <= e.start <= e.end <= st.right
    requires st.left <= cur <= st.right && cur % 15 == 0
    requires st.initialMouse % 15 == 0 && st.initialStart.GetOr(0) % 15 == 0
    requires e.start % 15 == 0 && e.end % 15 == 0
    ensures var n := EditEntry(e, st, cur); n.start % 15 == 0 && n.end % 15 == 0
  {
    if st.handle == Move {
      var dur := e.end - e.start;
      var want := st.initialStart.GetOr(0) + (cur - st.initialMouse);
      assert dur % 15 == 0 && want % 15 == 0 && (st.right - dur) % 15 == 0 by {
        assert e.end == 15 * (e.end / 15) && e.start == 15 * (e.start / 15);
        assert cur == 15 * (cur / 15) && st.right == 15 * (st.right / 15);
        assert st.initialMouse == 15 * (st.initialMouse / 15);
        assert st.initialStart.GetOr(0) == 15 * (st.initialStart.GetOr(0) / 15);
      }
      MoveWithinGap(e, st, cur);
    }
  }

  /** One entry of a safe edit session, edited at an in-gap pointer minute,
      stays within the gap; a moved entry keeps its length; a move that fits
      follows the pointer exactly. */
  lemma EditWithinGap(e: Entry, st: DragState, cur: int)
    requires GridGap(st) && st.left <= e.start <= e.end <= st.right
    requires st.left <= cur <= st.right
    ensures var n := EditEntry(e, st, cur);
      && n.id == e.id && n.day == e.day
      && st.left <= n.start <= n.end <= st.right
      && (st.handle == Start ==> n.start == Min(cur, e.end) && n.end == e.end)
      && (st.handle == End ==> n.end == Max(cur, e.start) && n.start == e.start)
      && (st.handle == Move ==>
            n.start == MoveStart(st, cur, e.end - e.start) && n.end - n.start == e.end - e.start)
  {
  }

  /** A move that fits in the gap places the strip exactly at its start
      when the drag began, shifted by the pointer's travel. */
  lemma MoveFollowsPointer(st: DragState, cur: int, dur: int)
    requires var want := st.initialStart.GetOr(0) + (cur - st.initialMouse);
      st.left <= want <= st.right - dur
    ensures MoveStart(st, cur, dur) == st.initialStart.GetOr(0) + (cur - st.initialMouse)
  {
  }

  /** A resize may leave an empty entry: dragging the start handle of
      01:00-02:00 past its end leaves start and end both at 02:00. */
  lemma ResizeToZeroLength()
    ensures var st := DragState(Edit, 0, Start, Some("a"), Some(60), 60, 0, DayMinutes);
      MoveUpdate([Entry("a", 0, 60, 120)], st, 130) == [Entry("a", 0, 120, 120)]
  {
    var st := DragState(Edit, 0, Start, Some("a"), Some(60), 60, 0, DayMinutes);
    assert PointerMinute(st, 130) == 135;
    assert EditEntry(Entry("a", 0, 60, 120), st, 135) == Entry("a", 0, 120, 120);
  }

  /** On a store off the grid the snapped anchor can leave the entry, and
      the gap is then found around a minute that is not the entry's: the
      strip 01:52-01:58, grabbed at 01:53, anchors at 02:00, past its
      neighbour's start at 01:58, so the whole day is the gap and a move
      makes the two entries overlap. */
  lemma EditAnchorOutsideEntry()
    ensures var s := [Entry("a", 0, 112, 118), Entry("b", 0, 118, 200)];
      var st := DragState(Edit, 0, Move, Some("a"), Some(112), 120, 0, DayMinutes);
      && BeginEdit(s, 0, Move, "a", 113) == Some(st)
      && !GapFree(s, st)
      && MoveUpdate(s, st, 200) == [Entry("a", 0, 187, 193), Entry("b", 0, 118, 200)]
      && !DayDisjoint(MoveUpdate(s, st, 200))
  {
    var a, b := Entry("a", 0, 112, 118), Entry("b", 0, 118, 200);
    var s := [a, b];
    var st := DragState(Edit, 0, Move, Some("a"), Some(112), 120, 0, DayMinutes);
    assert Snap(113) == 120;
    assert FindById(s, "a") == Some(a);
    assert Considered(s, 0, Some("a")) == [b] by {
      assert s[1..] == [b] && [b][1..] == [];
    }
    assert Sort(ByStart, [b]) == [b];
    assert Boundaries(s, 0, Some("a"), Some(120)) == Bounds(0, DayMinutes);
    assert b in s;
    assert PointerMinute(st, 200) == 195;
    assert EditEntry(a, st, 195) == Entry("a", 0, 187, 193);
    var r := MoveUpdate(s, st, 200);
    assert r == [Entry("a", 0, 187, 193), b];
    assert !Apart(r[0], r[1]);
  }
}
