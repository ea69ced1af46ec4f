/** The interval store of src/components/schedule/ScheduleEditor.tsx: the
    `schedules` array, the `filter` and `sort` expressions the editor builds
    new snapshots with, and the invariants the editor is meant to keep. */
module Store {
  import opened Wrappers
  import opened Types
  import opened Utils

  /** `Array.prototype.filter`. */
  function Filter<T(!new)>(s: seq<T>, keep: T -> bool): (r: seq<T>)
    ensures |r| <= |s|
    ensures forall x :: x in r <==> x in s && keep(x)
  {
    if s == [] then []
    else (if keep(s[0]) then [s[0]] else []) + Filter(s[1..], keep)
  }

  /** The entries of one day, in store order. */
  function OnDay(s: seq<Entry>, day: nat): seq<Entry> {
    Filter(s, (x: Entry) => x.day == day)
  }

  /** `prev.filter(s => s.id !== id)`. */
  function DeleteById(s: seq<Entry>, id: Id): seq<Entry> {
    Filter(s, (x: Entry) => x.id != id)
  }

  /** `prev.filter(s => s.day !== day)`. */
  function DeleteDay(s: seq<Entry>, day: nat): seq<Entry> {
    Filter(s, (x: Entry) => x.day != day)
  }

  /** `schedules.find(s => s.id === id)`: the first entry with that id. */
  function FindById(s: seq<Entry>, id: Id): (r: Option<Entry>)
    ensures r.Some? <==> exists x :: x in s && x.id == id
    ensures r.Some? ==> r.value.id == id && exists k :: FirstAt(s, id, k, r.value)
  {
    if s == [] then None
    else if s[0].id == id then assert FirstAt(s, id, 0, s[0]); Some(s[0])
    else
      var r := FindById(s[1..], id);
      assert forall x :: x in s && x.id == id ==> x in s[1..];
      assert r.Some? ==> exists k :: FirstAt(s, id, k, r.value) by {
        if r.Some? {
          var k :| FirstAt(s[1..], id, k, r.value);
          assert FirstAt(s, id, k + 1, r.value);
        }
      }
      r
  }

  /** `s[k]` is `x`, and no earlier entry has the id. */
  predicate FirstAt(s: seq<Entry>, id: Id, k: int, x: Entry) {
    0 <= k < |s| && s[k] == x && forall j :: 0 <= j < k ==> s[j].id != id
  }

  /** The two comparators the editor sorts with: by start minute alone
      (`getBoundaries`) and by day, then start minute (every commit). */
  datatype Order = ByStart | ByDayStart

  predicate Le(o: Order, a: Entry, b: Entry) {
    match o
    case ByStart => a.start <= b.start
    case ByDayStart => a.day < b.day || (a.day == b.day && a.start <= b.start)
  }

  predicate Sorted(o: Order, s: seq<Entry>) {
    forall i, j :: 0 <= i < j < |s| ==> Le(o, s[i], s[j])
  }

  /** Inserts `x` before the first element it does not follow; inserting the
      elements back to front therefore keeps equal elements in their original
      order, as JavaScript's stable `sort` does. */
  function Insert(o: Order, x: Entry, t: seq<Entry>): (r: seq<Entry>)
    ensures multiset(r) == multiset([x] + t)
  {
    if t == [] || Le(o, x, t[0]) then [x] + t
    else
      assert t == [t[0]] + t[1..];
      [t[0]] + Insert(o, x, t[1..])
  }

  /** Inserting into a sorted sequence keeps it sorted. */
  lemma {:induction false} InsertSorted(o: Order, x: Entry, t: seq<Entry>)
    requires Sorted(o, t)
    ensures Sorted(o, Insert(o, x, t))
  {
    if t == [] || Le(o, x, t[0]) {
      forall y | y in t ensures Le(o, x, y) {
        var k :| 0 <= k < |t| && t[k] == y;
        if k > 0 { LeTrans(o, x, t[0], y); }
      }
      ConsSorted(o, x, t);
    } else {
      var rest := Insert(o, x, t[1..]);
      InsertSorted(o, x, t[1..]);
      forall y | y in rest ensures Le(o, t[0], y) {
        assert y in multiset([x] + t[1..]);
        if y != x {
          assert y in t[1..];
        }
      }
      ConsSorted(o, t[0], rest);
    }
  }

  lemma LeTrans(o: Order, a: Entry, b: Entry, c: Entry)
    requires Le(o, a, b) && Le(o, b, c)
    ensures Le(o, a, c)
  {
  }

  lemma ConsSorted(o: Order, h: Entry, r: seq<Entry>)
    requires Sorted(o, r) && forall y :: y in r ==> Le(o, h, y)
    ensures Sorted(o, [h] + r)
  {
    forall i, j | 0 <= i < j < |[h] + r| ensures Le(o, ([h] + r)[i], ([h] + r)[j]) {
      if i == 0 {
        assert ([h] + r)[j] == r[j - 1];
        assert r[j - 1] in r;
      } else {
        assert ([h] + r)[i] == r[i - 1] && ([h] + r)[j] == r[j - 1];
      }
    }
  }

  /** `Array.prototype.sort` with the comparator of `o` (a stable insertion
      sort). */
  function Sort(o: Order, s: seq<Entry>): (r: seq<Entry>)
    ensures Sorted(o, r)
    ensures multiset(r) == multiset(s)
  {
    if s == [] then []
    else
      assert s == [s[0]] + s[1..];
      var rest := Sort(o, s[1..]);
      InsertSorted(o, s[0], rest);
      Insert(o, s[0], rest)
  }

  /** Two entries do not overlap: on different days, or one ends by the time
      the other starts. */
  predicate Apart(a: Entry, b: Entry) {
    a.day != b.day || a.end <= b.start || b.end <= a.start
  }

  /** The central invariant: within each day, no two entries of the store
      overlap. */
  predicate DayDisjoint(s: seq<Entry>) {
    forall i, j :: 0 <= i < |s| && 0 <= j < |s| && i != j ==> Apart(s[i], s[j])
  }

  /** `DayDisjoint` stated on the multiset of entries, so that it carries
      over to any reordering or sub-collection. */
  ghost predicate BagDisjoint(m: multiset<Entry>) {
    && (forall x, y :: x in m && y in m && x != y ==> Apart(x, y))
    && (forall x :: m[x] > 1 ==> Apart(x, x))
  }

  /** Every entry lies within the day and does not end before it starts. */
  predicate WellFormed(s: seq<Entry>) {
    forall x :: x in s ==> 0 <= x.start <= x.end <= DayMinutes
  }

  predicate UniqueIds(s: seq<Entry>) {
    forall i, j :: 0 <= i < j < |s| ==> s[i].id != s[j].id
  }

  /** No entry of the store carries the id. */
  predicate FreshId(s: seq<Entry>, id: Id) {
    forall x :: x in s ==> x.id != id
  }

  /** `UniqueIds` stated on the multiset of entries. */
  ghost predicate BagUnique(m: multiset<Entry>) {
    && (forall x, y :: x in m && y in m && x != y ==> x.id != y.id)
    && (forall x :: m[x] <= 1)
  }

  /** Every edge is on the 15-minute grid the pointer snaps to. */
  predicate OnGrid(s: seq<Entry>) {
    forall x :: x in s ==> x.start % 15 == 0 && x.end % 15 == 0
  }

  // ---------------------------------------------------------------------
  // Lemmas about filtering

  /** Filtering keeps each kept element as often as it occurred and drops the
      rest. */
  lemma {:induction false} FilterCount<T(!new)>(s: seq<T>, keep: T -> bool, x: T)
    ensures multiset(Filter(s, keep))[x] == if keep(x) then multiset(s)[x] else 0
  {
    if s != [] {
      FilterCount(s[1..], keep, x);
      assert s == [s[0]] + s[1..];
    }
  }

  /** Filtering distributes over concatenation: the kept elements stay in
      their relative order. */
  lemma {:induction false} FilterAppend<T(!new)>(a: seq<T>, b: seq<T>, keep: T -> bool)
    ensures Filter(a + b, keep) == Filter(a, keep) + Filter(b, keep)
  {
    if a == [] {
      assert a + b == b;
    } else {
      assert (a + b)[1..] == a[1..] + b;
      FilterAppend(a[1..], b, keep);
    }
  }

  lemma {:induction false} FilterNone<T(!new)>(s: seq<T>, keep: T -> bool)
    requires forall x :: x in s ==> !keep(x)
    ensures Filter(s, keep) == []
  {
    if s != [] {
      assert s[0] in s;
      FilterNone(s[1..], keep);
    }
  }

  lemma FilterSub<T(!new)>(s: seq<T>, keep: T -> bool)
    ensures multiset(Filter(s, keep)) <= multiset(s)
  {
    forall x ensures multiset(Filter(s, keep))[x] <= multiset(s)[x] {
      FilterCount(s, keep, x);
    }
  }

  /** A filtered sorted sequence is sorted. */
  lemma {:induction false} FilterSorted(o: Order, s: seq<Entry>, keep: Entry -> bool)
    requires Sorted(o, s)
    ensures Sorted(o, Filter(s, keep))
  {
    if s != [] {
      FilterSorted(o, s[1..], keep);
      var rest := Filter(s[1..], keep);
      assert forall k :: 0 <= k < |s[1..]| ==> Le(o, s[0], s[1..][k]) by {
        forall k | 0 <= k < |s[1..]| ensures Le(o, s[0], s[1..][k]) { assert s[1..][k] == s[k + 1]; }
      }
      assert forall y :: y in rest ==> Le(o, s[0], y);
    }
  }

  // ---------------------------------------------------------------------
  // Lemmas about the invariant

  lemma {:induction false} TwoOccurrences(s: seq<Entry>, x: Entry)
    requires multiset(s)[x] > 1
    ensures exists i, j :: 0 <= i < j < |s| && s[i] == x && s[j] == x
  {
    assert s == [s[0]] + s[1..];
    if s[0] == x {
      assert x in s[1..];
      var j :| 0 <= j < |s[1..]| && s[1..][j] == x;
      assert s[0] == x && s[j + 1] == x;
    } else {
      TwoOccurrences(s[1..], x);
      var i, j :| 0 <= i < j < |s[1..]| && s[1..][i] == x && s[1..][j] == x;
      assert s[i + 1] == x && s[j + 1] == x;
    }
  }

  lemma CountTwo(s: seq<Entry>, i: int, j: int)
    requires 0 <= i < j < |s| && s[i] == s[j]
    ensures multiset(s)[s[i]] > 1
  {
    assert s == s[..j] + s[j..];
    assert s[i] in s[..j];
    assert s[j] == s[j..][0];
  }

  /** The pairwise and the multiset statement of the invariant agree. */
  lemma DayDisjointBag(s: seq<Entry>)
    ensures DayDisjoint(s) <==> BagDisjoint(multiset(s))
  {
    if DayDisjoint(s) {
      forall x | multiset(s)[x] > 1 ensures Apart(x, x) {
        TwoOccurrences(s, x);
      }
    }
    if BagDisjoint(multiset(s)) {
      forall i, j | 0 <= i < |s| && 0 <= j < |s| && i != j ensures Apart(s[i], s[j]) {
        if s[i] == s[j] {
          if i < j { CountTwo(s, i, j); } else { CountTwo(s, j, i); }
        }
      }
    }
  }

  /** The pairwise and the multiset statement of distinct ids agree. */
  lemma UniqueIdsBag(s: seq<Entry>)
    ensures UniqueIds(s) <==> BagUnique(multiset(s))
  {
    if UniqueIds(s) {
      forall x, y | x in multiset(s) && y in multiset(s) && x != y ensures x.id != y.id {
        var i :| 0 <= i < |s| && s[i] == x;
        var j :| 0 <= j < |s| && s[j] == y;
        assert i != j;
        if i > j { assert s[j].id != s[i].id; }
      }
      forall x ensures multiset(s)[x] <= 1 {
        if multiset(s)[x] > 1 {
          TwoOccurrences(s, x);
        }
      }
    }
    if BagUnique(multiset(s)) {
      forall i, j | 0 <= i < j < |s| ensures s[i].id != s[j].id {
        if s[i] == s[j] {
          CountTwo(s, i, j);
        } else {
          assert s[i] in multiset(s) && s[j] in multiset(s);
        }
      }
    }
  }

  /** Any sub-collection of a store with distinct ids, in any order, has
      distinct ids. */
  lemma UniqueIdsSub(a: seq<Entry>, b: seq<Entry>)
    requires multiset(a) <= multiset(b) && UniqueIds(b)
    ensures UniqueIds(a)
  {
    UniqueIdsBag(a);
    UniqueIdsBag(b);
  }

  /** Two stores with distinct ids, no id shared between them, join into a
      store with distinct ids. */
  lemma UniqueIdsAppend(a: seq<Entry>, b: seq<Entry>)
    requires UniqueIds(a) && UniqueIds(b)
    requires forall x, y :: x in a && y in b ==> x.id != y.id
    ensures UniqueIds(a + b)
  {
    var t := a + b;
    forall i, j | 0 <= i < j < |t| ensures t[i].id != t[j].id {
      if j < |a| {
        assert t[i] == a[i] && t[j] == a[j];
      } else if i >= |a| {
        assert t[i] == b[i - |a|] && t[j] == b[j - |a|];
      } else {
        assert t[i] == a[i] && t[j] == b[j - |a|];
        assert a[i] in a && b[j - |a|] in b;
      }
    }
  }

  /** Any sub-collection of a disjoint store, in any order, is disjoint. */
  lemma DayDisjointSub(a: seq<Entry>, b: seq<Entry>)
    requires multiset(a) <= multiset(b) && DayDisjoint(b)
    ensures DayDisjoint(a)
  {
    DayDisjointBag(a);
    DayDisjointBag(b);
  }

  /** Two disjoint stores whose entries are pairwise apart join into a
      disjoint store. */
  lemma DayDisjointAppend(a: seq<Entry>, b: seq<Entry>)
    requires DayDisjoint(a) && DayDisjoint(b)
    requires forall x, y :: x in a && y in b ==> Apart(x, y)
    ensures DayDisjoint(a + b)
  {
    var t := a + b;
    forall i, j | 0 <= i < |t| && 0 <= j < |t| && i != j ensures Apart(t[i], t[j]) {
      if i < |a| && j < |a| {
        assert t[i] == a[i] && t[j] == a[j];
      } else if i >= |a| && j >= |a| {
        assert t[i] == b[i - |a|] && t[j] == b[j - |a|];
      } else if i < |a| {
        assert t[i] == a[i] && t[j] == b[j - |a|];
        assert a[i] in a && b[j - |a|] in b;
      } else {
        assert t[j] == a[j] && t[i] == b[i - |a|];
        assert a[j] in a && b[i - |a|] in b;
      }
    }
  }

  /** A sequence holding `n` once and nothing else is `[n]`. */
  lemma OnlyElement(o: seq<Entry>, n: Entry)
    requires forall z :: multiset(o)[z] == if z == n then 1 else 0
    ensures o == [n]
  {
    assert multiset(o) == multiset{n};
    assert |o| == 1;
    assert o[0] in multiset(o);
  }

  /** Appending an entry appends it to its own day's entries only. */
  lemma OnDaySnoc(s: seq<Entry>, x: Entry)
    ensures forall d :: OnDay(s + [x], d) == if x.day == d then OnDay(s, d) + [x] else OnDay(s, d)
  {
    forall d ensures OnDay(s + [x], d) == if x.day == d then OnDay(s, d) + [x] else OnDay(s, d) {
      FilterAppend(s, [x], (y: Entry) => y.day == d);
      assert [x][1..] == [];
    }
  }

  /** A day has entries exactly when some entry of the store is on it. */
  lemma OnDayNonEmpty(s: seq<Entry>, d: nat)
    ensures OnDay(s, d) != [] <==> exists x :: x in s && x.day == d
  {
    if x :| x in s && x.day == d {
      assert x in OnDay(s, d);
    }
    if OnDay(s, d) != [] {
      assert OnDay(s, d)[0] in OnDay(s, d);
    }
  }

  /** Deleting by id removes exactly the entries with that id and keeps the
      rest in order, and keeps every invariant of the store. */
  lemma DeleteByIdSpec(s: seq<Entry>, id: Id)
    ensures forall x :: multiset(DeleteById(s, id))[x] == if x.id == id then 0 else multiset(s)[x]
    ensures forall a, b :: s == a + b ==> DeleteById(s, id) == DeleteById(a, id) + DeleteById(b, id)
    ensures DayDisjoint(s) ==> DayDisjoint(DeleteById(s, id))
    ensures WellFormed(s) ==> WellFormed(DeleteById(s, id))
    ensures UniqueIds(s) ==> UniqueIds(DeleteById(s, id))
    ensures OnGrid(s) ==> OnGrid(DeleteById(s, id))
    ensures Sorted(ByDayStart, s) ==> Sorted(ByDayStart, DeleteById(s, id))
  {
    var keep := (x: Entry) => x.id != id;
    forall x ensures multiset(DeleteById(s, id))[x] == if x.id == id then 0 else multiset(s)[x] {
      FilterCount(s, keep, x);
    }
    forall a, b | s == a + b ensures DeleteById(s, id) == DeleteById(a, id) + DeleteById(b, id) {
      FilterAppend(a, b, keep);
    }
    FilterSub(s, keep);
    if DayDisjoint(s) { DayDisjointSub(DeleteById(s, id), s); }
    if UniqueIds(s) { UniqueIdsSub(DeleteById(s, id), s); }
    if Sorted(ByDayStart, s) { FilterSorted(ByDayStart, s, keep); }
  }

  /** Deleting a day removes exactly that day's entries and keeps the rest in
      order, and keeps every invariant of the store. */
  lemma DeleteDaySpec(s: seq<Entry>, day: nat)
    ensures forall x :: multiset(DeleteDay(s, day))[x] == if x.day == day then 0 else multiset(s)[x]
    ensures forall a, b :: s == a + b ==> DeleteDay(s, day) == DeleteDay(a, day) + DeleteDay(b, day)
    ensures OnDay(DeleteDay(s, day), day) == []
    ensures DayDisjoint(s) ==> DayDisjoint(DeleteDay(s, day))
    ensures WellFormed(s) ==> WellFormed(DeleteDay(s, day))
    ensures UniqueIds(s) ==> UniqueIds(DeleteDay(s, day))
    ensures OnGrid(s) ==> OnGrid(DeleteDay(s, day))
    ensures Sorted(ByDayStart, s) ==> Sorted(ByDayStart, DeleteDay(s, day))
  {
    var keep := (x: Entry) => x.day != day;
    forall x ensures multiset(DeleteDay(s, day))[x] == if x.day == day then 0 else multiset(s)[x] {
      FilterCount(s, keep, x);
    }
    forall a, b | s == a + b ensures DeleteDay(s, day) == DeleteDay(a, day) + DeleteDay(b, day) {
      FilterAppend(a, b, keep);
    }
    FilterNone(DeleteDay(s, day), (x: Entry) => x.day == day);
    FilterSub(s, keep);
    if DayDisjoint(s) { DayDisjointSub(DeleteDay(s, day), s); }
    if UniqueIds(s) { UniqueIdsSub(DeleteDay(s, day), s); }
    if Sorted(ByDayStart, s) { FilterSorted(ByDayStart, s, keep); }
  }

  /** The store `createInitialSchedules` builds keeps every invariant: one
      full-day entry per day, sorted, on the grid, pairwise distinct ids. */
  lemma InitialSchedulesValid(dayCount: nat)
    ensures var r := CreateInitialSchedules(dayCount);
      DayDisjoint(r) && WellFormed(r) && UniqueIds(r) && OnGrid(r) && Sorted(ByDayStart, r)
  {
    var r := CreateInitialSchedules(dayCount);
    MidnightIsClockTime();
    assert forall i :: 0 <= i < |r| ==> r[i].day == i && r[i].start == 0 && r[i].end == DayMinutes;
    FullDays(r);
  }

  /** A store holding the whole of day `i` at index `i` keeps every
      invariant. */
  lemma FullDays(r: seq<Entry>)
    requires forall i :: 0 <= i < |r| ==> r[i].day == i && r[i].start == 0 && r[i].end == DayMinutes
    requires forall i, j :: 0 <= i < j < |r| ==> r[i].id != r[j].id
    ensures DayDisjoint(r) && WellFormed(r) && UniqueIds(r) && OnGrid(r) && Sorted(ByDayStart, r)
  {
    assert forall x :: x in r ==> x.start == 0 && x.end == DayMinutes;
  }
}
