/** The boundary resolver `getBoundaries` of
    src/components/schedule/ScheduleEditor.tsx: the free gap of one day
    around an anchor minute, ignoring the entry being edited. */
module Gap {
  import opened Wrappers
  import opened Types
  import opened Utils
  import opened Store

  datatype Bounds = Bounds(left: int, right: int)

  function Max(a: int, b: int): int { if a >= b then a else b }
  function Min(a: int, b: int): int { if a <= b then a else b }

  /** The entries `getBoundaries` looks at:
      `schedules.filter(s => s.day === dayIndex && s.id !== excludeId)`. */
  function Considered(s: seq<Entry>, day: nat, exclude: Option<Id>): (r: seq<Entry>)
    ensures forall x :: x in r <==> x in s && x.day == day && Some(x.id) != exclude
  {
    Filter(s, (x: Entry) => x.day == day && Some(x.id) != exclude)
  }

  /** The scan loop of `getBoundaries` from the current element on, `left`
      being the left boundary found so far: an entry ending by the anchor
      raises the left boundary, and the first entry starting at or after the
      anchor caps the right boundary and ends the scan. */
  function Scan(ds: seq<Entry>, anchor: int, left: int): (b: Bounds)
    ensures left <= b.left && b.right <= DayMinutes
    ensures left <= anchor ==> b.left <= anchor
    ensures anchor <= DayMinutes ==> anchor <= b.right
    ensures b.left == left || exists x :: x in ds && b.left == x.end
    ensures b.right == DayMinutes || exists x :: x in ds && b.right == x.start
  {
    if ds == [] then Bounds(left, DayMinutes)
    else
      var x := ds[0];
      var l := if x.end <= anchor then Max(left, x.end) else left;
      if x.start >= anchor then Bounds(l, Min(DayMinutes, x.start))
      else
        var b := Scan(ds[1..], anchor, l);
        assert forall y :: y in ds[1..] ==> y in ds;
        b
  }

  /** What `getBoundaries(dayIndex, excludeId, dragInfo)` returns: the whole
      day without an anchor, otherwise the scan over the considered entries
      sorted by start. */
  function Boundaries(s: seq<Entry>, day: nat, exclude: Option<Id>, anchor: Option<int>): Bounds {
    if anchor.None? then Bounds(0, DayMinutes)
    else Scan(Sort(ByStart, Considered(s, day, exclude)), anchor.value, 0)
  }

  /** No considered entry has the anchor strictly inside it. */
  predicate NoStraddle(s: seq<Entry>, day: nat, exclude: Option<Id>, anchor: int) {
    forall x :: x in s && x.day == day && Some(x.id) != exclude ==> !(x.start < anchor < x.end)
  }

  // ---------------------------------------------------------------------
  // Lemmas

  /** The sorted considered entries are exactly the entries of the day that
      are not excluded. */
  lemma SortedConsidered(s: seq<Entry>, day: nat, exclude: Option<Id>)
    ensures forall x :: x in Sort(ByStart, Considered(s, day, exclude)) <==>
      x in s && x.day == day && Some(x.id) != exclude
  {
    var c := Considered(s, day, exclude);
    assert forall x :: x in Sort(ByStart, c) <==> x in multiset(c);
  }

  /** Without an anchor the gap is the whole day; with an anchor inside the
      day, `0 <= left <= anchor <= right <= 1440`, and each boundary is the
      edge of the day or an edge of a considered entry. */
  lemma BoundariesWithin(s: seq<Entry>, day: nat, exclude: Option<Id>, anchor: Option<int>)
    ensures anchor.None? ==> Boundaries(s, day, exclude, anchor) == Bounds(0, DayMinutes)
    ensures anchor.Some? && 0 <= anchor.value <= DayMinutes ==>
      var b := Boundaries(s, day, exclude, anchor);
      0 <= b.left <= anchor.value <= b.right <= DayMinutes
    ensures var b := Boundaries(s, day, exclude, anchor);
      && (b.left == 0 || exists x :: x in s && x.day == day && Some(x.id) != exclude && b.left == x.end)
      && (b.right == DayMinutes || exists x :: x in s && x.day == day && Some(x.id) != exclude && b.right == x.start)
  {
    if anchor.Some? {
      var ds := Sort(ByStart, Considered(s, day, exclude));
      var b := Scan(ds, anchor.value, 0);
      assert b == Boundaries(s, day, exclude, anchor);
      SortedConsidered(s, day, exclude);
      if b.left != 0 {
        var x :| x in ds && b.left == x.end;
        assert x in s && x.day == day && Some(x.id) != exclude;
      }
      if b.right != DayMinutes {
        var x :| x in ds && b.right == x.start;
        assert x in s && x.day == day && Some(x.id) != exclude;
      }
    }
  }

  /** The scan's gap meets no entry of a sorted run that does not straddle
      the anchor, provided the entries before it ended by `left`. */
  lemma {:induction false} ScanFree(ds: seq<Entry>, anchor: int, left: int)
    requires Sorted(ByStart, ds)
    requires forall x :: x in ds ==> !(x.start < anchor < x.end)
    ensures var b := Scan(ds, anchor, left);
      forall x :: x in ds ==> x.start >= b.right || x.end <= b.left
  {
    if ds != [] {
      var x, rest := ds[0], ds[1..];
      var l := if x.end <= anchor then Max(left, x.end) else left;
      var b := Scan(ds, anchor, left);
      assert forall y :: y in ds ==> y == x || y in rest;
      if x.start >= anchor {
        assert b.right <= x.start;
        assert forall y :: y in rest ==> x.start <= y.start by {
          assert forall k :: 1 <= k < |ds| ==> Le(ByStart, ds[0], ds[k]);
        }
      } else {
        assert b == Scan(rest, anchor, l);
        assert x.end <= l <= b.left;
        assert Sorted(ByStart, rest);
        ScanFree(rest, anchor, l);
      }
    }
  }

  /** The free gap: when no considered entry straddles the anchor, none of
      them overlaps the open gap `(left, right)`. */
  lemma BoundariesFreeGap(s: seq<Entry>, day: nat, exclude: Option<Id>, anchor: int)
    requires NoStraddle(s, day, exclude, anchor)
    ensures var b := Boundaries(s, day, exclude, Some(anchor));
      forall x :: x in s && x.day == day && Some(x.id) != exclude ==> x.start >= b.right || x.end <= b.left
  {
    var ds := Sort(ByStart, Considered(s, day, exclude));
    SortedConsidered(s, day, exclude);
    ScanFree(ds, anchor, 0);
  }

  /** On a store whose edges are all on the 15-minute grid, both boundaries
      are on the grid. */
  lemma BoundariesOnGrid(s: seq<Entry>, day: nat, exclude: Option<Id>, anchor: Option<int>)
    requires OnGrid(s)
    ensures var b := Boundaries(s, day, exclude, anchor);
      b.left % 15 == 0 && b.right % 15 == 0
  {
    BoundariesWithin(s, day, exclude, anchor);
    var b := Boundaries(s, day, exclude, anchor);
    if b.left != 0 {
      var x :| x in s && x.day == day && Some(x.id) != exclude && b.left == x.end;
    }
    if b.right != DayMinutes {
      var x :| x in s && x.day == day && Some(x.id) != exclude && b.right == x.start;
    }
  }

  /** Only the considered entries matter: an entry of another day, or the
      excluded entry, may be added anywhere without changing the result. */
  lemma BoundariesIgnoreOthers(s: seq<Entry>, k: nat, x: Entry, day: nat, exclude: Option<Id>, anchor: Option<int>)
    requires k <= |s|
    requires x.day != day || Some(x.id) == exclude
    ensures Boundaries(s[..k] + [x] + s[k..], day, exclude, anchor) == Boundaries(s, day, exclude, anchor)
  {
    ConsideredIgnore(s, k, x, day, exclude);
  }

  lemma ConsideredIgnore(s: seq<Entry>, k: nat, x: Entry, day: nat, exclude: Option<Id>)
    requires k <= |s|
    requires x.day != day || Some(x.id) == exclude
    ensures Considered(s[..k] + [x] + s[k..], day, exclude) == Considered(s, day, exclude)
  {
    var a, b := s[..k], s[k..];
    var none := Considered([x], day, exclude);
    assert none == [] by {
      assert [x][1..] == [];
    }
    ConsideredAppend(a + [x], b, day, exclude);
    ConsideredAppend(a, [x], day, exclude);
    ConsideredAppend(a, b, day, exclude);
    assert a + b == s;
    calc {
      Considered(a + [x] + b, day, exclude);
      Considered(a + [x], day, exclude) + Considered(b, day, exclude);
      Considered(a, day, exclude) + none + Considered(b, day, exclude);
      { assert Considered(a, day, exclude) + none == Considered(a, day, exclude); }
      Considered(a, day, exclude) + Considered(b, day, exclude);
    }
  }

  lemma ConsideredAppend(a: seq<Entry>, b: seq<Entry>, day: nat, exclude: Option<Id>)
    ensures Considered(a + b, day, exclude) == Considered(a, day, exclude) + Considered(b, day, exclude)
  {
    FilterAppend(a, b, (x: Entry) => x.day == day && Some(x.id) != exclude);
  }

  /** A day holding 01:00-02:00 and 05:00-06:00, anchored at 03:20, gives the
      gap from 02:00 to 05:00. */
  lemma BoundariesExample()
    ensures Boundaries([Entry("a", 2, 60, 120), Entry("b", 2, 300, 360)], 2, None, Some(200))
      == Bounds(120, 300)
  {
    var a, b := Entry("a", 2, 60, 120), Entry("b", 2, 300, 360);
    var keep := (y: Entry) => y.day == 2 && Some(y.id) != None;
    assert Filter([b], keep) == [b];
    assert [a, b][1..] == [b];
    assert Considered([a, b], 2, None) == [a, b];
    assert Sort(ByStart, [b]) == [b];
    assert Sort(ByStart, [a, b]) == [a, b];
  }
}
