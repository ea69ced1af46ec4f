/** Clock-string arithmetic of the schedule editor
    (src/components/schedule/utils.ts): `"HH:MM"` strings against minutes of
    the day, with `"24:00"` standing for the end of the day, minute 1440. */
module Utils {
  import opened Wrappers
  import opened Types

  /** Minutes in a day, the value of the end-of-day string `"24:00"`. */
  const DayMinutes: int := 1440

  predicate IsDigit(c: char) {
    '0' <= c <= '9'
  }

  predicate AllDigits(s: string) {
    forall i :: 0 <= i < |s| ==> IsDigit(s[i])
  }

  function DigitValue(c: char): nat
    requires IsDigit(c)
  {
    c as int - '0' as int
  }

  function Digit(n: nat): (c: char)
    requires n < 10
    ensures IsDigit(c) && DigitValue(c) == n
  {
    ('0' as int + n) as char
  }

  /** The number a run of decimal digits denotes; the empty run denotes 0,
      as JavaScript's `Number("")` does. */
  function DigitsValue(s: string): nat
    requires AllDigits(s)
  {
    if s == [] then 0 else DigitsValue(s[..|s| - 1]) * 10 + DigitValue(s[|s| - 1])
  }

  /** JavaScript's `Number(field)` on one field of a split clock string:
      `None` stands for `NaN`. */
  function NumberOf(s: string): (r: Option<nat>)
    ensures r.Some? <==> AllDigits(s)
  {
    if AllDigits(s) then Some(DigitsValue(s)) else None
  }

  /** The position of the first `c` in `s`, if any. */
  function IndexOf(s: string, c: char): (r: Option<nat>)
    ensures r.Some? ==> r.value < |s| && s[r.value] == c && c !in s[..r.value]
    ensures r.None? ==> c !in s
  {
    if s == [] then None
    else if s[0] == c then Some(0)
    else
      match IndexOf(s[1..], c)
      case None => None
      case Some(i) =>
        assert s[..i + 1] == [s[0]] + s[1..][..i];
        Some(i + 1)
  }

  /** The first field of `s.split(':')`. */
  function FirstField(s: string): (f: string)
    ensures ':' !in f && f <= s
    ensures ':' !in s ==> f == s
  {
    match IndexOf(s, ':')
    case None => s
    case Some(i) => s[..i]
  }

  /** `timeToMinutes`: the empty string is 0, `"24:00"` is 1440, and
      otherwise the first two `:`-separated fields are read as hours and
      minutes; a missing or non-numeric field gives `NaN` (`None`). */
  function TimeToMinutes(timeStr: string): (r: Option<int>)
    ensures r.Some? ==> r.value >= 0
    ensures r.None? ==> timeStr != "" && timeStr != "24:00"
  {
    if timeStr == "" then Some(0)
    else if timeStr == "24:00" then Some(DayMinutes)
    else SplitMinutes(timeStr)
  }

  /** `const [h, m] = timeStr.split(':').map(Number); return h * 60 + m;`
      in the model's terms: no colon leaves `m` undefined, hence `NaN`. */
  function SplitMinutes(timeStr: string): (r: Option<int>)
    ensures r.Some? ==> r.value >= 0
  {
    match IndexOf(timeStr, ':')
    case None => None
    case Some(i) => FieldsMinutes(timeStr[..i], FirstField(timeStr[i + 1..]))
  }

  function FieldsMinutes(hField: string, mField: string): (r: Option<int>)
    ensures r.Some? ==> r.value >= 0
  {
    var h := NumberOf(hField);
    var m := NumberOf(mField);
    if h.Some? && m.Some? then Some(h.value * 60 + m.value) else None
  }

  /** `String(n)` for a natural number. */
  function ToDecimal(n: nat): (s: string)
    ensures |s| >= 1 && AllDigits(s)
    ensures DigitsValue(s) == n
  {
    if n < 10 then [Digit(n)]
    else
      var s := ToDecimal(n / 10) + [Digit(n % 10)];
      assert s[..|s| - 1] == ToDecimal(n / 10);
      s
  }

  /** `s.padStart(2, '0')`. */
  function PadStart2(s: string): string {
    if |s| == 0 then "00" else if |s| == 1 then "0" + s else s
  }

  function TwoDigits(n: nat): string {
    PadStart2(ToDecimal(n))
  }

  /** A zero-padded clock time from `"00:00"` to `"23:59"`. */
  predicate IsClockTime(s: string) {
    && |s| == 5
    && AllDigits(s[..2]) && s[2] == ':' && AllDigits(s[3..])
    && DigitsValue(s[..2]) <= 23 && DigitsValue(s[3..]) <= 59
  }

  function ClockValue(s: string): int
    requires IsClockTime(s)
  {
    DigitsValue(s[..2]) * 60 + DigitsValue(s[3..])
  }

  /** `minutesToTime`: clamps at both ends (`"24:00"` from 1440 up, `"00:00"`
      from 0 down) and otherwise writes zero-padded hours and minutes. */
  function MinutesToTime(totalMinutes: int): (r: string)
    ensures totalMinutes < DayMinutes ==> IsClockTime(r)
    ensures totalMinutes >= DayMinutes ==> r == "24:00"
  {
    if totalMinutes >= DayMinutes then "24:00"
    else if totalMinutes <= 0 then MidnightIsClockTime(); "00:00"
    else
      MinutesToTimeShape(totalMinutes);
      TwoDigits(totalMinutes / 60) + ":" + TwoDigits(totalMinutes % 60)
  }

  /** `formatTimeToDisplayOnStrip`: shows the end-of-day value as midnight. */
  function FormatTimeToDisplayOnStrip(timeStr: string): (r: string)
    ensures r != "24:00"
    ensures timeStr != "24:00" ==> r == timeStr
  {
    if timeStr == "" then ""
    else if timeStr == "24:00" then "00:00"
    else timeStr
  }

  /** The minute value that a store entry holds after the source writes
      `minutesToTime(m)` into it and later reads it back with
      `timeToMinutes`: `m` clamped to the day (`RoundTrip` proves the read
      back). */
  function StoredMinutes(m: int): (r: int)
    ensures 0 <= r <= DayMinutes
    ensures 0 <= m <= DayMinutes ==> r == m
  {
    if m < 0 then 0 else if m > DayMinutes then DayMinutes else m
  }

  /** The id `createInitialSchedules` gives day `i`. */
  function InitialId(i: nat): Id {
    "sched-day-" + ToDecimal(i)
  }

  /** `createInitialSchedules`: one entry per day index, from `"00:00"` to
      `"24:00"`, with pairwise distinct ids. */
  function CreateInitialSchedules(dayCount: nat): (r: seq<Entry>)
    ensures |r| == dayCount
    ensures forall i :: 0 <= i < |r| ==>
      && r[i].day == i
      && TimeToMinutes("00:00") == Some(r[i].start)
      && TimeToMinutes("24:00") == Some(r[i].end)
    ensures forall i, j :: 0 <= i < j < |r| ==> r[i].id != r[j].id
  {
    InitialIdsDistinct();
    MidnightIsClockTime();
    seq(dayCount, i requires 0 <= i < dayCount => Entry(InitialId(i), i, 0, DayMinutes))
  }

  // ---------------------------------------------------------------------
  // Lemmas

  lemma DigitsValuePair(a: char, b: char)
    requires IsDigit(a) && IsDigit(b)
    ensures AllDigits([a, b]) && DigitsValue([a, b]) == DigitValue(a) * 10 + DigitValue(b)
  {
    assert [a][..0] == [];
    assert DigitsValue([a]) == DigitValue(a);
    assert [a, b][..1] == [a];
  }

  /** `"00:00"` is the clock time of minute 0. */
  lemma MidnightIsClockTime()
    ensures IsClockTime("00:00") && ClockValue("00:00") == 0
    ensures TimeToMinutes("00:00") == Some(0)
  {
    DigitsValuePair('0', '0');
    assert "00:00"[..2] == ['0', '0'] && "00:00"[3..] == ['0', '0'];
    TimeToMinutesFields("00", "00");
    assert "00" + ":" + "00" == "00:00";
  }

  lemma TwoDigitsOf(n: nat)
    requires n < 100
    ensures TwoDigits(n) == [Digit(n / 10), Digit(n % 10)]
  {
    if n >= 10 {
      assert ToDecimal(n) == ToDecimal(n / 10) + [Digit(n % 10)];
    }
  }

  lemma DigitOfValue(c: char)
    requires IsDigit(c)
    ensures Digit(DigitValue(c)) == c
  {
  }

  lemma {:induction false} IndexOfFirst(p: string, q: string, c: char)
    requires c !in p
    ensures IndexOf(p + [c] + q, c) == Some(|p|)
  {
    if p != [] {
      assert (p + [c] + q)[1..] == p[1..] + [c] + q;
      IndexOfFirst(p[1..], q, c);
    }
  }

  lemma DigitsHaveNoColon(h: string)
    requires AllDigits(h)
    ensures ':' !in h
  {
    forall k | 0 <= k < |h| ensures h[k] != ':' { assert IsDigit(h[k]); }
  }

  lemma SplitOfEndOfDay(h: string, m: string)
    requires ':' !in h && h + ":" + m == "24:00"
    ensures h == "24" && m == "00"
  {
    var s := h + ":" + m;
    assert ':' == s[|h|] == "24:00"[|h|];
    assert h == s[..2];
    assert m == s[3..];
  }

  lemma FieldsMinutesOfDigits(h: string, m: string)
    requires AllDigits(h) && AllDigits(m)
    ensures FieldsMinutes(h, m) == Some(DigitsValue(h) * 60 + DigitsValue(m))
  {
  }

  lemma SplitAtColon(h: string, m: string)
    requires ':' !in h && ':' !in m
    ensures SplitMinutes(h + ":" + m) == FieldsMinutes(h, m)
  {
    var s := h + ":" + m;
    IndexOfFirst(h, m, ':');
    assert s[..|h|] == h;
    assert s[|h| + 1..] == m;
  }

  /** The general case of `timeToMinutes`: split at the first colon. */
  lemma TimeToMinutesSplit(h: string, m: string)
    requires AllDigits(h) && AllDigits(m) && ':' !in h && ':' !in m
    requires h + ":" + m != "24:00"
    ensures TimeToMinutes(h + ":" + m) == Some(DigitsValue(h) * 60 + DigitsValue(m))
  {
    assert |h + ":" + m| >= 1;
    SplitAtColon(h, m);
    FieldsMinutesOfDigits(h, m);
  }

  /** A string of two digit runs joined by a colon reads as hours times 60
      plus minutes; for `"24:00"` the special case agrees. */
  lemma TimeToMinutesFields(h: string, m: string)
    requires AllDigits(h) && AllDigits(m)
    ensures TimeToMinutes(h + ":" + m) == Some(DigitsValue(h) * 60 + DigitsValue(m))
  {
    DigitsHaveNoColon(h);
    DigitsHaveNoColon(m);
    if h + ":" + m == "24:00" {
      SplitOfEndOfDay(h, m);
      DigitsValuePair('2', '4');
      DigitsValuePair('0', '0');
    } else {
      TimeToMinutesSplit(h, m);
    }
  }

  /** The two special strings. */
  lemma TimeToMinutesSpecial()
    ensures TimeToMinutes("24:00") == Some(DayMinutes)
    ensures TimeToMinutes("") == Some(0)
  {
  }

  /** A clock time reads as its hours times 60 plus its minutes,
      a value below the end of the day. */
  lemma ClockTimeValue(s: string)
    requires IsClockTime(s)
    ensures TimeToMinutes(s) == Some(ClockValue(s))
    ensures 0 <= ClockValue(s) < DayMinutes
  {
    assert s == s[..2] + ":" + s[3..];
    TimeToMinutesFields(s[..2], s[3..]);
  }

  /** Every value from 1440 up collapses to `"24:00"` and every value from 0
      down to `"00:00"`: `MinutesToTime` is not injective. */
  lemma MinutesToTimeCollapses(m: int, n: int)
    ensures m >= DayMinutes && n >= DayMinutes ==> MinutesToTime(m) == MinutesToTime(n) == "24:00"
    ensures m <= 0 && n <= 0 ==> MinutesToTime(m) == MinutesToTime(n) == "00:00"
  {
  }

  /** Strictly inside the day, `MinutesToTime` writes a zero-padded clock time
      whose hours and minutes are those of `m`. */
  lemma MinutesToTimeShape(m: int)
    requires 0 < m < DayMinutes
    ensures var r := TwoDigits(m / 60) + ":" + TwoDigits(m % 60);
      IsClockTime(r) && DigitsValue(r[..2]) == m / 60 && DigitsValue(r[3..]) == m % 60
  {
    var r := TwoDigits(m / 60) + ":" + TwoDigits(m % 60);
    TwoDigitsOf(m / 60);
    TwoDigitsOf(m % 60);
    assert r[..2] == TwoDigits(m / 60);
    assert r[3..] == TwoDigits(m % 60);
    DigitsValuePair(Digit(m / 60 / 10), Digit(m / 60 % 10));
    DigitsValuePair(Digit(m % 60 / 10), Digit(m % 60 % 10));
  }

  /** `MinutesToTime` lands on a clock string with the value of `m` for
      every `m` strictly inside the day. */
  lemma MinutesToTimeClock(m: int)
    requires 0 < m < DayMinutes
    ensures IsClockTime(MinutesToTime(m)) && ClockValue(MinutesToTime(m)) == m
  {
    MinutesToTimeShape(m);
  }

  /** Reading back what `MinutesToTime` wrote gives `m` clamped to the day;
      in particular the identity on `[0, 1440]`. */
  lemma RoundTrip(m: int)
    ensures TimeToMinutes(MinutesToTime(m)) == Some(StoredMinutes(m))
  {
    if m >= DayMinutes {
    } else if m <= 0 {
      assert MinutesToTime(m) == "00:00";
      assert TimeToMinutes("00:00") == Some(0) by { MidnightIsClockTime(); }
    } else {
      var r := MinutesToTime(m);
      assert IsClockTime(r) && ClockValue(r) == m by { MinutesToTimeClock(m); }
      assert TimeToMinutes(r) == Some(m) by { ClockTimeValue(r); }
    }
  }

  /** A clock time is the zero-padded writing of its own hours and
      minutes. */
  lemma ClockTimeRebuild(s: string)
    requires IsClockTime(s)
    ensures s == TwoDigits(DigitsValue(s[..2])) + ":" + TwoDigits(DigitsValue(s[3..]))
  {
    var h, m := s[..2], s[3..];
    assert h == [s[0], s[1]] && m == [s[3], s[4]];
    assert TwoDigits(DigitsValue(h)) == h by { PairRebuild(s[0], s[1]); }
    assert TwoDigits(DigitsValue(m)) == m by { PairRebuild(s[3], s[4]); }
    assert s == h + ":" + m;
  }

  /** Two digits are the zero-padded writing of the number they denote. */
  lemma PairRebuild(a: char, b: char)
    requires IsDigit(a) && IsDigit(b)
    ensures AllDigits([a, b]) && TwoDigits(DigitsValue([a, b])) == [a, b]
  {
    DigitsValuePair(a, b);
    var n := DigitValue(a) * 10 + DigitValue(b);
    assert n / 10 == DigitValue(a) && n % 10 == DigitValue(b);
    TwoDigitsOf(n);
    DigitOfValue(a);
    DigitOfValue(b);
  }

  /** `MinutesToTime` of a value written as hours and minutes. */
  lemma MinutesToTimeOfParts(hh: nat, mm: nat)
    requires hh <= 23 && mm <= 59
    ensures MinutesToTime(hh * 60 + mm) == TwoDigits(hh) + ":" + TwoDigits(mm)
  {
    var v := hh * 60 + mm;
    if v == 0 {
      assert hh == 0 && mm == 0;
      assert MinutesToTime(v) == "00:00";
      assert TwoDigits(0) + ":" + TwoDigits(0) == "00:00" by {
        TwoDigitsOf(0);
      }
    } else {
      assert v / 60 == hh && v % 60 == mm;
      assert 0 < v < DayMinutes;
      assert MinutesToTime(v) == TwoDigits(v / 60) + ":" + TwoDigits(v % 60);
    }
  }

  /** Writing back what `TimeToMinutes` read from a clock time, or from
      `"24:00"`, gives the same string. */
  lemma ReverseRoundTrip(s: string)
    requires IsClockTime(s) || s == "24:00"
    ensures TimeToMinutes(s).Some? && MinutesToTime(TimeToMinutes(s).value) == s
  {
    if s != "24:00" {
      ClockTimeValue(s);
      ClockWrittenBack(s);
    }
  }

  lemma ClockWrittenBack(s: string)
    requires IsClockTime(s)
    ensures MinutesToTime(ClockValue(s)) == s
  {
    ClockTimeRebuild(s);
    MinutesToTimeOfParts(DigitsValue(s[..2]), DigitsValue(s[3..]));
  }

  /** The display formatter rewrites only the end-of-day value, and
      formatting twice is formatting once. */
  lemma DisplayIdempotent(s: string)
    ensures FormatTimeToDisplayOnStrip(FormatTimeToDisplayOnStrip(s)) == FormatTimeToDisplayOnStrip(s)
    ensures FormatTimeToDisplayOnStrip("24:00") == "00:00" && FormatTimeToDisplayOnStrip("") == ""
  {
  }

  /** Different day indexes get different ids. */
  lemma InitialIdsDistinct()
    ensures forall i: nat, j: nat :: i != j ==> InitialId(i) != InitialId(j)
  {
    forall i: nat, j: nat | InitialId(i) == InitialId(j) ensures i == j {
      var p := "sched-day-";
      assert ToDecimal(i) == InitialId(i)[|p|..];
      assert ToDecimal(j) == InitialId(j)[|p|..];
    }
  }
}
