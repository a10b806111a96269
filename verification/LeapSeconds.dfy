/** `utc_clock` of tz.h: conversion between system time, which ignores leap seconds, and UTC,
    which counts them. Instants are whole ticks, `second` of them to a second. */
module LeapSeconds {
  import opened Calendar
  import opened CArithmetic
  import opened Gregorian

  /** The leap-second table: the instants, in seconds of system time, right after each insertion. */
  datatype Clock = Clock(leaps: seq<int>, second: int)

  ghost predicate Sorted(c: Clock) {
    c.second >= 1 && forall i, j :: 0 <= i < j < |c.leaps| ==> c.leaps[i] < c.leaps[j]
  }

  /** `seconds{n}` in ticks. */
  function Ticks(c: Clock, n: int): int {
    n * c.second
  }

  /** Entry `i` of the table in ticks. */
  function At(c: Clock, i: int): int
    requires 0 <= i < |c.leaps|
  {
    Ticks(c, c.leaps[i])
  }

  lemma TicksAscend(c: Clock, a: int, b: int)
    requires c.second >= 1
    ensures a < b ==> Ticks(c, a) + c.second <= Ticks(c, b)
    ensures Ticks(c, a - 1) == Ticks(c, a) - c.second
    ensures Ticks(c, 0) == 0
    ensures Ticks(c, b - a) == Ticks(c, b) - Ticks(c, a)
  {
    if a < b {
      MulGap(a, b, c.second);
    }
  }

  /** The entries not after `t`, which `std::upper_bound` finds in a sorted table. */
  function Count(c: Clock, t: int): (n: int)
    ensures 0 <= n <= |c.leaps|
  {
    CountFrom(c, t, 0)
  }

  function CountFrom(c: Clock, t: int, i: int): (n: int)
    requires 0 <= i <= |c.leaps|
    ensures i <= i + n <= |c.leaps|
    ensures n > 0 ==> At(c, i + n - 1) <= t
    ensures i + n < |c.leaps| ==> t < At(c, i + n)
    decreases |c.leaps| - i
  {
    if i < |c.leaps| && At(c, i) <= t then 1 + CountFrom(c, t, i + 1) else 0
  }

  lemma Ascending(c: Clock, i: int, j: int)
    requires Sorted(c) && 0 <= i < j < |c.leaps|
    ensures At(c, i) + c.second <= At(c, j)
  {
    hide Ticks;
    TicksAscend(c, c.leaps[i], c.leaps[j]);
  }

  /** A place in the table that separates the entries not after `t` from the others is the count. */
  lemma CountIs(c: Clock, t: int, n: int)
    requires Sorted(c) && 0 <= n <= |c.leaps|
    requires n > 0 ==> At(c, n - 1) <= t
    requires n < |c.leaps| ==> t < At(c, n)
    ensures Count(c, t) == n
  {
  }

  /** `utc_clock::from_sys`. */
  function FromSys(c: Clock, st: int): int {
    st + Ticks(c, Count(c, st))
  }

  /** `is_leap_second`: whether `ut` lies in an inserted second, and the leap seconds to subtract. */
  function IsLeapSecond(c: Clock, ut: int): (bool, int) {
    var n := Count(c, ut);
    var tp := ut - Ticks(c, n);
    if n > 0 && tp < At(c, n - 1) then
      if tp >= At(c, n - 1) - c.second then (true, n) else (false, n - 1)
    else (false, n)
  }

  /** `utc_clock::to_sys`: an instant of an inserted second becomes the last tick before it. */
  function ToSys(c: Clock, ut: int): int
    requires c.second >= 1
  {
    var (ls, ds) := IsLeapSecond(c, ut);
    var tp := ut - Ticks(c, ds);
    if ls then tp / c.second * c.second + c.second - 1 else tp
  }

  /** The steps of `is_leap_second` and `to_sys` on local variables. */
  method IsLeapSecondInPlace(c: Clock, ut: int) returns (ls: bool, ds: int)
    requires Sorted(c)
    ensures (ls, ds) == IsLeapSecond(c, ut)
  {
    var tp := ut;
    var lt := Count(c, tp);
    ds := lt;
    tp := tp - Ticks(c, ds);
    ls := false;
    if lt > 0 {
      if tp < At(c, lt - 1) {
        if tp >= At(c, lt - 1) - c.second { ls := true; } else { ds := ds - 1; }
      }
    }
  }

  method ToSysInPlace(c: Clock, ut: int) returns (tp: int)
    requires Sorted(c)
    ensures tp == ToSys(c, ut)
  {
    var ls, ds := IsLeapSecondInPlace(c, ut);
    tp := ut - Ticks(c, ds);
    if ls {
      tp := tp / c.second * c.second + c.second - 1;
    }
  }

  // ----- What UTC is -----

  /** UTC instant at which insertion `i` starts: the seconds inserted before it are counted. */
  function InsertionAt(c: Clock, i: int): int
    requires 0 <= i < |c.leaps|
  {
    At(c, i) + Ticks(c, i)
  }

  predicate Inserting(c: Clock, ut: int, i: int) {
    0 <= i < |c.leaps| && InsertionAt(c, i) <= ut < InsertionAt(c, i) + c.second
  }

  ghost predicate InInsertion(c: Clock, ut: int) {
    exists i :: Inserting(c, ut, i)
  }

  /** Insertions 0 to `k - 1` are over at `ut` and insertion `k` has not begun. */
  predicate BetweenInsertions(c: Clock, ut: int, k: int) {
    && 0 <= k <= |c.leaps|
    && (k > 0 ==> InsertionAt(c, k - 1) + c.second <= ut)
    && (k < |c.leaps| ==> ut < InsertionAt(c, k))
  }

  lemma InsertionsAscend(c: Clock, i: int, j: int)
    requires Sorted(c) && 0 <= i < j < |c.leaps|
    ensures InsertionAt(c, i) + 2 * c.second <= InsertionAt(c, j)
  {
    hide Ticks, At;
    Ascending(c, i, j);
    TicksAscend(c, i, j);
  }

  lemma BetweenIsOutside(c: Clock, ut: int, k: int)
    requires Sorted(c) && BetweenInsertions(c, ut, k)
    ensures !InInsertion(c, ut)
    ensures Count(c, ut - Ticks(c, k)) == k && FromSys(c, ut - Ticks(c, k)) == ut
  {
    hide Ticks, At, Count;
    forall i | 0 <= i < |c.leaps| ensures !Inserting(c, ut, i) {
      if i < k - 1 {
        InsertionsAscend(c, i, k - 1);
      } else if k < i {
        InsertionsAscend(c, k, i);
      }
    }
    TicksAscend(c, k, 0);
    CountIs(c, ut - Ticks(c, k), k);
  }

  lemma CountMonotone(c: Clock, a: int, b: int)
    requires Sorted(c) && a <= b
    ensures Count(c, a) <= Count(c, b)
  {
    hide At;
    var k, n := Count(c, a), Count(c, b);
    if n < k - 1 { Ascending(c, n, k - 1); }
  }

  /** Every system time has a UTC time; later ones are later by at least as much. */
  lemma FromSysIncreases(c: Clock, a: int, b: int)
    requires Sorted(c) && a <= b
    ensures FromSys(c, b) - FromSys(c, a) >= b - a
  {
    hide Ticks, Count;
    CountMonotone(c, a, b);
    TicksAscend(c, Count(c, a), Count(c, b));
  }

  /** Around insertion `i`, system time passes from the tick before it to the one after. */
  lemma InsertionIsSkipped(c: Clock, i: int)
    requires Sorted(c) && 0 <= i < |c.leaps|
    ensures FromSys(c, At(c, i) - 1) == InsertionAt(c, i) - 1
    ensures FromSys(c, At(c, i)) == InsertionAt(c, i) + c.second
    ensures Count(c, At(c, i) - 1) == i && Count(c, At(c, i)) == i + 1
  {
    hide Ticks, At, Count;
    if i > 0 { Ascending(c, i - 1, i); }
    if i < |c.leaps| - 1 { Ascending(c, i, i + 1); }
    CountIs(c, At(c, i) - 1, i);
    CountIs(c, At(c, i), i + 1);
    TicksAscend(c, i + 1, 0);
  }

  lemma Place(c: Clock, ut: int, k: int) returns (n: int)
    requires Sorted(c) && 0 <= k <= |c.leaps|
    requires k > 0 ==> InsertionAt(c, k - 1) + c.second <= ut
    ensures Inserting(c, ut, n) || BetweenInsertions(c, ut, n)
    decreases |c.leaps| - k
  {
    if k < |c.leaps| && InsertionAt(c, k) + c.second <= ut {
      n := Place(c, ut, k + 1);
    } else {
      n := k;
    }
  }

  /** The UTC instants that are the time of no system instant are those of inserted seconds. */
  lemma ImageIsOutside(c: Clock, ut: int)
    requires Sorted(c)
    ensures InInsertion(c, ut) <==> forall t :: FromSys(c, t) != ut
  {
    hide Ticks, At, Count, FromSys;
    var n := Place(c, ut, 0);
    if Inserting(c, ut, n) {
      InsertionIsSkipped(c, n);
      forall t ensures FromSys(c, t) != ut {
        if t < At(c, n) {
          FromSysIncreases(c, t, At(c, n) - 1);
        } else {
          FromSysIncreases(c, At(c, n), t);
        }
      }
    } else {
      BetweenIsOutside(c, ut, n);
    }
  }

  // ----- When the off-by-one correction is enough -----

  /** Entry `i` of the table is followed by at least `i` seconds, and `slack` more, without another. */
  ghost predicate Gaps(c: Clock, slack: int) {
    forall i :: 0 <= i < |c.leaps| - 1 ==> c.leaps[i + 1] - c.leaps[i] >= i + slack
  }

  lemma GapInTicks(c: Clock, i: int, g: int)
    requires Sorted(c) && 0 <= i < |c.leaps| - 1
    ensures c.leaps[i + 1] - c.leaps[i] >= g <==> At(c, i + 1) - At(c, i) >= Ticks(c, g)
  {
  }

  /** With gaps this wide the answer of `is_leap_second` is right, and so is its count: the
      insertions begun so far. */
  lemma LeapSecondIsRight(c: Clock, ut: int)
    requires Sorted(c) && Gaps(c, 1)
    ensures var (ls, ds) := IsLeapSecond(c, ut);
            if ls then Inserting(c, ut, ds - 1) else BetweenInsertions(c, ut, ds)
  {
    hide Ticks, At;
    var n := Count(c, ut);
    TicksAscend(c, n, 0);
    TicksAscend(c, n - 1, 0);
    TicksAscend(c, 0, n);
    if n > 1 {
      GapInTicks(c, n - 2, n - 1);
    }
  }

  /** Where a gap is narrow, the start of the second inserted before it goes unnoticed. */
  lemma NarrowGapHidesLeap(c: Clock, i: int)
    requires Sorted(c) && 0 <= i < |c.leaps| - 1
    requires c.leaps[i + 1] - c.leaps[i] < i + 1
    ensures Inserting(c, InsertionAt(c, i), i)
    ensures !IsLeapSecond(c, InsertionAt(c, i)).0
  {
    hide Ticks, At, Count;
    var ut := InsertionAt(c, i);
    GapInTicks(c, i, i + 1);
    GapIsWhole(c, i, i);
    InsertionIsSkipped(c, i + 1);
    CountMonotone(c, At(c, i + 1), ut);
    var n := Count(c, ut);
    InsertionsAscend(c, i, n - 1);
    TicksAscend(c, n, 0);
  }

  lemma GapIsWhole(c: Clock, i: int, g: int)
    requires Sorted(c) && 0 <= i < |c.leaps| - 1 && c.leaps[i + 1] - c.leaps[i] <= g
    ensures At(c, i + 1) - At(c, i) <= Ticks(c, g)
  {
  }

  /** `is_leap_second` tells the inserted seconds from all other instants exactly when entry `i`
      of the table is followed by at least `i + 1` seconds without another. */
  lemma LeapSecondExactly(c: Clock)
    requires Sorted(c)
    ensures (forall ut :: IsLeapSecond(c, ut).0 <==> InInsertion(c, ut)) <==> Gaps(c, 1)
  {
    hide Ticks, At, Count, IsLeapSecond;
    if Gaps(c, 1) {
      forall ut ensures IsLeapSecond(c, ut).0 <==> InInsertion(c, ut) {
        LeapSecondIsRight(c, ut);
        if !IsLeapSecond(c, ut).0 {
          BetweenIsOutside(c, ut, IsLeapSecond(c, ut).1);
        }
      }
    } else {
      var i :| 0 <= i < |c.leaps| - 1 && c.leaps[i + 1] - c.leaps[i] < i + 1;
      NarrowGapHidesLeap(c, i);
      assert InInsertion(c, InsertionAt(c, i));
    }
  }

  /** One entry too many in the first count is corrected; more are not. */
  lemma RoundTripAt(c: Clock, t: int)
    requires Sorted(c)
    ensures ToSys(c, FromSys(c, t)) == t <==> Count(c, FromSys(c, t)) <= Count(c, t) + 1
  {
    hide Ticks, At, Count;
    var k, ut := Count(c, t), FromSys(c, t);
    var n := Count(c, ut);
    CountFits(c, t);
    CountFits(c, ut);
    TicksAscend(c, k, n);
    TicksAscend(c, n, k);
    TicksAscend(c, n - 1, k);
    TicksAscend(c, k, n - 1);
    TicksAscend(c, k + 1, n);
    TicksAscend(c, 0, k);
    CountMonotone(c, t, ut);
    if k < n - 1 {
      Ascending(c, k, n - 1);
    }
  }

  lemma CountFits(c: Clock, t: int)
    ensures var n := Count(c, t);
            && 0 <= n <= |c.leaps|
            && (n > 0 ==> At(c, n - 1) <= t)
            && (n < |c.leaps| ==> t < At(c, n))
  {
  }

  /** System time survives the way to UTC and back exactly when entry `i` of the table is
      followed by at least `i` seconds without another. */
  lemma RoundTripExactly(c: Clock)
    requires Sorted(c)
    ensures (forall t :: ToSys(c, FromSys(c, t)) == t) <==> Gaps(c, 0)
  {
    assert c.second >= 1;
    hide Sorted, Gaps, Count, ToSys, FromSys;
    if Gaps(c, 0) {
      forall t ensures ToSys(c, FromSys(c, t)) == t {
        RoundTripAt(c, t);
        GapsBoundCount(c, t);
      }
    } else {
      var t := NarrowGapLosesTime(c);
    }
  }

  lemma NarrowGapLosesTime(c: Clock) returns (t: int)
    requires Sorted(c) && !Gaps(c, 0)
    ensures ToSys(c, FromSys(c, t)) != t
  {
    hide Ticks, At, ToSys, FromSys, Sorted;
    var i :| 0 <= i < |c.leaps| - 1 && c.leaps[i + 1] - c.leaps[i] < i;
    t := At(c, i) - 1;
    InsertionIsSkipped(c, i);
    NarrowGapOvercounts(c, i);
    RoundTripAt(c, t);
  }

  lemma NarrowGapOvercounts(c: Clock, i: int)
    requires Sorted(c) && 0 <= i < |c.leaps| - 1 && c.leaps[i + 1] - c.leaps[i] < i
    ensures Count(c, FromSys(c, At(c, i) - 1)) >= i + 2
  {
    hide Ticks, At, Count, FromSys;
    InsertionIsSkipped(c, i);
    InsertionIsSkipped(c, i + 1);
    GapIsWhole(c, i, i - 1);
    TicksAscend(c, i, 0);
    CountMonotone(c, At(c, i + 1), FromSys(c, At(c, i) - 1));
  }

  lemma GapsBoundCount(c: Clock, t: int)
    requires Sorted(c) && Gaps(c, 0)
    ensures Count(c, FromSys(c, t)) <= Count(c, t) + 1
  {
    hide Ticks, At, Count;
    var k, n := Count(c, t), Count(c, FromSys(c, t));
    CountFits(c, t);
    CountFits(c, FromSys(c, t));
    if k + 2 <= n {
      GapInTicks(c, k, k);
      if k + 1 < n - 1 { Ascending(c, k + 1, n - 1); }
    }
  }

  /** In an inserted second `to_sys` gives the last tick before its entry. */
  lemma ToSysWhenInserting(c: Clock, ut: int, i: int)
    requires Sorted(c) && Gaps(c, 1) && Inserting(c, ut, i)
    ensures IsLeapSecond(c, ut) == (true, i + 1)
    ensures ToSys(c, ut) == At(c, i) - 1
  {
    hide Ticks, Count, IsLeapSecond;
    LeapSecondIsRight(c, ut);
    assert InInsertion(c, ut);
    var (ls, ds) := IsLeapSecond(c, ut);
    if ls {
      if ds - 1 < i {
        InsertionsAscend(c, ds - 1, i);
      } else if i < ds - 1 {
        InsertionsAscend(c, i, ds - 1);
      }
    } else {
      BetweenIsOutside(c, ut, ds);
    }
    TicksAscend(c, ds, 0);
    TicksAscend(c, c.leaps[i], 0);
    var tp := ut - Ticks(c, ds);
    SecondOfTick(c, tp, c.leaps[i] - 1);
  }

  lemma SecondOfTick(c: Clock, tp: int, n: int)
    requires c.second >= 1 && Ticks(c, n) <= tp < Ticks(c, n) + c.second
    ensures tp / c.second == n && tp / c.second * c.second == Ticks(c, n)
  {
    FloorUnique(tp, c.second, n);
  }

  /** With wide gaps, `to_sys` gives the last system instant whose UTC time is not after `ut`. */
  lemma ToSysIsLastBefore(c: Clock, ut: int, t: int)
    requires Sorted(c) && Gaps(c, 1)
    ensures FromSys(c, t) <= ut <==> t <= ToSys(c, ut)
  {
    hide Ticks, At, Count, FromSys, IsLeapSecond;
    LeapSecondIsRight(c, ut);
    var (ls, ds) := IsLeapSecond(c, ut);
    if ls {
      ToSysWhenInserting(c, ut, ds - 1);
      InsertionIsSkipped(c, ds - 1);
      if t < At(c, ds - 1) {
        FromSysIncreases(c, t, At(c, ds - 1) - 1);
      } else {
        FromSysIncreases(c, At(c, ds - 1), t);
      }
    } else {
      BetweenIsOutside(c, ut, ds);
      var last := ut - Ticks(c, ds);
      if t <= last {
        FromSysIncreases(c, t, last);
      } else {
        FromSysIncreases(c, last, t);
      }
    }
  }

  /** Hence `to_sys` never goes back, and stands still over an inserted second. */
  lemma ToSysIsMonotone(c: Clock, a: int, b: int)
    requires Sorted(c) && Gaps(c, 1) && a <= b
    ensures ToSys(c, a) <= ToSys(c, b)
    ensures (exists i :: Inserting(c, a, i) && Inserting(c, b, i)) ==> ToSys(c, a) == ToSys(c, b)
  {
    hide Ticks, At, Count, FromSys, IsLeapSecond, ToSys;
    ToSysIsLastBefore(c, a, ToSys(c, a));
    ToSysIsLastBefore(c, b, ToSys(c, a));
    if i :| Inserting(c, a, i) && Inserting(c, b, i) {
      ToSysWhenInserting(c, a, i);
      ToSysWhenInserting(c, b, i);
    }
  }

  // ----- Printed and read UTC times -----

  /** The fields of a printed time, down to the ticks of its second. */
  datatype Shown = Shown(ymd: Date, hour: int, minute: int, sec: int, frac: int)

  /** The day of a time. */
  function DayOf(c: Clock, tp: int): int
    requires c.second >= 1
  {
    tp / c.second / 86400
  }

  function Fields(c: Clock, tp: int): Shown
    requires c.second >= 1
  {
    var s := tp / c.second % 86400;
    Shown(Stored(FromDays(DayOf(c, tp))), s / 3600, s / 60 % 60, s % 60, tp % c.second)
  }

  function SecondsOf(f: Shown): int {
    86400 * ToDays(f.ymd) + 3600 * f.hour + 60 * f.minute + f.sec
  }

  function FromFields(c: Clock, f: Shown): int {
    Ticks(c, SecondsOf(f)) + f.frac
  }

  predicate InConventionalRange(c: Clock, f: Shown) {
    0 <= f.hour < 24 && 0 <= f.minute < 60 && 0 <= f.sec < 60 && 0 <= f.frac < c.second
  }

  /** `to_stream` of a UTC time: an inserted second is shown as second 60. That is with an offset
      of 0; other offsets give what a clock `offset` minutes ahead shows. */
  function Print(c: Clock, ut: int, offset: int): Shown
    requires c.second >= 1
  {
    var (ls, ds) := IsLeapSecond(c, ut);
    var f := Fields(c, ut - Ticks(c, ds) + Ticks(c, 60 * offset));
    f.(sec := f.sec + if ls then 1 else 0)
  }

  datatype Parsed = Failed | Utc(ut: int)

  /** `from_stream` of a UTC time, given with an offset in minutes: second 60 is taken for an
      inserted second, or refused. */
  function Parse(c: Clock, f: Shown, offset: int): Parsed {
    if !StoredOk(f.ymd) then Failed
    else
      var sixty := f.sec == 60;
      var g := if sixty then f.(sec := f.sec - 1) else f;
      var ut := FromSys(c, FromFields(c, g) - Ticks(c, 60 * offset)) + if sixty then c.second else 0;
      if sixty != IsLeapSecond(c, ut).0 || !InConventionalRange(c, g) then Failed else Utc(ut)
  }

  lemma TimeOfDay(s: int)
    ensures var tod := s % 86400;
            && s == 86400 * (s / 86400) + 3600 * (tod / 3600) + 60 * (tod / 60 % 60) + tod % 60
            && 0 <= tod / 3600 < 24
  {
  }

  lemma WholeSeconds(c: Clock, tp: int)
    requires c.second >= 1
    ensures Ticks(c, tp / c.second) + tp % c.second == tp && 0 <= tp % c.second < c.second
  {
  }

  lemma FieldsRoundTrip(c: Clock, tp: int)
    requires c.second >= 1
    ensures var f := Fields(c, tp);
            && InConventionalRange(c, f)
            && FromFields(c, f) == tp + Ticks(c, 86400 * (ToDays(f.ymd) - DayOf(c, tp)))
  {
    hide Ticks, ToDays, FromDays;
    var s, f := tp / c.second, Fields(c, tp);
    TimeOfDay(s);
    WholeSeconds(c, tp);
    TicksAscend(c, s, SecondsOf(f));
    assert SecondsOf(f) - s == 86400 * (ToDays(f.ymd) - DayOf(c, tp));
  }

  /** The date of a day is stored and accepted as that day exactly in the calendar. */
  lemma StoredDay(z: int)
    ensures var d := Stored(FromDays(z));
            StoredOk(d) && ToDays(d) == z <==> -12687428 <= z <= 11248737
  {
    hide ToDays, FromDays, LastDay;
    FromDaysInverts(z);
    StoredOkDays(FromDays(z));
    if StoredOk(Stored(FromDays(z))) {
      StoredOkDays(Stored(FromDays(z)));
    }
  }

  /** The printed time is the system time from which the UTC time comes. */
  lemma PrintedTime(c: Clock, ut: int, offset: int)
    requires Sorted(c) && Gaps(c, 1) && forall i :: 0 <= i < |c.leaps| ==> c.leaps[i] % 60 == 0
    ensures var (ls, ds) := IsLeapSecond(c, ut);
            var tp := ut - Ticks(c, ds);
            (ls <==> InInsertion(c, ut)) &&
            FromSys(c, tp) + (if ls then c.second else 0) == ut &&
            (ls ==> Fields(c, tp + Ticks(c, 60 * offset)).sec == 59)
  {
    hide Ticks, At, Count, FromSys, IsLeapSecond, Fields;
    LeapSecondIsRight(c, ut);
    var (ls, ds) := IsLeapSecond(c, ut);
    if ls {
      assert Inserting(c, ut, ds - 1);
      TicksAscend(c, ds, 0);
      LastSecondOfMinute(c, ut - Ticks(c, ds), ds - 1, offset);
    } else {
      BetweenIsOutside(c, ut, ds);
    }
  }

  /** With wide gaps and insertions at the end of a minute, a UTC time reads back as printed, by a
      clock with any offset, exactly when that clock shows a date of the calendar. */
  lemma PrintParse(c: Clock, ut: int, offset: int)
    requires Sorted(c) && Gaps(c, 1) && forall i :: 0 <= i < |c.leaps| ==> c.leaps[i] % 60 == 0
    ensures Print(c, ut, offset).sec == 60 <==> InInsertion(c, ut)
    ensures var shown := ut - Ticks(c, IsLeapSecond(c, ut).1) + Ticks(c, 60 * offset);
            Parse(c, Print(c, ut, offset), offset) == Utc(ut) <==> -12687428 <= DayOf(c, shown) <= 11248737
  {
    hide Ticks, Count, FromSys, IsLeapSecond, Fields, FromFields, DayOf, StoredOk, ToDays, FromDays;
    var (ls, ds) := IsLeapSecond(c, ut);
    var tp := ut - Ticks(c, ds);
    var shown := tp + Ticks(c, 60 * offset);
    PrintedTime(c, ut, offset);
    FieldsRoundTrip(c, shown);
    StoredDay(DayOf(c, shown));
    var ymd := Fields(c, shown).ymd;
    assert ymd == Stored(FromDays(DayOf(c, shown))) by { ShownDate(c, shown); }
    var sys := tp + Ticks(c, 86400 * (ToDays(ymd) - DayOf(c, shown)));
    TicksAscend(c, 0, 86400 * (ToDays(ymd) - DayOf(c, shown)));
    TicksAscend(c, 86400 * (ToDays(ymd) - DayOf(c, shown)), 0);
    if sys < tp {
      FromSysIncreases(c, sys, tp);
    } else if tp < sys {
      FromSysIncreases(c, tp, sys);
    }
  }

  /** The tick before an insertion and those of the second it ends: UTC goes through the insertion
      one second later. */
  lemma SecondBefore(c: Clock, sys: int, n: int, i: int)
    requires Sorted(c) && 0 <= i < |c.leaps| && Ticks(c, n) <= sys < Ticks(c, n) + c.second
    ensures Inserting(c, FromSys(c, sys) + c.second, i) <==> c.leaps[i] == n + 1
    ensures c.leaps[i] == n + 1 ==> FromSys(c, sys) == sys + Ticks(c, i)
  {
    hide Ticks, Count, FromSys;
    TicksAscend(c, c.leaps[i], 0);
    InsertionIsSkipped(c, i);
    if c.leaps[i] == n + 1 {
      if i > 0 { Ascending(c, i - 1, i); }
      CountIs(c, sys, i);
      CountedFromSys(c, sys, i);
    } else if sys >= At(c, i) {
      FromSysIncreases(c, At(c, i), sys);
    } else {
      FromSysIncreases(c, sys, At(c, i) - 1);
      if sys >= At(c, i) - c.second {
        SecondOfTick(c, sys, n);
        SecondOfTick(c, sys, c.leaps[i] - 1);
      }
    }
  }

  lemma CountedFromSys(c: Clock, sys: int, i: int)
    requires Count(c, sys) == i
    ensures FromSys(c, sys) == sys + Ticks(c, i)
  {
  }

  /** The time that is read, second 60 taken for 59. */
  function Lowered(f: Shown): Shown {
    if f.sec == 60 then f.(sec := 59) else f
  }

  /** A time is accepted exactly when its date is, its time of day is in range, and, if its second is
      60, an entry of the table comes right after it; no lesser second is ever refused. */
  lemma ParseExactly(c: Clock, f: Shown, offset: int)
    requires Sorted(c) && Gaps(c, 1)
    ensures Parse(c, f, offset).Utc? <==>
            && StoredOk(f.ymd) && InConventionalRange(c, Lowered(f))
            && (f.sec == 60 ==> exists i :: 0 <= i < |c.leaps| && c.leaps[i] == SecondsOf(f) - 60 * offset)
  {
    hide Ticks, Count, FromSys, IsLeapSecond, ToDays, StoredOk;
    var n := SecondsOf(Lowered(f)) - 60 * offset;
    var sys := FromFields(c, Lowered(f)) - Ticks(c, 60 * offset);
    TicksAscend(c, 60 * offset, SecondsOf(Lowered(f)));
    assert sys == Ticks(c, n) + f.frac;
    var ut := FromSys(c, sys) + if f.sec == 60 then c.second else 0;
    LeapSecondExactly(c);
    ImageIsOutside(c, ut);
    if InConventionalRange(c, Lowered(f)) {
      forall i | 0 <= i < |c.leaps|
        ensures Inserting(c, FromSys(c, sys) + c.second, i) <==> c.leaps[i] == n + 1
      {
        SecondBefore(c, sys, n, i);
      }
    }
  }

  lemma TimeOfDayFields(day: int, hour: int, minute: int, sec: int)
    requires 0 <= hour < 24 && 0 <= minute < 60 && 0 <= sec < 60
    ensures var s := 86400 * day + 3600 * hour + 60 * minute + sec;
            var tod := s % 86400;
            s / 86400 == day && tod / 3600 == hour && tod / 60 % 60 == minute && tod % 60 == sec
  {
    FloorUnique(86400 * day + 3600 * hour + 60 * minute + sec, 86400, day);
  }

  /** The fields of the time that they name are themselves. */
  lemma FieldsOfTime(c: Clock, f: Shown)
    requires c.second >= 1 && StoredOk(f.ymd) && InConventionalRange(c, f)
    ensures Fields(c, FromFields(c, f)) == f
  {
    hide ToDays, FromDays, LastDay;
    var tp, s := FromFields(c, f), SecondsOf(f);
    SecondOfTick(c, tp, s);
    TimeOfDayFields(ToDays(f.ymd), f.hour, f.minute, f.sec);
    ToDaysInverts(f.ymd);
    hide Ticks;
  }

  /** What is accepted prints as it was read. */
  lemma ParsePrint(c: Clock, f: Shown, offset: int)
    requires Sorted(c) && Gaps(c, 1) && Parse(c, f, offset).Utc?
    ensures Print(c, Parse(c, f, offset).ut, offset) == f
  {
    hide Ticks, Count, FromSys, IsLeapSecond, ToDays, StoredOk, Fields;
    var g := Lowered(f);
    var sys := FromFields(c, g) - Ticks(c, 60 * offset);
    var ut := Parse(c, f, offset).ut;
    FieldsOfTime(c, g);
    ParsedFrom(c, f, offset);
  }

  lemma ParsedFrom(c: Clock, f: Shown, offset: int)
    requires Sorted(c) && Gaps(c, 1) && Parse(c, f, offset).Utc?
    ensures var (ls, ds) := IsLeapSecond(c, Parse(c, f, offset).ut);
            ls == (f.sec == 60) &&
            Parse(c, f, offset).ut - Ticks(c, ds) == FromFields(c, Lowered(f)) - Ticks(c, 60 * offset)
  {
    hide Ticks, Count, FromSys, IsLeapSecond, ToDays, StoredOk;
    var n := SecondsOf(Lowered(f)) - 60 * offset;
    var sys := FromFields(c, Lowered(f)) - Ticks(c, 60 * offset);
    TicksAscend(c, 60 * offset, SecondsOf(Lowered(f)));
    var ut := Parse(c, f, offset).ut;
    LeapSecondIsRight(c, ut);
    var (ls, ds) := IsLeapSecond(c, ut);
    if ls {
      SecondBefore(c, sys, n, ds - 1);
      TicksAscend(c, ds, 0);
    } else {
      BetweenIsOutside(c, ut, ds);
      OneSystemTime(c, sys, ut - Ticks(c, ds));
    }
  }

  lemma OneSystemTime(c: Clock, a: int, b: int)
    requires Sorted(c) && FromSys(c, a) == FromSys(c, b)
    ensures a == b
  {
    hide FromSys;
    if a <= b {
      FromSysIncreases(c, a, b);
    } else {
      FromSysIncreases(c, b, a);
    }
  }

  lemma ShownDate(c: Clock, tp: int)
    requires c.second >= 1
    ensures Fields(c, tp).ymd == Stored(FromDays(DayOf(c, tp)))
  {
  }

  lemma LastSecondOfMinute(c: Clock, tp: int, i: int, offset: int)
    requires Sorted(c) && 0 <= i < |c.leaps| && c.leaps[i] % 60 == 0
    requires At(c, i) - c.second <= tp < At(c, i)
    ensures Fields(c, tp + Ticks(c, 60 * offset)).sec == 59
    ensures FromSys(c, tp) == tp + Ticks(c, i)
  {
    hide Ticks, Count, FromDays;
    var s := c.leaps[i] - 1;
    TicksAscend(c, c.leaps[i], 0);
    TicksAscend(c, s, s + 60 * offset);
    SecondOfTick(c, tp + Ticks(c, 60 * offset), s + 60 * offset);
    if i > 0 { Ascending(c, i - 1, i); }
    CountIs(c, tp, i);
  }
}
