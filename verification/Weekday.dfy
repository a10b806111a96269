/** Days of the week and the dates they single out: date.h, julian.h, iso_week.h. */
module Weekday {
  import opened CArithmetic
  import opened Calendar
  import opened Gregorian

  const SUNDAY := 0
  const MONDAY := 1
  const THURSDAY := 4

  /** 1 January 1970, day 0, was a Thursday. */
  function WeekdayOf(z: int): int {
    (z + 4) % 7
  }

  /** `weekday_from_days` of date.h, in unsigned arithmetic that wraps around. */
  function FromDaysUnsigned(z: int): int {
    var u := U32(z);
    if z >= -4 then U32(u + 4) % 7 else u % 7
  }

  /** The sum that `weekday_from_days` of julian.h forms; beyond `int` it has no defined value in C++. */
  function SignedSum(z: int): int {
    if z >= -4 then z + 4 else z + 5
  }

  /** `weekday_from_days` of julian.h, in signed arithmetic. */
  function FromDaysSigned(z: int): int {
    if z >= -4 then TruncMod(SignedSum(z), 7) else TruncMod(SignedSum(z), 7) + 6
  }

  /** The wrapping spelling finds the day of the week of every 32-bit day count. */
  lemma UnsignedSpelling(z: int)
    requires InInt32(z)
    ensures FromDaysUnsigned(z) == WeekdayOf(z)
  {
    if z < -4 {
      assert U32(z) == z + 0x1_0000_0000;
      assert 0x1_0000_0000 == 7 * 613566756 + 4;
      FloorUnique(z + 0x1_0000_0000, 7, (z + 4) / 7 + 613566756);
    }
  }

  /** So does the signed spelling, short of the last four values, where its sum overflows. */
  lemma SignedSpelling(z: int)
    requires InInt32(z)
    ensures FromDaysSigned(z) == WeekdayOf(z)
    ensures InInt32(SignedSum(z)) <==> z <= 0x7FFF_FFFB
  {
  }

  /** `weekday - weekday` of date.h: the days from `y` forward to `x`. */
  function Difference(x: int, y: int): int {
    var wdu := x - y;
    var wk := AdjustedDiv(wdu, 7);
    wdu - wk * 7
  }

  /** `weekday - weekday` of iso_week.h, on the encoding 1 to 7, in unsigned arithmetic. */
  function IsoDifference(x: int, y: int): int {
    var diff := U32(x - y);
    if diff <= 6 then diff else U32(diff + 7)
  }

  lemma DifferenceIsForward(x: int, y: int)
    ensures Difference(x, y) == (x - y) % 7
    ensures 1 <= x <= 7 && 1 <= y <= 7 ==> IsoDifference(x, y) == (x - y) % 7
  {
    hide AdjustedDiv;
    AdjustedDivIsFloor(x - y, 7);
  }

  lemma WeekdayPlus(z: int, w: int)
    requires 0 <= w <= 6
    ensures WeekdayOf(z + (w - WeekdayOf(z)) % 7) == w
  {
  }

  lemma WeekdayMinus(z: int, w: int)
    requires 0 <= w <= 6
    ensures WeekdayOf(z - (WeekdayOf(z) - w) % 7) == w
  {
  }

  /** A weekday of a month by its number: `year_month_weekday`. */
  datatype NthWeekday = NthWeekday(year: int, month: int, weekday: int, index: int)

  function NthToDays(x: NthWeekday): int {
    var d := ToDays(Date(x.year, x.month, 1));
    d + (Difference(x.weekday, WeekdayOf(d)) + (x.index - 1) * 7)
  }

  function NthFromDays(z: int): NthWeekday {
    var ymd := FromDays(z);
    NthWeekday(ymd.year, ymd.month, WeekdayOf(z), (ymd.day - 1) / 7 + 1)
  }

  /** What `ok` asks of the month and the weekday. */
  predicate NthInMonth(x: NthWeekday) {
    if !(1 <= x.month <= 12) || !(0 <= x.weekday <= 6) || x.index < 1 then false
    else if x.index <= 4 then true
    else
      var d2 := Difference(x.weekday, WeekdayOf(ToDays(Date(x.year, x.month, 1)))) + (x.index - 1) * 7 + 1;
      d2 <= LastDay(x.year, x.month)
  }

  predicate NthOk(x: NthWeekday) {
    -0x7FFF <= x.year <= 0x7FFF && NthInMonth(x)
  }

  /** The days of a month are those from its first day on, as many as its last day says. */
  lemma MonthDays(y: int, m: int, z: int)
    requires 1 <= m <= 12
    ensures var first := ToDays(Date(y, m, 1));
            FromDays(z).year == y && FromDays(z).month == m <==> first <= z < first + LastDay(y, m)
    ensures var d := FromDays(z);
            d.year == y && d.month == m ==> z == ToDays(Date(y, m, 1)) + d.day - 1
    ensures 28 <= LastDay(y, m) <= 31
  {
    hide FromDays, ToDays, IsLeap;
    IsFaithful();
    var d := FromDays(z);
    FromDaysInverts(z);
    assert ToDays(d) == ToDays(Date(d.year, d.month, 1)) + d.day - 1 by {
      assert GREGORIAN.toDays(d) == GREGORIAN.toDays(Date(d.year, d.month, 1)) + d.day - 1;
    }
    var first := ToDays(Date(y, m, 1));
    if first <= z < first + LastDay(y, m) {
      var e := Date(y, m, z - first + 1);
      assert GREGORIAN.toDays(e) == GREGORIAN.toDays(Date(e.year, e.month, 1)) + e.day - 1;
      ToDaysInverts(e);
    }
  }

  lemma WeekdayRepeats(z: int, k: int)
    ensures WeekdayOf(z + 7 * k) == WeekdayOf(z)
  {
  }

  lemma WithinMonth(x: NthWeekday)
    requires 1 <= x.month <= 12 && 0 <= x.weekday <= 6
    ensures NthFromDays(NthToDays(x)) == x <==> NthInMonth(x)
  {
    hide FromDays, ToDays, LastDay, Difference, WeekdayOf;
    var first := ToDays(Date(x.year, x.month, 1));
    var delta := Difference(x.weekday, WeekdayOf(first));
    DifferenceIsForward(x.weekday, WeekdayOf(first));
    WeekdayPlus(first, x.weekday);
    WeekdayRepeats(first + delta, x.index - 1);
    var z := NthToDays(x);
    assert z == first + delta + 7 * (x.index - 1);
    assert WeekdayOf(z) == x.weekday;
    MonthDays(x.year, x.month, z);
    FloorUnique(delta + 7 * (x.index - 1), 7, x.index - 1);
  }

  /** The days of the years that `ok` accepts. */
  lemma YearInCalendar(z: int)
    ensures -0x7FFF <= FromDays(z).year <= 0x7FFF <==> -12687428 <= z <= 11248737
  {
    hide FromDays, YearStart;
    FirstAndLastYear();
    YearOfDay(z, -0x7FFF);
    YearOfDay(z, 0x8000);
  }

  /** An n-th weekday of a month, whatever its numbers, converts to a day of the calendar and back
      exactly when `ok` accepts it. */
  lemma NthRoundTrip(x: NthWeekday)
    ensures NthFromDays(NthToDays(x)) == x && -12687428 <= NthToDays(x) <= 11248737 <==> NthOk(x)
  {
    hide FromDays, NthToDays, LastDay, Difference, WeekdayOf;
    var z := NthToDays(x);
    FromDaysInverts(z);
    YearInCalendar(z);
    WeekdayAfter(z, z);
    if 1 <= x.month <= 12 && 0 <= x.weekday <= 6 {
      WithinMonth(x);
    }
  }

  /** Every day is the n-th of its weekday in its month, and converts back; `ok` accepts those of
      the calendar. */
  lemma NthOfDay(z: int)
    ensures NthToDays(NthFromDays(z)) == z && NthInMonth(NthFromDays(z))
    ensures NthOk(NthFromDays(z)) <==> -12687428 <= z <= 11248737
  {
    hide FromDays, ToDays, LastDay, Difference, WeekdayOf;
    YearInCalendar(z);
    var d, x := FromDays(z), NthFromDays(z);
    FromDaysInverts(z);
    MonthDays(d.year, d.month, z);
    var first, k := ToDays(Date(d.year, d.month, 1)), (d.day - 1) / 7;
    WeekdayRepeats(z, -k);
    WeekdayAfter(first, z - 7 * k);
    DifferenceIsForward(WeekdayOf(z), WeekdayOf(first));
    assert NthToDays(x) == first + (z - 7 * k - first) + 7 * k;
  }

  lemma WeekdayAfter(z: int, w: int)
    requires z <= w < z + 7
    ensures (WeekdayOf(w) - WeekdayOf(z)) % 7 == w - z
    ensures 0 <= WeekdayOf(w) <= 6
  {
  }

  /** `year_month_weekday_last::to_days`. */
  function LastToDays(y: int, m: int, weekday: int): int {
    var d := ToDays(Date(y, m, LastDay(y, m)));
    d - Difference(WeekdayOf(d), weekday)
  }

  /** The last weekday of a month has that weekday, is in the month, and the one after is not. */
  lemma LastIsLast(y: int, m: int, weekday: int)
    requires 1 <= m <= 12 && 0 <= weekday <= 6
    ensures var z := LastToDays(y, m, weekday);
            && WeekdayOf(z) == weekday
            && FromDays(z).year == y && FromDays(z).month == m
            && !(FromDays(z + 7).year == y && FromDays(z + 7).month == m)
  {
    hide FromDays, ToDays, LastDay, Difference, WeekdayOf;
    var z, last := LastToDays(y, m, weekday), ToDays(Date(y, m, LastDay(y, m)));
    MonthDays(y, m, z);
    MonthDays(y, m, z + 7);
    MonthDays(y, m, ToDays(Date(y, m, 1)) + LastDay(y, m) - 1);
    LastDayOfMonth(y, m);
    DifferenceIsForward(WeekdayOf(last), weekday);
    WeekdayMinus(last, weekday);
  }

  lemma LastDayOfMonth(y: int, m: int)
    requires 1 <= m <= 12
    ensures ToDays(Date(y, m, LastDay(y, m))) == ToDays(Date(y, m, 1)) + LastDay(y, m) - 1
  {
    hide FromDays, ToDays, LastDay;
    IsFaithful();
    var d := Date(y, m, LastDay(y, m));
    assert GREGORIAN.toDays(d) == GREGORIAN.toDays(Date(d.year, d.month, 1)) + d.day - 1;
  }

  /** A month starts where the one before it ends. */
  lemma MonthFollows(y: int, m: int)
    requires 1 <= m <= 12
    ensures ToDays(if m < 12 then Date(y, m + 1, 1) else Date(y + 1, 1, 1)) ==
            ToDays(Date(y, m, 1)) + LastDay(y, m)
  {
    hide ToDays, FromDays, LastDay;
    LastDayOfMonth(y, m);
    MonthDays(y, m, 0);
    NextDay(Date(y, m, LastDay(y, m)));
  }
}
