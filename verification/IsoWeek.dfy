/** ISO week dates of iso_week.h, after section 2.2.10 of ISO 8601:2004. Years are kept in a
    `short` as the source keeps them, so arithmetic on a year wraps around. */
module IsoWeek {
  import opened CArithmetic
  import opened Calendar
  import opened Gregorian
  import opened Weekday

  datatype IsoDate = IsoDate(year: int, week: int, weekday: int)

  /** `sys_days(y/dec/thu[last])`. */
  function LastThursday(y: int): int {
    LastToDays(y, 12, THURSDAY)
  }

  /** `sys_days((y - years{1})/dec/thu[last]) + (mon-thu)`: the Monday that starts the year. */
  function Start(y: int): int {
    LastThursday(S16(y - 1)) + IsoDifference(MONDAY, THURSDAY)
  }

  /** `weekday(sys_days)` of iso_week.h, which calls Sunday 7. */
  function IsoWeekday(z: int): int {
    if WeekdayOf(z) != 0 then WeekdayOf(z) else 7
  }

  /** `year_lastweek::weeknum`; a `weeknum` is an unsigned char. */
  function LastWeek(y: int): int {
    var s0 := LastThursday(S16(y - 1));
    var s1 := LastThursday(y);
    TruncDiv(s1 - s0, 7) % 256
  }

  predicate IsoOk(x: IsoDate) {
    InShort(x.year) && 1 <= x.weekday <= 7 && 1 <= x.week && x.week <= LastWeek(x.year)
  }

  function ToIso(z: int): IsoDate {
    var wd := IsoWeekday(z);
    var y := S16(FromDays(z + 3).year);
    if z < Start(y) then
      var y := S16(y - 1);
      IsoDate(y, (TruncDiv(z - Start(y), 7) + 1) % 256, wd)
    else
      IsoDate(y, (TruncDiv(z - Start(y), 7) + 1) % 256, wd)
  }

  function FromIso(x: IsoDate): int {
    LastThursday(S16(x.year - 1)) + Difference(MONDAY, THURSDAY) + (x.week - 1) * 7 +
    IsoDifference(x.weekday, MONDAY)
  }

  /** The Thursday of the week, Monday to Sunday, that holds day `z`. */
  function ThursdayOf(z: int): int {
    z - IsoWeekday(z) + 4
  }

  /** The definition of the standard, without reference to any closed form: the year of a week
      is the calendar year of its Thursday, and its number counts the Thursdays of that year
      so far. */
  function WeekByThursday(z: int): IsoDate {
    var thursday := ThursdayOf(z);
    var y := FromDays(thursday).year;
    IsoDate(y, (thursday - YearStart(y)) / 7 + 1, IsoWeekday(z))
  }

  /** A week of the year has its Thursday in that year: the last one is the last before the next year. */
  lemma LastThursdayOfYear(y: int)
    ensures WeekdayOf(LastThursday(y)) == THURSDAY
    ensures YearStart(y + 1) - 7 <= LastThursday(y) < YearStart(y + 1)
  {
    hide ToDays, FromDays, LastDay, LastToDays, WeekdayOf;
    LastIsLast(y, 12, THURSDAY);
    MonthDays(y, 12, LastThursday(y));
    MonthDays(y, 12, LastThursday(y) + 7);
    MonthFollows(y, 12);
  }

  lemma StartOfYear(y: int)
    requires InShort(y - 1)
    ensures WeekdayOf(Start(y)) == MONDAY
    ensures YearStart(y) - 3 <= Start(y) <= YearStart(y) + 3
  {
    hide ToDays, LastThursday, YearStart;
    LastThursdayOfYear(y - 1);
  }

  lemma WeekOf(z: int)
    ensures z - 3 <= ThursdayOf(z) <= z + 3
    ensures WeekdayOf(ThursdayOf(z) - 3) == MONDAY
    ensures 1 <= IsoWeekday(z) <= 7
  {
  }

  lemma SameWeekday(a: int, b: int)
    requires WeekdayOf(a) == WeekdayOf(b)
    ensures (a - b) % 7 == 0
  {
  }

  /** A day is on or after the start of a year exactly when its Thursday is in or after the year. */
  lemma StartByThursday(z: int, y: int)
    requires InShort(y - 1)
    ensures Start(y) <= z <==> YearStart(y) <= ThursdayOf(z)
    ensures (z - Start(y)) / 7 == (ThursdayOf(z) - Start(y)) / 7
    ensures Start(y) <= z ==> (z - Start(y)) / 7 == (ThursdayOf(z) - YearStart(y)) / 7
  {
    hide Start, YearStart, ThursdayOf, IsoWeekday, WeekdayOf;
    StartOfYear(y);
    WeekOf(z);
    var monday, start := ThursdayOf(z) - 3, Start(y);
    WeekdayRepeats(monday, 0);
    SameWeekday(monday, start);
    var k := (monday - start) / 7;
    assert monday == start + 7 * k;
    FloorUnique(z - start, 7, k);
    FloorUnique(ThursdayOf(z) - start, 7, k);
    if start <= z {
      FloorUnique(ThursdayOf(z) - YearStart(y), 7, k);
    }
  }

  lemma SameDayInWeek(a: int, b: int)
    requires WeekdayOf(a) == WeekdayOf(b) && -7 < a - b < 7
    ensures a == b
  {
  }

  /** Week 1 of the first year that ISO weeks can express starts on its 3 January; the year
      after the last starts on a Monday. */
  lemma FirstAndLastStart()
    ensures Start(-0x7FFF) == -12687426
    ensures Start(0x8000) == 11248738
  {
    hide Start, YearStart;
    FirstAndLastYear();
    StartOfYear(-0x7FFF);
    StartOfYear(0x8000);
    SameDayInWeek(Start(-0x7FFF), -12687426);
    SameDayInWeek(Start(0x8000), 11248738);
  }

  /** The years of a day's week and of the day three days later, which the code starts from. */
  lemma YearOfWeek(z: int)
    requires -12687426 <= z <= 11248737
    ensures var y, y0 := FromDays(ThursdayOf(z)).year, FromDays(z + 3).year;
            && (y0 == y || y0 == y + 1)
            && -0x7FFF <= y <= 0x7FFF
            && Start(y) <= z < Start(y + 1)
            && (z - Start(y)) / 7 == (ThursdayOf(z) - YearStart(y)) / 7 <= 52
  {
    hide Start, YearStart, ThursdayOf, FromDays, ToDays, IsoWeekday, IsLeap;
    var thursday := ThursdayOf(z);
    var y := FromDays(thursday).year;
    WeekOf(z);
    FirstAndLastStart();
    StartByThursday(z, -0x7FFF);
    StartByThursday(z, 0x8000);
    YearOfDay(thursday, -0x7FFF);
    YearOfDay(thursday, 0x8000);
    YearOfDay(thursday, y);
    StartByThursday(z, y);
    StartByThursday(z, y + 1);
    YearOfDay(z + 3, y);
    YearOfDay(z + 3, y + 1);
    YearLength(y);
    YearLength(y + 1);
  }

  /** From 3 January -32767, the conversion gives the week date of the standard. */
  lemma ToIsoIsStandard(z: int)
    requires -12687426 <= z <= 11248737
    ensures ToIso(z) == WeekByThursday(z)
    ensures -0x7FFF <= ToIso(z).year <= 0x7FFF
  {
    hide LastThursday, YearStart, ThursdayOf, FromDays, IsoWeekday;
    YearOfWeek(z);
  }

  lemma OuterThursdays()
    ensures LastThursday(0x7FFF) == 11248734 && LastThursday(-0x8000) == -12687430
  {
    assert WeekdayOf(11248734) == THURSDAY && WeekdayOf(-12687430) == THURSDAY;
    hide LastThursday, YearStart, WeekdayOf;
    FirstAndLastYear();
    LastThursdayOfYear(0x7FFF);
    LastThursdayOfYear(-0x8000);
    SameDayInWeek(LastThursday(0x7FFF), 11248734);
    SameDayInWeek(LastThursday(-0x8000), -12687430);
  }

  /** One year before -32768 is 32767, so that year's weeks are counted backwards from there. */
  lemma FirstYearLastWeek()
    ensures LastWeek(-0x8000) == 196
  {
    hide LastThursday;
    OuterThursdays();
  }

  /** The Thursdays of a year number 52 or 53, and 53 exactly when 1 January is a Thursday or,
      in a leap year, a Wednesday. So does the code in all years but the first, where it
      finds 196. */
  lemma LastWeekOfYear(y: int)
    requires InShort(y)
    ensures 52 <= LastWeek(y) <= 53 <==> y != -0x8000
    ensures y != -0x8000 ==> LastThursday(y) - LastThursday(y - 1) == 7 * LastWeek(y)
    ensures LastWeek(y) ==
            if y == -0x8000 then 196
            else if WeekdayOf(YearStart(y)) == THURSDAY || (IsLeap(y) && WeekdayOf(YearStart(y)) == 3) then 53
            else 52
  {
    if y == -0x8000 {
      FirstYearLastWeek();
    } else {
      WeeksByThursdays(y);
    }
  }

  lemma WeeksByThursdays(y: int)
    requires InShort(y - 1) && InShort(y)
    ensures LastThursday(y) - LastThursday(y - 1) == 7 * LastWeek(y)
    ensures LastWeek(y) ==
            if WeekdayOf(YearStart(y)) == THURSDAY || (IsLeap(y) && WeekdayOf(YearStart(y)) == 3) then 53 else 52
  {
    hide LastThursday, YearStart, IsLeap, WeekdayOf;
    LastThursdayOfYear(y - 1);
    LastThursdayOfYear(y);
    YearLength(y);
    var first := LastThursday(y - 1) + 7;
    WeekdayRepeats(LastThursday(y - 1), 1);
    SameWeekday(LastThursday(y), first);
    WeekdayAfter(YearStart(y), first);
    WeekdayAfter(YearStart(y), YearStart(y));
    assert (THURSDAY - WeekdayOf(YearStart(y))) % 7 == first - YearStart(y);
  }

  lemma FromIsoByStart(x: IsoDate)
    requires 1 <= x.weekday <= 7
    ensures FromIso(x) == Start(x.year) + 7 * (x.week - 1) + x.weekday - 1
  {
    hide LastThursday;
  }

  lemma WeekdayOfIso(z: int)
    ensures 1 <= ToIso(z).weekday == IsoWeekday(z) <= 7
  {
    hide Start;
    WeekOf(z);
  }

  /** One year before -32768 is 32767, so the year -32768 seems to start when 32768 does. */
  lemma WrappedStart()
    ensures Start(-0x8000) == Start(0x8000)
  {
    hide LastThursday;
  }

  /** The first two days of the calendar belong to the ISO year before it, and their week comes out as
      one past its last. */
  lemma FirstDaysWrap(z: int)
    requires -12687428 <= z < -12687426
    ensures FromDays(z + 3).year == -0x7FFF && z < Start(-0x7FFF)
    ensures ToIso(z).year == -0x8000 && ToIso(z).week == 197
  {
    hide LastThursday, FromDays, WeekdayOf, YearStart, LastWeek, Start, IsLeap;
    WrappedStart();
    FirstAndLastYear();
    FirstAndLastStart();
    YearLength(-0x7FFF);
    YearOfDay(z + 3, -0x7FFF);
  }

  /** The week date of every day is valid and converts back to that day, but for the first two
      days of the calendar: theirs is not valid, and comes back as a day of the year 32768. */
  lemma DayRoundTrip(z: int)
    requires -12687428 <= z <= 11248737
    ensures FromIso(ToIso(z)) == z <==> -12687426 <= z
    ensures IsoOk(ToIso(z)) <==> -12687426 <= z
  {
    hide LastThursday, FromDays, WeekdayOf, YearStart, LastWeek, Start, IsLeap, ToIso, FromIso;
    WeekdayOfIso(z);
    FromIsoByStart(ToIso(z));
    if -12687426 <= z {
      ToIsoIsStandard(z);
      YearOfWeek(z);
      var y, k := ToIso(z).year, (z - Start(ToIso(z).year)) / 7;
      WeekOf(z);
      StartOfYear(y);
      WeekdayRepeats(Start(y), k);
      SameDayInWeek(ThursdayOf(z) - 3, Start(y) + 7 * k);
      WeeksByThursdays(y);
      StartsByWeeks(y);
    } else {
      FirstDaysWrap(z);
      FirstYearLastWeek();
      WrappedStart();
      FirstAndLastStart();
    }
  }

  lemma StartsByWeeks(y: int)
    requires InShort(y - 1) && InShort(y)
    ensures Start(y + 1) == Start(y) + 7 * LastWeek(y)
  {
    hide LastThursday, LastWeek, YearStart, IsLeap, WeekdayOf;
    WeeksByThursdays(y);
  }

  lemma {:induction false} StartsAscend(a: int, b: int)
    requires -0x7FFF <= a <= b <= 0x8000
    ensures Start(a) + 364 * (b - a) <= Start(b)
    decreases b - a
  {
    hide LastWeek, Start, YearStart, IsLeap, WeekdayOf;
    if a < b {
      StartsByWeeks(a);
      WeeksByThursdays(a);
      StartsAscend(a + 1, b);
    }
  }

  /** A day lies between the starts of one year only. */
  lemma YearByStart(z: int, y: int, y': int)
    requires -0x7FFF <= y <= 0x7FFF && -0x7FFF <= y' <= 0x7FFF
    requires Start(y) <= z < Start(y + 1) && Start(y') <= z < Start(y' + 1)
    ensures y == y'
  {
    hide Start;
    if y < y' {
      StartsAscend(y + 1, y');
    } else if y' < y {
      StartsAscend(y' + 1, y);
    }
  }

  /** In the year -32768 the conversion leaves the calendar altogether. */
  lemma FirstYearAliases(x: IsoDate)
    requires x.year == -0x8000 && 1 <= x.week && 1 <= x.weekday <= 7
    ensures FromIso(x) > 11248737
  {
    hide LastThursday, Start, FromIso;
    FromIsoByStart(x);
    WrappedStart();
    FirstAndLastStart();
  }

  lemma DateInCalendar(x: IsoDate)
    requires IsoOk(x) && x.year != -0x8000
    ensures ToIso(FromIso(x)) == x
    ensures -12687426 <= FromIso(x) <= 11248737
  {
    hide FromDays, YearStart, LastWeek, Start, ToIso, FromIso, WeekdayOf, IsoWeekday;
    var z := FromIso(x);
    FromIsoByStart(x);
    StartsByWeeks(x.year);
    StartsAscend(-0x7FFF, x.year);
    StartsAscend(x.year + 1, 0x8000);
    FirstAndLastStart();
    YearOfWeek(z);
    YearByStart(z, x.year, FromDays(ThursdayOf(z)).year);
    ToIsoIsStandard(z);
    var monday := Start(x.year) + 7 * (x.week - 1);
    WeekOf(z);
    StartOfYear(x.year);
    WeekdayRepeats(Start(x.year), x.week - 1);
    SameDayInWeek(ThursdayOf(z) - 3, monday);
    FloorUnique(z - Start(x.year), 7, x.week - 1);
  }

  /** A valid week date is the week date of the day it converts to, and that day is in the
      calendar, exactly when its year is not -32768. */
  lemma DateRoundTrip(x: IsoDate)
    requires IsoOk(x)
    ensures ToIso(FromIso(x)) == x && -12687426 <= FromIso(x) <= 11248737 <==> x.year != -0x8000
  {
    hide LastWeek, ToIso, FromIso;
    if x.year == -0x8000 {
      FirstYearAliases(x);
    } else {
      DateInCalendar(x);
    }
  }
}
