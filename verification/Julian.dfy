/** The proleptic Julian calendar of julian.h. */
module Julian {
  import opened CArithmetic
  import opened Calendar
  import Gregorian

  predicate IsLeap(y: int) {
    TruncMod(y, 4) == 0
  }

  const MONTH_DAYS := [31, 28, 31, 30, 31, 30, 31, 31, 30, 31, 30, 31]

  /** `year_month_day_last::day`; the table has no entry for a month outside 1 to 12. */
  function LastDay(y: int, m: int): int {
    if !(1 <= m <= 12) then 0
    else if m != 2 || !IsLeap(y) then MONTH_DAYS[m - 1] else 29
  }

  function ToDays(date: Date): int {
    var y := date.year - if date.month <= 2 then 1 else 0;
    var m, d := date.month, date.day;
    var era := AdjustedDiv(y, 4);
    var yoe := y - era * 4;
    var doy := (153 * (if m > 2 then m - 3 else m + 9) + 2) / 5 + d - 1;
    var doe := yoe * 365 + doy;
    era * 1461 + doe - 719470
  }

  /** The intermediate values of `year_month_day::from_days`. */
  datatype Split = Split(era: int, doe: int, yoe: int, doy: int, mp: int)

  function SplitDays(days: int): Split {
    var z := days + 719470;
    var era := AdjustedDiv(z, 1461);
    var doe := z - era * 1461;
    var yoe := (doe - doe / 1460) / 365;
    var doy := doe - 365 * yoe;
    var mp := (5 * doy + 2) / 153;
    Split(era, doe, yoe, doy, mp)
  }

  function FromDays(days: int): Date {
    var s := SplitDays(days);
    var y := s.yoe + s.era * 4;
    var d := s.doy - (153 * s.mp + 2) / 5 + 1;
    var m := if s.mp < 10 then s.mp + 3 else s.mp - 9;
    Date(y + if m <= 2 then 1 else 0, m, d)
  }

  const JULIAN := System(LastDay, ToDays, FromDays)

  lemma ToDaysByMarchYear(date: Date)
    ensures var y := date.year - if date.month <= 2 then 1 else 0;
            ToDays(date) == 365 * y + y / 4 + Gregorian.MonthStart(date.month) + date.day - 719471
  {
  }

  lemma MonthLengths(y: int, m: int)
    requires 1 <= m <= 12
    ensures m != 2 ==> LastDay(y, m) == Gregorian.MonthStart(if m < 12 then m + 1 else 1) - Gregorian.MonthStart(m)
    ensures m == 2 ==> LastDay(y, m) == (if y % 4 == 0 then 366 else 365) - Gregorian.MonthStart(m)
  {
  }

  lemma NextDay(d: Date)
    requires Ok(JULIAN, d)
    ensures ToDays(Next(JULIAN, d)) == ToDays(d) + 1
  {
    hide ToDays, IsLeap;
    ToDaysByMarchYear(d);
    ToDaysByMarchYear(Next(JULIAN, d));
    MonthLengths(d.year, d.month);
    DivStep(d.year - 1, 4);
  }

  lemma MarchYearOfEra(era: int, yoe: int, date: Date)
    requires 0 <= yoe <= 3 && date.year == 4 * era + yoe + if date.month <= 2 then 1 else 0
    ensures ToDays(date) == 1461 * era + 365 * yoe + Gregorian.MonthStart(date.month) + date.day - 719471
    ensures date.month <= 2 ==> (date.year % 4 == 0 <==> yoe == 3)
  {
    hide ToDays, Gregorian.MonthStart;
    ToDaysByMarchYear(date);
    FloorUnique(4 * era + yoe, 4, era);
  }

  /** The ranges the comments of `from_days` give, for every day count. */
  lemma SplitRanges(days: int)
    ensures var s := SplitDays(days);
            && 0 <= s.doe <= 1460 && 0 <= s.yoe <= 3 && 0 <= s.doy <= 365 && 0 <= s.mp <= 11
            && s.mp == (5 * s.doy + 2) / 153
            && days == 1461 * s.era + 365 * s.yoe + s.doy - 719470
            && (s.doy == 365 ==> s.yoe == 3)
    ensures 1 <= FromDays(days).month <= 12 && 1 <= FromDays(days).day <= 31
  {
    Gregorian.MonthOfDay(SplitDays(days).doy);
  }

  lemma FromDaysInverts(z: int)
    ensures Ok(JULIAN, FromDays(z)) && ToDays(FromDays(z)) == z
  {
    hide SplitDays, ToDays, IsLeap;
    SplitRanges(z);
    var s, d := SplitDays(z), FromDays(z);
    Gregorian.MonthOfDay(s.doy);
    MarchYearOfEra(s.era, s.yoe, d);
    MonthLengths(d.year, d.month);
  }

  lemma CountsDays()
    ensures Calendar.CountsDays(JULIAN)
  {
    forall d: Date | Ok(JULIAN, d)
      ensures ToDays(Next(JULIAN, d)) == ToDays(d) + 1
    {
      NextDay(d);
    }
  }

  lemma Inverts()
    ensures Calendar.Inverts(JULIAN)
  {
    forall z: int ensures Ok(JULIAN, FromDays(z)) && ToDays(FromDays(z)) == z {
      FromDaysInverts(z);
    }
  }

  lemma IsFaithful()
    ensures Faithful(JULIAN)
  {
    hide LastDay, FromDays;
    CountsDays();
    Inverts();
  }

  /** The conversions are inverse to each other, keep the order of dates, agree with walking the
      calendar day by day, and survive the 16-bit year exactly on the days of 16-bit years. */
  lemma Conversions(a: Date, b: Date, n: nat, z: int)
    requires Ok(JULIAN, a) && Ok(JULIAN, b)
    ensures Ok(JULIAN, FromDays(z)) && ToDays(FromDays(z)) == z
    ensures FromDays(ToDays(a)) == a
    ensures Less(a, b) <==> ToDays(a) < ToDays(b)
    ensures FromDays(ToDays(a) + n) == Advance(JULIAN, a, n)
    ensures ToDays(Stored(FromDays(z))) == z <==>
            ToDays(Date(-0x8000, 1, 1)) <= z < ToDays(Date(0x8000, 1, 1))
  {
    hide ToDays, FromDays, LastDay;
    IsFaithful();
    Bijection(JULIAN, a, z);
    OrderIsomorphism(JULIAN, a, b);
    ClosedFormWalks(JULIAN, a, n);
    StoredRoundTrip(JULIAN, z);
  }

  /** One label read in both calendars: the distance is the leap days the centuries lose,
      less two, counted on the March-based year. */
  lemma BehindGregorian(d: Date)
    ensures var y := d.year - if d.month <= 2 then 1 else 0;
            ToDays(d) - Gregorian.ToDays(d) == y / 100 - y / 400 - 2
  {
    hide ToDays, Gregorian.ToDays, Gregorian.MonthStart;
    ToDaysByMarchYear(d);
    Gregorian.ToDaysByMarchYear(d);
  }
}
