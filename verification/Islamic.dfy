/** The tabular Islamic calendar of islamic.h: eleven leap years in each thirty. */
module Islamic {
  import opened CArithmetic
  import opened Calendar
  import Julian

  predicate IsLeap(year: int) {
    var y := year - 1;
    var era := AdjustedDiv(y, 30);
    var yoe := y - era * 30;
    match yoe
    case 1 | 4 | 6 | 9 | 12 | 15 | 17 | 20 | 23 | 25 | 28 => true
    case _ => false
  }

  const MONTH_DAYS := [30, 29, 30, 29, 30, 29, 30, 29, 30, 29, 30, 29]

  /** `year_month_day_last::day`; the table has no entry for a month outside 1 to 12. */
  function LastDay(y: int, m: int): int {
    if !(1 <= m <= 12) then 0
    else if m != 12 || !IsLeap(y) then MONTH_DAYS[m - 1] else 30
  }

  function ToDays(date: Date): int {
    var y := date.year - 1;
    var m, d := date.month, date.day;
    var era := AdjustedDiv(y, 30);
    var yoe := y - era * 30;
    var doy := 29 * (m - 1) + m / 2 + d - 1;
    var doe := yoe * 354 + (11 * (yoe + 1) + 3) / 30 + doy;
    era * 10631 + doe - 492148
  }

  /** The intermediate values of `year_month_day::from_days`. */
  datatype Split = Split(era: int, doe: int, yoe: int, doy: int)

  function SplitDays(days: int): Split {
    var z := days + 492148;
    var era := AdjustedDiv(z, 10631);
    var doe := z - era * 10631;
    var yoe := (30 * doe + 10646) / 10631 - 1;
    var doy := doe - (yoe * 354 + (11 * (yoe + 1) + 3) / 30);
    Split(era, doe, yoe, doy)
  }

  function FromDays(days: int): Date {
    var s := SplitDays(days);
    var y := s.yoe + s.era * 30 + 1;
    var m := (11 * s.doy + 330) / 325;
    var d := s.doy - (29 * (m - 1) + m / 2) + 1;
    Date(y, m, d)
  }

  const ISLAMIC := System(LastDay, ToDays, FromDays)

  /** The day of its era on which year `yoe` starts. */
  function YearStart(yoe: int): int {
    yoe * 354 + (11 * (yoe + 1) + 3) / 30
  }

  /** The closed form for the start of a year gains its extra day in exactly the years that
      the switch of `is_leap` lists. */
  lemma YearLength(era: int, yoe: int)
    requires 0 <= yoe <= 29
    ensures YearStart(yoe + 1) - YearStart(yoe) == if IsLeap(30 * era + yoe + 1) then 355 else 354
    ensures YearStart(0) == 0 && YearStart(30) == 10631
  {
    hide AdjustedDiv;
    AdjustedDivUnique(30 * era + yoe, 30, era);
  }

  /** The formula for the year inverts the year starts. */
  lemma YearOfDay(doe: int)
    requires 0 <= doe <= 10630
    ensures var yoe := (30 * doe + 10646) / 10631 - 1;
            0 <= yoe <= 29 && YearStart(yoe) <= doe < YearStart(yoe + 1)
  {
  }

  /** The formula for the month inverts the month starts. */
  lemma MonthOfDay(doy: int)
    requires 0 <= doy <= 354
    ensures var m := (11 * doy + 330) / 325;
            1 <= m <= 12 && 29 * (m - 1) + m / 2 <= doy &&
            (m < 12 ==> doy < 29 * m + (m + 1) / 2)
  {
  }

  lemma ToDaysByEra(date: Date, era: int, yoe: int)
    requires 0 <= yoe <= 29 && date.year == 30 * era + yoe + 1
    ensures ToDays(date) == 10631 * era + YearStart(yoe) + 29 * (date.month - 1) + date.month / 2 + date.day - 492149
  {
  }

  lemma EraOfYear(year: int) returns (era: int, yoe: int)
    ensures 0 <= yoe <= 29 && year == 30 * era + yoe + 1
  {
    era, yoe := (year - 1) / 30, (year - 1) % 30;
  }

  lemma NextDay(d: Date)
    requires Ok(ISLAMIC, d)
    ensures ToDays(Next(ISLAMIC, d)) == ToDays(d) + 1
  {
    hide ToDays, IsLeap, YearStart;
    var era, yoe := EraOfYear(d.year);
    var n := Next(ISLAMIC, d);
    YearLength(era, yoe);
    ToDaysByEra(d, era, yoe);
    if n.year == d.year {
      ToDaysByEra(n, era, yoe);
    } else if yoe < 29 {
      ToDaysByEra(n, era, yoe + 1);
    } else {
      ToDaysByEra(n, era + 1, 0);
    }
  }

  /** The ranges the comments of `from_days` give, for every day count. */
  lemma SplitRanges(days: int)
    ensures var s := SplitDays(days);
            && 0 <= s.doe <= 10630 && 0 <= s.yoe <= 29 && 0 <= s.doy <= 354
            && days == 10631 * s.era + YearStart(s.yoe) + s.doy - 492148
            && (s.doy == 354 ==> IsLeap(30 * s.era + s.yoe + 1))
    ensures 1 <= FromDays(days).month <= 12 && 1 <= FromDays(days).day <= 30
  {
    hide AdjustedDiv, IsLeap;
    var s := SplitDays(days);
    AdjustedDivIsFloor(days + 492148, 10631);
    YearOfDay(s.doe);
    YearLength(s.era, s.yoe);
    MonthOfDay(s.doy);
  }

  lemma FromDaysInverts(z: int)
    ensures Ok(ISLAMIC, FromDays(z)) && ToDays(FromDays(z)) == z
  {
    hide SplitDays, ToDays, IsLeap, YearStart;
    SplitRanges(z);
    var s := SplitDays(z);
    MonthOfDay(s.doy);
    ToDaysByEra(FromDays(z), s.era, s.yoe);
  }

  lemma CountsDays()
    ensures Calendar.CountsDays(ISLAMIC)
  {
    forall d: Date | Ok(ISLAMIC, d)
      ensures ToDays(Next(ISLAMIC, d)) == ToDays(d) + 1
    {
      NextDay(d);
    }
  }

  lemma Inverts()
    ensures Calendar.Inverts(ISLAMIC)
  {
    forall z: int ensures Ok(ISLAMIC, FromDays(z)) && ToDays(FromDays(z)) == z {
      FromDaysInverts(z);
    }
  }

  lemma IsFaithful()
    ensures Faithful(ISLAMIC)
  {
    hide LastDay, FromDays;
    CountsDays();
    Inverts();
  }

  /** The conversions are inverse to each other, keep the order of dates, agree with walking the
      calendar day by day, and survive the 16-bit year exactly on the days of 16-bit years. */
  lemma Conversions(a: Date, b: Date, n: nat, z: int)
    requires Ok(ISLAMIC, a) && Ok(ISLAMIC, b)
    ensures Ok(ISLAMIC, FromDays(z)) && ToDays(FromDays(z)) == z
    ensures FromDays(ToDays(a)) == a
    ensures Less(a, b) <==> ToDays(a) < ToDays(b)
    ensures FromDays(ToDays(a) + n) == Advance(ISLAMIC, a, n)
    ensures ToDays(Stored(FromDays(z))) == z <==>
            ToDays(Date(-0x8000, 1, 1)) <= z < ToDays(Date(0x8000, 1, 1))
  {
    hide ToDays, FromDays, LastDay;
    IsFaithful();
    Bijection(ISLAMIC, a, z);
    OrderIsomorphism(ISLAMIC, a, b);
    ClosedFormWalks(ISLAMIC, a, n);
    StoredRoundTrip(ISLAMIC, z);
  }

  /** Year 1 began on 16 July 622 of the Julian calendar, and each era of 30 years has 10631 days. */
  lemma Eras(k: int)
    ensures ToDays(Date(30 * k + 1, 1, 1)) == Julian.ToDays(Date(622, 7, 16)) + 10631 * k
  {
    hide Julian.ToDays;
    Julian.ToDaysByMarchYear(Date(622, 7, 16));
    ToDaysByEra(Date(30 * k + 1, 1, 1), k, 0);
    hide ToDays;
  }
}
