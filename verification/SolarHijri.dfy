/** The Solar Hijri calendar of solar_hijri.h: eras of 2820 years, each of 22 periods of 128
    years followed by 4 more years; a period is a cycle of 29 years and three of 33. */
module SolarHijri {
  import opened CArithmetic
  import opened Calendar
  import Gregorian

  const EPOCH := 2121446
  const DAYS_IN_ERA := 1029983
  const YEARS_IN_ERA := 2820
  const UNIX_TIME_SHIFT := 2440588
  const YEARS_IN_FIRST_CYCLE := 29
  const YEARS_IN_OTHER_CYCLES := 33
  const YEARS_IN_PERIOD := 128
  const DAYS_IN_FIRST_CYCLE := 10592
  const DAYS_IN_OTHER_CYCLES := 12053
  const DAYS_IN_PERIOD := 46751

  predicate IsLeap(year: int) {
    var y := year - 475;
    var era := AdjustedDiv(y, YEARS_IN_ERA);
    var yoe := y - era * YEARS_IN_ERA;
    var yoc :=
      if yoe < 22 * 128 then if yoe % 128 < 29 then yoe % 128 else (yoe % 128 - 29) % 33
      else yoe - 22 * 128 + 33;
    yoc != 0 && yoc % 4 == 0
  }

  const MONTH_DAYS := [31, 31, 31, 31, 31, 31, 30, 30, 30, 30, 30, 29]

  /** `year_month_day_last::day`; the table has no entry for a month outside 1 to 12. */
  function LastDay(y: int, m: int): int {
    if !(1 <= m <= 12) then 0
    else if m != 12 || !IsLeap(y) then MONTH_DAYS[m - 1] else 30
  }

  /** The days before year `yoe` of an era, as `to_days` adds them up. */
  function YearStart(yoe: int): int {
    var period := yoe / YEARS_IN_PERIOD;
    var yop := yoe % YEARS_IN_PERIOD;
    var fdop := period * DAYS_IN_PERIOD;
    var cycle := if yop < 29 then 0 else (yop - 29) / YEARS_IN_OTHER_CYCLES + 1;
    var yoc := if yop < 29 then yop else (yop - 29) % YEARS_IN_OTHER_CYCLES;
    var fdoc := if cycle > 0 then DAYS_IN_FIRST_CYCLE + (cycle - 1) * DAYS_IN_OTHER_CYCLES else 0;
    var group := if yoc < 1 then 0 else (yoc - 1) / 4;
    var yog := if yoc < 1 then -1 else (yoc - 1) % 4;
    var fdoyog := group * 1461 + (yog + 1) * 365;
    fdop + fdoc + fdoyog
  }

  function ToDays(date: Date): int {
    var y := date.year - 475;
    var m, d := date.month, date.day;
    var era := AdjustedDiv(y, YEARS_IN_ERA);
    var fdoe := EPOCH + era * DAYS_IN_ERA;
    var yoe := y - era * YEARS_IN_ERA;
    var doy := 30 * (m - 1) + (if m > 6 then 6 else m - 1) + d - 1;
    fdoe + YearStart(yoe) + doy - UNIX_TIME_SHIFT
  }

  /** `from_days` step by step: the period of a day of the era, and the day of the period, ... */
  function SplitPeriod(doe: int): (int, int) {
    (if doe < 22 * DAYS_IN_PERIOD then doe / DAYS_IN_PERIOD else 22, doe % DAYS_IN_PERIOD)
  }

  /** ... its cycle and the day of the cycle, ... */
  function SplitCycle(dop: int): (int, int) {
    (if dop < DAYS_IN_FIRST_CYCLE then 0 else (dop - DAYS_IN_FIRST_CYCLE) / DAYS_IN_OTHER_CYCLES + 1,
     if dop < DAYS_IN_FIRST_CYCLE then dop else (dop - DAYS_IN_FIRST_CYCLE) % DAYS_IN_OTHER_CYCLES)
  }

  /** ... its four-year group, or -1 for the first year of a cycle, and the year of the group. */
  function SplitGroup(period: int, doc: int): (int, int) {
    (if doc < 365 && period != 22 then -1 else ((if doc < 365 then 365 else doc) - 365) / 1461,
     if doc < 365 && period != 22 then -1
     else (if period != 22 then (doc - 365) % 1461 else doc) / 365)
  }

  /** The year of its era and the day of its year that `from_days` finds for day `doe` of an era. */
  function SplitEra(doe: int): (int, int) {
    var (period, dop) := SplitPeriod(doe);
    var (cycle, doc) := SplitCycle(dop);
    var (group, yog) := SplitGroup(period, doc);
    var yoc :=
      if group == -1 then 0
      else (if period != 22 then 1 else 0) + group * 4 + (if yog == 4 then 3 else yog);
    var fdoc := if cycle > 0 then DAYS_IN_FIRST_CYCLE + (cycle - 1) * DAYS_IN_OTHER_CYCLES else 0;
    var fdoyog := group * 1461 + ((if yog == 4 then 3 else yog) + 1) * 365;
    var doy :=
      if group == -1 then doc
      else if period != 22 then
        if TruncMod(yoc - 1, 4) == 0 then
          if group >= 0 then doe - period * DAYS_IN_PERIOD - fdoc - fdoyog else 365
        else doe - period * DAYS_IN_PERIOD - fdoc - fdoyog
      else if yog == 4 then 365 else doe - period * DAYS_IN_PERIOD - yog * 365;
    var yoe :=
      if period != 22 then
        period * YEARS_IN_PERIOD +
        (if cycle > 0 then YEARS_IN_FIRST_CYCLE + (cycle - 1) * YEARS_IN_OTHER_CYCLES else 0) + yoc
      else 22 * YEARS_IN_PERIOD + if yog == 4 then 3 else yog;
    (yoe, doy)
  }

  /** Month and day of a day of the year. */
  function MonthDay(doy: int): (int, int) {
    var m := if doy < 186 then doy / 31 + 1 else (doy - 186) / 30 + 7;
    (m, doy - (30 * (m - 1) + (if m > 6 then 6 else m - 1) - 1))
  }

  function FromDays(days: int): Date {
    var z := days + UNIX_TIME_SHIFT;
    var delta := z - EPOCH;
    var era := AdjustedDiv(delta, DAYS_IN_ERA);
    var fdoe := EPOCH + era * DAYS_IN_ERA;
    var (yoe, doy) := SplitEra(z - fdoe);
    var y := yoe + 475 + era * YEARS_IN_ERA;
    var (m, d) := MonthDay(doy);
    Date(y, m, d)
  }

  const SOLAR_HIJRI := System(LastDay, ToDays, FromDays)

  /** Days before year `yoc` of a cycle, and days before cycle `k` of a period. */
  function CycleYearStart(yoc: int): int {
    365 * yoc + if yoc < 1 then 0 else (yoc - 1) / 4
  }

  function CycleStart(k: int): int {
    if k > 0 then DAYS_IN_FIRST_CYCLE + (k - 1) * DAYS_IN_OTHER_CYCLES else 0
  }

  /** A place in an era: cycle `k` of period `p`, and year `yoc` of that cycle. The four years
      after the last period make up the start of a cycle of their own. */
  predicate Position(p: int, k: int, yoc: int) {
    && 0 <= p <= 22 && 0 <= k <= 3
    && 0 <= yoc < (if k == 0 then 29 else 33)
    && (p == 22 ==> k == 0 && yoc < 4)
  }

  function YearAt(p: int, k: int, yoc: int): int {
    128 * p + (if k == 0 then 0 else 29 + 33 * (k - 1)) + yoc
  }

  /** Leap years of a cycle are its years 4, 8 and so on; the last year of an era is one too. */
  predicate LeapAt(p: int, k: int, yoc: int) {
    if p == 22 then yoc == 3 else yoc != 0 && yoc % 4 == 0
  }

  lemma PositionOf(year: int) returns (era: int, p: int, k: int, yoc: int)
    ensures Position(p, k, yoc) && year == 475 + YEARS_IN_ERA * era + YearAt(p, k, yoc)
  {
    era := (year - 475) / 2820;
    var yoe := (year - 475) % 2820;
    p := yoe / 128;
    var yop := yoe - 128 * p;
    k := if yop < 29 then 0 else (yop - 29) / 33 + 1;
    yoc := if yop < 29 then yop else (yop - 29) - 33 * (k - 1);
  }

  /** The day of its era on which the year at a place starts. */
  function EraDay(p: int, k: int, yoc: int): int {
    46751 * p + CycleStart(k) + CycleYearStart(yoc)
  }

  lemma YearStartAt(p: int, k: int, yoc: int)
    requires Position(p, k, yoc)
    ensures YearStart(YearAt(p, k, yoc)) == EraDay(p, k, yoc)
  {
    var yoe := YearAt(p, k, yoc);
    FloorUnique(yoe, 128, p);
    assert yoe % 128 == yoe - 128 * p;
    if k > 0 {
      FloorUnique(yoe % 128 - 29, 33, k - 1);
    }
  }

  lemma IsLeapAt(era: int, p: int, k: int, yoc: int)
    requires Position(p, k, yoc)
    ensures IsLeap(475 + YEARS_IN_ERA * era + YearAt(p, k, yoc)) <==> LeapAt(p, k, yoc)
  {
    hide AdjustedDiv;
    var yoe := YearAt(p, k, yoc);
    AdjustedDivUnique(2820 * era + yoe, 2820, era);
    FloorUnique(yoe, 128, p);
    assert yoe % 128 == yoe - 128 * p;
    if k > 0 {
      FloorUnique(yoe % 128 - 29, 33, k - 1);
    }
  }

  /** The place of the following year; after the last year of an era, the start of one. */
  function NextPosition(p: int, k: int, yoc: int): (int, int, int) {
    if yoc + 1 < (if p == 22 then 4 else if k == 0 then 29 else 33) then (p, k, yoc + 1)
    else if p == 22 then (0, 0, 0)
    else if k < 3 then (p, k + 1, 0)
    else (p + 1, 0, 0)
  }

  /** Each year ends where the next begins, after 365 days or, in a leap year, 366. */
  lemma YearLength(p: int, k: int, yoc: int)
    requires Position(p, k, yoc)
    ensures var (p', k', yoc') := NextPosition(p, k, yoc);
            var era := if p == 22 && yoc == 3 then 1 else 0;
            && Position(p', k', yoc')
            && YearAt(p, k, yoc) + 1 == YEARS_IN_ERA * era + YearAt(p', k', yoc')
            && EraDay(p, k, yoc) + (if LeapAt(p, k, yoc) then 366 else 365) ==
               DAYS_IN_ERA * era + EraDay(p', k', yoc')
  {
    var (p', k', yoc') := NextPosition(p, k, yoc);
    if yoc' != 0 {
      assert CycleYearStart(yoc') == CycleYearStart(yoc) + if LeapAt(0, k, yoc) then 366 else 365;
    } else if p != 22 {
      assert CycleYearStart(yoc) == if k == 0 then 10226 else 11687;
    }
  }

  /** Every day of an era is some day of the year at some place in it. */
  lemma PositionOfDay(doe: int) returns (p: int, k: int, yoc: int, doy: int)
    requires 0 <= doe < DAYS_IN_ERA
    ensures Position(p, k, yoc)
    ensures 0 <= doy < if LeapAt(p, k, yoc) then 366 else 365
    ensures doe == EraDay(p, k, yoc) + doy
  {
    p := if doe < 22 * 46751 then doe / 46751 else 22;
    var dop := doe - 46751 * p;
    k := if dop < 10592 then 0 else (dop - 10592) / 12053 + 1;
    var doc := dop - CycleStart(k);
    if p == 22 {
      yoc := if doc == 1460 then 3 else doc / 365;
    } else if doc < 365 {
      yoc := 0;
    } else {
      var group := (doc - 365) / 1461;
      var rest := doc - 365 - 1461 * group;
      yoc := 1 + 4 * group + if rest == 1460 then 3 else rest / 365;
    }
    doy := doc - CycleYearStart(yoc);
  }

  lemma SplitPeriodAt(p: int, dop: int)
    requires 0 <= p <= 22 && 0 <= dop < if p == 22 then 1461 else 46751
    ensures SplitPeriod(46751 * p + dop) == (p, dop)
  {
  }

  lemma SplitCycleAt(k: int, doc: int)
    requires 0 <= k <= 3 && 0 <= doc < if k == 0 then 10592 else 12053
    ensures SplitCycle(CycleStart(k) + doc) == (k, doc)
  {
  }

  /** The last year of a group has a day 365, which the division by 365 puts in a year 4. */
  lemma SplitGroupAt(p: int, group: int, yog: int, doy: int)
    requires p != 22 && 0 <= group && 0 <= yog <= 3 && 0 <= doy < if yog == 3 then 366 else 365
    ensures SplitGroup(p, 365 + 1461 * group + 365 * yog + doy) == (group, if doy == 365 then 4 else yog)
  {
  }

  /** The nested divisions of `from_days` undo the sum that `to_days` forms: in the years
      after the last period, ... */
  lemma SplitLastYears(yoc: int, doy: int)
    requires Position(22, 0, yoc) && 0 <= doy < if yoc == 3 then 366 else 365
    ensures SplitEra(EraDay(22, 0, yoc) + doy) == (YearAt(22, 0, yoc), doy)
  {
    var doc := 365 * yoc + doy;
    SplitPeriodAt(22, doc);
    SplitCycleAt(0, doc);
    FloorUnique(doc, 365, if doy == 365 then 4 else yoc);
  }

  /** ... in the first year of a cycle, ... */
  lemma SplitFirstYear(p: int, k: int, doy: int)
    requires Position(p, k, 0) && p < 22 && 0 <= doy < 365
    ensures SplitEra(EraDay(p, k, 0) + doy) == (YearAt(p, k, 0), doy)
  {
    SplitPeriodAt(p, CycleStart(k) + doy);
    SplitCycleAt(k, doy);
  }

  /** ... and in the later years of a cycle, taken in groups of four. */
  lemma SplitLaterYear(p: int, k: int, group: int, yog: int, doy: int)
    requires Position(p, k, 1 + 4 * group + yog) && p < 22 && 0 <= group && 0 <= yog <= 3
    requires 0 <= doy < if yog == 3 then 366 else 365
    ensures SplitEra(EraDay(p, k, 1 + 4 * group + yog) + doy) == (YearAt(p, k, 1 + 4 * group + yog), doy)
  {
    var doc := 365 + 1461 * group + 365 * yog + doy;
    assert CycleYearStart(1 + 4 * group + yog) + doy == doc;
    SplitPeriodAt(p, CycleStart(k) + doc);
    SplitCycleAt(k, doc);
    SplitGroupAt(p, group, yog, doy);
  }

  lemma SplitAt(p: int, k: int, yoc: int, doy: int)
    requires Position(p, k, yoc)
    requires 0 <= doy < if LeapAt(p, k, yoc) then 366 else 365
    ensures SplitEra(EraDay(p, k, yoc) + doy) == (YearAt(p, k, yoc), doy)
  {
    if p == 22 {
      SplitLastYears(yoc, doy);
    } else if yoc == 0 {
      SplitFirstYear(p, k, doy);
    } else {
      SplitLaterYear(p, k, (yoc - 1) / 4, (yoc - 1) % 4, doy);
    }
  }

  lemma ToDaysAt(date: Date, era: int, p: int, k: int, yoc: int)
    requires Position(p, k, yoc) && date.year == 475 + YEARS_IN_ERA * era + YearAt(p, k, yoc)
    ensures ToDays(date) == EPOCH - UNIX_TIME_SHIFT + DAYS_IN_ERA * era + EraDay(p, k, yoc) +
              30 * (date.month - 1) + (if date.month > 6 then 6 else date.month - 1) + date.day - 1
  {
    hide AdjustedDiv, YearStart, EraDay;
    var y, yoe := date.year - 475, YearAt(p, k, yoc);
    assert 0 <= yoe < YEARS_IN_ERA;
    YearStartAt(p, k, yoc);
    hide YearAt;
    AdjustedDivUnique(y, YEARS_IN_ERA, era);
    assert y - era * YEARS_IN_ERA == yoe;
  }

  lemma NextYearStart(date: Date, next: Date)
    requires date.month == 12 && date.day == LastDay(date.year, 12) && next == Date(date.year + 1, 1, 1)
    ensures ToDays(next) == ToDays(date) + 1
  {
    hide ToDays, IsLeap, YearAt, EraDay, LeapAt, NextPosition;
    var era, p, k, yoc := PositionOf(date.year);
    YearLength(p, k, yoc);
    IsLeapAt(era, p, k, yoc);
    var (p', k', yoc') := NextPosition(p, k, yoc);
    ToDaysAt(date, era, p, k, yoc);
    ToDaysAt(next, if p == 22 && yoc == 3 then era + 1 else era, p', k', yoc');
  }

  lemma NextDay(d: Date)
    requires Ok(SOLAR_HIJRI, d)
    ensures ToDays(Next(SOLAR_HIJRI, d)) == ToDays(d) + 1
  {
    hide ToDays, IsLeap, YearAt, EraDay;
    var n := Next(SOLAR_HIJRI, d);
    if n.year == d.year {
      var era, p, k, yoc := PositionOf(d.year);
      ToDaysAt(d, era, p, k, yoc);
      ToDaysAt(n, era, p, k, yoc);
    } else {
      NextYearStart(d, n);
    }
  }

  lemma MonthOfDay(y: int, doy: int)
    requires 0 <= doy < if IsLeap(y) then 366 else 365
    ensures var (m, d) := MonthDay(doy);
            1 <= m <= 12 && 1 <= d <= LastDay(y, m) &&
            doy == 30 * (m - 1) + (if m > 6 then 6 else m - 1) + d - 1
  {
  }

  lemma FromDaysAt(days: int, era: int, doe: int)
    requires days == EPOCH - UNIX_TIME_SHIFT + DAYS_IN_ERA * era + doe && 0 <= doe < DAYS_IN_ERA
    ensures var (yoe, doy) := SplitEra(doe);
            var (m, d) := MonthDay(doy);
            FromDays(days) == Date(475 + YEARS_IN_ERA * era + yoe, m, d)
  {
    hide SplitEra, MonthDay, AdjustedDiv;
    AdjustedDivUnique(days + UNIX_TIME_SHIFT - EPOCH, DAYS_IN_ERA, era);
    assert days + UNIX_TIME_SHIFT - (EPOCH + era * DAYS_IN_ERA) == doe;
  }

  lemma EraOfDay(days: int) returns (era: int, doe: int)
    ensures days == EPOCH - UNIX_TIME_SHIFT + DAYS_IN_ERA * era + doe && 0 <= doe < DAYS_IN_ERA
  {
    var delta := days + UNIX_TIME_SHIFT - EPOCH;
    era, doe := delta / DAYS_IN_ERA, delta % DAYS_IN_ERA;
  }

  lemma FromDaysInverts(z: int)
    ensures Ok(SOLAR_HIJRI, FromDays(z)) && ToDays(FromDays(z)) == z
  {
    hide FromDays, SplitEra, ToDays, YearAt, EraDay, LeapAt, IsLeap;
    var era, doe := EraOfDay(z);
    var p, k, yoc, doy := PositionOfDay(doe);
    SplitAt(p, k, yoc, doy);
    FromDaysAt(z, era, doe);
    ToDaysAt(FromDays(z), era, p, k, yoc);
    IsLeapAt(era, p, k, yoc);
    MonthOfDay(FromDays(z).year, doy);
  }

  lemma CountsDays()
    ensures Calendar.CountsDays(SOLAR_HIJRI)
  {
    forall d: Date | Ok(SOLAR_HIJRI, d)
      ensures ToDays(Next(SOLAR_HIJRI, d)) == ToDays(d) + 1
    {
      NextDay(d);
    }
  }

  lemma Inverts()
    ensures Calendar.Inverts(SOLAR_HIJRI)
  {
    forall z: int ensures Ok(SOLAR_HIJRI, FromDays(z)) && ToDays(FromDays(z)) == z {
      FromDaysInverts(z);
    }
  }

  lemma DayLinear()
    ensures Calendar.DayLinear(SOLAR_HIJRI)
  {
    forall d: Date | 1 <= d.month <= 12
      ensures ToDays(d) == ToDays(Date(d.year, d.month, 1)) + d.day - 1
    {
      var era, p, k, yoc := PositionOf(d.year);
      ToDaysAt(d, era, p, k, yoc);
      ToDaysAt(Date(d.year, d.month, 1), era, p, k, yoc);
    }
  }

  lemma IsFaithful()
    ensures Faithful(SOLAR_HIJRI)
  {
    CountsDays();
    Inverts();
    DayLinear();
  }

  /** The conversions are inverse to each other, keep the order of dates, agree with walking the
      calendar day by day, and survive the 16-bit year exactly on the days of 16-bit years. */
  lemma Conversions(a: Date, b: Date, n: nat, z: int)
    requires Ok(SOLAR_HIJRI, a) && Ok(SOLAR_HIJRI, b)
    ensures Ok(SOLAR_HIJRI, FromDays(z)) && ToDays(FromDays(z)) == z
    ensures FromDays(ToDays(a)) == a
    ensures Less(a, b) <==> ToDays(a) < ToDays(b)
    ensures FromDays(ToDays(a) + n) == Advance(SOLAR_HIJRI, a, n)
    ensures ToDays(Stored(FromDays(z))) == z <==>
            ToDays(Date(-0x8000, 1, 1)) <= z < ToDays(Date(0x8000, 1, 1))
  {
    hide ToDays, FromDays, LastDay;
    IsFaithful();
    Bijection(SOLAR_HIJRI, a, z);
    OrderIsomorphism(SOLAR_HIJRI, a, b);
    ClosedFormWalks(SOLAR_HIJRI, a, n);
    StoredRoundTrip(SOLAR_HIJRI, z);
  }

  // ----- Against the Gregorian calendar -----

  /** Year 475, from which the eras are counted, began on 21 March 1096, and each era has 1029983 days. */
  lemma Eras(k: int)
    ensures ToDays(Date(475 + 2820 * k, 1, 1)) == Gregorian.ToDays(Date(1096, 3, 21)) + 1029983 * k
  {
    FirstDay();
    FirstOfEra(k);
    hide *;
  }

  lemma FirstOfEra(k: int)
    ensures ToDays(Date(475 + 2820 * k, 1, 1)) == -319142 + 1029983 * k
  {
    hide ToDays, IsLeap, EraDay;
    var date := Date(475 + 2820 * k, 1, 1);
    var era, p, q, yoc := PositionOf(date.year);
    assert YearAt(p, q, yoc) == 0 && p == 0 && q == 0 && yoc == 0;
    ToDaysAt(date, era, p, q, yoc);
    YearStartAt(p, q, yoc);
  }

  lemma FirstDay()
    ensures Gregorian.ToDays(Date(1096, 3, 21)) == -319142
  {
    hide Gregorian.ToDays;
    Gregorian.ToDaysByMarchYear(Date(1096, 3, 21));
  }

  /** The years of an era keep to their mean length within a day and a few minutes. */
  lemma MeanYear(p: int, k: int, yoc: int)
    requires Position(p, k, yoc)
    ensures var yoe := YearAt(p, k, yoc);
            0 <= yoe < 2820 && 1029983 * yoe - 2883 <= 2820 * EraDay(p, k, yoc) <= 1029983 * yoe
  {
  }

  lemma MeanMarchYear(y: int)
    ensures 146097 * y - 700 <= 400 * Gregorian.MarchYearStart(y) <= 146097 * y + 700
  {
  }

  /** Every year that a `short` holds begins within twelve days of 21 March. */
  lemma StartsInSpring(y: int)
    requires -0x8000 <= y <= 0x8000
    ensures Gregorian.ToDays(Date(y + 621, 3, 21)) - 12 <= ToDays(Date(y, 1, 1))
            <= Gregorian.ToDays(Date(y + 621, 3, 21)) + 12
  {
    hide ToDays, Gregorian.ToDays, Gregorian.MarchYearStart, EraDay, YearAt;
    var era, p, k, yoc := PositionOf(y);
    ToDaysAt(Date(y, 1, 1), era, p, k, yoc);
    MeanYear(p, k, yoc);
    Gregorian.ToDaysByMarchYear(Date(y + 621, 3, 21));
    MeanMarchYear(y + 621);
  }

  /** A day of the Solar Hijri year `y` is a day of the Gregorian year `y + 621` or `y + 622`. */
  lemma GregorianYear(d: Date)
    requires Ok(SOLAR_HIJRI, d) && InShort(d.year)
    ensures d.year + 621 <= Gregorian.FromDays(ToDays(d)).year <= d.year + 622
  {
    hide ToDays, Gregorian.ToDays, FromDays, Gregorian.FromDays;
    var z, y := ToDays(d), d.year;
    CountsDays();
    OrderIsomorphism(SOLAR_HIJRI, d, Date(y, 1, 1));
    OrderIsomorphism(SOLAR_HIJRI, d, Date(y + 1, 1, 1));
    StartsInSpring(y);
    StartsInSpring(y + 1);
    SpringInYear(y + 621);
    SpringInYear(y + 622);
    Gregorian.YearOfDay(z, y + 621);
    Gregorian.YearOfDay(z, y + 622);
    Gregorian.YearOfDay(z, y + 623);
  }

  lemma SpringInYear(y: int)
    ensures Gregorian.YearStart(y) + 12 < Gregorian.ToDays(Date(y, 3, 21))
    ensures Gregorian.ToDays(Date(y, 3, 21)) + 12 < Gregorian.YearStart(y + 1)
  {
    hide Gregorian.ToDays, Gregorian.MarchYearStart, Gregorian.IsLeap;
    Gregorian.ToDaysByMarchYear(Date(y, 1, 1));
    Gregorian.ToDaysByMarchYear(Date(y + 1, 1, 1));
    Gregorian.ToDaysByMarchYear(Date(y, 3, 21));
    Gregorian.MarchYearLength(y - 1);
    Gregorian.MarchYearLength(y);
  }
}
