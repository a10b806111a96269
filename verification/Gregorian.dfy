/** The proleptic Gregorian calendar of date.h, as in section 3.2.1 of ISO 8601:2004. */
module Gregorian {
  import opened CArithmetic
  import opened Calendar

  predicate IsLeap(y: int) {
    TruncMod(y, 4) == 0 && (TruncMod(y, 100) != 0 || TruncMod(y, 400) == 0)
  }

  const MONTH_DAYS := [31, 28, 31, 30, 31, 30, 31, 31, 30, 31, 30, 31]

  /** `year_month_day_last::day`. */
  function LastDay(y: int, m: int): int {
    if (m != 2 || !IsLeap(y)) && 1 <= m <= 12 then MONTH_DAYS[m - 1] else 29
  }

  function ToDays(date: Date): int {
    var y := date.year - if date.month <= 2 then 1 else 0;
    var m, d := date.month, date.day;
    var era := AdjustedDiv(y, 400);
    var yoe := y - era * 400;
    var doy := (153 * (if m > 2 then m - 3 else m + 9) + 2) / 5 + d - 1;
    var doe := yoe * 365 + yoe / 4 - yoe / 100 + doy;
    era * 146097 + doe - 719468
  }

  /** The intermediate values of `year_month_day::from_days`. */
  datatype Split = Split(era: int, doe: int, yoe: int, doy: int, mp: int)

  function YearOfEra(doe: int): int {
    (doe - doe / 1460 + doe / 36524 - doe / 146096) / 365
  }

  function SplitDays(days: int): Split {
    var z := days + 719468;
    var era := AdjustedDiv(z, 146097);
    var doe := z - era * 146097;
    var yoe := YearOfEra(doe);
    var doy := doe - (365 * yoe + yoe / 4 - yoe / 100);
    var mp := (5 * doy + 2) / 153;
    Split(era, doe, yoe, doy, mp)
  }

  function FromDays(days: int): Date {
    var s := SplitDays(days);
    var y := s.yoe + s.era * 400;
    var d := s.doy - (153 * s.mp + 2) / 5 + 1;
    var m := if s.mp < 10 then s.mp + 3 else s.mp - 9;
    Date(y + if m <= 2 then 1 else 0, m, d)
  }

  const GREGORIAN := System(LastDay, ToDays, FromDays)

  /** Days before the start of March-based year `y`, counted in whole cycles. */
  function MarchYearStart(y: int): int {
    365 * y + y / 4 - y / 100 + y / 400
  }

  lemma LeapRule(y: int)
    ensures IsLeap(y) <==> y % 4 == 0 && (y % 100 != 0 || y % 400 == 0)
  {
    hide TruncMod;
    TruncModZero(y, 4);
    TruncModZero(y, 100);
    TruncModZero(y, 400);
  }

  lemma Divisible(y: int)
    ensures y % 100 == 0 ==> y % 4 == 0
    ensures y % 400 == 0 ==> y % 100 == 0
  {
  }

  lemma MarchYearOfEra(era: int, yoe: int)
    requires 0 <= yoe <= 399
    ensures MarchYearStart(400 * era + yoe) == 146097 * era + 365 * yoe + yoe / 4 - yoe / 100
  {
    var y := 400 * era + yoe;
    FloorUnique(y, 4, 100 * era + yoe / 4);
    FloorUnique(y, 100, 4 * era + yoe / 100);
    FloorUnique(y, 400, era);
  }

  lemma ToDaysByMarchYear(date: Date)
    ensures var y := date.year - if date.month <= 2 then 1 else 0;
            ToDays(date) == MarchYearStart(y) + MonthStart(date.month) + date.day - 719469
  {
    hide MarchYearStart;
    var y := date.year - if date.month <= 2 then 1 else 0;
    AdjustedDivIsFloor(y, 400);
    MarchYearOfEra(y / 400, y - 400 * (y / 400));
  }

  lemma MarchYearLength(y: int)
    ensures MarchYearStart(y + 1) - MarchYearStart(y) == if IsLeap(y + 1) then 366 else 365
  {
    hide IsLeap;
    LeapRule(y + 1);
    Divisible(y + 1);
    DivStep(y, 4);
    DivStep(y, 100);
    DivStep(y, 400);
  }

  /** Day of the March-based year on which month `m` starts, less one. */
  function MonthStart(m: int): int {
    (153 * (if m > 2 then m - 3 else m + 9) + 2) / 5
  }

  lemma MonthLengths(y: int, m: int)
    requires 1 <= m <= 12
    ensures m != 2 ==> LastDay(y, m) == MonthStart(if m < 12 then m + 1 else 1) - MonthStart(m)
    ensures m == 2 ==> LastDay(y, m) == (if IsLeap(y) then 366 else 365) - MonthStart(m)
  {
  }

  lemma NextDay(d: Date)
    requires Ok(GREGORIAN, d)
    ensures ToDays(Next(GREGORIAN, d)) == ToDays(d) + 1
  {
    hide ToDays, MarchYearStart, IsLeap;
    ToDaysByMarchYear(d);
    ToDaysByMarchYear(Next(GREGORIAN, d));
    MonthLengths(d.year, d.month);
    if d.month == 2 {
      MarchYearLength(d.year - 1);
    }
  }

  lemma CountsDays()
    ensures Calendar.CountsDays(GREGORIAN)
  {
    forall d: Date | Ok(GREGORIAN, d)
      ensures ToDays(Next(GREGORIAN, d)) == ToDays(d) + 1
    {
      NextDay(d);
    }
  }

  lemma YearParts(c: int, q: int, r: int)
    requires 0 <= c <= 3 && 0 <= q <= 24 && 0 <= r <= 3
    ensures var k := 100 * c + 4 * q + r; k / 4 == 25 * c + q && k / 100 == c
  {
  }

  /** The day of an era that is day `d` of year `r` of four-year group `q` of century `c`. */
  lemma YearOfEraAt(c: int, q: int, r: int, d: int)
    requires 0 <= c <= 3 && 0 <= q <= 24 && 0 <= r <= 3 && 0 <= d <= 365
    requires d == 365 ==> r == 3 && (q != 24 || c == 3)
    ensures var doe := 36524 * c + 1461 * q + 365 * r + d;
            var k := 100 * c + 4 * q + r;
            k == YearOfEra(doe) && 365 * k + k / 4 - k / 100 == doe - d
  {
    var doe := 36524 * c + 1461 * q + 365 * r + d;
    var k := 100 * c + 4 * q + r;
    YearParts(c, q, r);
    var e := EraQuotients(c, q, r, d);
    FloorUnique(doe - (25 * c + q + e) + c, 365, k);
  }

  /** The corrections of the year formula; `e` tells whether the four years have seen their 1460 days. */
  lemma EraQuotients(c: int, q: int, r: int, d: int) returns (e: int)
    requires 0 <= c <= 3 && 0 <= q <= 24 && 0 <= r <= 3 && 0 <= d <= 365
    requires d == 365 ==> r == 3 && (q != 24 || c == 3)
    ensures e == if 24 * c + q + 365 * r + d >= 1460 then 1 else 0
    ensures var doe := 36524 * c + 1461 * q + 365 * r + d;
            doe / 1460 == 25 * c + q + e && doe / 36524 - doe / 146096 == c
  {
    var doe := 36524 * c + 1461 * q + 365 * r + d;
    e := if 24 * c + q + 365 * r + d >= 1460 then 1 else 0;
    var last := if doe == 146096 then 1 else 0;
    FloorUnique(doe, 1460, 25 * c + q + e);
    FloorUnique(doe, 36524, c + last);
    FloorUnique(doe, 146096, last);
  }

  /** Every day of an era is reached by `YearOfEraAt`. */
  lemma EraPosition(doe: int) returns (c: int, q: int, r: int, d: int)
    requires 0 <= doe <= 146096
    ensures 0 <= c <= 3 && 0 <= q <= 24 && 0 <= r <= 3 && 0 <= d <= 365
    ensures d == 365 ==> r == 3 && (q != 24 || c == 3)
    ensures doe == 36524 * c + 1461 * q + 365 * r + d
  {
    c := if doe == 146096 then 3 else doe / 36524;
    q := (doe - 36524 * c) / 1461;
    var rest := doe - 36524 * c - 1461 * q;
    r := if rest == 1460 then 3 else rest / 365;
    d := rest - 365 * r;
  }

  lemma MonthOfDay(doy: int)
    requires 0 <= doy <= 365
    ensures var mp := (5 * doy + 2) / 153;
            var m := if mp < 10 then mp + 3 else mp - 9;
            var d := doy - (153 * mp + 2) / 5 + 1;
            0 <= mp <= 11 && 1 <= m <= 12 && 1 <= d <= 31 &&
            MonthStart(m) == (153 * mp + 2) / 5 &&
            (m != 2 ==> d <= MonthStart(if m < 12 then m + 1 else 1) - MonthStart(m))
  {
  }

  /** The formula for the year of an era is right on every day of it; a year has a day 365
      only before a year divisible by four, and by 400 when it ends a century. */
  lemma YearOfEraRange(doe: int)
    requires 0 <= doe <= 146096
    ensures var yoe := YearOfEra(doe);
            var doy := doe - (365 * yoe + yoe / 4 - yoe / 100);
            0 <= yoe <= 399 && 0 <= doy <= 365 &&
            (doy == 365 ==> (yoe + 1) % 4 == 0 && ((yoe + 1) % 100 != 0 || yoe == 399))
  {
    hide YearOfEra;
    var c, q, r, d := EraPosition(doe);
    YearOfEraAt(c, q, r, d);
    if d == 365 {
      FloorUnique(YearOfEra(doe) + 1, 4, 25 * c + q + 1);
      FloorUnique(YearOfEra(doe) + 1, 100, if q == 24 then 4 else c);
    }
  }

  lemma LongYearIsLeap(era: int, yoe: int)
    requires 0 <= yoe <= 399 && (yoe + 1) % 4 == 0 && ((yoe + 1) % 100 != 0 || yoe == 399)
    ensures IsLeap(yoe + 400 * era + 1)
  {
    hide IsLeap;
    LeapRule(yoe + 400 * era + 1);
    FloorUnique(yoe + 400 * era + 1, 4, 100 * era + (yoe + 1) / 4);
    FloorUnique(yoe + 400 * era + 1, 100, 4 * era + (yoe + 1) / 100);
    FloorUnique(yoe + 400 * era + 1, 400, if yoe == 399 then era + 1 else era);
  }

  /** The ranges the comments of `from_days` give for its intermediate values, for every
      day count, and the fact that makes them fit: day 365 is met only in a leap year. */
  lemma SplitRanges(days: int)
    ensures var s := SplitDays(days);
            && 0 <= s.doe <= 146096 && 0 <= s.yoe <= 399 && 0 <= s.doy <= 365 && 0 <= s.mp <= 11
            && s.mp == (5 * s.doy + 2) / 153
            && days == MarchYearStart(s.yoe + 400 * s.era) + s.doy - 719468
            && (s.doy == 365 ==> IsLeap(s.yoe + 400 * s.era + 1))
    ensures 1 <= FromDays(days).month <= 12 && 1 <= FromDays(days).day <= 31
  {
    hide AdjustedDiv, MarchYearStart, IsLeap, MonthStart, YearOfEra;
    var s := SplitDays(days);
    AdjustedDivIsFloor(days + 719468, 146097);
    YearOfEraRange(s.doe);
    MonthOfDay(s.doy);
    MarchYearOfEra(s.era, s.yoe);
    if s.doy == 365 {
      LongYearIsLeap(s.era, s.yoe);
    }
  }

  lemma FromDaysInverts(z: int)
    ensures Ok(GREGORIAN, FromDays(z)) && ToDays(FromDays(z)) == z
  {
    hide SplitDays, ToDays, IsLeap, MarchYearStart;
    SplitRanges(z);
    var s, d := SplitDays(z), FromDays(z);
    MonthOfDay(s.doy);
    ToDaysByMarchYear(d);
    MonthLengths(d.year, d.month);
  }

  lemma IsFaithful()
    ensures Faithful(GREGORIAN)
  {
    hide LastDay, FromDays;
    CountsDays();
    forall z: int ensures Ok(GREGORIAN, FromDays(z)) && ToDays(FromDays(z)) == z {
      FromDaysInverts(z);
    }
  }

  /** The conversions are inverse to each other, keep the order of dates, agree with walking the
      calendar day by day, and survive the 16-bit year exactly on the days of 16-bit years. */
  lemma Conversions(a: Date, b: Date, n: nat, z: int)
    requires Ok(GREGORIAN, a) && Ok(GREGORIAN, b)
    ensures Ok(GREGORIAN, FromDays(z)) && ToDays(FromDays(z)) == z
    ensures FromDays(ToDays(a)) == a
    ensures Less(a, b) <==> ToDays(a) < ToDays(b)
    ensures FromDays(ToDays(a) + n) == Advance(GREGORIAN, a, n)
    ensures ToDays(Stored(FromDays(z))) == z <==>
            ToDays(Date(-0x8000, 1, 1)) <= z < ToDays(Date(0x8000, 1, 1))
  {
    hide ToDays, FromDays, LastDay;
    IsFaithful();
    Bijection(GREGORIAN, a, z);
    OrderIsomorphism(GREGORIAN, a, b);
    ClosedFormWalks(GREGORIAN, a, n);
    StoredRoundTrip(GREGORIAN, z);
  }

  lemma ToDaysInverts(d: Date)
    requires Ok(GREGORIAN, d)
    ensures FromDays(ToDays(d)) == d
  {
    hide ToDays, FromDays, LastDay;
    IsFaithful();
    Bijection(GREGORIAN, d, 0);
  }

  /** First day of a year. */
  function YearStart(y: int): int {
    ToDays(Date(y, 1, 1))
  }

  lemma YearLength(y: int)
    ensures YearStart(y + 1) - YearStart(y) == if IsLeap(y) then 366 else 365
  {
    hide ToDays, MarchYearStart, IsLeap;
    ToDaysByMarchYear(Date(y, 1, 1));
    ToDaysByMarchYear(Date(y + 1, 1, 1));
    MarchYearLength(y - 1);
  }

  /** A date lies between the starts of its own year and of the next, and of no other. */
  lemma YearOfDate(d: Date, y: int)
    requires Ok(GREGORIAN, d)
    ensures d.year < y <==> ToDays(d) < YearStart(y)
  {
    hide ToDays, FromDays;
    IsFaithful();
    OrderIsomorphism(GREGORIAN, d, Date(y, 1, 1));
  }

  /** The year a day is converted to is the one between whose starts it lies. */
  lemma YearOfDay(z: int, y: int)
    ensures FromDays(z).year == y <==> YearStart(y) <= z < YearStart(y + 1)
    ensures FromDays(z).year < y <==> z < YearStart(y)
  {
    hide ToDays, FromDays;
    FromDaysInverts(z);
    YearOfDate(FromDays(z), y);
    YearOfDate(FromDays(z), y + 1);
  }

  /** `year::ok` refuses the year -32768; the other 16-bit years are those of `ok` dates. */
  predicate StoredOk(d: Date) {
    InShort(d.year) && d.year != -0x8000 && Ok(GREGORIAN, d)
  }

  lemma FirstAndLastYear()
    ensures YearStart(-0x7FFF) == -12687428 && YearStart(0x8000) == 11248738
  {
    hide ToDays;
    ToDaysByMarchYear(Date(-0x7FFF, 1, 1));
    ToDaysByMarchYear(Date(0x8000, 1, 1));
  }

  /** The day counts of the dates that the class itself calls `ok`. */
  lemma StoredOkDays(d: Date)
    requires Ok(GREGORIAN, d)
    ensures StoredOk(d) <==> -12687428 <= ToDays(d) <= 11248737
  {
    hide ToDays, FromDays, YearStart;
    FirstAndLastYear();
    YearOfDate(d, -0x7FFF);
    YearOfDate(d, 0x8000);
  }

  /** Day 0 is 1 January 1970, and each era of 400 years has 146097 days. */
  lemma Eras(k: int)
    ensures ToDays(Date(1970 + 400 * k, 1, 1)) == 146097 * k
  {
    hide ToDays;
    var y := 1969 + 400 * k;
    ToDaysByMarchYear(Date(y + 1, 1, 1));
    FloorUnique(y, 4, 492 + 100 * k);
    FloorUnique(y, 100, 19 + 4 * k);
    FloorUnique(y, 400, 4 + k);
  }
}
