/** The fields %G %V %U %W %j that date.h prints for a date, and the step at the end of
    `from_stream` that finds the date again from the fields that were read. */
module WeekFields {
  import opened CArithmetic
  import opened Calendar
  import opened Gregorian
  import opened Weekday
  import opened IsoWeek

  // ----- Printing: `to_stream`, for the date whose day count is `z` -----

  /** The year whose ISO weeks the date belongs to. */
  function FormatG(z: int): int {
    var y := S16(FromDays(z + 3).year);
    if z < Start(y) then S16(y - 1) else y
  }

  function FormatV(z: int): int {
    TruncDiv(z - Start(FormatG(z)), 7) + 1
  }

  /** `local_days(wd[1]/January/y)`. */
  function FirstInYear(wd: int, y: int): int {
    NthToDays(NthWeekday(y, 1, wd, 1))
  }

  /** %U counts weeks from the first Sunday of the year, %W from the first Monday. */
  function FormatWeek(first: int, z: int): int {
    var st := FirstInYear(first, FromDays(z).year);
    if z < st then 0 else TruncDiv(z - st, 7) + 1
  }

  function FormatJ(z: int): int {
    z - YearStart(FromDays(z).year) + 1
  }

  // ----- Resolving: the end of `from_stream` -----

  const NOT_A_YEAR := -0x8000_0000
  const NOT_A_MONTH := 0
  const NOT_A_DAY := 0
  const NOT_A_DOY := -1
  const NOT_A_WEEKDAY := 8
  const NOT_A_WEEK_NUM := 100

  /** The local variables of `from_stream` that describe the date. */
  datatype Fields = Fields(Y: int, m: int, d: int, j: int, wd: int, G: int, U: int, V: int, W: int)

  /** What is stored in the result, unless the stream is put in the failed state. */
  datatype Parsed = Broken | Parsed(ymd: Date, wd: int)

  datatype Attempt = Failed | Held(f: Fields) {
    predicate IsFailure() { Failed? }
    function PropagateFailure(): Parsed requires Failed? { Broken }
    function Extract(): Fields requires Held? { f }
  }

  function U8(a: int): int {
    a % 256
  }

  /** Year, month and day are each taken from the trial date, or must agree with it. */
  function Agree(f: Fields, trial: Date): Attempt {
    if f.Y != NOT_A_YEAR && S16(f.Y) != trial.year then Failed
    else AgreeInYear(f.(Y := if f.Y == NOT_A_YEAR then trial.year else f.Y), trial)
  }

  /** The day of the year is not held against the year it falls in. */
  function AgreeInYear(f: Fields, trial: Date): Attempt {
    if f.m != NOT_A_MONTH && U8(f.m) != trial.month then Failed
    else if f.d != NOT_A_DAY && U8(f.d) != trial.day then Failed
    else Held(f.(
      m := if f.m == NOT_A_MONTH then trial.month else f.m,
      d := if f.d == NOT_A_DAY then trial.day else f.d))
  }

  predicate HasIso(f: Fields) {
    f.G != NOT_A_YEAR && f.V != NOT_A_WEEK_NUM && f.wd != NOT_A_WEEKDAY
  }

  predicate HasSundayWeek(f: Fields) {
    f.Y != NOT_A_YEAR && f.U != NOT_A_WEEK_NUM && f.wd != NOT_A_WEEKDAY
  }

  predicate HasMondayWeek(f: Fields) {
    f.Y != NOT_A_YEAR && f.W != NOT_A_WEEK_NUM && f.wd != NOT_A_WEEKDAY
  }

  predicate HasDayOfYear(f: Fields) {
    f.j != NOT_A_DOY && f.Y != NOT_A_YEAR
  }

  function TrialIso(f: Fields): Date {
    Stored(FromDays(Start(f.G) + 7 * (f.V - 1) + Difference(f.wd, MONDAY)))
  }

  function TrialWeek(first: int, f: Fields, week: int): Date {
    Stored(FromDays(FirstInYear(first, S16(f.Y)) + 7 * (week - 1) + Difference(f.wd, first)))
  }

  function TrialDayOfYear(f: Fields): Date {
    Stored(FromDays(YearStart(S16(f.Y)) + f.j - 1))
  }

  function InYearRange(f: Fields): Fields {
    if f.Y < -32767 || f.Y > 32767 then f.(Y := NOT_A_YEAR) else f
  }

  /** The checks of the fields that were not used to compute the date. */
  predicate OthersAgree(f: Fields, ymd: Date) {
    var sd := ToDays(ymd);
    && (f.G != NOT_A_YEAR || f.V != NOT_A_WEEK_NUM ==>
          var g0 := S16(FromDays(sd + 3).year);
          var g := if sd < Start(g0) then S16(g0 - 1) else g0;
          && (f.G != NOT_A_YEAR ==> f.G == g)
          && (f.V != NOT_A_WEEK_NUM ==> f.V == TruncDiv(sd - Start(g), 7) + 1))
    && (f.U != NOT_A_WEEK_NUM ==> f.U == AdjustedDiv(sd - FirstInYear(SUNDAY, ymd.year), 7) + 1)
    && (f.W != NOT_A_WEEK_NUM ==> f.W == AdjustedDiv(sd - FirstInYear(MONDAY, ymd.year), 7) + 1)
  }

  function Finish(f: Fields, computed: bool): Parsed {
    var ymd := Date(S16(f.Y), U8(f.m), U8(f.d));
    if StoredOk(ymd) then
      var wd := Difference(WeekdayOf(ToDays(ymd)), SUNDAY);
      if f.wd != NOT_A_WEEKDAY && f.wd != wd then Broken
      else if !computed && !OthersAgree(f, ymd) then Broken
      else Parsed(ymd, wd)
    else Parsed(ymd, f.wd)
  }

  function Resolve(fields: Fields): Parsed {
    var f0 := InYearRange(fields);
    var f1 :- if HasIso(f0) then Agree(f0, TrialIso(f0)) else Held(f0);
    var f2 :- if HasSundayWeek(f1) then Agree(f1, TrialWeek(SUNDAY, f1, f1.U)) else Held(f1);
    var f3 :- if HasMondayWeek(f2) then Agree(f2, TrialWeek(MONDAY, f2, f2.W)) else Held(f2);
    var f4 :- if HasDayOfYear(f3) then AgreeInYear(f3, TrialDayOfYear(f3)) else Held(f3);
    Finish(f4, HasIso(f0) || HasSundayWeek(f1) || HasMondayWeek(f2))
  }

  /** The repeated step of `from_stream`: fill in or compare year, month and day. */
  method AgreeInPlace(f: Fields, trial: Date) returns (ok: bool, Y: int, m: int, d: int)
    ensures Agree(f, trial) == if ok then Held(f.(Y := Y, m := m, d := d)) else Failed
  {
    Y, m, d := f.Y, f.m, f.d;
    if Y == NOT_A_YEAR { Y := trial.year; } else if S16(Y) != trial.year { return false, Y, m, d; }
    if m == NOT_A_MONTH { m := trial.month; } else if U8(m) != trial.month { return false, Y, m, d; }
    if d == NOT_A_DAY { d := trial.day; } else if U8(d) != trial.day { return false, Y, m, d; }
    return true, Y, m, d;
  }

  /** The last checks and the result, on local variables. */
  method FinishInPlace(f: Fields, computed: bool) returns (r: Parsed)
    ensures r == Finish(f, computed)
  {
    hide Start, FirstInYear, ToDays, FromDays, Difference, WeekdayOf, StoredOk, AdjustedDiv, TruncDiv;
    var wd := f.wd;
    var ymd := Date(S16(f.Y), U8(f.m), U8(f.d));
    if StoredOk(ymd) {
      var shown := Difference(WeekdayOf(ToDays(ymd)), SUNDAY);
      if wd == NOT_A_WEEKDAY { wd := shown; } else if wd != shown { return Broken; }
      if !computed {
        var sd := ToDays(ymd);
        if f.G != NOT_A_YEAR || f.V != NOT_A_WEEK_NUM {
          var g := S16(FromDays(sd + 3).year);
          var start := Start(g);
          if sd < start {
            g := S16(g - 1);
            if f.V != NOT_A_WEEK_NUM { start := Start(g); }
          }
          if f.G != NOT_A_YEAR && f.G != g { return Broken; }
          if f.V != NOT_A_WEEK_NUM && f.V != TruncDiv(sd - start, 7) + 1 { return Broken; }
        }
        if f.U != NOT_A_WEEK_NUM && f.U != AdjustedDiv(sd - FirstInYear(SUNDAY, ymd.year), 7) + 1 { return Broken; }
        if f.W != NOT_A_WEEK_NUM && f.W != AdjustedDiv(sd - FirstInYear(MONDAY, ymd.year), 7) + 1 { return Broken; }
      }
    }
    r := Parsed(ymd, wd);
  }

  /** The steps as `from_stream` takes them, on local variables. */
  method ResolveInPlace(fields: Fields) returns (r: Parsed)
    ensures r == Resolve(fields)
  {
    hide Agree, AgreeInYear, Finish, TrialIso, TrialWeek, TrialDayOfYear;
    var f := fields;
    if f.Y < -32767 || f.Y > 32767 {
      f := f.(Y := NOT_A_YEAR);
    }
    var computed, ok := false, true;
    var Y, m, d;
    if f.G != NOT_A_YEAR && f.V != NOT_A_WEEK_NUM && f.wd != NOT_A_WEEKDAY {
      ok, Y, m, d := AgreeInPlace(f, TrialIso(f));
      if !ok { return Broken; }
      f, computed := f.(Y := Y, m := m, d := d), true;
    }
    if f.Y != NOT_A_YEAR && f.U != NOT_A_WEEK_NUM && f.wd != NOT_A_WEEKDAY {
      ok, Y, m, d := AgreeInPlace(f, TrialWeek(SUNDAY, f, f.U));
      if !ok { return Broken; }
      f, computed := f.(Y := Y, m := m, d := d), true;
    }
    if f.Y != NOT_A_YEAR && f.W != NOT_A_WEEK_NUM && f.wd != NOT_A_WEEKDAY {
      ok, Y, m, d := AgreeInPlace(f, TrialWeek(MONDAY, f, f.W));
      if !ok { return Broken; }
      f, computed := f.(Y := Y, m := m, d := d), true;
    }
    if f.j != NOT_A_DOY && f.Y != NOT_A_YEAR {
      var trial := AgreeInYear(f, TrialDayOfYear(f));
      if trial.Failed? { return Broken; }
      f := trial.f;
    }
    r := FinishInPlace(f, computed);
  }

  // ----- Printed fields find the date again -----

  /** Every field that is set was printed for date `d`. */
  predicate PrintedFrom(f: Fields, d: Date) {
    var z := ToDays(d);
    && (f.Y == NOT_A_YEAR || f.Y == d.year)
    && (f.m == NOT_A_MONTH || f.m == d.month)
    && (f.d == NOT_A_DAY || f.d == d.day)
    && (f.j == NOT_A_DOY || f.j == FormatJ(z))
    && (f.wd == NOT_A_WEEKDAY || f.wd == WeekdayOf(z))
    && (f.G == NOT_A_YEAR || f.G == FormatG(z))
    && (f.V == NOT_A_WEEK_NUM || f.V == FormatV(z))
    && (f.U == NOT_A_WEEK_NUM || f.U == FormatWeek(SUNDAY, z))
    && (f.W == NOT_A_WEEK_NUM || f.W == FormatWeek(MONDAY, z))
  }

  /** Enough fields are set to tell one date. */
  predicate Determines(f: Fields) {
    || (f.Y != NOT_A_YEAR && f.m != NOT_A_MONTH && f.d != NOT_A_DAY)
    || HasIso(f) || HasSundayWeek(f) || HasMondayWeek(f) || HasDayOfYear(f)
  }

  lemma IsoFieldsOfDay(z: int)
    requires -12687426 <= z <= 11248737
    ensures IsoDate(FormatG(z), FormatV(z), IsoWeekday(z)) == WeekByThursday(z)
    ensures -0x7FFF <= FormatG(z) <= 0x7FFF && 1 <= FormatV(z) <= 53
    ensures Start(FormatG(z)) + 7 * (FormatV(z) - 1) + Difference(WeekdayOf(z), MONDAY) == z
  {
    hide Start, FromDays, FromIso, IsoOk, ThursdayOf, YearStart, Difference, WeekdayOf;
    assert ToIso(z).year == FormatG(z);
    YearOfWeek(z);
    ToIsoIsStandard(z);
    DayRoundTrip(z);
    WeekdayOfIso(z);
    FromIsoByStart(ToIso(z));
    DifferenceIsForward(WeekdayOf(z), MONDAY);
  }

  lemma WeekFieldOfDay(first: int, z: int)
    requires first == SUNDAY || first == MONDAY
    ensures 0 <= FormatWeek(first, z) <= 53
    ensures FormatWeek(first, z) == AdjustedDiv(z - FirstInYear(first, FromDays(z).year), 7) + 1
    ensures FirstInYear(first, FromDays(z).year) + 7 * (FormatWeek(first, z) - 1) +
            Difference(WeekdayOf(z), first) == z
  {
    hide FirstInYear, FromDays, YearStart, Difference, WeekdayOf, AdjustedDiv, IsLeap;
    var y := FromDays(z).year;
    var st := FirstInYear(first, y);
    YearOfDay(z, y);
    YearLength(y);
    FirstInYearIsFirst(first, y);
    AdjustedDivIsFloor(z - st, 7);
    var k := (z - st) / 7;
    WeekdayRepeats(st, k);
    WeekdayAfter(st + 7 * k, z);
    DifferenceIsForward(WeekdayOf(z), first);
  }

  lemma FirstInYearIsFirst(wd: int, y: int)
    requires 0 <= wd <= 6
    ensures WeekdayOf(FirstInYear(wd, y)) == wd
    ensures YearStart(y) <= FirstInYear(wd, y) <= YearStart(y) + 6
  {
    hide ToDays, Difference, WeekdayOf;
    DifferenceIsForward(wd, WeekdayOf(YearStart(y)));
    WeekdayPlus(YearStart(y), wd);
  }

  lemma OrdinalOfDay(z: int)
    ensures 1 <= FormatJ(z) <= 366 && YearStart(FromDays(z).year) + FormatJ(z) - 1 == z
  {
    hide FromDays, YearStart, IsLeap;
    YearOfDay(z, FromDays(z).year);
    YearLength(FromDays(z).year);
  }

  /** The fields with the date filled in. */
  function Filled(f: Fields, d: Date): Fields {
    f.(Y := d.year, m := d.month, d := d.day)
  }

  /** A step that starts from fields printed for `d`, with trial date `d`, fills in `d`. */
  lemma AgreeOnPrinted(f: Fields, d: Date)
    requires StoredOk(d) && PrintedFrom(f, d)
    ensures Agree(f, d) == Held(Filled(f, d))
    ensures f.Y == d.year ==> AgreeInYear(f, d) == Held(Filled(f, d))
    ensures PrintedFrom(Filled(f, d), d)
  {
  }

  lemma StoredSame(d: Date)
    requires StoredOk(d)
    ensures Stored(FromDays(ToDays(d))) == d && FromDays(ToDays(d)) == d
  {
    hide FromDays, ToDays, LastDay;
    ToDaysInverts(d);
  }

  /** Each way to compute the date from printed fields computes the date they were printed for. */
  lemma TrialsFind(f: Fields, d: Date)
    requires StoredOk(d) && PrintedFrom(f, d)
    ensures HasIso(f) && -12687426 <= ToDays(d) ==> TrialIso(f) == d
    ensures HasSundayWeek(f) ==> TrialWeek(SUNDAY, f, f.U) == d
    ensures HasMondayWeek(f) ==> TrialWeek(MONDAY, f, f.W) == d
    ensures HasDayOfYear(f) ==> TrialDayOfYear(f) == d
  {
    hide FormatG, FormatV, FormatWeek, FormatJ, FromDays, ToDays, WeekdayOf, YearStart, Difference, Start;
    hide FirstInYear, LastDay;
    var z := ToDays(d);
    StoredSame(d);
    StoredOkDays(d);
    if -12687426 <= z {
      IsoFieldsOfDay(z);
    }
    WeekFieldOfDay(SUNDAY, z);
    WeekFieldOfDay(MONDAY, z);
    OrdinalOfDay(z);
  }

  /** Once year, month and day are those of `d`, the remaining printed fields pass the checks. */
  lemma FinishOnPrinted(f: Fields, computed: bool, d: Date)
    requires StoredOk(d) && PrintedFrom(f, d) && f.Y == d.year && f.m == d.month && f.d == d.day
    ensures Finish(f, computed) == Parsed(d, WeekdayOf(ToDays(d)))
  {
    hide FormatWeek, FormatJ, FromDays, ToDays, YearStart, Difference, Start, FirstInYear, LastDay;
    hide AdjustedDiv, TruncDiv;
    var z := ToDays(d);
    StoredSame(d);
    WeekFieldOfDay(SUNDAY, z);
    WeekFieldOfDay(MONDAY, z);
    DifferenceIsForward(WeekdayOf(z), SUNDAY);
    DayInMonth(d);
  }

  lemma DayInMonth(d: Date)
    requires Ok(GREGORIAN, d)
    ensures d.day <= 31
  {
  }

  lemma PrintedYear(f: Fields, d: Date)
    requires StoredOk(d) && PrintedFrom(f, d)
    ensures InYearRange(f) == f
    ensures f.Y != NOT_A_YEAR ==> f.Y == d.year
    ensures f.Y != NOT_A_YEAR && f.m != NOT_A_MONTH && f.d != NOT_A_DAY ==> f == Filled(f, d)
  {
  }

  /** Any printed fields that tell one date resolve to the date they were printed for, whatever
      further printed fields come with them. */
  lemma PrintedResolves(f: Fields, d: Date)
    requires StoredOk(d) && PrintedFrom(f, d) && Determines(f)
    requires HasIso(f) ==> -12687426 <= ToDays(d)
    ensures Resolve(f) == Parsed(d, WeekdayOf(ToDays(d)))
  {
    hide PrintedFrom, InYearRange, TrialIso, TrialWeek, TrialDayOfYear, Agree, AgreeInYear, Finish;
    hide ToDays, FromDays, WeekdayOf, LastDay;
    PrintedYear(f, d);
    TrialsFind(f, d);
    AgreeOnPrinted(f, d);
    var f1 := if HasIso(f) then Filled(f, d) else f;
    TrialsFind(f1, d);
    AgreeOnPrinted(f1, d);
    var f2 := if HasSundayWeek(f1) then Filled(f1, d) else f1;
    TrialsFind(f2, d);
    AgreeOnPrinted(f2, d);
    var f3 := if HasMondayWeek(f2) then Filled(f2, d) else f2;
    PrintedYear(f3, d);
    TrialsFind(f3, d);
    AgreeOnPrinted(f3, d);
    var f4 := if HasDayOfYear(f3) then Filled(f3, d) else f3;
    PrintedYear(f4, d);
    FinishOnPrinted(f4, HasIso(f) || HasSundayWeek(f1) || HasMondayWeek(f2), d);
  }

  lemma AgreeKeepsDay(f: Fields, trial: Date)
    ensures var a := Agree(f, trial);
            a.Held? ==> a.f.d == (if f.d == NOT_A_DAY then trial.day else f.d) &&
                        (f.d == NOT_A_DAY || U8(f.d) == trial.day)
    ensures AgreeInYear(f, trial).Held? && f.d != NOT_A_DAY ==> AgreeInYear(f, trial).f.d == f.d
  {
  }

  /** A day that the week fields have filled in is the day of the result, if there is one. */
  lemma ResolvedDay(f: Fields)
    requires HasIso(InYearRange(f)) && TrialIso(InYearRange(f)).day != NOT_A_DAY
    ensures Resolve(f).Broken? ||
            Resolve(f).ymd.day == U8(if f.d != NOT_A_DAY then f.d else TrialIso(InYearRange(f)).day)
    ensures f.d != NOT_A_DAY && U8(f.d) != TrialIso(InYearRange(f)).day ==> Resolve(f).Broken?
  {
    hide TrialIso, TrialWeek, TrialDayOfYear, Agree, AgreeInYear, OthersAgree, StoredOk, ToDays, Difference, WeekdayOf;
    var f0 := InYearRange(f);
    AgreeKeepsDay(f0, TrialIso(f0));
    var a1 := Agree(f0, TrialIso(f0));
    if a1.Held? {
      var f1 := a1.f;
      AgreeKeepsDay(f1, TrialWeek(SUNDAY, f1, f1.U));
      var a2 := if HasSundayWeek(f1) then Agree(f1, TrialWeek(SUNDAY, f1, f1.U)) else Held(f1);
      if a2.Held? {
        var f2 := a2.f;
        AgreeKeepsDay(f2, TrialWeek(MONDAY, f2, f2.W));
        var a3 := if HasMondayWeek(f2) then Agree(f2, TrialWeek(MONDAY, f2, f2.W)) else Held(f2);
        if a3.Held? {
          AgreeKeepsDay(a3.f, TrialDayOfYear(a3.f));
        }
      }
    }
  }

  lemma FirstDaysFields(z: int)
    requires -12687428 <= z < -12687426
    ensures FormatG(z) == -0x8000 && FormatV(z) == -3419451 && Start(-0x8000) == 11248738
  {
    hide FromDays, Start;
    FirstDaysWrap(z);
    WrappedStart();
    FirstAndLastStart();
  }

  /** The week fields printed for the first two days of the calendar name days a week later. */
  lemma FirstDaysTrial(f: Fields, d: Date)
    requires StoredOk(d) && PrintedFrom(f, d) && HasIso(f) && ToDays(d) < -12687426
    ensures TrialIso(f).day == d.day + 7
  {
    hide FromDays, ToDays, Start, WeekdayOf, LastDay, FormatWeek, FormatJ, FormatG, FormatV;
    var z := ToDays(d);
    StoredOkDays(d);
    FirstDaysFields(z);
    FirstAndLastYear();
    FirstWeekdays(z);
    DifferenceIsForward(WeekdayOf(z), MONDAY);
    StoredSame(d);
    MonthDays(-0x7FFF, 1, z);
    MonthDays(-0x7FFF, 1, z + 7);
  }

  lemma FirstWeekdays(z: int)
    requires -12687428 <= z < -12687426
    ensures WeekdayOf(z) == if z == -12687428 then 6 else 0
  {
  }

  /** Printed fields that tell one date resolve to it exactly when they do not rely on the ISO
      week fields of the first two days of the calendar. */
  lemma ResolvesExactly(f: Fields, d: Date)
    requires StoredOk(d) && PrintedFrom(f, d) && Determines(f)
    ensures Resolve(f) == Parsed(d, WeekdayOf(ToDays(d))) <==> !(HasIso(f) && ToDays(d) < -12687426)
  {
    hide Resolve, PrintedFrom, Determines, InYearRange, TrialIso, ToDays, WeekdayOf, LastDay;
    if HasIso(f) && ToDays(d) < -12687426 {
      PrintedYear(f, d);
      FirstDaysTrial(f, d);
      ResolvedDay(f);
      DayInMonth(d);
      assert Resolve(f).Broken? || Resolve(f).ymd.day == d.day + 7;
    } else {
      PrintedResolves(f, d);
    }
  }

  const NO_FIELDS := Fields(NOT_A_YEAR, NOT_A_MONTH, NOT_A_DAY, NOT_A_DOY, NOT_A_WEEKDAY, NOT_A_YEAR,
                            NOT_A_WEEK_NUM, NOT_A_WEEK_NUM, NOT_A_WEEK_NUM)

  /** Each of the tuples (G, V, weekday), (Y, U, weekday), (Y, W, weekday) and (Y, j) that are
      printed for a date leads back to it, the first from 3 January -32767 on. */
  lemma TuplesResolve(d: Date)
    requires StoredOk(d)
    ensures var z := ToDays(d);
            var wd := WeekdayOf(z);
            var date := Parsed(d, wd);
            && (Resolve(NO_FIELDS.(G := FormatG(z), V := FormatV(z), wd := wd)) == date <==> -12687426 <= z)
            && Resolve(NO_FIELDS.(Y := d.year, U := FormatWeek(SUNDAY, z), wd := wd)) == date
            && Resolve(NO_FIELDS.(Y := d.year, W := FormatWeek(MONDAY, z), wd := wd)) == date
            && Resolve(NO_FIELDS.(Y := d.year, j := FormatJ(z))) == date
  {
    hide Resolve, FormatG, FormatV, FormatWeek, FormatJ, ToDays, FromDays, StoredOk, Start;
    var z := ToDays(d);
    FieldsAreSet(d);
    ResolvesExactly(NO_FIELDS.(G := FormatG(z), V := FormatV(z), wd := WeekdayOf(z)), d);
    ResolvesExactly(NO_FIELDS.(Y := d.year, U := FormatWeek(SUNDAY, z), wd := WeekdayOf(z)), d);
    ResolvesExactly(NO_FIELDS.(Y := d.year, W := FormatWeek(MONDAY, z), wd := WeekdayOf(z)), d);
    ResolvesExactly(NO_FIELDS.(Y := d.year, j := FormatJ(z)), d);
  }

  /** No printed field looks like one that was not read. */
  lemma FieldsAreSet(d: Date)
    requires StoredOk(d)
    ensures var z := ToDays(d);
            && d.year != NOT_A_YEAR && FormatG(z) != NOT_A_YEAR && FormatV(z) != NOT_A_WEEK_NUM
            && FormatWeek(SUNDAY, z) != NOT_A_WEEK_NUM && FormatWeek(MONDAY, z) != NOT_A_WEEK_NUM
            && FormatJ(z) != NOT_A_DOY && 0 <= WeekdayOf(z) <= 6
  {
    hide FormatG, FormatV, FormatWeek, FormatJ, ToDays, FromDays, Start, LastDay;
    var z := ToDays(d);
    StoredOkDays(d);
    WeekFieldOfDay(SUNDAY, z);
    WeekFieldOfDay(MONDAY, z);
    OrdinalOfDay(z);
    if -12687426 <= z {
      IsoFieldsOfDay(z);
    } else {
      FirstDaysFields(z);
    }
  }

  /** Two dates with the same month and day in different years are different days, whether or
      not their years have such a day. */
  lemma SameLabelOtherYear(y: int, d: Date)
    requires 1 <= d.month <= 12
    ensures ToDays(Date(y, d.month, d.day)) == ToDays(d) <==> y == d.year
  {
    hide FromDays, ToDays, IsLeap;
    IsFaithful();
    var a, b := Date(y, d.month, 1), Date(d.year, d.month, 1);
    OrderIsomorphism(GREGORIAN, a, b);
    assert GREGORIAN.toDays(d) == GREGORIAN.toDays(b) + d.day - 1;
    var e := Date(y, d.month, d.day);
    assert GREGORIAN.toDays(e) == GREGORIAN.toDays(a) + d.day - 1;
  }

  lemma OrdinalParsed(y: int, j: int, d: Date)
    requires -0x7FFF <= y <= 0x7FFF && j != NOT_A_DOY
    requires d == FromDays(YearStart(y) + j - 1) && 1 <= d.month <= 12 && 1 <= d.day <= 31
    ensures var r := Resolve(NO_FIELDS.(Y := y, j := j)); r.Parsed? && r.ymd == Date(y, d.month, d.day)
  {
    hide FromDays, ToDays, YearStart, StoredOk, Start, FirstInYear, AdjustedDiv, TruncDiv, Difference, WeekdayOf;
    var f := NO_FIELDS.(Y := y, j := j);
    assert TrialDayOfYear(f).month == d.month && TrialDayOfYear(f).day == d.day;
    assert AgreeInYear(f, TrialDayOfYear(f)) == Held(f.(m := d.month, d := d.day));
    assert Finish(f.(m := d.month, d := d.day), false).Parsed?;
  }

  /** Nothing holds the day of the year against the length of the year: a year and an ordinal
      number, on their own, resolve to the day so numbered exactly when the year has that day. */
  lemma OrdinalResolves(y: int, j: int)
    requires -0x7FFF <= y <= 0x7FFF && j != NOT_A_DOY
    ensures var r := Resolve(NO_FIELDS.(Y := y, j := j));
            r.Parsed? && (ToDays(r.ymd) == YearStart(y) + j - 1 <==> 1 <= j <= if IsLeap(y) then 366 else 365)
  {
    hide FromDays, ToDays, YearStart, IsLeap, LastDay, Resolve;
    var z := YearStart(y) + j - 1;
    var d := FromDays(z);
    FromDaysInverts(z);
    DayInMonth(d);
    OrdinalParsed(y, j, d);
    YearOfDay(z, y);
    YearLength(y);
    SameLabelOtherYear(y, d);
  }

  // ----- Fields that come with a full date -----

  /** Near the first day of year `y`, no other year is stored as `y`. */
  lemma StoredNear(x: int, d: Date)
    requires StoredOk(d) && YearStart(d.year) - 365 <= x <= YearStart(d.year) + 720
    ensures Stored(FromDays(x)) == d <==> x == ToDays(d)
  {
    hide FromDays, ToDays, YearStart, IsLeap, LastDay;
    var y := d.year;
    FromDaysInverts(x);
    StoredSame(d);
    YearLength(y - 1);
    YearLength(y);
    YearLength(y + 1);
    YearOfDay(x, y - 1);
    YearOfDay(x, y + 2);
  }

  lemma WeekdayOfSum(st: int, first: int, week: int, wd: int)
    requires WeekdayOf(st) == first && 0 <= wd <= 6
    ensures WeekdayOf(st + 7 * (week - 1) + Difference(wd, first)) == wd
    ensures 0 <= Difference(wd, first) <= 6
  {
    hide Difference, WeekdayOf;
    DifferenceIsForward(wd, first);
    WeekdayPlus(st, wd);
    WeekdayRepeats(st + Difference(wd, first), week - 1);
  }

  /** A week of the year and a weekday name a date exactly when they are printed for it. */
  lemma WeekTrialExactly(first: int, f: Fields, week: int, d: Date)
    requires first == SUNDAY || first == MONDAY
    requires StoredOk(d) && f.Y == d.year && 0 <= f.wd <= 6 && 0 <= week < 100
    ensures TrialWeek(first, f, week) == d <==> f.wd == WeekdayOf(ToDays(d)) && week == FormatWeek(first, ToDays(d))
  {
    hide FormatWeek, FromDays, ToDays, YearStart, Difference, FirstInYear, WeekdayOf, LastDay;
    var z, st := ToDays(d), FirstInYear(first, d.year);
    StoredSame(d);
    FirstInYearIsFirst(first, d.year);
    WeekFieldOfDay(first, z);
    WeekdayOfSum(st, first, week, f.wd);
    StoredNear(st + 7 * (week - 1) + Difference(f.wd, first), d);
  }

  lemma AgreeWithFull(f: Fields, trial: Date, d: Date)
    requires StoredOk(d) && f.Y == d.year && f.m == d.month && f.d == d.day
    ensures Agree(f, trial) == if trial == d then Held(f) else Failed
  {
    hide ToDays, LastDay;
    DayInMonth(d);
  }

  /** Weekday and week fields, where they are set, are those printed for day `z`. */
  predicate WeeksPrinted(f: Fields, z: int) {
    && (f.wd != NOT_A_WEEKDAY ==> f.wd == WeekdayOf(z))
    && (f.G != NOT_A_YEAR ==> f.G == FormatG(z))
    && (f.V != NOT_A_WEEK_NUM ==> f.V == FormatV(z))
    && (f.U != NOT_A_WEEK_NUM ==> f.U == FormatWeek(SUNDAY, z))
    && (f.W != NOT_A_WEEK_NUM ==> f.W == FormatWeek(MONDAY, z))
  }

  lemma FinishFull(f: Fields, computed: bool, d: Date)
    requires StoredOk(d) && S16(f.Y) == d.year && f.m == d.month && f.d == d.day
    ensures var z := ToDays(d);
            var agrees := if computed then f.wd != NOT_A_WEEKDAY ==> f.wd == WeekdayOf(z) else WeeksPrinted(f, z);
            Finish(f, computed) == if agrees then Parsed(d, WeekdayOf(z)) else Broken
  {
    hide FormatWeek, FromDays, ToDays, Difference, Start, FirstInYear, LastDay, AdjustedDiv, TruncDiv;
    var z := ToDays(d);
    StoredSame(d);
    WeekFieldOfDay(SUNDAY, z);
    WeekFieldOfDay(MONDAY, z);
    DifferenceIsForward(WeekdayOf(z), SUNDAY);
    DayInMonth(d);
  }

  // ----- What is returned agrees with what was read -----

  /** Date `ymd` has the year, month and day that are set, as a `short` and unsigned chars hold them. */
  predicate Honours(ymd: Date, f: Fields) {
    && (f.Y != NOT_A_YEAR ==> ymd.year == S16(f.Y))
    && (f.m != NOT_A_MONTH ==> ymd.month == f.m % 256)
    && (f.d != NOT_A_DAY ==> ymd.day == f.d % 256)
  }

  /** A real date, as far as a trial can tell. */
  predicate Trial(d: Date) {
    InShort(d.year) && 1 <= d.month <= 12 && 1 <= d.day <= 31
  }

  lemma TrialsAreDates(z: int)
    ensures Trial(Stored(FromDays(z)))
  {
    hide FromDays;
    FromDaysInverts(z);
    DayInMonth(FromDays(z));
  }

  /** The date that the fields make, as it is stored. */
  function Label(f: Fields): Date {
    Date(S16(f.Y), U8(f.m), U8(f.d))
  }

  /** Only year, month and day differ, where they were not set before. */
  predicate Extends(f: Fields, g: Fields) {
    && g == f.(Y := g.Y, m := g.m, d := g.d)
    && (f.Y != NOT_A_YEAR ==> g.Y == f.Y)
    && (f.m != NOT_A_MONTH ==> g.m == f.m)
    && (f.d != NOT_A_DAY ==> g.d == f.d)
  }

  predicate Full(f: Fields) {
    f.Y != NOT_A_YEAR && f.m != NOT_A_MONTH && f.d != NOT_A_DAY
  }

  /** A step that succeeds sets year, month and day to those of the trial. */
  lemma AgreeSets(f: Fields, trial: Date)
    requires Trial(trial) && Agree(f, trial).Held?
    ensures var g := Agree(f, trial).f;
            && Extends(f, g) && Full(g) && Label(g) == trial && (f.Y == NOT_A_YEAR ==> g.Y == trial.year)
            && (Full(f) ==> g == f)
  {
  }

  lemma AgreeInYearSets(f: Fields, trial: Date)
    requires Trial(trial) && AgreeInYear(f, trial).Held?
    ensures var g := AgreeInYear(f, trial).f;
            && Extends(f, g) && g.Y == f.Y && Label(g).month == trial.month && Label(g).day == trial.day
            && (Full(f) ==> g == f)
  {
  }

  lemma FinishKeeps(f: Fields, computed: bool)
    ensures var r := Finish(f, computed);
            r.Parsed? ==> r.ymd == Label(f) && (f.wd != NOT_A_WEEKDAY ==> r.wd == f.wd)
  {
    hide OthersAgree, StoredOk, Difference, WeekdayOf, ToDays;
  }

  /** The fields with the year that the ISO week names, if it was not read. */
  function WithYear(f: Fields): Fields {
    if HasIso(f) && f.Y == NOT_A_YEAR then f.(Y := TrialIso(f).year) else f
  }

  /** The trials look at the year, the weekday and the week or day of the year. */
  lemma SameTrials(f: Fields, g: Fields)
    requires g == f.(Y := g.Y, m := g.m, d := g.d) && g.Y == f.Y
    ensures HasSundayWeek(f) == HasSundayWeek(g) && HasMondayWeek(f) == HasMondayWeek(g)
    ensures HasDayOfYear(f) == HasDayOfYear(g) && TrialDayOfYear(f) == TrialDayOfYear(g)
    ensures TrialWeek(SUNDAY, f, f.U) == TrialWeek(SUNDAY, g, g.U)
    ensures TrialWeek(MONDAY, f, f.W) == TrialWeek(MONDAY, g, g.W)
  {
    hide FromDays, Stored, FirstInYear, Difference, YearStart;
  }

  /** The steps of a resolution that does not fail. */
  lemma Steps(f: Fields) returns (f1: Fields, f2: Fields, f3: Fields, f4: Fields)
    requires Resolve(f).Parsed?
    ensures var f0 := InYearRange(f);
            && (if HasIso(f0) then Agree(f0, TrialIso(f0)) == Held(f1) else f1 == f0)
            && (if HasSundayWeek(f1) then Agree(f1, TrialWeek(SUNDAY, f1, f1.U)) == Held(f2) else f2 == f1)
            && (if HasMondayWeek(f2) then Agree(f2, TrialWeek(MONDAY, f2, f2.W)) == Held(f3) else f3 == f2)
            && (if HasDayOfYear(f3) then AgreeInYear(f3, TrialDayOfYear(f3)) == Held(f4) else f4 == f3)
    ensures Resolve(f).ymd == Label(f4) && (f4.wd != NOT_A_WEEKDAY ==> Resolve(f).wd == f4.wd)
  {
    hide Agree, AgreeInYear, Finish, TrialIso, TrialWeek, TrialDayOfYear, InYearRange;
    var f0 := InYearRange(f);
    f1 := (if HasIso(f0) then Agree(f0, TrialIso(f0)) else Held(f0)).f;
    f2 := (if HasSundayWeek(f1) then Agree(f1, TrialWeek(SUNDAY, f1, f1.U)) else Held(f1)).f;
    f3 := (if HasMondayWeek(f2) then Agree(f2, TrialWeek(MONDAY, f2, f2.W)) else Held(f2)).f;
    f4 := (if HasDayOfYear(f3) then AgreeInYear(f3, TrialDayOfYear(f3)) else Held(f3)).f;
    FinishKeeps(f4, HasIso(f0) || HasSundayWeek(f1) || HasMondayWeek(f2));
  }

  lemma AllTrials(f: Fields)
    ensures Trial(TrialIso(f)) && Trial(TrialDayOfYear(f))
    ensures Trial(TrialWeek(SUNDAY, f, f.U)) && Trial(TrialWeek(MONDAY, f, f.W))
  {
    hide Trial, FromDays, Stored, Start, FirstInYear, Difference, YearStart;
    TrialsAreDates(Start(f.G) + 7 * (f.V - 1) + Difference(f.wd, MONDAY));
    TrialsAreDates(FirstInYear(SUNDAY, S16(f.Y)) + 7 * (f.U - 1) + Difference(f.wd, SUNDAY));
    TrialsAreDates(FirstInYear(MONDAY, S16(f.Y)) + 7 * (f.W - 1) + Difference(f.wd, MONDAY));
    TrialsAreDates(YearStart(S16(f.Y)) + f.j - 1);
  }

  /** The two steps by weeks of the year. */
  lemma WeekSteps(f1: Fields, f2: Fields, f3: Fields)
    requires if HasSundayWeek(f1) then Agree(f1, TrialWeek(SUNDAY, f1, f1.U)) == Held(f2) else f2 == f1
    requires if HasMondayWeek(f2) then Agree(f2, TrialWeek(MONDAY, f2, f2.W)) == Held(f3) else f3 == f2
    ensures Extends(f1, f3) && f3.Y == f1.Y && (Full(f1) ==> f3 == f1)
    ensures HasSundayWeek(f1) ==> Full(f3) && Label(f3) == TrialWeek(SUNDAY, f1, f1.U)
    ensures HasMondayWeek(f1) ==> Full(f3) && Label(f3) == TrialWeek(MONDAY, f1, f1.W)
  {
    assert HasSundayWeek(f1) ==> f1.Y != NOT_A_YEAR;
    assert HasMondayWeek(f2) ==> f2.Y != NOT_A_YEAR;
    hide Agree, TrialWeek, TrialDayOfYear, Trial, Label, HasSundayWeek, HasMondayWeek, HasDayOfYear;
    AllTrials(f1);
    AllTrials(f2);
    if HasSundayWeek(f1) {
      AgreeSets(f1, TrialWeek(SUNDAY, f1, f1.U));
    }
    SameTrials(f1, f2);
    if HasMondayWeek(f2) {
      AgreeSets(f2, TrialWeek(MONDAY, f2, f2.W));
    }
  }

  /** The last three steps, from fields with or without a full date. */
  lemma LaterSteps(f1: Fields, f2: Fields, f3: Fields, f4: Fields)
    requires if HasSundayWeek(f1) then Agree(f1, TrialWeek(SUNDAY, f1, f1.U)) == Held(f2) else f2 == f1
    requires if HasMondayWeek(f2) then Agree(f2, TrialWeek(MONDAY, f2, f2.W)) == Held(f3) else f3 == f2
    requires if HasDayOfYear(f3) then AgreeInYear(f3, TrialDayOfYear(f3)) == Held(f4) else f4 == f3
    ensures Extends(f1, f4) && f4.Y == f1.Y && (Full(f1) ==> f4 == f1)
    ensures HasSundayWeek(f1) ==> Label(f4) == TrialWeek(SUNDAY, f1, f1.U)
    ensures HasMondayWeek(f1) ==> Label(f4) == TrialWeek(MONDAY, f1, f1.W)
    ensures HasDayOfYear(f1) ==> Label(f4).month == TrialDayOfYear(f1).month && Label(f4).day == TrialDayOfYear(f1).day
  {
    WeekSteps(f1, f2, f3);
    hide Agree, AgreeInYear, TrialWeek, TrialDayOfYear, Trial, Label, HasSundayWeek, HasMondayWeek, HasDayOfYear;
    AllTrials(f3);
    SameTrials(f1, f3);
    if HasDayOfYear(f3) {
      AgreeInYearSets(f3, TrialDayOfYear(f3));
    }
  }

  lemma ExtendsFurther(f: Fields, g: Fields, h: Fields)
    requires Extends(f, g) && Extends(g, h)
    ensures Extends(f, h) && Honours(Label(h), f) && h.wd == f.wd
  {
  }

  lemma IsoWithYear(f: Fields)
    ensures HasIso(WithYear(f)) == HasIso(f) && TrialIso(WithYear(f)) == TrialIso(f)
  {
    hide Stored, FromDays, Start, Difference;
  }

  /** The first step, which may find the year. */
  lemma FirstStep(f: Fields, f1: Fields)
    requires if HasIso(f) then Agree(f, TrialIso(f)) == Held(f1) else f1 == f
    ensures var g := WithYear(f);
            && Extends(g, f1) && g.Y == f1.Y
            && HasIso(g) == HasIso(f) && TrialIso(g) == TrialIso(f)
            && (HasIso(f) ==> Full(f1) && Label(f1) == TrialIso(f))
  {
    IsoWithYear(f);
    hide Agree, TrialIso, Trial, Label, HasIso;
    AllTrials(f);
    if HasIso(f) {
      AgreeSets(f, TrialIso(f));
    }
  }

  lemma SameYear(f: Fields)
    ensures InYearRange(f).wd == f.wd
  {
  }

  /** Whatever the fields, what is returned has every year, month, day and weekday that was read, and is
      the date that each complete group of week fields names; a day of the year has its month and day. */
  lemma ResultAgrees(f: Fields)
    requires Resolve(f).Parsed?
    ensures var r, g := Resolve(f), WithYear(InYearRange(f));
            && Honours(r.ymd, g) && (f.wd != NOT_A_WEEKDAY ==> r.wd == f.wd)
            && (HasIso(g) ==> r.ymd == TrialIso(g))
            && (HasSundayWeek(g) ==> r.ymd == TrialWeek(SUNDAY, g, g.U))
            && (HasMondayWeek(g) ==> r.ymd == TrialWeek(MONDAY, g, g.W))
            && (HasDayOfYear(g) ==> r.ymd.month == TrialDayOfYear(g).month && r.ymd.day == TrialDayOfYear(g).day)
  {
    hide Resolve, Agree, AgreeInYear, TrialIso, TrialWeek, TrialDayOfYear, InYearRange, WithYear, Label, Honours;
    hide HasIso, HasSundayWeek, HasMondayWeek, HasDayOfYear;
    var f1, f2, f3, f4 := Steps(f);
    var g := WithYear(InYearRange(f));
    SameYear(f);
    FirstStep(InYearRange(f), f1);
    LaterSteps(f1, f2, f3, f4);
    ExtendsFurther(g, f1, f4);
    SameTrials(g, f1);
    WithYearKeeps(InYearRange(f));
  }

  lemma WithYearKeeps(f: Fields)
    ensures WithYear(f).wd == f.wd
  {
  }

  // ----- Fields that tell no date -----

  /** Fields from which nothing is computed and that make no date are stored as they were read, and
      are not held against each other. */
  lemma ShortOfDate(f: Fields)
    requires var g := InYearRange(f);
             !HasIso(g) && !HasSundayWeek(g) && !HasMondayWeek(g) && !HasDayOfYear(g)
    requires !StoredOk(Date(S16(InYearRange(f).Y), U8(f.m), U8(f.d)))
    ensures Resolve(f) == Parsed(Date(S16(InYearRange(f).Y), U8(f.m), U8(f.d)), f.wd)
  {
    hide StoredOk;
  }

  /** A weekday alone is returned, with no date. */
  lemma WeekdayAlone(wd: int)
    ensures var r := Resolve(Fields(-0x8000_0000, 0, 0, -1, wd, -0x8000_0000, 100, 100, 100));
            r == Parsed(Date(0, 0, 0), wd) && !StoredOk(r.ymd)
  {
    ShortOfDate(NO_FIELDS.(wd := wd));
  }

  /** A month and a day without a year are taken for a date of the year 0, and the weekday and weeks
      read with them are held against that date. */
  lemma YearlessIsYearZero(f: Fields, d: Date)
    requires StoredOk(d) && d.year == 0 && f.Y == NOT_A_YEAR && f.m == d.month && f.d == d.day && !HasIso(f)
    ensures var z := ToDays(d);
            Resolve(f) == if WeeksPrinted(f, z) then Parsed(d, WeekdayOf(z)) else Broken
  {
    hide Finish, WeeksPrinted, StoredOk, ToDays, WeekdayOf;
    FinishFull(InYearRange(f), false, d);
  }

  /** A day of the year beside a full date is held against its month and day. */
  lemma DayOfYearWithFull(f: Fields, d: Date)
    requires StoredOk(d) && f.Y == d.year && f.m == d.month && f.d == d.day
    ensures var trial := TrialDayOfYear(f);
            AgreeInYear(f, trial) == if trial.month == d.month && trial.day == d.day then Held(f) else Failed
  {
    hide ToDays, FromDays, LastDay, TrialDayOfYear;
    DayInMonth(d);
  }

  /** With a full date, the other fields are held against it: it is accepted exactly when the
      weekday and the weeks of the year are those printed for it, the ISO week, when complete,
      names it, and so, when the date has not been computed from one of these, do the ISO year
      and week singly; a day of the year has to have its month and day. */
  lemma FullDateAccepted(f: Fields, d: Date)
    requires StoredOk(d) && f.Y == d.year && f.m == d.month && f.d == d.day
    requires (0 <= f.wd <= 6 || f.wd == NOT_A_WEEKDAY) && 0 <= f.U <= NOT_A_WEEK_NUM && 0 <= f.W <= NOT_A_WEEK_NUM
    ensures var z := ToDays(d);
            var computed := HasIso(f) || HasSundayWeek(f) || HasMondayWeek(f);
            var agrees :=
              && (f.wd != NOT_A_WEEKDAY ==> f.wd == WeekdayOf(z))
              && (f.U != NOT_A_WEEK_NUM ==> f.U == FormatWeek(SUNDAY, z))
              && (f.W != NOT_A_WEEK_NUM ==> f.W == FormatWeek(MONDAY, z))
              && (HasIso(f) ==> TrialIso(f) == d)
              && (HasDayOfYear(f) ==> TrialDayOfYear(f).month == d.month && TrialDayOfYear(f).day == d.day)
              && (!computed && f.G != NOT_A_YEAR ==> f.G == FormatG(z))
              && (!computed && f.V != NOT_A_WEEK_NUM ==> f.V == FormatV(z));
            Resolve(f) == if agrees then Parsed(d, WeekdayOf(z)) else Broken
  {
    hide TrialIso, TrialWeek, TrialDayOfYear, Agree, AgreeInYear, Finish, FormatG, FormatV, FormatWeek;
    hide ToDays, WeekdayOf, LastDay;
    AgreeWithFull(f, TrialIso(f), d);
    AgreeWithFull(f, TrialWeek(SUNDAY, f, f.U), d);
    AgreeWithFull(f, TrialWeek(MONDAY, f, f.W), d);
    DayOfYearWithFull(f, d);
    if HasSundayWeek(f) {
      WeekTrialExactly(SUNDAY, f, f.U, d);
    }
    if HasMondayWeek(f) {
      WeekTrialExactly(MONDAY, f, f.W, d);
    }
    FinishFull(f, HasIso(f) || HasSundayWeek(f) || HasMondayWeek(f), d);
  }
}
