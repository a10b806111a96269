/** POSIX time zones of ptz.h, after section 8.3 of the Base Definitions of IEEE Std 1003.1.
    A time is a real number of seconds, so that every tick size is covered. */
module PosixZone {
  import opened Calendar
  import opened Gregorian
  import opened Weekday

  /** A date of the year, and the seconds after its midnight. */
  datatype Rule =
    | Off
    | J(n: int, time: int)
    | M(month: int, weekday: int, n: int, time: int)
    | N(n: int, time: int)

  const DAY := 86400

  /** `rule::operator()`: the local time, in seconds, at which the rule strikes in year `y`.
      The source asserts that it is not called on a rule that is off. */
  function RuleAt(r: Rule, y: int): int
    requires !r.Off?
  {
    match r
    case J(n, time) => DAY * (ToDays(Date(y, 1, 0)) + n + if IsLeap(y) && n > 59 then 1 else 0) + time
    case M(m, wd, n, time) =>
      DAY * (if n == 5 then LastToDays(y, m, wd) else NthToDays(NthWeekday(y, m, wd, n))) + time
    case N(n, time) => DAY * (YearStart(y) + n) + time
  }

  datatype Zone = Zone(offset: int, save: int, start: Rule, end: Rule, std: string, dst: string)
  {
    /** Rules are read both or neither. */
    predicate Valid() {
      start.Off? <==> end.Off?
    }

    /** The UTC instants, in seconds, at which daylight saving time starts and ends in year `y`. */
    function StartAt(y: int): int
      requires !start.Off?
    {
      RuleAt(start, y) - offset
    }

    function EndAt(y: int): int
      requires !end.Off?
    {
      RuleAt(end, y) - (offset + save)
    }
  }

  datatype SysInfo = SysInfo(begin: int, end: int, offset: int, save: int, abbrev: string)

  const NO_INFO := SysInfo(0, 0, 0, 0, "")

  datatype LocalResult = Unique | Nonexistent | Ambiguous

  datatype LocalInfo = LocalInfo(result: LocalResult, first: SysInfo, second: SysInfo)

  /** `ceil<minutes>`. */
  function CeilMinutes(seconds: int): (m: int)
    ensures 60 * (m - 1) < seconds <= 60 * m
  {
    -((-seconds) / 60)
  }

  /** The year that holds a time, through `floor<days>`. */
  function YearAt(t: real): int {
    FromDays((t / (DAY as real)).Floor).year
  }

  function ConstantInfo(z: Zone): SysInfo {
    SysInfo(DAY * YearStart(-0x7FFF), DAY * ToDays(Date(0x7FFF, 12, 31)), z.offset, 0, z.std)
  }

  /** The three intervals that touch year `y`. */
  function Before(z: Zone, y: int): SysInfo
    requires !z.start.Off? && !z.end.Off?
  {
    SysInfo(z.EndAt(y - 1), z.StartAt(y), z.offset, 0, z.std)
  }

  function During(z: Zone, y: int): SysInfo
    requires !z.start.Off? && !z.end.Off?
  {
    SysInfo(z.StartAt(y), z.EndAt(y), z.offset + z.save, CeilMinutes(z.save), z.dst)
  }

  function After(z: Zone, y: int): SysInfo
    requires !z.start.Off? && !z.end.Off?
  {
    SysInfo(z.EndAt(y), z.StartAt(y + 1), z.offset, 0, z.std)
  }

  function InfoInYear(z: Zone, y: int, st: real): SysInfo
    requires !z.start.Off? && !z.end.Off?
  {
    if z.StartAt(y) as real <= st && st < z.EndAt(y) as real then During(z, y)
    else if st < z.StartAt(y) as real then Before(z, y)
    else After(z, y)
  }

  /** `get_info(sys_time)`. */
  function GetSysInfo(z: Zone, st: real): SysInfo
    requires z.Valid()
  {
    if z.start.Off? then ConstantInfo(z) else InfoInYear(z, YearAt(st), st)
  }

  /** `get_info(local_time)`. */
  function GetLocalInfo(z: Zone, tp: real): LocalInfo
    requires z.Valid()
  {
    if z.start.Off? then LocalInfo(Unique, ConstantInfo(z), NO_INFO)
    else
      var y := YearAt(tp);
      var start := z.StartAt(y);
      var end := z.EndAt(y);
      var utcs := (tp - z.offset as real).Floor;
      var utcd := (tp - (z.offset + z.save) as real).Floor;
      if (utcs < start) != (utcd < start) then
        LocalInfo(if z.save > 0 then Nonexistent else Ambiguous, Before(z, y), During(z, y))
      else if (utcs < end) != (utcd < end) then
        LocalInfo(if z.save > 0 then Ambiguous else Nonexistent, During(z, y), After(z, y))
      else if utcs < start then LocalInfo(Unique, Before(z, y), NO_INFO)
      else if utcs < end then LocalInfo(Unique, During(z, y), NO_INFO)
      else LocalInfo(Unique, After(z, y), NO_INFO)
  }

  function ToLocal(z: Zone, tp: real): real
    requires z.Valid()
  {
    tp + GetSysInfo(z, tp).offset as real
  }

  datatype SysResult = Sys(t: real) | NonexistentLocalTime(i: LocalInfo) | AmbiguousLocalTime(i: LocalInfo)

  /** `to_sys(local_time)`, which throws on a local time that is not unique. */
  function ToSys(z: Zone, tp: real): SysResult
    requires z.Valid()
  {
    var i := GetLocalInfo(z, tp);
    if i.result == Nonexistent then NonexistentLocalTime(i)
    else if i.result == Ambiguous then AmbiguousLocalTime(i)
    else Sys(tp - i.first.offset as real)
  }

  datatype Choose = Earliest | Latest

  /** `to_sys(local_time, choose)`. */
  function ToSysChoose(z: Zone, tp: real, c: Choose): real
    requires z.Valid()
  {
    var i := GetLocalInfo(z, tp);
    if i.result == Nonexistent then i.first.end as real
    else if i.result == Ambiguous && c == Latest then tp - i.second.offset as real
    else tp - i.first.offset as real
  }

  // ----- Where the transitions lie -----

  /** Midnight, in seconds, at the start of year `y`. */
  function YearBegin(y: int): int {
    DAY * YearStart(y)
  }

  function Min(a: int, b: int): int { if a < b then a else b }

  function Max(a: int, b: int): int { if a < b then b else a }

  function Abs(a: int): int { if a < 0 then -a else a }

  /** Both transitions of a year lie in it by UTC, start before end. */
  predicate OrderedIn(z: Zone, y: int)
    requires !z.start.Off? && !z.end.Off?
  {
    YearBegin(y) <= z.StartAt(y) < z.EndAt(y) <= YearBegin(y + 1)
  }

  ghost predicate WellOrdered(z: Zone) {
    !z.start.Off? && !z.end.Off? && forall y :: OrderedIn(z, y)
  }

  /** They also lie in it by either local clock, at least as far apart as the clock moves. */
  predicate PlacedIn(z: Zone, y: int)
    requires !z.start.Off? && !z.end.Off?
  {
    && YearBegin(y) - Min(0, Min(z.offset, z.offset + z.save)) <= z.StartAt(y)
    && OrderedIn(z, y)
    && z.StartAt(y) + Abs(z.save) <= z.EndAt(y)
    && z.EndAt(y) <= YearBegin(y + 1) - Max(0, Max(z.offset, z.offset + z.save))
  }

  ghost predicate WellPlaced(z: Zone) {
    !z.start.Off? && !z.end.Off? && forall y :: PlacedIn(z, y)
  }

  /** Saving has started in year `y`, by the standard clock, and every end so far, by the saving
      clock, was not after that start. */
  ghost predicate SinceStart(z: Zone, t: real, y: int)
    requires !z.start.Off? && !z.end.Off?
  {
    && RuleAt(z.start, y) as real <= t + z.offset as real
    && forall w :: RuleAt(z.end, w) as real <= t + (z.offset + z.save) as real ==>
                     RuleAt(z.end, w) - z.save <= RuleAt(z.start, y)
  }

  /** What POSIX means by daylight saving time: the last transition so far was to it. This is said by
      the rules and the two clocks alone, without the instants that the code computes. */
  ghost predicate InDst(z: Zone, t: real)
    requires !z.start.Off? && !z.end.Off?
  {
    exists y :: SinceStart(z, t, y)
  }

  lemma SinceStartInUtc(z: Zone, t: real, y: int)
    requires !z.start.Off? && !z.end.Off?
    ensures SinceStart(z, t, y) <==>
            z.StartAt(y) as real <= t && forall w :: z.EndAt(w) as real <= t ==> z.EndAt(w) <= z.StartAt(y)
  {
    hide RuleAt;
    forall w
      ensures z.EndAt(w) as real <= t <==> RuleAt(z.end, w) as real <= t + (z.offset + z.save) as real
      ensures z.EndAt(w) <= z.StartAt(y) <==> RuleAt(z.end, w) - z.save <= RuleAt(z.start, y)
    {
    }
  }

  lemma YearAtByBegin(t: real, y: int)
    ensures YearAt(t) == y <==> YearBegin(y) as real <= t < YearBegin(y + 1) as real
    ensures YearAt(t) < y <==> t < YearBegin(y) as real
  {
    hide FromDays, YearStart;
    var q := t / (DAY as real);
    assert t == q * (DAY as real);
    YearOfDay(q.Floor, y);
    assert YearBegin(y) as real == (YearStart(y) as real) * (DAY as real);
    assert YearBegin(y + 1) as real == (YearStart(y + 1) as real) * (DAY as real);
  }

  lemma {:induction false} YearsAscend(x: int, y: int)
    requires x <= y
    ensures YearBegin(x) <= YearBegin(y)
    decreases y - x
  {
    hide YearStart, IsLeap;
    if x < y {
      YearLength(x);
      YearsAscend(x + 1, y);
    }
  }

  lemma TransitionsAscend(z: Zone, x: int, y: int)
    requires WellOrdered(z) && x < y
    ensures z.StartAt(x) < z.EndAt(x) <= YearBegin(y) <= z.StartAt(y) < z.EndAt(y)
  {
    hide RuleAt, YearBegin;
    assert OrderedIn(z, x) && OrderedIn(z, y);
    YearsAscend(x + 1, y);
  }

  /** Between the end of one year's saving and the start of the next year's, a time is in
      saving exactly when it is in the saving of the year between. */
  lemma DstInWindow(z: Zone, t: real, y: int)
    requires WellOrdered(z)
    requires z.EndAt(y - 1) as real <= t < z.StartAt(y + 1) as real
    ensures InDst(z, t) <==> z.StartAt(y) as real <= t < z.EndAt(y) as real
  {
    hide RuleAt, YearBegin, SinceStart;
    TransitionsAscend(z, y - 1, y);
    SinceStartInUtc(z, t, y);
    if InDst(z, t) {
      var x :| SinceStart(z, t, x);
      SinceStartInUtc(z, t, x);
      if x < y {
        TransitionsAscend(z, x, y);
        assert z.EndAt(x) <= z.EndAt(y - 1) by {
          if x < y - 1 { TransitionsAscend(z, x, y - 1); }
        }
      } else if x > y + 1 {
        TransitionsAscend(z, y + 1, x);
      }
    }
    if z.StartAt(y) as real <= t < z.EndAt(y) as real {
      forall w | z.EndAt(w) as real <= t
        ensures z.EndAt(w) <= z.StartAt(y)
      {
        if w < y {
          TransitionsAscend(z, w, y);
        } else if y < w {
          TransitionsAscend(z, y, w);
        }
      }
    }
  }

  /** Saving lasts in year `y` from the start by the standard clock to the end by the saving clock. */
  predicate SavingIn(z: Zone, t: real, y: int)
    requires !z.start.Off? && !z.end.Off?
  {
    RuleAt(z.start, y) as real <= t + z.offset as real && t + (z.offset + z.save) as real < RuleAt(z.end, y) as real
  }

  lemma DstByClocks(z: Zone, t: real)
    requires WellOrdered(z)
    ensures InDst(z, t) <==> exists y :: SavingIn(z, t, y)
  {
    hide RuleAt, YearBegin, YearAt, InDst;
    var x := YearAt(t);
    YearAtByBegin(t, x);
    TransitionsAscend(z, x - 1, x);
    TransitionsAscend(z, x, x + 1);
    DstInWindow(z, t, x);
    if InDst(z, t) {
      assert SavingIn(z, t, x);
    }
    if y :| SavingIn(z, t, y) {
      TransitionsAscend(z, y - 1, y);
      TransitionsAscend(z, y, y + 1);
      DstInWindow(z, t, y);
    }
  }

  lemma ReportedYear(z: Zone, t: real) returns (x: int)
    requires z.Valid() && WellOrdered(z)
    ensures GetSysInfo(z, t) == if InDst(z, t) then During(z, x) else After(z, x)
  {
    hide RuleAt, YearBegin, YearAt, CeilMinutes, InDst;
    var y := YearAt(t);
    YearAtByBegin(t, y);
    TransitionsAscend(z, y - 1, y);
    TransitionsAscend(z, y, y + 1);
    DstInWindow(z, t, y);
    x := if t < z.StartAt(y) as real then y - 1 else y;
    assert x + 1 == y || x == y;
  }

  /** The saving of year `y`, and the standard time after it, between the instants at which the
      standard clock shows the start rule and the saving clock the end rule. */
  function SavingOf(z: Zone, y: int): SysInfo
    requires !z.start.Off? && !z.end.Off?
  {
    SysInfo(RuleAt(z.start, y) - z.offset, RuleAt(z.end, y) - (z.offset + z.save), z.offset + z.save,
            CeilMinutes(z.save), z.dst)
  }

  function StandardAfter(z: Zone, y: int): SysInfo
    requires !z.start.Off? && !z.end.Off?
  {
    SysInfo(RuleAt(z.end, y) - (z.offset + z.save), RuleAt(z.start, y + 1) - z.offset, z.offset, 0, z.std)
  }

  lemma InfoByRules(z: Zone, y: int)
    requires !z.start.Off? && !z.end.Off?
    ensures During(z, y) == SavingOf(z, y) && After(z, y) == StandardAfter(z, y)
  {
    hide RuleAt, CeilMinutes;
  }

  /** What is reported for an instant: whether saving is on, and the transitions between which
      the instant lies, in UTC. The code looks at the year by UTC; that year's saving decides. */
  lemma SysInfoByDst(z: Zone, t: real)
    requires z.Valid() && WellOrdered(z)
    ensures InDst(z, t) <==> exists y :: SavingIn(z, t, y)
    ensures exists y :: GetSysInfo(z, t) == if InDst(z, t) then SavingOf(z, y) else StandardAfter(z, y)
  {
    DstByClocks(z, t);
    hide InDst, GetSysInfo, During, After, SavingOf, StandardAfter;
    var x := ReportedYear(z, t);
    InfoByRules(z, x);
    hide WellOrdered;
  }

  ghost predicate RightAt(z: Zone, t: real)
    requires z.Valid() && !z.start.Off?
  {
    GetSysInfo(z, t).offset == z.offset + if InDst(z, t) then z.save else 0
  }

  /** An instant of saving that is reported as standard time. */
  ghost predicate MissedAt(z: Zone, t: real)
    requires z.Valid() && !z.start.Off?
  {
    InDst(z, t) && GetSysInfo(z, t).offset == z.offset
  }

  /** The transitions alternate, the start of a year coming before its end. */
  predicate AlternatesIn(z: Zone, y: int)
    requires !z.start.Off? && !z.end.Off?
  {
    z.StartAt(y) < z.EndAt(y) < z.StartAt(y + 1)
  }

  ghost predicate Alternates(z: Zone) {
    !z.start.Off? && !z.end.Off? && forall y :: AlternatesIn(z, y)
  }

  /** They alternate, saving ending earlier in a year than it starts, as south of the equator. */
  predicate ReversedIn(z: Zone, y: int)
    requires !z.start.Off? && !z.end.Off?
  {
    z.EndAt(y) < z.StartAt(y) < z.EndAt(y + 1)
  }

  ghost predicate Reversed(z: Zone) {
    !z.start.Off? && !z.end.Off? && forall y :: ReversedIn(z, y)
  }

  lemma {:induction false} AlternationAscends(z: Zone, x: int, y: int)
    requires Alternates(z) && x < y
    ensures z.StartAt(x) < z.EndAt(x) < z.StartAt(y) < z.EndAt(y)
    decreases y - x
  {
    hide RuleAt;
    assert AlternatesIn(z, x) && AlternatesIn(z, y);
    if x + 1 < y {
      AlternationAscends(z, x + 1, y);
    }
  }

  /** A reversed zone is never reported in saving, though every start rule begins some. */
  lemma ReversedNeverSaves(z: Zone, t: real, y: int)
    requires z.Valid() && Reversed(z)
    ensures GetSysInfo(z, t).offset == z.offset
    ensures MissedAt(z, z.StartAt(y) as real)
  {
    hide RuleAt, YearBegin, YearAt, CeilMinutes;
    assert ReversedIn(z, YearAt(t)) && ReversedIn(z, YearAt(z.StartAt(y) as real));
    StartBeginsSaving(z, y);
  }

  lemma StartBeginsSaving(z: Zone, y: int)
    requires !z.start.Off? && !z.end.Off?
    ensures InDst(z, z.StartAt(y) as real)
  {
    hide RuleAt, SinceStart;
    SinceStartInUtc(z, z.StartAt(y) as real, y);
    assert SinceStart(z, z.StartAt(y) as real, y);
  }

  /** A start that falls outside its year by UTC is missed: the code looks at another year. */
  lemma StartOutsideYearMissed(z: Zone, y: int)
    requires z.Valid() && Alternates(z) && !(YearBegin(y) <= z.StartAt(y) < YearBegin(y + 1))
    ensures MissedAt(z, z.StartAt(y) as real)
  {
    hide RuleAt, YearBegin, YearAt, CeilMinutes;
    StartBeginsSaving(z, y);
    var t := z.StartAt(y) as real;
    var x := YearAt(t);
    YearAtByBegin(t, y);
    if x < y {
      AlternationAscends(z, x, y);
    } else {
      AlternationAscends(z, y, x);
    }
  }

  /** Saving that goes on past the end of its year by UTC is missed from the new year on. */
  lemma LateEndMissed(z: Zone, y: int)
    requires z.Valid() && Alternates(z) && z.StartAt(y) < YearBegin(y + 1) < z.EndAt(y)
    ensures MissedAt(z, YearBegin(y + 1) as real)
  {
    hide RuleAt, YearBegin, YearAt, CeilMinutes;
    var t := YearBegin(y + 1) as real;
    NextYearLater(y + 1);
    YearAtByBegin(t, y + 1);
    AlternationAscends(z, y, y + 1);
    hide SinceStart;
    assert SinceStart(z, t, y) by {
      SinceStartInUtc(z, t, y);
      forall w | z.EndAt(w) as real <= t
        ensures z.EndAt(w) <= z.StartAt(y)
      {
        if w < y {
          AlternationAscends(z, w, y);
        } else if y < w {
          AlternationAscends(z, y, w);
        }
      }
    }
  }

  lemma NextYearLater(y: int)
    ensures YearBegin(y) < YearBegin(y + 1)
  {
    hide YearStart, IsLeap;
    YearLength(y);
  }

  /** Of all zones whose starts and ends alternate, whichever comes first in the year, the code
      is right at every instant about exactly those whose transitions lie in their year by UTC,
      the start first. */
  lemma RightExactly(z: Zone)
    requires z.Valid() && z.save != 0 && (Alternates(z) || Reversed(z))
    ensures (forall t :: RightAt(z, t)) <==> WellOrdered(z)
  {
    hide RuleAt, YearBegin, GetSysInfo;
    if WellOrdered(z) {
      forall t ensures RightAt(z, t) {
        var x := ReportedYear(z, t);
      }
    } else if Reversed(z) {
      ReversedNeverSaves(z, 0.0, 1970);
      assert !RightAt(z, z.StartAt(1970) as real);
    } else {
      var y :| !OrderedIn(z, y);
      assert AlternatesIn(z, y);
      if YearBegin(y) <= z.StartAt(y) < YearBegin(y + 1) {
        LateEndMissed(z, y);
        assert !RightAt(z, YearBegin(y + 1) as real);
      } else {
        StartOutsideYearMissed(z, y);
        assert !RightAt(z, z.StartAt(y) as real);
      }
    }
  }

  // ----- The intervals tile the time line -----

  /** The interval reported for an instant holds it, and every instant of it is reported alike. */
  lemma IntervalHolds(z: Zone, t: real, u: real)
    requires z.Valid() && WellOrdered(z)
    ensures var i := GetSysInfo(z, t);
            && i.begin as real <= t < i.end as real
            && (i.begin as real <= u < i.end as real ==> GetSysInfo(z, u) == i)
  {
    hide RuleAt, YearBegin, YearAt, CeilMinutes;
    var y, x := YearAt(t), YearAt(u);
    YearAtByBegin(t, y);
    YearAtByBegin(u, y);
    YearAtByBegin(u, y + 1);
    YearAtByBegin(u, y - 1);
    YearAtByBegin(u, x);
    TransitionsAscend(z, y - 2, y - 1);
    TransitionsAscend(z, y - 1, y);
    TransitionsAscend(z, y, y + 1);
    TransitionsAscend(z, y + 1, y + 2);
  }

  /** The interval reported at the end of another begins there. */
  lemma IntervalsMeet(z: Zone, t: real)
    requires z.Valid() && WellOrdered(z)
    ensures GetSysInfo(z, GetSysInfo(z, t).end as real).begin == GetSysInfo(z, t).end
  {
    hide RuleAt, YearBegin, YearAt, CeilMinutes;
    var y, end := YearAt(t), GetSysInfo(z, t).end;
    YearAtByBegin(t, y);
    TransitionsAscend(z, y - 1, y);
    TransitionsAscend(z, y, y + 1);
    TransitionsAscend(z, y + 1, y + 2);
    YearAtByBegin(end as real, y);
    YearAtByBegin(end as real, y + 1);
  }

  // ----- Local times -----

  lemma PlacedIsOrdered(z: Zone)
    requires WellPlaced(z)
    ensures WellOrdered(z)
  {
    forall y ensures OrderedIn(z, y) {
      assert PlacedIn(z, y);
    }
  }

  /** The instants at which the standard clock shows a time of year `y`. */
  predicate InLocalYear(z: Zone, y: int, t: real) {
    (YearBegin(y) - z.offset) as real <= t < (YearBegin(y + 1) - z.offset) as real
  }

  /** On those instants the report is that of year `y`, though by UTC some lie in another year. */
  lemma InfoByLocalYear(z: Zone, y: int, t: real)
    requires z.Valid() && WellPlaced(z) && InLocalYear(z, y, t)
    ensures GetSysInfo(z, t) == InfoInYear(z, y, t)
  {
    hide RuleAt, YearBegin, YearAt, CeilMinutes;
    PlacedIsOrdered(z);
    var x := YearAt(t);
    YearAtByBegin(t, x);
    YearAtByBegin(t, y - 1);
    YearAtByBegin(t, y + 2);
    assert PlacedIn(z, y - 1) && PlacedIn(z, y) && PlacedIn(z, y + 1);
    TransitionsAscend(z, y - 1, y);
    TransitionsAscend(z, y, y + 1);
    TransitionsAscend(z, y - 2, y - 1);
    TransitionsAscend(z, y + 1, y + 2);
  }

  /** The local clock shows a time of year `y` exactly when the standard clock does. */
  lemma LocalYearOf(z: Zone, y: int, t: real)
    requires z.Valid() && WellPlaced(z)
    ensures ToLocal(z, t) < YearBegin(y) as real <==> t < (YearBegin(y) - z.offset) as real
  {
    hide RuleAt, YearBegin, YearAt, CeilMinutes;
    PlacedIsOrdered(z);
    var x := YearAt(t);
    YearAtByBegin(t, x);
    assert PlacedIn(z, x) && PlacedIn(z, y) && PlacedIn(z, y - 1);
    if x < y {
      YearsAscend(x + 1, y);
      if x < y - 1 { TransitionsAscend(z, x, y - 1); }
    } else if y < x {
      YearsAscend(y, x);
      TransitionsAscend(z, y, x);
    }
  }

  /** Only instants of the local year of `tp` can show `tp`. */
  lemma ShownInYear(z: Zone, tp: real, u: real)
    requires z.Valid() && WellPlaced(z)
    ensures var y := YearAt(tp);
            ToLocal(z, u) == tp <==> InLocalYear(z, y, u) && u + InfoInYear(z, y, u).offset as real == tp
  {
    hide RuleAt, YearBegin, YearAt, CeilMinutes, InfoInYear;
    var y := YearAt(tp);
    YearAtByBegin(tp, y);
    LocalYearOf(z, y, u);
    LocalYearOf(z, y + 1, u);
    if InLocalYear(z, y, u) {
      InfoByLocalYear(z, y, u);
    }
  }

  lemma FloorLess(x: real, n: int)
    ensures x.Floor < n <==> x < n as real
  {
  }

  /** The comparisons of whole seconds are comparisons of the times themselves. */
  lemma LocalInfoByCases(z: Zone, tp: real)
    requires z.Valid() && !z.start.Off?
    ensures var y := YearAt(tp);
            var s, d := tp - z.offset as real, tp - (z.offset + z.save) as real;
            var start, end := z.StartAt(y) as real, z.EndAt(y) as real;
            GetLocalInfo(z, tp) ==
              if (s < start) != (d < start) then
                LocalInfo(if z.save > 0 then Nonexistent else Ambiguous, Before(z, y), During(z, y))
              else if (s < end) != (d < end) then
                LocalInfo(if z.save > 0 then Ambiguous else Nonexistent, During(z, y), After(z, y))
              else if s < start then LocalInfo(Unique, Before(z, y), NO_INFO)
              else if s < end then LocalInfo(Unique, During(z, y), NO_INFO)
              else LocalInfo(Unique, After(z, y), NO_INFO)
  {
    hide RuleAt, YearBegin, YearAt, CeilMinutes;
    var y := YearAt(tp);
    FloorLess(tp - z.offset as real, z.StartAt(y));
    FloorLess(tp - z.offset as real, z.EndAt(y));
    FloorLess(tp - (z.offset + z.save) as real, z.StartAt(y));
    FloorLess(tp - (z.offset + z.save) as real, z.EndAt(y));
  }

  /** Of the two instants that could show a time of year `y`, the one by the standard clock is
      an instant of that year; so is the one by the saving clock, when saving is on. */
  lemma Candidates(z: Zone, y: int, tp: real)
    requires WellPlaced(z)
    requires YearBegin(y) as real <= tp < YearBegin(y + 1) as real
    ensures var s, d := tp - z.offset as real, tp - (z.offset + z.save) as real;
            && InLocalYear(z, y, s)
            && (z.StartAt(y) as real <= d < z.EndAt(y) as real ==> InLocalYear(z, y, d))
  {
    hide RuleAt, YearBegin, YearAt, CeilMinutes;
    assert PlacedIn(z, y);
  }

  /** What the classification of a local time means, in terms of the map from UTC alone:
      a unique time is shown once, an ambiguous one twice, a nonexistent one never; and what
      is reported with it are the intervals on either side. */
  lemma Classified(z: Zone, tp: real, u: real)
    requires z.Valid() && WellPlaced(z)
    ensures var i := GetLocalInfo(z, tp);
            var t1, t2 := tp - i.first.offset as real, tp - i.second.offset as real;
            match i.result
            case Unique => ToLocal(z, u) == tp <==> u == t1
            case Ambiguous => (ToLocal(z, u) == tp <==> u == t1 || u == t2) && t1 < i.first.end as real <= t2
            case Nonexistent => ToLocal(z, u) != tp && t2 < i.first.end as real <= t1
  {
    hide RuleAt, YearBegin, YearAt, CeilMinutes, ToLocal, GetLocalInfo;
    var y := YearAt(tp);
    YearAtByBegin(tp, y);
    assert PlacedIn(z, y);
    LocalInfoByCases(z, tp);
    ShownInYear(z, tp, u);
    Candidates(z, y, tp);
  }

  /** The intervals reported with a local time are those reported at the instants that show it; the
      two that bound a gap are those before and after the transition at which they meet. */
  lemma ReportsAgree(z: Zone, tp: real)
    requires z.Valid() && WellPlaced(z)
    ensures var i := GetLocalInfo(z, tp);
            && (i.result != Nonexistent ==> GetSysInfo(z, tp - i.first.offset as real) == i.first)
            && (i.result == Ambiguous ==> GetSysInfo(z, tp - i.second.offset as real) == i.second)
            && (i.result == Unique ==> i.second == NO_INFO)
            && (i.result != Unique ==> i.first.end == i.second.begin)
            && (i.result == Nonexistent ==>
                  GetSysInfo(z, i.first.begin as real) == i.first && GetSysInfo(z, i.second.begin as real) == i.second)
  {
    hide RuleAt, YearBegin, YearAt, CeilMinutes, GetLocalInfo, GetSysInfo;
    var y := YearAt(tp);
    YearAtByBegin(tp, y);
    assert PlacedIn(z, y);
    LocalInfoByCases(z, tp);
    Candidates(z, y, tp);
    var s, d := tp - z.offset as real, tp - (z.offset + z.save) as real;
    InfoByLocalYear(z, y, s);
    if InLocalYear(z, y, d) {
      InfoByLocalYear(z, y, d);
    }
    AtTransitions(z, y);
    AtTransitions(z, y - 1);
  }

  /** From the transitions of a year on, what is reported is what they begin. */
  lemma AtTransitions(z: Zone, y: int)
    requires z.Valid() && WellPlaced(z)
    ensures GetSysInfo(z, z.StartAt(y) as real) == During(z, y)
    ensures z.save != 0 ==> GetSysInfo(z, z.EndAt(y) as real) == After(z, y)
  {
    hide RuleAt, YearBegin, YearAt, CeilMinutes;
    assert PlacedIn(z, y) && PlacedIn(z, y + 1);
    YearAtByBegin(z.StartAt(y) as real, y);
    YearAtByBegin(z.EndAt(y) as real, y);
    YearAtByBegin(z.EndAt(y) as real, y + 1);
    YearsAscend(y + 1, y + 2);
    NextYearLater(y + 1);
  }

  /** `to_sys` undoes `to_local`: for every instant one of the two choices returns it, and
      without a choice it is returned exactly when its local time is not ambiguous. */
  lemma ToSysUndoesToLocal(z: Zone, t: real)
    requires z.Valid() && WellPlaced(z)
    ensures var tp := ToLocal(z, t);
            && (ToSysChoose(z, tp, Earliest) == t || ToSysChoose(z, tp, Latest) == t)
            && (ToSys(z, tp) == Sys(t) <==> GetLocalInfo(z, tp).result == Unique)
            && (ToSys(z, tp).AmbiguousLocalTime? <==> GetLocalInfo(z, tp).result == Ambiguous)
  {
    hide ToLocal, GetLocalInfo;
    Classified(z, ToLocal(z, t), t);
  }

  /** `to_sys` without a choice says what can be said: the one instant that shows the time, that there
      is none, or that there are two. */
  lemma ToSysExactly(z: Zone, tp: real)
    requires z.Valid() && WellPlaced(z)
    ensures match ToSys(z, tp)
            case Sys(t) => forall u :: ToLocal(z, u) == tp <==> u == t
            case NonexistentLocalTime(i) => i == GetLocalInfo(z, tp) && forall u :: ToLocal(z, u) != tp
            case AmbiguousLocalTime(i) =>
              i == GetLocalInfo(z, tp) && exists u, v :: u < v && ToLocal(z, u) == tp == ToLocal(z, v)
  {
    hide ToLocal, GetLocalInfo;
    var i := GetLocalInfo(z, tp);
    forall u
      ensures i.result == Unique ==> (ToLocal(z, u) == tp <==> u == tp - i.first.offset as real)
      ensures i.result == Nonexistent ==> ToLocal(z, u) != tp
    {
      Classified(z, tp, u);
    }
    Classified(z, tp, tp - i.first.offset as real);
    Classified(z, tp, tp - i.second.offset as real);
  }

  /** What the choices return, and where it lies: in the local year, or at its very end. */
  lemma ChoiceInYear(z: Zone, tp: real, c: Choose)
    requires z.Valid() && WellPlaced(z)
    ensures var t, y := ToSysChoose(z, tp, c), YearAt(tp);
            (YearBegin(y) - z.offset) as real <= t <= (YearBegin(y + 1) - z.offset) as real
  {
    hide RuleAt, YearBegin, YearAt, CeilMinutes, GetLocalInfo;
    var y := YearAt(tp);
    YearAtByBegin(tp, y);
    assert PlacedIn(z, y);
    LocalInfoByCases(z, tp);
  }

  /** Before the earliest choice the local clock is short of the time, and after the latest
      choice it is past it. */
  lemma ChoicesBound(z: Zone, tp: real, w: real)
    requires z.Valid() && WellPlaced(z)
    ensures w < ToSysChoose(z, tp, Earliest) ==> ToLocal(z, w) < tp
    ensures w > ToSysChoose(z, tp, Latest) ==> ToLocal(z, w) > tp
  {
    hide RuleAt, YearBegin, YearAt, CeilMinutes, GetLocalInfo, ToLocal;
    var y := YearAt(tp);
    YearAtByBegin(tp, y);
    assert PlacedIn(z, y);
    ChoiceInYear(z, tp, Earliest);
    ChoiceInYear(z, tp, Latest);
    LocalInfoByCases(z, tp);
    LocalYearOf(z, y, w);
    LocalYearOf(z, y + 1, w);
    if InLocalYear(z, y, w) {
      LocalInYear(z, y, w);
    }
  }

  lemma LocalInYear(z: Zone, y: int, w: real)
    requires z.Valid() && WellPlaced(z) && InLocalYear(z, y, w)
    ensures ToLocal(z, w) ==
            w + (if z.StartAt(y) as real <= w < z.EndAt(y) as real then z.offset + z.save else z.offset) as real
  {
    hide RuleAt, YearBegin, YearAt, CeilMinutes;
    InfoByLocalYear(z, y, w);
  }

  /** A choice returns an instant that shows the time whenever there is one; in a gap it
      returns the transition, at which the local clock passes the time. */
  lemma ChoiceMeaning(z: Zone, tp: real, c: Choose)
    requires z.Valid() && WellPlaced(z)
    ensures var t := ToSysChoose(z, tp, c);
            && (ToLocal(z, t) == tp <==> GetLocalInfo(z, tp).result != Nonexistent)
            && ToLocal(z, t) >= tp
            && (ToLocal(z, t) != tp ==> t == ToSysChoose(z, tp, Earliest) == ToSysChoose(z, tp, Latest))
  {
    hide RuleAt, YearBegin, YearAt, CeilMinutes, GetLocalInfo, ToLocal;
    var y, t := YearAt(tp), ToSysChoose(z, tp, c);
    YearAtByBegin(tp, y);
    assert PlacedIn(z, y);
    LocalInfoByCases(z, tp);
    Classified(z, tp, t);
    LocalYearOf(z, y + 1, t);
    ChoiceInYear(z, tp, c);
    if InLocalYear(z, y, t) {
      LocalInYear(z, y, t);
    }
  }

  /** Later local times never convert to earlier instants, with either choice. */
  lemma ToSysIsMonotone(z: Zone, a: real, b: real, c: Choose)
    requires z.Valid() && WellPlaced(z) && a <= b
    ensures ToSysChoose(z, a, c) <= ToSysChoose(z, b, c)
  {
    hide ToLocal, GetLocalInfo, ToSysChoose;
    var s, t := ToSysChoose(z, a, c), ToSysChoose(z, b, c);
    ChoiceMeaning(z, a, c);
    ChoiceMeaning(z, b, c);
    if t < s {
      var w := (s + t) / 2.0;
      match c
      case Earliest =>
        ChoicesBound(z, a, t);
      case Latest =>
        ChoicesBound(z, b, s);
        ChoicesBound(z, a, w);
        ChoicesBound(z, b, w);
    }
  }

  // ----- Rules -----

  /** Days before each month of a year without 29 February. */
  const MONTH_STARTS := [0, 31, 59, 90, 120, 151, 181, 212, 243, 273, 304, 334, 365]

  /** The `n`-th day of such a year is day `d` of month `m`. */
  predicate CommonDay(n: int, m: int, d: int) {
    1 <= m <= 12 && MONTH_STARTS[m - 1] < n <= MONTH_STARTS[m] && d == n - MONTH_STARTS[m - 1]
  }

  lemma MonthTable(m: int)
    requires 1 <= m <= 12
    ensures MONTH_STARTS[m - 1] == MonthStart(m) + if m > 2 then 59 else -306
    ensures m > 2 <==> MONTH_STARTS[m - 1] >= 59
  {
  }

  lemma CommonMonths(y: int, m: int)
    requires 1 <= m <= 12
    ensures MONTH_STARTS[m] - MONTH_STARTS[m - 1] == LastDay(y, m) - if m == 2 && IsLeap(y) then 1 else 0
  {
  }

  /** A rule `Jn` strikes on the same month and day every year, and never on 29 February. */
  lemma JulianRuleFixed(n: int, time: int, m: int, d: int, y: int)
    requires 1 <= n <= 365 && CommonDay(n, m, d)
    ensures RuleAt(J(n, time), y) == DAY * ToDays(Date(y, m, d)) + time
    ensures Ok(GREGORIAN, Date(y, m, d)) && !(m == 2 && d == 29)
  {
    hide ToDays, IsLeap, MarchYearStart, MonthStart, LastDay;
    ToDaysByMarchYear(Date(y, 1, 0));
    ToDaysByMarchYear(Date(y, m, d));
    MarchYearLength(y - 1);
    MonthTable(1);
    MonthTable(m);
    CommonMonths(y, m);
  }

  /** A rule `n`, from 0, strikes on the day of the year with ordinal number `n + 1`, counting
      29 February. */
  lemma NumberedRule(n: int, time: int, y: int)
    requires 0 <= n < if IsLeap(y) then 366 else 365
    ensures var z := YearStart(y) + n;
            RuleAt(N(n, time), y) == DAY * z + time && FromDays(z).year == y
  {
    hide FromDays, ToDays, IsLeap;
    YearLength(y);
    YearOfDay(YearStart(y) + n, y);
  }

  /** A rule `Mm.n.d` strikes in month `m`, on weekday `d`; with `n` up to 4 it is the n-th
      such day of the month, and with `n` 5 the last. */
  lemma MonthRule(m: int, wd: int, n: int, time: int, y: int) returns (z: int)
    requires 1 <= m <= 12 && 0 <= wd <= 6 && 1 <= n <= 5
    ensures RuleAt(M(m, wd, n, time), y) == DAY * z + time
    ensures WeekdayOf(z) == wd && FromDays(z).year == y && FromDays(z).month == m
    ensures n < 5 ==> (FromDays(z).day - 1) / 7 + 1 == n
    ensures n == 5 ==> !(FromDays(z + 7).year == y && FromDays(z + 7).month == m)
  {
    hide ToDays, FromDays, LastDay, WeekdayOf, Difference;
    if n == 5 {
      LastIsLast(y, m, wd);
      z := LastToDays(y, m, wd);
    } else {
      var x := NthWeekday(y, m, wd, n);
      WithinMonth(x);
      assert NthFromDays(NthToDays(x)) == x;
      z := NthToDays(x);
    }
  }

  lemma {:induction false} MonthsAscend(y: int, a: int, b: int)
    requires 1 <= a <= b <= 12
    ensures ToDays(Date(y, a, 1)) + 28 * (b - a) <= ToDays(Date(y, b, 1))
    decreases b - a
  {
    hide ToDays, FromDays, LastDay;
    if a < b {
      MonthDays(y, a, 0);
      MonthFollows(y, a);
      MonthsAscend(y, a + 1, b);
    }
  }

  predicate MonthBased(r: Rule) {
    r.M? && 0 <= r.weekday <= 6 && 1 <= r.n <= 5 && 0 <= r.time < 100 * 3600
  }

  /** What a caller can read off a zone: month rules, the saving from February at the earliest
      to November at the latest with a month between, and clocks less than 100 hours from UTC.
      Such a zone is well placed. */
  lemma MonthZoneIsPlaced(z: Zone)
    requires MonthBased(z.start) && MonthBased(z.end)
    requires 2 <= z.start.month && z.start.month + 2 <= z.end.month <= 11
    requires -100 * 3600 < z.offset < 100 * 3600 && -100 * 3600 < z.offset + z.save < 100 * 3600
    ensures z.Valid() && WellPlaced(z)
  {
    forall y ensures PlacedIn(z, y) {
      MonthZoneInYear(z, y);
    }
  }

  lemma MonthZoneInYear(z: Zone, y: int)
    requires MonthBased(z.start) && MonthBased(z.end)
    requires 2 <= z.start.month && z.start.month + 2 <= z.end.month <= 11
    requires -100 * 3600 < z.offset < 100 * 3600 && -100 * 3600 < z.offset + z.save < 100 * 3600
    ensures PlacedIn(z, y)
  {
    hide RuleAt, YearStart;
    MonthRulesApart(z.start, z.end, y);
  }

  /** Month rules strike in the order of their months, with at least four weeks less a hundred hours
      between and at either end of the year. */
  lemma MonthRulesApart(r: Rule, s: Rule, y: int)
    requires MonthBased(r) && MonthBased(s) && 2 <= r.month && r.month + 2 <= s.month <= 11
    ensures YearBegin(y) + 28 * DAY <= RuleAt(r, y)
    ensures RuleAt(r, y) + 28 * DAY - 100 * 3600 <= RuleAt(s, y) <= YearBegin(y + 1) - 28 * DAY + 100 * 3600
  {
    hide ToDays, FromDays, LastDay, WeekdayOf, RuleAt;
    var a, b := r.month, s.month;
    var d := MonthRule(a, r.weekday, r.n, r.time, y);
    var e := MonthRule(b, s.weekday, s.n, s.time, y);
    MonthDays(y, a, d);
    MonthDays(y, b, e);
    MonthsAscend(y, 1, a);
    MonthFollows(y, a);
    MonthsAscend(y, a + 1, b);
    MonthFollows(y, b);
    MonthsAscend(y, b + 1, 12);
    MonthDays(y, 12, 0);
    MonthFollows(y, 12);
  }

  /** With the months the other way round, as south of the equator, such a zone is reversed. */
  lemma MonthZoneIsReversed(z: Zone)
    requires MonthBased(z.start) && MonthBased(z.end)
    requires 2 <= z.end.month && z.end.month + 2 <= z.start.month <= 11
    requires -100 * 3600 < z.offset < 100 * 3600 && -100 * 3600 < z.offset + z.save < 100 * 3600
    ensures z.Valid() && Reversed(z)
  {
    hide RuleAt, YearStart;
    forall y ensures ReversedIn(z, y) {
      MonthRulesApart(z.end, z.start, y);
      MonthRulesApart(z.end, z.start, y + 1);
    }
  }

  /** `XYZ-10ABC,J1/0,J100`: saving from the first midnight of the year, ten hours east of UTC. */
  const EARLY_START := Zone(10 * 3600, 3600, J(1, 0), J(100, 2 * 3600), "XYZ", "ABC")

  /** Its transitions alternate, start first, but by UTC each start falls in the year before. */
  lemma EarlyStartMissed(y: int)
    ensures EARLY_START.Valid() && Alternates(EARLY_START) && !WellOrdered(EARLY_START)
    ensures MissedAt(EARLY_START, EARLY_START.StartAt(y) as real)
  {
    hide RuleAt, YearBegin, YearAt;
    var z := EARLY_START;
    forall w ensures AlternatesIn(z, w) && z.StartAt(w) < YearBegin(w) {
      EarlyStartInYear(w);
      EarlyStartInYear(w + 1);
    }
    StartOutsideYearMissed(z, y);
    assert !OrderedIn(z, y);
  }

  lemma EarlyStartInYear(y: int)
    ensures EARLY_START.StartAt(y) == YearBegin(y) - 10 * 3600
    ensures YearBegin(y) < EARLY_START.EndAt(y) < YearBegin(y + 1) - 10 * 3600
  {
    JulianRuleFixed(1, 0, 1, 1, y);
    JulianRuleFixed(100, 2 * 3600, 4, 10, y);
    hide ToDays, FromDays, LastDay, RuleAt;
    MonthDays(y, 4, 0);
    MonthsAscend(y, 1, 4);
    MonthFollows(y, 4);
    MonthsAscend(y, 5, 12);
    MonthDays(y, 12, 0);
    MonthFollows(y, 12);
  }

  /** `EST5EDT,M3.2.0,M11.1.0`. */
  const US_EASTERN := Zone(-5 * 3600, 3600, M(3, 0, 2, 2 * 3600), M(11, 0, 1, 2 * 3600), "EST", "EDT")

  /** In 2024 it starts saving on 10 March at 07:00 UTC and ends it on 3 November at 06:00 UTC. */
  lemma UsEastern2024()
    ensures US_EASTERN.StartAt(2024) == 1710054000 && US_EASTERN.EndAt(2024) == 1730613600
  {
    SundaysOf2024();
    hide NthToDays, LastToDays, ToDays, IsLeap, YearStart;
  }

  lemma SundaysOf2024()
    ensures NthToDays(NthWeekday(2024, 3, 0, 2)) == 19792 && NthToDays(NthWeekday(2024, 11, 0, 1)) == 20030
  {
    FirstsOf2024();
    DifferenceIsForward(0, WeekdayOf(19783));
    DifferenceIsForward(0, WeekdayOf(20028));
    assert WeekdayOf(19783) == 5 && WeekdayOf(20028) == 5;
    hide ToDays, Difference, WeekdayOf;
  }

  lemma FirstsOf2024()
    ensures ToDays(Date(2024, 3, 1)) == 19783 && ToDays(Date(2024, 11, 1)) == 20028
  {
    hide ToDays;
    ToDaysByMarchYear(Date(2024, 3, 1));
    ToDaysByMarchYear(Date(2024, 11, 1));
  }

  /** Without rules the offset is constant and every local time is shown once. What is reported is
      standard time, from the first day of the calendar to the start of its last day. */
  lemma ConstantZone(z: Zone, t: real, tp: real)
    requires z.Valid() && z.start.Off?
    ensures ToSys(z, ToLocal(z, t)) == Sys(t)
    ensures ToLocal(z, t) == tp <==> ToSys(z, tp) == Sys(t)
    ensures GetSysInfo(z, t) == SysInfo(-12687428 * 86400, 11248737 * 86400, z.offset, 0, z.std)
    ensures GetLocalInfo(z, tp) == LocalInfo(Unique, GetSysInfo(z, t), NO_INFO)
  {
    FirstAndLastYear();
    MonthFollows(0x7FFF, 12);
    LastDayOfMonth(0x7FFF, 12);
  }
}
