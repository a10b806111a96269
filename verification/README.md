# SparkNet in Dafny

SparkNet is a small C++ library for TCP servers. This project models its two parts with real logic
in them and proves what they promise:

* the **connection engine** (`include/Buffer.h`, `include/TcpConnection.h`, `include/HandlerImp.cpp`):
  a growable byte buffer, an event mask, and a connection that splits what is sent between the kernel
  and its output buffer and puts off the half-close until that buffer is empty;
* the **calendar and time-scale arithmetic** it carries in `include/date/`: four calendars, ISO weeks,
  the week fields of formatted dates, POSIX time zones, leap seconds, and the keyword scanner of the
  parser.

| file | what it models |
|---|---|
| CArithmetic.dfy | C++ division, remainder and conversions to fixed widths |
| Calendar.dfy | what the four calendars share: labels, naive stepping, order, the 16-bit year |
| Gregorian.dfy, Julian.dfy, Islamic.dfy, SolarHijri.dfy | the closed forms of each calendar |
| Weekday.dfy | days of the week, the n-th and the last weekday of a month |
| IsoWeek.dfy | `iso_week.h` |
| WeekFields.dfy | `%G %V %U %W %j`: printing, and finding the date again |
| PosixZone.dfy | `ptz.h` |
| LeapSeconds.dfy | `utc_clock` |
| Keyword.dfy | `scan_keyword`, on an array of statuses |
| Buffer.dfy | the buffer: its operations on values, runs of them, and the class on an array |
| Handler.dfy | the event mask |
| Connection.dfy | the connection: a transition system, its runs, and the class |

A calendar conversion is a closed form; its reference is stepping through the calendar with nothing but
the leap rule and the table of month lengths (`Calendar.Next`). Each calendar proves that its closed form
counts those steps and is inverted by `from_days`; order, bijection, walking and the effect of the 16-bit
year then follow once, in `Calendar`. A time of `PosixZone` is a real number of seconds and a time of
`LeapSeconds` a whole number of ticks of any size, so every `Duration` is covered. What the kernel does
to a connection is an argument of each step, errors included, except that it takes nothing once the write
side has been shut (include/Socket.h:52); the bytes accepted and handed over are kept as history. The
connection is proved to do what a model of two queues of bytes does (`ConnectionSpec.Flow`), and the
properties of its runs are proved beside that.

## What does not hold, and exactly when it does

* In the year -32768, which `ok()` of `iso_week.h` accepts, the last week of the year comes out as 196
  (`IsoWeek.LastWeekOfYear`), and no week date converts back (`IsoWeek.DateRoundTrip`). The first two days of
  the calendar become week 197 of that year, which `ok()` refuses (`IsoWeek.DayRoundTrip`).
* The ISO week fields of 1 and 2 January -32767 do not lead back to those dates: their ISO year is
  -32768, one year before which a `short` wraps to 32767. On all other dates they do
  (`WeekFields.ResolvesExactly`, `IsoWeek.DayRoundTrip`; `IsoWeek.FirstYearAliases` for `iso_week.h`).
* A year and a day of the year are not checked against the length of the year: they resolve to the day
  so numbered exactly when the year has that day (`WeekFields.OrdinalResolves`).
* A month and a day that come without a year are taken for a date of the year 0, so a weekday read with
  them is refused unless it is that date's (`WeekFields.YearlessIsYearZero`).
* An ISO year or an ISO week alone, beside a full date, is not held against the date once a weekday and
  a week of the year have been (`WeekFields.FullDateAccepted`).
* `get_info` of a POSIX zone looks at the year by UTC. Of the zones whose starts and ends of saving
  alternate, it is right at every instant about exactly those whose transitions lie in their year by UTC,
  the start first (`PosixZone.RightExactly`). Two kinds fail: zones whose saving ends earlier in the year
  than it starts, as south of the equator, are never reported in saving (`PosixZone.ReversedNeverSaves`,
  `PosixZone.MonthZoneIsReversed`), and zones with a transition in another year by UTC miss part of their
  saving, as `XYZ-10ABC,J1/0,J100` does from each start on (`PosixZone.EarlyStartMissed`).
* The off-by-one correction of `is_leap_second` is enough exactly when entry `i` of the table is followed
  by at least `i + 1` seconds without another, and the round trip through UTC works exactly when it is
  followed by at least `i` (`LeapSeconds.LeapSecondExactly`, `LeapSeconds.RoundTripExactly`).
* The signed spelling of `weekday_from_days` overflows on the last four 32-bit values
  (`Weekday.SignedSpelling`).
* A direct write of `send` that fails, as writes to a non-blocking socket do when its buffer is full, is
  not noticed: -1 in the unsigned `nwrite` (include/TcpConnection.h:117) makes `remain` one more than `len`
  and the copy start one byte before the data, so a byte that was never sent is queued first. `send` keeps
  the connection's invariant exactly when its direct write does not fail (`ConnectionSpec.SendKeepsExactly`,
  `ConnectionSpec.FailedSend`), and over whole runs what is handed over and pending is what was sent
  exactly when none did (`ConnectionSpec.ReachableStates`).
* `Start`, or a direct `ShutDownWrite`, breaks the invariant exactly after a close that left bytes pending
  (`ConnectionSpec.StartKeepsExactly`, `ConnectionSpec.ShutDownWriteKeepsExactly`), as a close after a
  partial write does (`ConnectionSpec.ClosedWithPending`).
* `send` is still accepted after the write side has been shut. Nothing of it is ever handed over: it stays
  pending behind a stray byte, with write interest on, until the connection is closed
  (`ConnectionSpec.SendAfterShut`).

## Model

| member | source | states |
|---|---|---|
| CArithmetic.AdjustedDivIsFloor | include/date/date.h:2757 | The idiom `(y >= 0 ? y : y-399) / 400` with a truncating division is floor division, for any divisor |
| Calendar.OrderIsomorphism | include/date/date.h:2807-2814 | In a calendar whose day count grows by one with each naive step, the lexicographic `operator<` on valid dates is the order of day counts, and equal counts mean equal dates |
| Calendar.Bijection | include/date/date.h:2748-2762 | If moreover `from_days` inverts `to_days`, the two are inverse in both directions |
| Calendar.ClosedFormWalks | include/date/date.h:2861-2877 | The date `n` days on, by the closed forms, is the date reached by `n` naive steps |
| Calendar.StoredRoundTrip | include/date/date.h:1605 | Keeping the year in a `short` loses the day exactly for years outside -32768 to 32767, that is outside one range of days |
| Gregorian.LeapRule | include/date/date.h:1618-1621 | The truncating remainders of `is_leap` give the leap rule for negative years too |
| Gregorian.NextDay | include/date/date.h:2528-2539 | The closed form counts one day for every step by `is_leap` and the month table |
| Gregorian.YearOfEraRange | include/date/date.h:2870-2872 | On each of the 146097 days of an era the year formula gives a year in 0 to 399 and leaves a day in 0 to 365, which is 365 only before a leap February |
| Gregorian.SplitRanges | include/date/date.h:2867-2876 | Every range in the comments of `from_days`, those of the month and the day included, holds for every day count |
| Gregorian.FromDaysInverts | include/date/date.h:2861-2877 | Every integer day count becomes an `ok()` date with that day count |
| Gregorian.Conversions | include/date/date.h:2748-2877 | Both round trips, order, walking day by day, and the days that survive the 16-bit year |
| Gregorian.Eras | include/date/date.h:2748-2762 | Day 0 is 1 January 1970, and each 400 years have 146097 days |
| Gregorian.YearOfDay | include/date/date.h:2861-2877 | The year of a day is the one between whose first days it lies |
| Gregorian.StoredOkDays | include/date/date.h:1628-1631 | The dates that `ok()` accepts are those of the days -12687428 to 11248737 |
| Julian.NextDay | include/date/julian.h:1947-1952 | The closed form counts one day for every step by `is_leap` and the month table |
| Julian.SplitRanges | include/date/julian.h:2272-2280 | Every range in the comments of `from_days`, those of the month and the day included, holds for every day count |
| Julian.FromDaysInverts | include/date/julian.h:2266-2282 | Every integer day count becomes an `ok()` date with that day count |
| Julian.Conversions | include/date/julian.h:2156-2282 | Both round trips, order, walking day by day, and the days that survive the 16-bit year |
| Julian.BehindGregorian | include/date/julian.h:2156-2170 | For any label the Julian count minus the Gregorian one is floor(Y/100) - floor(Y/400) - 2, with Y the March-based year |
| Islamic.YearLength | include/date/islamic.h:1052-1074 | `(11*(yoe+1)+3)/30` gains a day in exactly the years that the switch of `is_leap` lists, and eleven over the 30 years of an era |
| Islamic.YearOfDay | include/date/islamic.h:2261 | `(30*doe+10646)/10631 - 1` is the year whose days include `doe` |
| Islamic.MonthOfDay | include/date/islamic.h:2264 | `(11*doy+330)/325` is the month whose days include `doy` |
| Islamic.SplitRanges | include/date/islamic.h:2258-2265 | Every range in the comments of `from_days` holds for every day count, and day 354 is met only in leap years |
| Islamic.NextDay | include/date/islamic.h:1932-1938 | The closed form counts one day for every step by `is_leap` and the month table |
| Islamic.FromDaysInverts | include/date/islamic.h:2252-2267 | Every integer day count becomes an `ok()` date with that day count |
| Islamic.Conversions | include/date/islamic.h:2142-2267 | Both round trips, order, walking day by day, and the days that survive the 16-bit year |
| Islamic.Eras | include/date/islamic.h:2142-2156 | Year 1 began on 16 July 622 of the Julian calendar, and each 30 years have 10631 days |
| SolarHijri.IsLeapAt | include/date/solar_hijri.h:1086-1099 | A year is leap exactly when it is a positive multiple of four in its 29- or 33-year cycle, or the last of the 2820 years |
| SolarHijri.YearLength | include/date/solar_hijri.h:2223-2235 | Through all cycles, periods and the end of the era, the start `to_days` computes for a year is 365 or 366 days, as `is_leap` says, before the next |
| SolarHijri.SplitAt | include/date/solar_hijri.h:2350-2372 | The nested divisions of `from_days` find the year and the day of the year from every sum that `to_days` forms, in each kind of cycle |
| SolarHijri.NextDay | include/date/solar_hijri.h:1999-2005 | The closed form counts one day for every step by `is_leap` and the month table |
| SolarHijri.FromDaysInverts | include/date/solar_hijri.h:2336-2379 | Every integer day count, in any era, becomes an `ok()` date with that day count |
| SolarHijri.Conversions | include/date/solar_hijri.h:2209-2379 | Both round trips, order, walking day by day, and the days that survive the 16-bit year |
| SolarHijri.Eras | include/date/solar_hijri.h:2209-2242 | The count is that of the Gregorian calendar: year 475 began on 21 March 1096, and each 2820 years have 1029983 days |
| SolarHijri.StartsInSpring | include/date/solar_hijri.h:2209-2242 | Every year that a `short` holds begins within twelve days of 21 March of the Gregorian year 621 later |
| SolarHijri.GregorianYear | include/date/solar_hijri.h:2209-2242 | Every day of such a year `y` is a day of the Gregorian year `y + 621` or `y + 622` |
| Weekday.UnsignedSpelling | include/date/date.h:1734-1738 | The unsigned wrap-around spelling gives (z+4) mod 7 for every 32-bit z |
| Weekday.SignedSpelling | include/date/julian.h:1187-1191 | So does the signed spelling, whose sum stays in `int` exactly up to 2147483643 |
| Weekday.DifferenceIsForward | include/date/date.h:1816-1821 | A difference of weekdays is the number of days forward, 0 to 6, in date.h and in the unsigned form of iso_week.h |
| Weekday.NthRoundTrip | include/date/date.h:3036-3066 | An n-th weekday of a month, whatever its year, month, weekday and number, converts to a day of the calendar and back exactly when its `ok()` accepts it |
| Weekday.NthOfDay | include/date/date.h:3050-3056 | Every day converts to an n-th weekday and back, which `ok()` accepts exactly for the days of the calendar |
| Weekday.LastIsLast | include/date/date.h:3239-3243 | The last weekday of a month is in the month, has that weekday, and a week later the month is over |
| IsoWeek.ToIsoIsStandard | include/date/iso_week.h:1503-1517 | `from_days` gives the year of the Thursday of the week and counts its Thursdays, as section 2.2.10 of ISO 8601:2004 defines the week, on every day from 3 January -32767 |
| IsoWeek.LastWeekOfYear | include/date/iso_week.h:1021-1027 | The last week is 52 or 53, and 53 exactly when 1 January is a Thursday, or a Wednesday in a leap year; in the year -32768, and only there, it is neither but 196 |
| IsoWeek.DayRoundTrip | include/date/iso_week.h:1478-1517 | A day becomes a week date that `ok()` accepts, and that converts back, exactly from the third day of the calendar on |
| IsoWeek.DateRoundTrip | include/date/iso_week.h:1495-1498 | An `ok()` week date is the week date of its day, and that day is in the calendar, exactly when its year is not -32768 |
| IsoWeek.FirstYearAliases | include/date/iso_week.h:1478-1482 | In the year -32768 the conversion leaves the calendar |
| WeekFields.IsoFieldsOfDay | include/date/date.h:5570-5582 | `%G` and `%V` are a year and a week 1 to 53 from which, with the weekday, the parser's sum gives the day |
| WeekFields.WeekFieldOfDay | include/date/date.h:5526-5535 | `%U` and `%W` are weeks 0 to 53 from which the parser's sum gives the day, also before the first Sunday or Monday, and agree with its floor division |
| WeekFields.OrdinalOfDay | include/date/date.h:5182-5187 | `%j` is in 1 to 366 and the parser's sum gives the day |
| WeekFields.AgreeInPlace | include/date/date.h:7453-7464 | The repeated step that fills in or compares year, month and day computes what `Agree` says |
| WeekFields.FinishInPlace | include/date/date.h:7518-7565 | The last checks, on local variables, compute what `Finish` says |
| WeekFields.ResolveInPlace | include/date/date.h:7445-7565 | The steps of the resolution, on local variables, compute `Resolve`, about which the following are proved |
| WeekFields.TuplesResolve | include/date/date.h:7448-7524 | Each of the tuples (G,V,wd), (Y,U,wd), (Y,W,wd), (Y,j) printed for an `ok()` date leads back to it, the first exactly from 3 January -32767 on |
| WeekFields.ResolvesExactly | include/date/date.h:7448-7565 | Any fields printed for an `ok()` date that tell one date, with any other printed fields beside them, resolve to that date, exactly when they do not rely on the ISO week fields of the first two days of the calendar |
| WeekFields.FullDateAccepted | include/date/date.h:7448-7565 | With a full date beside them, the other fields are accepted exactly when the weekday and the weeks of the year are those printed for it, a complete ISO week names it, a day of the year has its month and day, and, unless the date was computed from one of the weeks, the ISO year and week singly are those printed |
| WeekFields.OrdinalResolves | include/date/date.h:7505-7517 | A year and a day of the year alone resolve to the day so numbered exactly when the year has it |
| WeekFields.ResultAgrees | include/date/date.h:7446-7524 | Whatever the fields, what is returned has every year, month, day and weekday that was read, and is the date that each complete group of week fields names |
| WeekFields.ShortOfDate | include/date/date.h:7517-7565 | Fields from which nothing is computed and that make no date are stored as they were read |
| WeekFields.WeekdayAlone | include/date/date.h:7517-7565 | A weekday alone is returned with no date |
| WeekFields.YearlessIsYearZero | include/date/date.h:7517-7565 | A month and a day without a year are taken for a date of the year 0, and accepted exactly when the weekday and weeks read with them are those printed for that date |
| PosixZone.JulianRuleFixed | include/date/ptz.h:107-109 | A rule `Jn`, 1 to 365, strikes on the same month and day every year and never on 29 February |
| PosixZone.MonthRule | include/date/ptz.h:110-112 | A rule `Mm.n.d` strikes in its month on its weekday, the n-th of the month, or the last when n is 5 |
| PosixZone.NumberedRule | include/date/ptz.h:113-115 | A rule `n` strikes on the day of its year with ordinal number `n + 1`, leap days counted |
| PosixZone.SysInfoByDst | include/date/ptz.h:236-264 | What is reported for an instant is saving, with its offset, minutes and name, exactly when in some year the standard clock has reached the start rule and the saving clock not yet the end rule; the bounds are the instants at which these clocks show the rules |
| PosixZone.UsEastern2024 | include/date/ptz.h:105-120 | In 2024 `EST5EDT,M3.2.0,M11.1.0` starts saving on 10 March at 07:00 UTC and ends it on 3 November at 06:00 UTC |
| PosixZone.ReversedNeverSaves | include/date/ptz.h:243-263 | When saving ends earlier in each year than it starts, no instant is reported in saving, though it is on from every start |
| PosixZone.MonthZoneIsReversed | include/date/ptz.h:454-473 | Zones with month rules whose saving ends from February on and starts by November with a month between, and clocks within 100 hours of UTC, are of that kind |
| PosixZone.RightExactly | include/date/ptz.h:221-272 | Of all zones whose starts and ends alternate, in either order, the report is right at every instant exactly for those whose transitions lie in their year by UTC, the start first |
| PosixZone.EarlyStartMissed | include/date/ptz.h:241-263 | In `XYZ-10ABC,J1/0,J100` starts and ends alternate, start first, but every start is missed: by UTC it falls in the year before |
| PosixZone.IntervalHolds | include/date/ptz.h:245-263 | The reported interval holds the instant, and every instant in it is reported alike, across year boundaries too |
| PosixZone.IntervalsMeet | include/date/ptz.h:245-263 | What is reported at the end of an interval begins there |
| PosixZone.Classified | include/date/ptz.h:295-353 | A local time reported unique, ambiguous or nonexistent is shown by exactly one, two or no UTC instants under `to_local`, which lie about the transition as they should |
| PosixZone.ReportsAgree | include/date/ptz.h:300-353 | The intervals reported with a local time are those reported at the instants that show it, or, in a gap, before and from the transition on; no second interval comes with a unique time |
| PosixZone.ToSysUndoesToLocal | include/date/ptz.h:367-409 | Each instant is returned for its local time by one of the choices, and without a choice exactly when the time is unique |
| PosixZone.ToSysExactly | include/date/ptz.h:367-380 | For any local time `to_sys` returns the one instant that shows it, or says that there is none, or two, with the intervals of that time |
| PosixZone.ChoiceMeaning | include/date/ptz.h:382-398 | A choice returns an instant that shows the time whenever there is one, and the transition when there is none |
| PosixZone.ChoicesBound | include/date/ptz.h:382-398 | Before the earliest choice the local clock is short of the time, after the latest it is past it |
| PosixZone.ToSysIsMonotone | include/date/ptz.h:382-398 | With either choice, later local times never give earlier instants |
| PosixZone.MonthZoneIsPlaced | include/date/ptz.h:454-473 | Zones with month rules, from February to November with a month between, and clocks within 100 hours of UTC meet the conditions of the statements above |
| PosixZone.ConstantZone | include/date/ptz.h:265-361 | Without rules every local time is unique and converts back, and standard time is reported from the first day of the calendar to the start of its last |
| LeapSeconds.IsLeapSecondInPlace | include/date/tz.h:1905-1926 | The steps on local variables compute `IsLeapSecond`, about which the following are proved |
| LeapSeconds.ToSysInPlace | include/date/tz.h:1944-1953 | The steps on local variables compute `ToSys` |
| LeapSeconds.FromSysIncreases | include/date/tz.h:1892-1898 | `from_sys` is strictly increasing, and spreads instants no closer than they were |
| LeapSeconds.ImageIsOutside | include/date/tz.h:1892-1898 | The UTC instants that `from_sys` never gives are exactly those of the inserted seconds |
| LeapSeconds.LeapSecondIsRight | include/date/tz.h:1905-1926 | With wide gaps, `is_leap_second` tells the insertion in progress, and its count is that of the insertions begun |
| LeapSeconds.NarrowGapHidesLeap | include/date/tz.h:1917-1923 | Where a gap is narrow the start of an inserted second is not reported |
| LeapSeconds.LeapSecondExactly | include/date/tz.h:1905-1926 | `is_leap_second` is true exactly outside the image of `from_sys` if and only if each entry `i` is followed by `i + 1` seconds without another |
| LeapSeconds.RoundTripExactly | include/date/tz.h:1944-1953 | `to_sys(from_sys(t)) == t` for all t if and only if each entry `i` is followed by `i` seconds without another |
| LeapSeconds.ToSysWhenInserting | include/date/tz.h:1950-1951 | In an inserted second `to_sys` gives the last tick before its entry |
| LeapSeconds.ToSysIsLastBefore | include/date/tz.h:1944-1953 | `to_sys` gives the last system instant whose UTC time is not after the given one |
| LeapSeconds.ToSysIsMonotone | include/date/tz.h:1944-1953 | `to_sys` is monotone and constant over each inserted second |
| LeapSeconds.PrintParse | include/date/tz.h:1978-2034 | With insertions at the end of a minute, a UTC time printed by a clock with any offset shows second 60 exactly in an inserted second, and reads back as itself exactly when that clock shows a date of the calendar |
| LeapSeconds.ParseExactly | include/date/tz.h:2003-2034 | A time that is read is accepted exactly when its date is, its time of day is in range, and, if its second is 60, an entry of the table comes right after it |
| LeapSeconds.ParsePrint | include/date/tz.h:1978-2034 | What is accepted prints as it was read |
| Keyword.InitStatuses | include/date/date.h:4712-4726 | Before any character only empty keywords match, and both counters are right |
| Keyword.CompareCharacter | include/date/date.h:4745-4766 | One character moves each status as it should, keeps both counters right, indexes in bounds, and is consumed exactly when some keyword goes on with it |
| Keyword.NoneStale | include/date/date.h:4774 | When the counters add up to no more than one, no keyword that matched earlier is left |
| Keyword.DropStale | include/date/date.h:4776-4784 | Otherwise those keywords are dropped, and both counters stay right |
| Keyword.ScanKeyword | include/date/date.h:4696-4796 | The scan ends; it consumes the longest input that begins some keyword, returns the first keyword equal to it or fails if there is none, and meets the end of input only while a keyword could go on |
| Keyword.UpperFoldsCase | include/date/date.h:4737-4750 | Two characters are compared as equal exactly when they are equal or an ASCII letter in both cases |
| Keyword.CaseDoesNotMatter | include/date/date.h:4737-4750 | Inputs that differ only in case are consumed alike and find the same keyword |
| Keyword.MunchIsUnique | include/date/date.h:4788-4795 | What the scan promises leaves one answer: what is consumed and which keyword is found |
| BufferSpec.AppendData | include/Buffer.h:73-95 | Appending, with or without compaction or resizing, appends to the readable bytes |
| BufferSpec.Receive | include/TcpConnection.h:76-105 | A scatter read of up to the writable bytes and 65535 more appends what was read |
| BufferSpec.RunIsQueueRun | include/Buffer.h:15-95 | Under any run of appends, retrievals, scatter reads and swaps the indices stay in order and the readable bytes are a first-in first-out queue |
| BufferSpec.AppendCapacity | include/Buffer.h:82-95 | The vector grows exactly when what is readable and what is appended do not fit in it together, to less than twice what is then readable; it never shrinks, and no byte moves while there is room behind them |
| BufferSpec.EmptyStartsOver | include/Buffer.h:51-61 | Taking bytes takes as many as there are, and once none are left both indices are 0 |
| BufferSpec.FirstRead | include/TcpConnection.h:74-82 | One read brings a new buffer at most 1024 + 65535 bytes |
| BufferSpec.CapacityIsBounded | include/Buffer.h:51-95 | Over any run from a new buffer the vector stays within 1024 or twice the most bytes ever readable |
| ByteBuffer.CopyToFront | include/Buffer.h:91 | Copying the readable bytes to the front in ascending order is right although the ranges overlap |
| ByteBuffer.Buffer.Swap | include/Buffer.h:15-20 | Two buffers exchange their whole state |
| ByteBuffer.Buffer.Retrieve | include/Buffer.h:51-61 | Taking bytes advances the read index, or resets both indices when none are left |
| ByteBuffer.Buffer.ExtendSpace | include/Buffer.h:82-95 | Extending resizes, or moves the readable bytes to the front in place |
| ByteBuffer.Buffer.AppendData | include/Buffer.h:73-81 | Appending in place gives the state that `BufferSpec.AppendData` says |
| EventMask.WriteInterest | include/HandlerImp.cpp:21-43 | Write interest is set, cleared and left alone by the operations that should |
| EventMask.ReadInterest | include/HandlerImp.cpp:21-43 | Read interest is set by `EnableRead` and gone after `DisableAll` |
| EventMask.WriteBitKeepsReading | include/HandlerImp.cpp:27-38 | Turning write interest on or off leaves read interest as it was |
| EventMask.ReadingTouches | include/HandlerImp.cpp:21-25 | `EnableRead` touches no bits but 0x1 and 0x2 |
| EventMask.WritingTouches | include/HandlerImp.cpp:27-31 | `EnableWrite` touches no bit but 0x4 |
| EventMask.NotWritingTouches | include/HandlerImp.cpp:34-38 | `DisableWrite` touches no bit but 0x4 |
| ConnectionSpec.SendGives | include/TcpConnection.h:109-152 | In any state, what a send hands over and leaves pending is its data, behind one stray byte if its direct write fails |
| ConnectionSpec.SendKeepsExactly | include/TcpConnection.h:109-152 | A send keeps the invariant, no byte lost, reordered or made up and write interest right, if and only if it makes no direct write that fails |
| ConnectionSpec.FailedSend | include/TcpConnection.h:117-146 | From a new connection, a first send whose write fails leaves a byte that was never sent pending before the data |
| ConnectionSpec.HandleWriteKeeps | include/TcpConnection.h:53-71 | So for a writable event, also when the write fails |
| ConnectionSpec.WriteDelivers | include/TcpConnection.h:53-71 | In any state with write interest, what the kernel takes goes from the front of the pending bytes to the wire, and interest is dropped when none are left; otherwise nothing changes |
| ConnectionSpec.ReadDelivers | include/TcpConnection.h:82-107 | In any state a read puts the bytes it brings behind the unread ones and changes nothing else; an error changes nothing, the end of the stream closes |
| ConnectionSpec.EventDelivers | include/HandlerImp.cpp:50-65 | So does an event with a read bit, whatever it also writes; without one the input is untouched |
| ConnectionSpec.ConsumeTakes | include/Buffer.h:51-61 | Taking input takes from the front as many bytes as asked for and there |
| ConnectionSpec.StepKeepsExactly | include/HandlerImp.cpp:50-73 | A step of a connection, events with their dispatch order included, keeps the invariant if and only if it is neither a failing direct write nor a start over pending bytes |
| ConnectionSpec.ReachableStates | include/TcpConnection.h:53-191 | Over every run the invariant holds throughout if and only if no direct write fails and no start finds bytes left by a close. In every reachable state the bytes handed to the kernel, followed by those pending, are the bytes sent with one stray byte for each direct write that failed, hence the bytes sent if and only if none did; the bytes taken from the input, followed by those unread, are those the reads of the run brought |
| ConnectionSpec.RunIsFlowRun | include/TcpConnection.h:53-191 | Over every run the connection, with its buffers and mask, does what two queues and two interests do: where bytes lie in the buffers never matters, and every operation does in every state what it does to the queues |
| ConnectionSpec.PendingIsDelivered | include/TcpConnection.h:53-71 | In any open state, what a partial send left behind is on the wire after at most as many productive events as bytes were pending, and write interest is off then |
| ConnectionSpec.EndOfStreamFirst | include/HandlerImp.cpp:52-65 | An event that ends the stream and also allows writing closes the connection and writes nothing |
| ConnectionSpec.StartKeepsExactly | include/TcpConnection.h:182-191 | Starting is safe exactly unless a close left bytes pending |
| ConnectionSpec.ShutDownWriteKeepsExactly | include/TcpConnection.h:161-167 | So is a direct call of `ShutDownWrite` |
| ConnectionSpec.ClosedWithPending | include/TcpConnection.h:172-191 | A start, a partial send and a close reach such a state, where both break the invariant |
| ConnectionSpec.ClosedStaysClosed | include/TcpConnection.h:109-181 | After a close nothing more is accepted, handed over or shut |
| ConnectionSpec.CloseIsFinal | include/TcpConnection.h:172-181 | So after `Close` in any state, with or without anything to write, and all interest is gone |
| ConnectionSpec.WaitingWrite | include/TcpConnection.h:58-69 | While a half-close waits, the write that hands over the last byte shuts the write side, and no other does |
| ConnectionSpec.HalfClosesOnce | include/TcpConnection.h:153-167 | After `ShutDown` without further send or close the write side is shut exactly once, when nothing is pending, after at most as many productive events as bytes were pending |
| ConnectionSpec.ShutsOnce | include/TcpConnection.h:53-191 | Over every run with one start, whatever is sent before or after a half-close, the write side is shut at most once, and what had been handed over then is all that ever is |
| ConnectionSpec.SendAfterShut | include/TcpConnection.h:109-152 | A send after the write side has been shut is accepted, but over every further run stays pending behind a stray byte, with write interest on until a close |
| TcpConnections.TcpConnection.Send | include/TcpConnection.h:109-152 | The method, in the wrapping arithmetic of `size_t`, makes of the connection what `ConnectionSpec.Send` says, in its buffers and handler, also when the write fails |
| TcpConnections.TcpConnection.HandleWrite | include/TcpConnection.h:53-71 | So for a writable event |
| TcpConnections.TcpConnection.HandleRead | include/TcpConnection.h:72-108 | So for a readable event: bytes go to the buffer and the extra array, the end of the stream closes |
| TcpConnections.TcpConnection.Consume | include/TcpConnection.h:193 | So for taking bytes out of the input buffer |
| TcpConnections.TcpConnection.HandleEvent | include/HandlerImp.cpp:50-73 | So for an event with several bits, reading first |
| TcpConnections.TcpConnection.ShutDown | include/TcpConnection.h:153-167 | So for the half-close |
| TcpConnections.TcpConnection.Close | include/TcpConnection.h:172-181 | So for the close |
| TcpConnections.TcpConnection.Start | include/TcpConnection.h:182-191 | So for the start |

## Left out

- What else a failing direct write in `send` brings: reading the byte before the data is undefined in C++, and is modelled as an arbitrary byte; the reports of errors that are not reached are left out.
- The signal that a write after the half-close raises: such writes are modelled as failing, as they do where SIGPIPE is ignored.
- Direct calls of `ShutDownWrite` are not among the operations of a run; `ConnectionSpec.ShutDownWriteKeepsExactly` says when one is safe.
- TcpConnections.TcpConnection.Send: stated for data of fewer than 2^64 - 1 bytes, since no memory holds more.
- Callbacks that call back into the connection while it runs them; what they do later is a further step.
- `read` and `write` themselves, sockets, addresses, logging: their results are arguments of the steps.
- `Epoller`, `TcpServer`, `TcpClient`, `Acceptor`, and `Handler::Update`, which tells the poller of a mask.
- Aliasing of the data passed to `AppendData` or `send` with the buffer it goes to: data is passed by value.
- Day counts so large that the sums in `to_days` and `from_days` overflow `int`: day counts and years are unbounded integers, and the `short` that stores a year is modelled in `Calendar.StoredRoundTrip`, `IsoWeek` and `WeekFields`.
- The `double` divisions of solar_hijri.h: on `int` operands they are exact before they are truncated, and are modelled as truncating divisions.
- PosixZone: years are unbounded there; reading a zone from its string and printing it are not modelled.
- PosixZone.Classified: stated for zones whose transitions lie inside the year by either clock, start first, at least as far apart as the clock moves; `PosixZone.MonthZoneIsPlaced` gives zones that meet this.
- Two-digit years, centuries and the time of day in `from_stream`, and the reading of its format string.
- `%OU`, `%OV`, `%OW` and everything else that goes through locale facets.
- The search loop of `std::upper_bound`, which is the C++ library's; its result is `LeapSeconds.Count`.
- The choice between a local array and `malloc` for the statuses of `scan_keyword`, and characters beyond ASCII in `toupper`.
- `++`, `+=` and the other operators that only wrap the conversions.
