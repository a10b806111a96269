/** What the four calendars of the date library have in common: a label of year, month and
    day, a rule for the last day of each month, and a conversion each way between labels and
    a count of days. Everything here follows from stepping one day at a time. */
module Calendar {
  import opened CArithmetic

  datatype Date = Date(year: int, month: int, day: int)

  /** What one `year_month_day` class supplies. */
  datatype System = System(
    lastDay: (int, int) -> int,
    toDays: Date -> int,
    fromDays: int -> Date)

  predicate Ok(s: System, d: Date) {
    1 <= d.month <= 12 && 1 <= d.day <= s.lastDay(d.year, d.month)
  }

  /** `operator<` on dates: lexicographic. */
  predicate Less(x: Date, y: Date) {
    if x.year < y.year then true
    else if x.year > y.year then false
    else if x.month < y.month then true
    else if x.month > y.month then false
    else x.day < y.day
  }

  /** The next label, found by looking only at the length of the month. */
  function Next(s: System, d: Date): Date {
    if d.day < s.lastDay(d.year, d.month) then Date(d.year, d.month, d.day + 1)
    else if d.month < 12 then Date(d.year, d.month + 1, 1)
    else Date(d.year + 1, 1, 1)
  }

  /** `n` naive steps forward. */
  function Advance(s: System, d: Date, n: nat): Date {
    if n == 0 then d else Next(s, Advance(s, d, n - 1))
  }

  /** Every month has a day, and the day count grows by one with every naive step. */
  ghost predicate CountsDays(s: System) {
    && (forall y, m :: 1 <= m <= 12 ==> 1 <= s.lastDay(y, m))
    && (forall d: Date :: Ok(s, d) ==> s.toDays(Next(s, d)) == s.toDays(d) + 1)
  }

  /** Every day count is converted to a valid label of that same day. */
  ghost predicate Inverts(s: System) {
    forall z: int :: Ok(s, s.fromDays(z)) && s.toDays(s.fromDays(z)) == z
  }

  /** Within a month the day count follows the day number, valid or not. */
  ghost predicate DayLinear(s: System) {
    forall d: Date :: 1 <= d.month <= 12 ==> s.toDays(d) == s.toDays(Date(d.year, d.month, 1)) + d.day - 1
  }

  ghost predicate Faithful(s: System) {
    CountsDays(s) && Inverts(s) && DayLinear(s)
  }

  lemma {:induction false} EarlierCountsLess(s: System, a: Date, b: Date)
    requires CountsDays(s) && Ok(s, a) && Ok(s, b) && Less(a, b)
    ensures s.toDays(a) < s.toDays(b)
    decreases b.year - a.year, 12 - a.month, s.lastDay(a.year, a.month) - a.day
  {
    var n := Next(s, a);
    if n != b {
      EarlierCountsLess(s, n, b);
    }
  }

  /** The lexicographic order of labels is the order of day counts. */
  lemma OrderIsomorphism(s: System, a: Date, b: Date)
    requires CountsDays(s) && Ok(s, a) && Ok(s, b)
    ensures Less(a, b) <==> s.toDays(a) < s.toDays(b)
    ensures a == b <==> s.toDays(a) == s.toDays(b)
  {
    if Less(a, b) {
      EarlierCountsLess(s, a, b);
    } else if Less(b, a) {
      EarlierCountsLess(s, b, a);
    }
  }

  /** The two conversions are inverse to each other, in both directions. */
  lemma Bijection(s: System, d: Date, z: int)
    requires CountsDays(s) && Inverts(s) && Ok(s, d)
    ensures s.fromDays(s.toDays(d)) == d
    ensures Ok(s, s.fromDays(z)) && s.toDays(s.fromDays(z)) == z
  {
    OrderIsomorphism(s, s.fromDays(s.toDays(d)), d);
  }

  /** The closed form agrees with walking the calendar: `n` days on is `n` naive steps on. */
  lemma {:induction false} ClosedFormWalks(s: System, d: Date, n: nat)
    requires CountsDays(s) && Inverts(s) && Ok(s, d)
    ensures Ok(s, Advance(s, d, n))
    ensures s.fromDays(s.toDays(d) + n) == Advance(s, d, n)
  {
    if n == 0 {
      Bijection(s, d, 0);
    } else {
      ClosedFormWalks(s, d, n - 1);
      Bijection(s, Advance(s, d, n - 1), s.toDays(d) + n - 1);
      Bijection(s, Advance(s, d, n), 0);
    }
  }

  /** A date as its class stores it: the year is kept in a `short`. */
  function Stored(d: Date): Date {
    d.(year := S16(d.year))
  }

  /** Storing the year loses the day exactly when the year is outside `short`, that is
      exactly outside the days from 1 January -32768 up to 1 January 32768. */
  lemma StoredRoundTrip(s: System, z: int)
    requires Faithful(s)
    ensures s.toDays(Stored(s.fromDays(z))) == z <==> InShort(s.fromDays(z).year)
    ensures InShort(s.fromDays(z).year) <==>
            s.toDays(Date(-0x8000, 1, 1)) <= z < s.toDays(Date(0x8000, 1, 1))
  {
    var d := s.fromDays(z);
    OrderIsomorphism(s, d, Date(-0x8000, 1, 1));
    OrderIsomorphism(s, d, Date(0x8000, 1, 1));
    var first, stored := Date(d.year, d.month, 1), Date(S16(d.year), d.month, 1);
    OrderIsomorphism(s, first, stored);
    assert s.toDays(d) == s.toDays(first) + d.day - 1;
    assert s.toDays(Stored(d)) == s.toDays(stored) + d.day - 1;
  }
}
