/** The proleptic Gregorian calendar of the script verifier: the closed-form day number of a
    civil date, checked against a calendar that only knows how to step to the next day. */
module Calendar {

  /** Integer division as Rust's `/` computes it: rounded towards zero. */
  function TruncDiv(a: int, b: int): int
    requires b > 0
  {
    if a >= 0 then a / b else -((-a) / b)
  }

  /** Rust's `%`: the remainder takes the sign of the dividend. */
  function TruncRem(a: int, b: int): int
    requires b > 0
  {
    a - TruncDiv(a, b) * b
  }

  predicate IsLeapYear(year: int) {
    (TruncRem(year, 4) == 0 && TruncRem(year, 100) != 0) || TruncRem(year, 400) == 0
  }

  function DaysInMonth(year: int, month: int): int {
    if month in {1, 3, 5, 7, 8, 10, 12} then 31
    else if month in {4, 6, 9, 11} then 30
    else if month == 2 then (if IsLeapYear(year) then 29 else 28)
    else 0
  }

  datatype Date = Date(year: int, month: int, day: int) {
    predicate Valid() {
      1 <= month <= 12 && 1 <= day <= DaysInMonth(year, month)
    }

    /** The next day of the calendar. */
    function Next(): (d: Date)
      requires Valid()
      ensures d.Valid()
    {
      if day < DaysInMonth(year, month) then Date(year, month, day + 1)
      else if month < 12 then Date(year, month + 1, 1)
      else Date(year + 1, 1, 1)
    }

    /** Calendar order. */
    predicate Before(other: Date) {
      year < other.year
      || (year == other.year && (month < other.month || (month == other.month && day < other.day)))
    }
  }

  const EPOCH := Date(1970, 1, 1)

  // The closed form, branch by branch, with truncating division.

  /** Years are counted from March, so that a leap day comes last. */
  function MarchYear(date: Date): int {
    date.year - (if date.month <= 2 then 1 else 0)
  }

  function Era(year: int): int {
    TruncDiv(if year >= 0 then year else year - 399, 400)
  }

  function DayOfYear(date: Date): int {
    var monthPrime := date.month + (if date.month > 2 then -3 else 9);
    TruncDiv(153 * monthPrime + 2, 5) + date.day - 1
  }

  function DayOfEra(date: Date): int {
    var yearOfEra := MarchYear(date) - Era(MarchYear(date)) * 400;
    yearOfEra * 365 + TruncDiv(yearOfEra, 4) - TruncDiv(yearOfEra, 100) + DayOfYear(date)
  }

  function DaysFromCivil(date: Date): int {
    Era(MarchYear(date)) * 146097 + DayOfEra(date) - 719468
  }

  /** The reference: the number of times one must step to the next day to get from one date to another. */
  ghost function StepsBetween(first: Date, last: Date): nat
    requires first.Valid() && last.Valid()
    requires first == last || first.Before(last)
    decreases last.year - first.year, 12 - first.month, 31 - first.day
  {
    if first == last then 0 else 1 + StepsBetween(first.Next(), last)
  }

  /** Days since 1970-01-01, obtained by stepping one day at a time in whichever direction is needed. */
  ghost function CountedDays(date: Date): int
    requires date.Valid()
  {
    if date.Before(EPOCH) then 0 - (StepsBetween(date, EPOCH) as int) else StepsBetween(EPOCH, date) as int
  }

  // ---- the closed form in floor arithmetic -------------------------------------------------

  /** Days in the years before `year` (years starting on 1 March), by the Gregorian rules. */
  function DaysBeforeYear(year: int): int {
    year * 365 + year / 4 - year / 100 + year / 400
  }

  /** The days of a March-based year that precede a month. */
  function DaysBeforeMonth(month: int): int {
    (153 * (month + (if month > 2 then -3 else 9)) + 2) / 5
  }

  function FloorForm(date: Date): int {
    DaysBeforeYear(MarchYear(date))
    + DaysBeforeMonth(date.month) + date.day - 1 - 719468
  }

  /** The era is the floor of the year by 400, also for negative years. */
  lemma EraIsFloor(year: int)
    ensures Era(year) == year / 400
  {
    if year < 0 {
      var q := year / 400;
      var r := year % 400;
      assert 399 - year == 400 * (-q) + (399 - r);
      assert (399 - year) / 400 == -q;
    }
  }

  lemma EraSplits(q: int, r: int)
    requires 0 <= r < 400
    ensures (400 * q + r) / 4 == 100 * q + r / 4
    ensures (400 * q + r) / 100 == 4 * q + r / 100
    ensures (400 * q + r) / 400 == q
  {
  }

  /** The era decomposition disappears: the closed form counts 365 days a year plus the leap days. */
  lemma ClosedFormIsFloor(date: Date)
    requires 1 <= date.month <= 12
    ensures DaysFromCivil(date) == FloorForm(date)
  {
    var year := MarchYear(date);
    EraIsFloor(year);
    var q, r := year / 400, year % 400;
    assert year == 400 * q + r;
    EraSplits(q, r);
  }

  lemma LeapIsGregorian(year: int)
    ensures IsLeapYear(year) <==> (year % 4 == 0 && (year % 100 != 0 || year % 400 == 0))
  {
    if year < 0 {
      assert TruncRem(year, 4) == 0 <==> year % 4 == 0;
      assert TruncRem(year, 100) == 0 <==> year % 100 == 0;
      assert TruncRem(year, 400) == 0 <==> year % 400 == 0;
    }
    assert year % 400 == 0 ==> year % 4 == 0;
  }

  lemma FourthYears(year: int)
    ensures year / 4 - (year - 1) / 4 == if year % 4 == 0 then 1 else 0
  {
  }

  lemma HundredthYears(year: int)
    ensures year / 100 - (year - 1) / 100 == if year % 100 == 0 then 1 else 0
    ensures year / 400 - (year - 1) / 400 == if year % 400 == 0 then 1 else 0
  {
  }

  lemma Multiples(year: int)
    ensures year % 100 == 0 ==> year % 4 == 0
    ensures year % 400 == 0 ==> year % 100 == 0
  {
  }

  /** A March-based year is one day longer exactly when the February that ends it has 29 days. */
  lemma YearLength(year: int)
    ensures DaysBeforeYear(year) - DaysBeforeYear(year - 1)
         == 337 + DaysInMonth(year, 2)
  {
    LeapIsGregorian(year);
    FourthYears(year);
    HundredthYears(year);
    Multiples(year);
  }

  /** The months of a March-based year follow one another without gaps, January after December. */
  lemma MonthLength(year: int, month: int)
    requires 1 <= month <= 12 && month != 2
    ensures DaysBeforeMonth(if month == 12 then 1 else month + 1)
         == DaysBeforeMonth(month) + DaysInMonth(year, month)
  {
  }

  // ---- the main results --------------------------------------------------------------------

  lemma EpochIsDayZero()
    ensures DaysFromCivil(EPOCH) == 0
  {
    ClosedFormIsFloor(EPOCH);
    assert DaysBeforeYear(1969) == 719162;
  }

  /** Stepping to the next calendar day raises the closed form by exactly one, in every year:
      month ends, leap days, century and 400-year rules and negative eras alike. */
  lemma NextDayIsOneMore(date: Date)
    requires date.Valid()
    ensures DaysFromCivil(date.Next()) == DaysFromCivil(date) + 1
  {
    var next := date.Next();
    assert FloorForm(next) == FloorForm(date) + 1 by {
      if date.day == DaysInMonth(date.year, date.month) {
        if date.month == 2 {
          YearLength(date.year);
        } else {
          MonthLength(date.year, date.month);
        }
      }
    }
    ClosedFormIsFloor(date);
    ClosedFormIsFloor(next);
  }

  lemma {:induction false} StepsAreDifference(first: Date, last: Date)
    requires first.Valid() && last.Valid()
    requires first == last || first.Before(last)
    ensures DaysFromCivil(last) == DaysFromCivil(first) + StepsBetween(first, last)
    decreases last.year - first.year, 12 - first.month, 31 - first.day
  {
    if first != last {
      NextDayIsOneMore(first);
      StepsAreDifference(first.Next(), last);
    }
  }

  /** The closed form is the day count: for every valid date of every year, before or after 1970. */
  lemma ClosedFormCountsDays(date: Date)
    requires date.Valid()
    ensures DaysFromCivil(date) == CountedDays(date)
  {
    EpochIsDayZero();
    if date.Before(EPOCH) {
      StepsAreDifference(date, EPOCH);
    } else {
      StepsAreDifference(EPOCH, date);
    }
  }

  /** Day numbers order dates exactly as the calendar does, so no two dates share one. */
  lemma DayNumbersOrderDates(a: Date, b: Date)
    requires a.Valid() && b.Valid()
    ensures a.Before(b) <==> DaysFromCivil(a) < DaysFromCivil(b)
    ensures DaysFromCivil(a) == DaysFromCivil(b) ==> a == b
  {
    if a.Before(b) {
      StepsAreDifference(a, b);
    } else {
      StepsAreDifference(b, a);
    }
  }

  /** For every 32-bit year the parts stay in their ranges, an era having 146097 days, and so does the
      result: no 64-bit computation overflows. */
  lemma ClosedFormFits(date: Date)
    requires date.Valid()
    requires -0x8000_0000 <= date.year < 0x8000_0000
    ensures 0 <= MarchYear(date) - Era(MarchYear(date)) * 400 < 400
    ensures 0 <= DayOfYear(date) < 366 && 0 <= DayOfEra(date) < 146097
    ensures -5_368_711 <= Era(MarchYear(date)) <= 5_368_709
    ensures -800_000_000_000 <= DaysFromCivil(date) <= 800_000_000_000
  {
    EraIsFloor(MarchYear(date));
  }
}
