/** System.DateTime as the time helpers use it: a count of 100-nanosecond ticks since
    0001-01-01T00:00:00 in the proleptic Gregorian calendar, and a kind saying whether the
    ticks are UTC, local or unspecified. Calendar fields are computed from the ticks the way
    .NET computes them (400-, 100-, 4- and 1-year cycles, then a month table). */
module Calendar {

  const TicksPerSecond: int := 10_000_000
  const TicksPerMinute: int := 600_000_000
  const TicksPerHour: int := 36_000_000_000
  const TicksPerDay: int := 864_000_000_000

  /** DateTime.MaxValue.Ticks: the last tick of 9999-12-31. */
  const MaxTicks: int := 3_155_378_975_999_999_999

  type Ticks = t: int | 0 <= t <= MaxTicks

  datatype Kind = Unspecified | Utc | Local

  datatype DateTime = DateTime(ticks: Ticks, kind: Kind)

  datatype DayOfWeek = Sunday | Monday | Tuesday | Wednesday | Thursday | Friday | Saturday

  const DaysPer400Years: int := 146097
  const DaysPer100Years: int := 36524
  const DaysPer4Years: int := 1461
  const DaysPerYear: int := 365

  /** Days before the first of each month, and the year length at the end. */
  const DaysToMonth365: seq<int> := [0, 31, 59, 90, 120, 151, 181, 212, 243, 273, 304, 334, 365]
  const DaysToMonth366: seq<int> := [0, 31, 60, 91, 121, 152, 182, 213, 244, 274, 305, 335, 366]

  // ----- division facts -----

  lemma DivUnique(a: int, d: int, q: int, r: int)
    requires d > 0 && 0 <= r < d && a == d * q + r
    ensures a / d == q && a % d == r
  {
    var x := a / d - q;
    assert d * x == r - a % d;
    assert x >= 1 ==> d * x >= d;
    assert x <= -1 ==> d * x <= -d;
  }

  lemma MulRegroup(b: int, c: int, q2: int, r2: int)
    ensures b * (c * q2 + r2) == (b * c) * q2 + b * r2
  {
    assert b * (c * q2 + r2) == b * (c * q2) + b * r2;
    assert b * (c * q2) == (b * c) * q2;
  }

  lemma MulBelow(b: int, r2: int, c: int)
    requires b > 0 && 0 <= r2 < c
    ensures b * r2 <= b * c - b
  {
    assert b * (c - 1 - r2) >= 0;
    assert b * (c - 1 - r2) == b * c - b - b * r2;
  }

  /** Dividing by b and then by c is dividing by b * c. */
  lemma DivDiv(a: nat, b: int, c: int)
    requires b > 0 && c > 0
    ensures a / (b * c) == a / b / c
  {
    var q := a / b;
    var r := a % b;
    var q2 := q / c;
    var r2 := q % c;
    assert a == b * q + r;
    assert q == c * q2 + r2;
    MulRegroup(b, c, q2, r2);
    MulBelow(b, r2, c);
    assert a == (b * c) * q2 + (b * r2 + r);
    assert b * c > 0;
    DivUnique(a, b * c, q2, b * r2 + r);
  }

  // ----- the date part of the ticks -----

  /** The parts of a day number (days since 0001-01-01) in 400-, 100-, 4- and 1-year cycles,
      with the day of the year; the 100-year and 1-year counts are capped at 3 because the
      last day of a 400-year (resp. 4-year) cycle belongs to its last, longer century (year). */
  datatype YearParts = YearParts(y400: nat, y100: nat, y4: nat, y1: nat, dayOfYear: nat)

  function SplitDays(n: nat): (p: YearParts)
    ensures p.y100 <= 3 && p.y4 <= 24 && p.y1 <= 3
    ensures n == p.y400 * DaysPer400Years + p.y100 * DaysPer100Years + p.y4 * DaysPer4Years + p.y1 * DaysPerYear + p.dayOfYear
    ensures p.dayOfYear < (if p.y1 == 3 && (p.y4 != 24 || p.y100 == 3) then 366 else 365)
  {
    var y400 := n / DaysPer400Years;
    var n1 := n % DaysPer400Years;
    var y100 := if n1 / DaysPer100Years == 4 then 3 else n1 / DaysPer100Years;
    var n2 := n1 - y100 * DaysPer100Years;
    var y4 := n2 / DaysPer4Years;
    var n3 := n2 % DaysPer4Years;
    var y1 := if n3 / DaysPerYear == 4 then 3 else n3 / DaysPerYear;
    var n4 := n3 - y1 * DaysPerYear;
    assert y100 == 3 ==> n2 <= DaysPer100Years;
    assert y100 < 3 ==> n2 < DaysPer100Years;
    assert y4 <= 24;
    assert y4 == 24 ==> n3 < 1460 || y100 == 3;
    YearParts(y400, y100, y4, y1, n4)
  }

  /** Whether the year the parts describe is a leap year, as .NET decides it from the parts. */
  predicate LeapParts(p: YearParts) {
    p.y1 == 3 && (p.y4 != 24 || p.y100 == 3)
  }

  function YearOfParts(p: YearParts): int {
    p.y400 * 400 + p.y100 * 100 + p.y4 * 4 + p.y1 + 1
  }

  /** The first month whose cumulative day count exceeds the day of the year. */
  function MonthOf(dayOfYear: nat, table: seq<int>, m: nat): (month: nat)
    requires |table| == 13 && 1 <= m <= 12
    requires forall k :: 0 <= k < 12 ==> table[k] < table[k + 1]
    requires table[m - 1] <= dayOfYear < table[12]
    ensures m <= month <= 12
    ensures table[month - 1] <= dayOfYear < table[month]
    decreases 12 - m
  {
    if dayOfYear < table[m] then m else MonthOf(dayOfYear, table, m + 1)
  }

  function DaysTable(leap: bool): (t: seq<int>)
    ensures |t| == 13 && t[0] == 0 && t[12] == (if leap then 366 else 365)
    ensures forall k :: 0 <= k < 12 ==> t[k] < t[k + 1] <= t[k] + 31
  {
    if leap then DaysToMonth366 else DaysToMonth365
  }

  function DayNumber(dt: DateTime): nat {
    dt.ticks / TicksPerDay
  }

  function Parts(dt: DateTime): YearParts {
    SplitDays(DayNumber(dt))
  }

  /** DateTime.Year. */
  function Year(dt: DateTime): int {
    YearOfParts(Parts(dt))
  }

  /** DateTime.Month. */
  function Month(dt: DateTime): (m: int)
    ensures 1 <= m <= 12
  {
    MonthOfParts(Parts(dt))
  }

  /** DateTime.Day. */
  function Day(dt: DateTime): (d: int)
    ensures 1 <= d <= 31
  {
    DayOfParts(Parts(dt))
  }

  /** The month the day of the year falls in, from the month table of its year. */
  function MonthOfParts(p: YearParts): (m: int)
    requires p.dayOfYear < (if LeapParts(p) then 366 else 365)
    ensures 1 <= m <= 12
  {
    MonthOf(p.dayOfYear, DaysTable(LeapParts(p)), 1)
  }

  /** The day of the month, counted from 1. */
  function DayOfParts(p: YearParts): (d: int)
    requires p.dayOfYear < (if LeapParts(p) then 366 else 365)
    ensures 1 <= d <= 31
  {
    var t := DaysTable(LeapParts(p));
    p.dayOfYear - t[MonthOfParts(p) - 1] + 1
  }

  /** DateTime.Hour. */
  function Hour(dt: DateTime): int {
    (dt.ticks / TicksPerHour) % 24
  }

  /** DateTime.Minute. */
  function Minute(dt: DateTime): int {
    (dt.ticks / TicksPerMinute) % 60
  }

  /** DateTime.DayOfWeek: 0001-01-01 was a Monday. */
  function DayOfWeekOf(dt: DateTime): DayOfWeek {
    DayOfWeekFromNumber((DayNumber(dt) + 1) % 7)
  }

  function DayOfWeekFromNumber(n: int): DayOfWeek
    requires 0 <= n < 7
  {
    [Sunday, Monday, Tuesday, Wednesday, Thursday, Friday, Saturday][n]
  }

  /** The enum's underlying value: Sunday is 0, Saturday 6. */
  function DayOfWeekNumber(d: DayOfWeek): (n: int)
    ensures 0 <= n < 7 && DayOfWeekFromNumber(n) == d
  {
    match d
    case Sunday => 0
    case Monday => 1
    case Tuesday => 2
    case Wednesday => 3
    case Thursday => 4
    case Friday => 5
    case Saturday => 6
  }

  /** The enum's name, which is how String.Format writes a DayOfWeek. */
  function DayOfWeekName(d: DayOfWeek): (name: string)
    ensures |name| >= 6 && ' ' !in name && 'A' <= name[0] <= 'Z'
  {
    match d
    case Sunday => "Sunday"
    case Monday => "Monday"
    case Tuesday => "Tuesday"
    case Wednesday => "Wednesday"
    case Thursday => "Thursday"
    case Friday => "Friday"
    case Saturday => "Saturday"
  }

  // ----- the reference calendar -----

  /** The Gregorian leap-year rule. */
  predicate IsLeapYear(year: int) {
    year % 4 == 0 && (year % 100 != 0 || year % 400 == 0)
  }

  function DaysInMonth(year: int, month: int): int
    requires 1 <= month <= 12
  {
    var t := DaysTable(IsLeapYear(year));
    t[month] - t[month - 1]
  }

  /** Days from 0001-01-01 to the first day of `year`. */
  function DaysBeforeYear(year: int): int
    requires year >= 1
  {
    var y := year - 1;
    y * 365 + y / 4 - y / 100 + y / 400
  }

  /** The day number of a calendar date: the inverse of the date part computation. */
  function DateToDays(year: int, month: int, day: int): int
    requires year >= 1 && 1 <= month <= 12
  {
    DaysBeforeYear(year) + DaysTable(IsLeapYear(year))[month - 1] + day - 1
  }

  /** The cycle-based leap test agrees with the Gregorian rule. */
  lemma LeapPartsIsLeapYear(p: YearParts)
    requires p.y100 <= 3 && p.y4 <= 24 && p.y1 <= 3
    ensures LeapParts(p) <==> IsLeapYear(YearOfParts(p))
  {
    var year := YearOfParts(p);
    var a := p.y400 * 100 + p.y100 * 25 + p.y4;
    assert year == 4 * a + p.y1 + 1;
    DivUnique(year, 4, a + (if p.y1 == 3 then 1 else 0), if p.y1 == 3 then 0 else p.y1 + 1);
    if p.y1 == 3 {
      var b := p.y400 * 4 + p.y100;
      assert year == 100 * b + 4 * (p.y4 + 1);
      if p.y4 < 24 {
        DivUnique(year, 100, b, 4 * (p.y4 + 1));
      } else {
        DivUnique(year, 100, b + 1, 0);
        assert year == 400 * p.y400 + 100 * (p.y100 + 1);
        if p.y100 < 3 {
          DivUnique(year, 400, p.y400, 100 * (p.y100 + 1));
        } else {
          DivUnique(year, 400, p.y400 + 1, 0);
        }
      }
    }
  }

  /** The cycle counts are the year's leap days, so the days before the year are exactly the
      full cycles. */
  lemma DaysBeforeYearOfParts(p: YearParts)
    requires p.y100 <= 3 && p.y4 <= 24 && p.y1 <= 3
    ensures DaysBeforeYear(YearOfParts(p)) == p.y400 * DaysPer400Years + p.y100 * DaysPer100Years + p.y4 * DaysPer4Years + p.y1 * DaysPerYear
  {
    var y := YearOfParts(p) - 1;
    assert y == 400 * p.y400 + 100 * p.y100 + 4 * p.y4 + p.y1;
    DivUnique(y, 4, 100 * p.y400 + 25 * p.y100 + p.y4, p.y1);
    DivUnique(y, 100, 4 * p.y400 + p.y100, 4 * p.y4 + p.y1);
    DivUnique(y, 400, p.y400, 100 * p.y100 + 4 * p.y4 + p.y1);
  }

  /** Year, Month and Day name the day the ticks fall on: converting them back to a day
      number gives the day number of the ticks. The day also lies within its month. */
  lemma DatePartRoundTrip(dt: DateTime)
    ensures Year(dt) >= 1
    ensures 1 <= Day(dt) <= DaysInMonth(Year(dt), Month(dt))
    ensures DateToDays(Year(dt), Month(dt), Day(dt)) == DayNumber(dt)
  {
    var p := Parts(dt);
    LeapPartsIsLeapYear(p);
    DaysBeforeYearOfParts(p);
  }

  /** Truncating ticks to a whole number of `unit`s keeps every coarser quotient. */
  lemma TruncatedQuotient(t: nat, unit: int, k: int)
    requires unit > 0 && k > 0
    ensures (t - t % unit) / (unit * k) == t / (unit * k)
  {
    var q := t / unit;
    assert t - t % unit == unit * q;
    DivUnique(unit * q, unit, q, 0);
    DivDiv(unit * q, unit, k);
    DivDiv(t, unit, k);
  }

  /** The date fields depend only on the day number. */
  lemma SameDaySameDate(dt: DateTime, dt': DateTime)
    requires DayNumber(dt') == DayNumber(dt)
    ensures Day(dt') == Day(dt) && Month(dt') == Month(dt) && Year(dt') == Year(dt)
    ensures DayOfWeekOf(dt') == DayOfWeekOf(dt)
  {
    SameDayParts(dt, dt');
    var p := Parts(dt);
    assert Month(dt') == MonthOfParts(p) && Day(dt') == DayOfParts(p);
  }

  lemma SameDayParts(dt: DateTime, dt': DateTime)
    requires DayNumber(dt') == DayNumber(dt)
    ensures Parts(dt') == Parts(dt)
  {
  }

  /** The calendar fields down to the minute depend only on the whole minutes of the ticks. */
  lemma FieldsIgnoreSubMinute(dt: DateTime, dt': DateTime)
    requires dt'.ticks == dt.ticks - dt.ticks % TicksPerMinute
    ensures Minute(dt') == Minute(dt) && Hour(dt') == Hour(dt)
    ensures DayNumber(dt') == DayNumber(dt)
    ensures Day(dt') == Day(dt) && Month(dt') == Month(dt) && Year(dt') == Year(dt)
    ensures DayOfWeekOf(dt') == DayOfWeekOf(dt)
  {
    TruncatedQuotient(dt.ticks, TicksPerMinute, 1);
    assert TicksPerMinute * 1 == TicksPerMinute;
    TruncatedQuotient(dt.ticks, TicksPerMinute, 60);
    assert TicksPerMinute * 60 == TicksPerHour;
    TruncatedQuotient(dt.ticks, TicksPerMinute, 1440);
    assert TicksPerMinute * 1440 == TicksPerDay;
    SameDaySameDate(dt, dt');
  }
}
