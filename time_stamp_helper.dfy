/** TimeStampHelper: conversions between DateTime values and millisecond timestamps counted
    from 1970-01-01T00:00:00Z, cron expressions built from a DateTime, and truncation of a
    DateTime to a whole number of time spans. The clock and the local time zone are
    parameters: `nowTicks` is what DateTime.UtcNow would read, `localOffset` the local zone's
    offset from UTC, in ticks, at the moment being converted. */
module TimeStampHelper {
  import opened Outcomes
  import opened DotNet
  import opened Sequences
  import opened Calendar

  /** The ticks of 1970-01-01T00:00:00. */
  const EpochTicks: int := 621_355_968_000_000_000

  /** The largest magnitude DateTime.AddMilliseconds accepts: the milliseconds of 10000 years. */
  const MaxMillis: int := 315_537_897_600_000

  /** GTM(): new DateTime(1970, 1, 1, 0, 0, 0, DateTimeKind.Utc). */
  function Gtm(): (dt: DateTime)
    ensures dt.ticks == EpochTicks && dt.kind == Utc
  {
    DateTime(DateToDays(1970, 1, 1) * TicksPerDay, Utc)
  }

  /** The epoch reads back as 1970-01-01 00:00. */
  lemma GtmFields()
    ensures Year(Gtm()) == 1970 && Month(Gtm()) == 1 && Day(Gtm()) == 1
    ensures Hour(Gtm()) == 0 && Minute(Gtm()) == 0
  {
    var p := Parts(Gtm());
    assert DayNumber(Gtm()) == 719162;
    assert p == YearParts(4, 3, 17, 1, 0);
  }

  // ----- DateTime arithmetic -----

  /** DateTime.AddTicks: fails when the result leaves the representable range. */
  function AddTicks(dt: DateTime, value: int): (r: Result<DateTime>)
    ensures r.Ok? <==> 0 <= dt.ticks + value <= MaxTicks
    ensures r.Ok? ==> r.value.ticks == dt.ticks + value && r.value.kind == dt.kind
    ensures r.Err? ==> r == Err(TicksOutOfRange)
  {
    if 0 <= dt.ticks + value <= MaxTicks then Ok(DateTime(dt.ticks + value, dt.kind)) else Err(TicksOutOfRange)
  }

  /** DateTime.AddMilliseconds with a whole number of milliseconds (a `long` converted to a
      `double` is exact in the range the guard lets through). */
  function AddMilliseconds(dt: DateTime, ms: int): Result<DateTime> {
    if Abs(ms) >= MaxMillis then Err(TicksOutOfRange) else AddTicks(dt, ms * TicksPerMillisecond)
  }

  /** DateTime.AddSeconds with a whole number of seconds. */
  function AddSeconds(dt: DateTime, s: int): Result<DateTime> {
    AddMilliseconds(dt, s * 1000)
  }

  /** The milliseconds guard never decides anything: the result is there exactly when its
      ticks are in range. */
  lemma AddMillisecondsInRange(dt: DateTime, ms: int)
    ensures AddMilliseconds(dt, ms).Ok? <==> 0 <= dt.ticks + ms * TicksPerMillisecond <= MaxTicks
    ensures AddMilliseconds(dt, ms).Ok? ==> AddMilliseconds(dt, ms).value == DateTime(dt.ticks + ms * TicksPerMillisecond, dt.kind)
  {
  }

  /** AddSeconds is present exactly when the value moved by whole seconds is in range, and is
      then that value. */
  lemma AddSecondsInRange(dt: DateTime, s: int)
    ensures AddSeconds(dt, s).Ok? <==> 0 <= dt.ticks + s * TicksPerSecond <= MaxTicks
    ensures AddSeconds(dt, s).Ok? ==> AddSeconds(dt, s).value == DateTime(dt.ticks + s * TicksPerSecond, dt.kind)
  {
    AddMillisecondsInRange(dt, s * 1000);
  }

  function Clamp(t: int): Ticks {
    if t < 0 then 0 else if t > MaxTicks then MaxTicks else t
  }

  /** DateTime.ToUniversalTime: a UTC value is kept; a local or unspecified one is taken as
      local time and shifted by the offset, clamped to the representable range. */
  function ToUniversalTime(dt: DateTime, localOffset: int): (r: DateTime)
    ensures r.kind == Utc
    ensures dt.kind == Utc ==> r == dt
    ensures dt.kind != Utc && 0 <= dt.ticks - localOffset <= MaxTicks ==> r.ticks == dt.ticks - localOffset
  {
    if dt.kind == Utc then dt else DateTime(Clamp(dt.ticks - localOffset), Utc)
  }

  /** DateTime.ToLocalTime: a local value is kept; a UTC or unspecified one is taken as UTC and
      shifted by the offset, clamped to the representable range. */
  function ToLocalTime(dt: DateTime, localOffset: int): (r: DateTime)
    ensures r.kind == Local
    ensures dt.kind == Local ==> r == dt
    ensures dt.kind != Local && 0 <= dt.ticks + localOffset <= MaxTicks ==> r.ticks == dt.ticks + localOffset
  {
    if dt.kind == Local then dt else DateTime(Clamp(dt.ticks + localOffset), Local)
  }

  /** DateTime.SpecifyKind(dt, Local) applied to an unspecified value, as both parsing helpers
      do after DateTime.Parse. */
  function LocalIfUnspecified(dt: DateTime): (r: DateTime)
    ensures r.ticks == dt.ticks
    ensures r.kind == (if dt.kind == Unspecified then Local else dt.kind)
  {
    if dt.kind == Unspecified then DateTime(dt.ticks, Local) else dt
  }

  // ----- timestamps -----

  /** Convert.ToInt64 of the exact quotient n / d: round to nearest, ties to even. */
  function RoundToEven(n: int, d: int): (q: int)
    requires d > 0
    ensures 2 * Abs(n - d * q) <= d
    ensures n % d == 0 ==> q == n / d
    ensures n / d <= q <= n / d + 1
    ensures 2 * (n % d) != d ==> 2 * Abs(n - d * q) < d
    ensures 2 * (n % d) == d ==> q % 2 == 0
  {
    var f := n / d;
    var r := n % d;
    if 2 * r < d then f
    else if 2 * r > d then f + 1
    else if f % 2 == 0 then f
    else f + 1
  }

  /** UtcDateTimeToUtcTimeStamp: the milliseconds from the epoch to a UTC value, rounded to the
      nearest; any other kind is refused. */
  function UtcDateTimeToUtcTimeStamp(dt: DateTime): (r: Result<Int64>)
    ensures r.Err? <==> dt.kind != Utc
    ensures r.Err? ==> r == Err(NotUtc)
    ensures r.Ok? ==> 2 * Abs(dt.ticks - EpochTicks - r.value * TicksPerMillisecond) <= TicksPerMillisecond
  {
    if dt.kind != Utc then Err(NotUtc)
    else
      var diff := dt.ticks - Gtm().ticks;
      var ms := RoundToEven(diff, TicksPerMillisecond);
      assert -EpochTicks / TicksPerMillisecond <= ms <= (MaxTicks - EpochTicks) / TicksPerMillisecond + 1;
      Ok(ms)
  }

  /** UtcNow: the timestamp of the clock's reading; never refused, since the clock reads UTC. */
  function UtcNow(nowTicks: Ticks): (r: Int64)
    ensures UtcDateTimeToUtcTimeStamp(DateTime(nowTicks, Utc)) == Ok(r)
  {
    UtcDateTimeToUtcTimeStamp(DateTime(nowTicks, Utc)).value
  }

  /** ToUtcDateTime(long): the epoch plus the timestamp's milliseconds, as a UTC value. */
  function ToUtcDateTime(utcTimeStamp: Int64): Result<DateTime> {
    AddMilliseconds(Gtm(), utcTimeStamp)
  }

  /** ToLocalDateTime(long): the timestamp's instant, in local time. */
  function ToLocalDateTime(utcTimeStamp: Int64, localOffset: int): Result<DateTime> {
    match AddMilliseconds(Gtm(), utcTimeStamp)
    case Err(e) => Err(e)
    case Ok(dt) => Ok(ToLocalTime(dt, localOffset))
  }

  /** UnixTimeStampToLocalDateTime: a timestamp in seconds, in local time. */
  function UnixTimeStampToLocalDateTime(unixTimeStamp: Int64, localOffset: int): Result<DateTime> {
    match AddSeconds(Gtm(), unixTimeStamp)
    case Err(e) => Err(e)
    case Ok(dt) => Ok(ToLocalTime(dt, localOffset))
  }

  /** ToLocalDateTime(string) after DateTime.Parse: an unspecified value is taken as local. */
  function ToLocalDateTimeOfParsed(parsed: DateTime, localOffset: int): DateTime {
    ToLocalTime(LocalIfUnspecified(parsed), localOffset)
  }

  /** ToUtcTimeStamp(DateTime): the value in UTC, then its timestamp. */
  function ToUtcTimeStamp(dt: DateTime, localOffset: int): Int64 {
    UtcDateTimeToUtcTimeStamp(ToUniversalTime(dt, localOffset)).value
  }

  /** ToUtcTimeStamp(string) after DateTime.Parse: an unspecified value is taken as local. */
  function ToUtcTimeStampOfParsed(parsed: DateTime, localOffset: int): Int64 {
    ToUtcTimeStamp(LocalIfUnspecified(parsed), localOffset)
  }

  /** A timestamp turned into a DateTime and back is the same timestamp; the conversion fails
      exactly when the instant is outside years 1 to 9999. */
  lemma TimeStampRoundTrip(ts: Int64)
    ensures ToUtcDateTime(ts).Ok? <==> 0 <= EpochTicks + ts * TicksPerMillisecond <= MaxTicks
    ensures ToUtcDateTime(ts).Ok? ==> ToUtcDateTime(ts).value.kind == Utc
    ensures ToUtcDateTime(ts).Ok? ==> UtcDateTimeToUtcTimeStamp(ToUtcDateTime(ts).value) == Ok(ts)
  {
    AddMillisecondsInRange(Gtm(), ts);
    if ToUtcDateTime(ts).Ok? {
      var dt := ToUtcDateTime(ts).value;
      assert dt.ticks - EpochTicks == TicksPerMillisecond * ts;
      DivUnique(dt.ticks - EpochTicks, TicksPerMillisecond, ts, 0);
    }
  }

  /** A Unix timestamp in seconds names the same instant as the millisecond timestamp a
      thousand times larger: it reads as the same local time, and fails exactly when that
      instant is outside years 1 to 9999. */
  lemma UnixSecondsAreMilliseconds(unixTimeStamp: Int64, localOffset: int)
    ensures UnixTimeStampToLocalDateTime(unixTimeStamp, localOffset).Ok?
      <==> 0 <= EpochTicks + unixTimeStamp * TicksPerSecond <= MaxTicks
    ensures IsInt64(unixTimeStamp * 1000) ==>
      UnixTimeStampToLocalDateTime(unixTimeStamp, localOffset) == ToLocalDateTime(unixTimeStamp * 1000, localOffset)
  {
    AddSecondsInRange(Gtm(), unixTimeStamp);
  }

  /** A UTC value on a whole millisecond turned into a timestamp and back is the same value. */
  lemma DateTimeRoundTrip(dt: DateTime)
    requires dt.kind == Utc && dt.ticks % TicksPerMillisecond == 0
    ensures UtcDateTimeToUtcTimeStamp(dt).Ok?
    ensures ToUtcDateTime(UtcDateTimeToUtcTimeStamp(dt).value) == Ok(dt)
  {
    var diff := dt.ticks - EpochTicks;
    var q := dt.ticks / TicksPerMillisecond - EpochTicks / TicksPerMillisecond;
    DivUnique(diff, TicksPerMillisecond, q, 0);
    var ts := UtcDateTimeToUtcTimeStamp(dt).value;
    assert ts == q;
    AddMillisecondsInRange(Gtm(), ts);
  }

  /** The time zone only matters for values that are not UTC: a UTC value's timestamp is the
      same whatever the offset, and a local one is shifted by the offset first. */
  lemma ToUtcTimeStampOffset(dt: DateTime, localOffset: int)
    ensures dt.kind == Utc ==> ToUtcTimeStamp(dt, localOffset) == UtcDateTimeToUtcTimeStamp(dt).value
    ensures dt.kind != Utc && 0 <= dt.ticks - localOffset <= MaxTicks ==>
      ToUtcTimeStamp(dt, localOffset) == UtcDateTimeToUtcTimeStamp(DateTime(dt.ticks - localOffset, Utc)).value
  {
  }

  /** Marking a parsed unspecified value as local changes nothing for ToUtcTimeStamp, since
      ToUniversalTime already takes unspecified values as local; for ToLocalDateTime it keeps
      the parsed clock time where ToLocalTime would otherwise have shifted it as UTC. */
  lemma ParsedUnspecifiedIsLocal(parsed: DateTime, localOffset: int)
    requires parsed.kind == Unspecified
    ensures ToUtcTimeStampOfParsed(parsed, localOffset) == ToUtcTimeStamp(parsed, localOffset)
    ensures ToLocalDateTimeOfParsed(parsed, localOffset) == DateTime(parsed.ticks, Local)
  {
  }

  /** A local time on a whole millisecond, stored as a timestamp and read back with the same
      offset, is the same local time (provided neither shift leaves the range). */
  lemma LocalRoundTrip(dt: DateTime, localOffset: int)
    requires dt.kind == Local && dt.ticks % TicksPerMillisecond == 0 && localOffset % TicksPerMillisecond == 0
    requires 0 <= dt.ticks - localOffset <= MaxTicks
    ensures ToLocalDateTime(ToUtcTimeStamp(dt, localOffset), localOffset) == Ok(dt)
  {
    var u := DateTime(dt.ticks - localOffset, Utc);
    assert u.ticks % TicksPerMillisecond == 0 by {
      DivUnique(dt.ticks - localOffset, TicksPerMillisecond, dt.ticks / TicksPerMillisecond - localOffset / TicksPerMillisecond, 0);
    }
    DateTimeRoundTrip(u);
  }

  // ----- truncation -----

  /** The remainder of a non-negative number is at most the number, and taking it away leaves
      a multiple of the divisor. */
  lemma FloorMultiple(t: nat, a: int)
    requires a > 0
    ensures t % a <= t && (t - t % a) % a == 0
  {
    var q := t / a;
    assert t == a * q + t % a;
    MulNonNegative(a, q);
    DivUnique(a * q, a, q, 0);
  }

  /** Of two multiples of `a`, one at most `t` and one above `t - a`, the first is not the
      larger. */
  lemma MultiplesOrdered(m: int, r: int, t: int, a: int)
    requires a > 0 && m % a == 0 && r % a == 0 && m <= t < r + a
    ensures m <= r
  {
    DivUnique(m, a, m / a, 0);
    DivUnique(r, a, r / a, 0);
    var x := m / a;
    var y := r / a;
    assert m == a * x && r == a * y;
    assert a * x < a * (y + 1);
    assert x >= y + 1 ==> a * x >= a * (y + 1);
    assert a * y - a * x == a * (y - x);
    MulNonNegative(a, y - x);
  }

  lemma MulNonNegative(a: nat, b: int)
    requires b >= 0
    ensures a * b >= 0
  {
  }

  /** Truncate: the value moved back to the last whole multiple of the span (C#'s `%` of the
      non-negative ticks); a zero span leaves it as it is. */
  function Truncate(dt: DateTime, span: Int64): (r: DateTime)
    ensures span == 0 ==> r == dt
    ensures r.kind == dt.kind
    ensures span != 0 ==> r.ticks <= dt.ticks < r.ticks + Abs(span) && r.ticks % Abs(span) == 0
  {
    if span == 0 then dt
    else
      var rem := Remainder(dt.ticks, span);
      FloorMultiple(dt.ticks, Abs(span));
      AddTicks(dt, -rem).value
  }

  /** Truncation lands on the largest multiple of the span not after the value. */
  lemma TruncateIsGreatest(dt: DateTime, span: Int64, m: int)
    requires span != 0 && m % Abs(span) == 0 && m <= dt.ticks
    ensures m <= Truncate(dt, span).ticks
  {
    MultiplesOrdered(m, Truncate(dt, span).ticks, dt.ticks, Abs(span));
  }

  /** Truncating twice is truncating once. */
  lemma TruncateIdempotent(dt: DateTime, span: Int64)
    ensures Truncate(Truncate(dt, span), span) == Truncate(dt, span)
  {
  }

  /** The span's sign does not matter. */
  lemma TruncateSign(dt: DateTime, span: Int64)
    requires span != -0x8000_0000_0000_0000
    ensures Truncate(dt, span) == Truncate(dt, -span)
  {
  }

  // ----- cron expressions -----

  /** String.Format with the fields separated by single spaces. */
  function Join(fields: seq<string>): string
    requires |fields| >= 1
  {
    if |fields| == 1 then fields[0] else fields[0] + " " + Join(fields[1..])
  }

  /** The fields of a space-separated expression, as a cron reader takes them apart. */
  function Split(s: string): (fields: seq<string>)
    ensures |fields| >= 1
    decreases |s|
  {
    match IndexOf(s, ' ')
    case None => [s]
    case Some(i) => [s[..i]] + Split(s[i + 1..])
  }

  /** Splitting joined fields that hold no space gives the fields back. */
  lemma {:induction false} SplitJoin(fields: seq<string>)
    requires |fields| >= 1
    requires forall x | x in fields :: ' ' !in x
    ensures Split(Join(fields)) == fields
  {
    if |fields| > 1 {
      var f := fields[0];
      var rest := Join(fields[1..]);
      var s := f + " " + rest;
      assert s[|f|] == ' ';
      var i := IndexOf(s, ' ');
      assert i.Some?;
      assert i.value <= |f|;
      assert forall j :: 0 <= j < |f| ==> s[j] == f[j] && f[j] in f && s[j] != ' ';
      assert i.value == |f|;
      assert s[..|f|] == f;
      assert s[|f| + 1..] == rest;
      assert forall x | x in fields[1..] :: x in fields;
      SplitJoin(fields[1..]);
      assert [fields[0]] + fields[1..] == fields;
    }
  }

  /** A decimal field: the text of an integer, which holds no space. */
  lemma NumberField(n: int)
    ensures ' ' !in IntToString(n) && ParseInteger(IntToString(n)) == Some(n)
  {
    ParseIntToString(n);
    var s := IntToString(n);
    assert forall i :: 0 <= i < |s| ==> IsNumeral(s[i]);
  }

  /** The seven fields of a Quartz-style expression for a given minute of a given day. */
  function Cron7Fields(minute: int, hour: int, day: int, month: int, year: int): seq<string> {
    ["0", IntToString(minute), IntToString(hour), IntToString(day), IntToString(month), "?", IntToString(year)]
  }

  lemma SplitCron7(minute: int, hour: int, day: int, month: int, year: int)
    ensures Split(Join(Cron7Fields(minute, hour, day, month, year))) == Cron7Fields(minute, hour, day, month, year)
  {
    NumberField(minute);
    NumberField(hour);
    NumberField(day);
    NumberField(month);
    NumberField(year);
    assert ' ' !in "0" && ' ' !in "?";
    SplitJoin(Cron7Fields(minute, hour, day, month, year));
  }

  /** ToCron7: seconds 0, minute, hour, day of month, month, no day of week, year. */
  function ToCron7(dt: DateTime): string {
    Join(Cron7Fields(Minute(dt), Hour(dt), Day(dt), Month(dt), Year(dt)))
  }

  /** Splitting the seven-field text gives back the fields, each number reading back as itself. */
  lemma Cron7FieldsRead(minute: int, hour: int, day: int, month: int, year: int)
    ensures var f := Split(Join(Cron7Fields(minute, hour, day, month, year)));
      |f| == 7 && f[0] == "0" && f[5] == "?" &&
      ParseInteger(f[1]) == Some(minute) && ParseInteger(f[2]) == Some(hour) &&
      ParseInteger(f[3]) == Some(day) && ParseInteger(f[4]) == Some(month) &&
      ParseInteger(f[6]) == Some(year)
  {
    NumberField(minute);
    NumberField(hour);
    NumberField(day);
    NumberField(month);
    NumberField(year);
    SplitCron7(minute, hour, day, month, year);
  }

  /** The expression has seven fields: second 0, the date's minute, hour, day and month as
      numbers in their ranges, "?" for the day of week, and the year. */
  lemma Cron7Fields7(dt: DateTime)
    ensures var f := Split(ToCron7(dt));
      |f| == 7 && f[0] == "0" && f[5] == "?" &&
      ParseInteger(f[1]) == Some(Minute(dt)) && 0 <= Minute(dt) < 60 &&
      ParseInteger(f[2]) == Some(Hour(dt)) && 0 <= Hour(dt) < 24 &&
      ParseInteger(f[3]) == Some(Day(dt)) && 1 <= Day(dt) <= DaysInMonth(Year(dt), Month(dt)) &&
      ParseInteger(f[4]) == Some(Month(dt)) && 1 <= Month(dt) <= 12 &&
      ParseInteger(f[6]) == Some(Year(dt)) && Year(dt) >= 1
  {
    DatePartRoundTrip(dt);
    Cron7FieldsRead(Minute(dt), Hour(dt), Day(dt), Month(dt), Year(dt));
  }

  /** The whole minutes of the ticks, from the day number, hour and minute. */
  lemma MinutesFromFields(dt: DateTime)
    ensures dt.ticks / TicksPerMinute == DayNumber(dt) * 1440 + Hour(dt) * 60 + Minute(dt)
  {
    var m := dt.ticks / TicksPerMinute;
    DivDiv(dt.ticks, TicksPerMinute, 60);
    DivDiv(dt.ticks, TicksPerMinute, 1440);
    DivDiv(m, 60, 24);
    assert m / 60 == 24 * (m / 60 / 24) + (m / 60) % 24;
  }

  /** Equal seven-field expressions carry equal calendar fields. */
  lemma Cron7SameFields(a: DateTime, b: DateTime)
    requires ToCron7(a) == ToCron7(b)
    ensures Minute(a) == Minute(b) && Hour(a) == Hour(b) && Day(a) == Day(b)
    ensures Month(a) == Month(b) && Year(a) == Year(b)
  {
    Cron7Fields7(a);
    Cron7Fields7(b);
  }

  /** Two values give the same seven-field expression exactly when they fall in the same
      minute. */
  lemma Cron7SameMinute(a: DateTime, b: DateTime)
    ensures ToCron7(a) == ToCron7(b) <==> a.ticks / TicksPerMinute == b.ticks / TicksPerMinute
  {
    MinutesFromFields(a);
    MinutesFromFields(b);
    if ToCron7(a) == ToCron7(b) {
      Cron7SameFields(a, b);
      DatePartRoundTrip(a);
      DatePartRoundTrip(b);
      assert DayNumber(a) == DayNumber(b);
    }
    if a.ticks / TicksPerMinute == b.ticks / TicksPerMinute {
      SameMinuteSameFields(a, b);
    }
  }

  lemma SameMinuteSameFields(a: DateTime, b: DateTime)
    requires a.ticks / TicksPerMinute == b.ticks / TicksPerMinute
    ensures ToCron7(a) == ToCron7(b)
  {
    var ta := DateTime(a.ticks - a.ticks % TicksPerMinute, a.kind);
    assert ta == DateTime(b.ticks - b.ticks % TicksPerMinute, a.kind);
    FieldsIgnoreSubMinute(a, ta);
    FieldsIgnoreSubMinute(b, ta);
  }

  /** Truncating to the minute does not change the seven-field expression. */
  lemma Cron7IgnoresTruncation(dt: DateTime)
    ensures ToCron7(Truncate(dt, TicksPerMinute)) == ToCron7(dt)
  {
    FieldsIgnoreSubMinute(dt, Truncate(dt, TicksPerMinute));
  }

  /** The five fields of a cron expression, the day of week given as text. */
  function Cron5Fields(minute: int, hour: int, day: int, month: int, dayOfWeek: string): seq<string> {
    [IntToString(minute), IntToString(hour), IntToString(day), IntToString(month), dayOfWeek]
  }

  lemma SplitCron5(minute: int, hour: int, day: int, month: int, dayOfWeek: string)
    requires ' ' !in dayOfWeek
    ensures Split(Join(Cron5Fields(minute, hour, day, month, dayOfWeek))) == Cron5Fields(minute, hour, day, month, dayOfWeek)
  {
    NumberField(minute);
    NumberField(hour);
    NumberField(day);
    NumberField(month);
    SplitJoin(Cron5Fields(minute, hour, day, month, dayOfWeek));
  }

  /** Splitting the five-field text gives back the fields, the four numbers reading back as
      themselves. */
  lemma Cron5FieldsRead(minute: int, hour: int, day: int, month: int, dayOfWeek: string)
    requires ' ' !in dayOfWeek
    ensures var f := Split(Join(Cron5Fields(minute, hour, day, month, dayOfWeek)));
      |f| == 5 && f[4] == dayOfWeek &&
      ParseInteger(f[0]) == Some(minute) && ParseInteger(f[1]) == Some(hour) &&
      ParseInteger(f[2]) == Some(day) && ParseInteger(f[3]) == Some(month)
  {
    NumberField(minute);
    NumberField(hour);
    NumberField(day);
    NumberField(month);
    SplitCron5(minute, hour, day, month, dayOfWeek);
  }

  /** ToCron5 as written: minute, hour, day of month, month, then the DayOfWeek value, which
      String.Format writes as the enum's name. */
  function ToCron5(dt: DateTime): string {
    Join(Cron5Fields(Minute(dt), Hour(dt), Day(dt), Month(dt), DayOfWeekName(DayOfWeekOf(dt))))
  }

  /** The fifth field of ToCron5 is the day's English name, not a number in 0-7. */
  lemma Cron5DayIsName(dt: DateTime)
    ensures var f := Split(ToCron5(dt));
      |f| == 5 && f[4] == DayOfWeekName(DayOfWeekOf(dt)) && ParseInteger(f[4]) == None
  {
    var name := DayOfWeekName(DayOfWeekOf(dt));
    assert !AllDigits(name);
    Cron5FieldsRead(Minute(dt), Hour(dt), Day(dt), Month(dt), name);
  }

  /** ToCron5 with the day of week as its number, 0 for Sunday through 6 for Saturday. */
  function ToCron5Numeric(dt: DateTime): string {
    Join(Cron5Fields(Minute(dt), Hour(dt), Day(dt), Month(dt), IntToString(DayOfWeekNumber(DayOfWeekOf(dt)))))
  }

  /** The numeric expression has five numeric fields; the fifth is in 0-7 and names the
      date's day of week. */
  lemma Cron5NumericFields(dt: DateTime)
    ensures var f := Split(ToCron5Numeric(dt));
      |f| == 5 &&
      ParseInteger(f[0]) == Some(Minute(dt)) && ParseInteger(f[1]) == Some(Hour(dt)) &&
      ParseInteger(f[2]) == Some(Day(dt)) && ParseInteger(f[3]) == Some(Month(dt)) &&
      exists n :: 0 <= n <= 6 && ParseInteger(f[4]) == Some(n) && DayOfWeekFromNumber(n) == DayOfWeekOf(dt)
  {
    var n := DayOfWeekNumber(DayOfWeekOf(dt));
    NumberField(n);
    Cron5FieldsRead(Minute(dt), Hour(dt), Day(dt), Month(dt), IntToString(n));
  }
}
