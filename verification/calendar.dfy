/** Calendar stepping for transit ranges: adding months with the day clamped to
    the target month, and the inclusive walk from a start to an end datetime in
    steps of a minute, an hour, a day or a month. Datetimes are wall-clock
    records of the proleptic Gregorian calendar; all datetimes of one walk share
    one time zone, so they compare field by field. */
module Calendar {
  import opened Wrappers

  /** A wall-clock datetime to the minute, with its zone name carried along. */
  datatype DateTime = DateTime(year: int, month: int, day: int, hour: int, minute: int, tz: string)

  predicate IsLeap(y: int) {
    y % 4 == 0 && (y % 100 != 0 || y % 400 == 0)
  }

  /** `calendar.monthrange(y, m)[1]`. */
  function DaysInMonth(y: int, m: int): (n: int)
    requires 1 <= m <= 12
    ensures 28 <= n <= 31
    ensures n == 29 <==> m == 2 && IsLeap(y)
  {
    if m == 2 then (if IsLeap(y) then 29 else 28)
    else if m == 4 || m == 6 || m == 9 || m == 11 then 30
    else 31
  }

  predicate Valid(dt: DateTime) {
    1 <= dt.month <= 12 && 1 <= dt.day <= DaysInMonth(dt.year, dt.month)
    && 0 <= dt.hour < 24 && 0 <= dt.minute < 60
  }

  /** A datetime that exists on the calendar. */
  type Moment = dt: DateTime | Valid(dt) witness DateTime(1, 1, 1, 0, 0, "")

  // ---------------------------------------------------------------------------
  // A reference count of minutes, which orders datetimes
  // ---------------------------------------------------------------------------

  /** Days in the years before `y`, counted from year 1. */
  function DaysBeforeYear(y: int): int {
    365 * (y - 1) + (y - 1) / 4 - (y - 1) / 100 + (y - 1) / 400
  }

  /** Days in the months of year `y` before month `m`; `m == 13` gives the year. */
  function DaysBeforeMonth(y: int, m: int): int
    requires 1 <= m <= 13
  {
    [0, 31, 59, 90, 120, 151, 181, 212, 243, 273, 304, 334, 365][m - 1]
    + (if m > 2 && IsLeap(y) then 1 else 0)
  }

  lemma MonthStep(y: int, m: int)
    requires 1 <= m <= 12
    ensures DaysBeforeMonth(y, m + 1) == DaysBeforeMonth(y, m) + DaysInMonth(y, m)
  {
  }

  /** One more year adds that year's length. */
  lemma YearStep(y: int)
    ensures DaysBeforeYear(y + 1) == DaysBeforeYear(y) + DaysBeforeMonth(y, 13)
  {
    var x := y - 1;
    DivStep4(x);
    DivStep100(x);
    DivStep400(x);
    LeapCount(y);
    assert DaysBeforeMonth(y, 13) == 365 + (if IsLeap(y) then 1 else 0);
  }

  /** The three corrections of the Gregorian count add up to the leap day. */
  lemma LeapCount(y: int)
    ensures (if y % 4 == 0 then 1 else 0) - (if y % 100 == 0 then 1 else 0) + (if y % 400 == 0 then 1 else 0)
         == (if IsLeap(y) then 1 else 0)
  {
    if y % 400 == 0 {
      var k := y / 400;
      assert y == 100 * (4 * k) && y == 4 * (100 * k);
    } else if y % 100 == 0 {
      var k := y / 100;
      assert y == 4 * (25 * k);
    }
  }

  /** Counting one further, each quotient grows exactly at a multiple. */
  lemma DivStep4(x: int)
    ensures (x + 1) / 4 == x / 4 + (if (x + 1) % 4 == 0 then 1 else 0)
  {
    var q := x / 4;
    assert x == 4 * q + x % 4;
  }

  lemma DivStep100(x: int)
    ensures (x + 1) / 100 == x / 100 + (if (x + 1) % 100 == 0 then 1 else 0)
  {
    var q := x / 100;
    assert x == 100 * q + x % 100;
  }

  lemma DivStep400(x: int)
    ensures (x + 1) / 400 == x / 400 + (if (x + 1) % 400 == 0 then 1 else 0)
  {
    var q := x / 400;
    assert x == 400 * q + x % 400;
  }

  /** The day's number, day 1 being 1 January of year 1. */
  function DayNumber(dt: DateTime): int
    requires 1 <= dt.month <= 12
  {
    DaysBeforeYear(dt.year) + DaysBeforeMonth(dt.year, dt.month) + dt.day
  }

  /** Minutes since the start of the count: the reference for order and steps. */
  function Minutes(dt: DateTime): int
    requires 1 <= dt.month <= 12
  {
    (DayNumber(dt) * 24 + dt.hour) * 60 + dt.minute
  }

  /** Python's `<` on datetimes of one zone: field by field, most significant
      first. */
  predicate FieldsBefore(a: DateTime, b: DateTime) {
    a.year < b.year
    || (a.year == b.year && (a.month < b.month
    || (a.month == b.month && (a.day < b.day
    || (a.day == b.day && (a.hour < b.hour
    || (a.hour == b.hour && a.minute < b.minute)))))))
  }

  lemma {:induction false} MonthsIncrease(y: int, m: int, n: int)
    requires 1 <= m < n <= 13
    ensures DaysBeforeMonth(y, n) >= DaysBeforeMonth(y, m) + DaysInMonth(y, m)
    decreases n - m
  {
    MonthStep(y, m);
    if n > m + 1 {
      MonthsIncrease(y, m + 1, n);
    }
  }

  lemma {:induction false} YearsIncrease(y: int, z: int)
    requires y < z
    ensures DaysBeforeYear(z) >= DaysBeforeYear(y) + DaysBeforeMonth(y, 13)
    decreases z - y
  {
    YearStep(y);
    if z > y + 1 {
      YearsIncrease(y + 1, z);
    }
  }

  /** The minute count orders valid datetimes exactly as their fields do. */
  lemma MinutesOrder(a: DateTime, b: DateTime)
    requires Valid(a) && Valid(b)
    ensures FieldsBefore(a, b) <==> Minutes(a) < Minutes(b)
    ensures a.year == b.year && a.month == b.month && a.day == b.day && a.hour == b.hour && a.minute == b.minute
        <==> Minutes(a) == Minutes(b)
  {
    DayOrder(a, b);
    DayOrder(b, a);
  }

  lemma DayOrder(a: DateTime, b: DateTime)
    requires Valid(a) && Valid(b)
    ensures (a.year, a.month, a.day) == (b.year, b.month, b.day) ==> DayNumber(a) == DayNumber(b)
    ensures a.year < b.year || (a.year == b.year && (a.month < b.month || (a.month == b.month && a.day < b.day)))
        ==> DayNumber(a) < DayNumber(b)
  {
    if a.year < b.year {
      YearsIncrease(a.year, b.year);
      MonthsIncrease(a.year, a.month, 13);
    } else if a.year == b.year && a.month < b.month {
      MonthsIncrease(a.year, a.month, b.month);
    }
  }

  // ---------------------------------------------------------------------------
  // add_months
  // ---------------------------------------------------------------------------

  /** The month count of a datetime: `year * 12 + (month - 1)`. */
  function MonthIndex(dt: DateTime): int {
    dt.year * 12 + dt.month - 1
  }

  function Min(a: int, b: int): int {
    if a <= b then a else b
  }

  /** `add_months(dt, months)`: floor division and modulo carry the month into
      the year; the day is cut back to the target month's last day. */
  function AddMonths(dt: DateTime, months: int): (r: DateTime)
    requires Valid(dt)
    ensures Valid(r)
    ensures MonthIndex(r) == MonthIndex(dt) + months
    ensures r.day == Min(dt.day, DaysInMonth(r.year, r.month))
    ensures r.hour == dt.hour && r.minute == dt.minute && r.tz == dt.tz
  {
    var t := dt.month - 1 + months;
    var year := dt.year + t / 12;
    var month := t % 12 + 1;
    dt.(year := year, month := month, day := Min(dt.day, DaysInMonth(year, month)))
  }

  /** A day that exists in every month survives any number of month steps, so
      stepping forth and back returns to the start. */
  lemma AddMonthsInverse(dt: DateTime, n: int)
    requires Valid(dt) && dt.day <= 28
    ensures AddMonths(AddMonths(dt, n), -n) == dt
  {
    var r := AddMonths(AddMonths(dt, n), -n);
    assert MonthIndex(r) == MonthIndex(dt);
    assert r.year == dt.year;
  }

  /** Month steps compose when no clamping happens. */
  lemma AddMonthsCompose(dt: DateTime, a: int, b: int)
    requires Valid(dt) && dt.day <= 28
    ensures AddMonths(AddMonths(dt, a), b) == AddMonths(dt, a + b)
  {
    var r := AddMonths(AddMonths(dt, a), b);
    var s := AddMonths(dt, a + b);
    assert MonthIndex(r) == MonthIndex(s);
    assert r.year == s.year;
  }

  /** Once clamped, a day stays clamped: 31 January 2023 steps to 28 February
      and then to 28 March, not 31 March. */
  lemma ClampPersists()
    ensures AddMonths(DateTime(2023, 1, 31, 0, 0, ""), 1) == DateTime(2023, 2, 28, 0, 0, "")
    ensures AddMonths(DateTime(2023, 2, 28, 0, 0, ""), 1) == DateTime(2023, 3, 28, 0, 0, "")
    ensures AddMonths(DateTime(2024, 1, 31, 0, 0, ""), 1) == DateTime(2024, 2, 29, 0, 0, "")
  {
  }

  /** A month step moves strictly forward. */
  lemma AddMonthLater(dt: DateTime)
    requires Valid(dt)
    ensures Minutes(AddMonths(dt, 1)) > Minutes(dt)
  {
    var r := AddMonths(dt, 1);
    assert FieldsBefore(dt, r);
    MinutesOrder(dt, r);
  }

  // ---------------------------------------------------------------------------
  // Fixed steps: timedelta(minutes=1), timedelta(hours=1), timedelta(days=1)
  // ---------------------------------------------------------------------------

  /** The next calendar day at the same time of day. */
  function NextDay(dt: DateTime): (r: DateTime)
    requires Valid(dt)
    ensures Valid(r)
    ensures Minutes(r) == Minutes(dt) + 1440
    ensures r.hour == dt.hour && r.minute == dt.minute && r.tz == dt.tz
  {
    if dt.day < DaysInMonth(dt.year, dt.month) then dt.(day := dt.day + 1)
    else if dt.month < 12 then dt.(month := dt.month + 1, day := 1)
    else
      YearStep(dt.year);
      dt.(year := dt.year + 1, month := 1, day := 1)
  }

  function NextHour(dt: DateTime): (r: DateTime)
    requires Valid(dt)
    ensures Valid(r)
    ensures Minutes(r) == Minutes(dt) + 60
    ensures r.minute == dt.minute && r.tz == dt.tz
  {
    if dt.hour < 23 then dt.(hour := dt.hour + 1)
    else NextDay(dt).(hour := 0)
  }

  function NextMinute(dt: DateTime): (r: DateTime)
    requires Valid(dt)
    ensures Valid(r)
    ensures Minutes(r) == Minutes(dt) + 1
    ensures r.tz == dt.tz
  {
    if dt.minute < 59 then dt.(minute := dt.minute + 1)
    else NextHour(dt).(minute := 0)
  }

  // ---------------------------------------------------------------------------
  // iter_range_datetimes
  // ---------------------------------------------------------------------------

  /** The requested step. `Unsupported` is any other value of the string enum. */
  datatype Granularity = MinuteStep | HourStep | DayStep | MonthStep | Unsupported(name: string)

  /** The fixed step in minutes; month steps have none. */
  function StepMinutes(g: Granularity): int {
    match g
    case MinuteStep => 1
    case HourStep => 60
    case DayStep => 1440
    case _ => 0
  }

  /** One step forward. */
  function Advance(dt: Moment, g: Granularity): (r: Moment)
    requires !g.Unsupported?
    ensures Minutes(r) > Minutes(dt)
    ensures !g.MonthStep? ==> Minutes(r) == Minutes(dt) + StepMinutes(g)
  {
    match g
    case MinuteStep => NextMinute(dt)
    case HourStep => NextHour(dt)
    case DayStep => NextDay(dt)
    case MonthStep => AddMonthLater(dt); AddMonths(dt, 1)
  }

  /** Strictly increasing in time. */
  predicate Increasing(s: seq<Moment>) {
    forall i, j :: 0 <= i < j < |s| ==> Minutes(s[i]) < Minutes(s[j])
  }

  /** One more step in front of a walk from the next step on. */
  lemma ConsWalk(cur: Moment, rest: seq<Moment>, end: Moment, g: Granularity)
    requires !g.Unsupported? && Minutes(cur) <= Minutes(end)
    requires |rest| > 0 ==> rest[0] == Advance(cur, g)
    requires forall i :: 0 <= i < |rest| ==> Minutes(Advance(cur, g)) <= Minutes(rest[i]) <= Minutes(end)
    requires forall i :: 0 <= i < |rest| - 1 ==> rest[i + 1] == Advance(rest[i], g)
    requires |rest| > 0 ==> Minutes(Advance(rest[|rest| - 1], g)) > Minutes(end)
    requires |rest| == 0 ==> Minutes(Advance(cur, g)) > Minutes(end)
    ensures forall i :: 0 <= i < |[cur] + rest| ==> Minutes(cur) <= Minutes(([cur] + rest)[i]) <= Minutes(end)
    ensures forall i :: 0 <= i < |[cur] + rest| - 1 ==> ([cur] + rest)[i + 1] == Advance(([cur] + rest)[i], g)
    ensures Minutes(Advance(([cur] + rest)[|[cur] + rest| - 1], g)) > Minutes(end)
  {
    var r := [cur] + rest;
    forall i | 0 < i < |r|
      ensures r[i] == rest[i - 1]
    {
    }
  }

  /** The `while current <= end` loop: every value from `cur` on, one step apart,
      up to and including the last one not after `end`. */
  function Walk(cur: Moment, end: Moment, g: Granularity): (r: seq<Moment>)
    requires !g.Unsupported?
    ensures Minutes(cur) <= Minutes(end) <==> |r| > 0
    ensures |r| > 0 ==> r[0] == cur
    ensures forall i :: 0 <= i < |r| ==> Minutes(cur) <= Minutes(r[i]) <= Minutes(end)
    ensures forall i :: 0 <= i < |r| - 1 ==> r[i + 1] == Advance(r[i], g)
    ensures |r| > 0 ==> Minutes(Advance(r[|r| - 1], g)) > Minutes(end)
    decreases Minutes(end) - Minutes(cur)
  {
    if Minutes(cur) > Minutes(end) then []
    else
      var rest := Walk(Advance(cur, g), end, g);
      ConsWalk(cur, rest, end, g);
      [cur] + rest
  }

  /** A sequence that rises at every step rises between any two positions. */
  lemma {:induction false} StrictChain(m: seq<int>)
    requires forall i :: 0 <= i < |m| - 1 ==> m[i] < m[i + 1]
    ensures forall i, j :: 0 <= i < j < |m| ==> m[i] < m[j]
    decreases |m|
  {
    if |m| > 1 {
      StrictChain(m[1..]);
      forall i, j | 0 <= i < j < |m|
        ensures m[i] < m[j]
      {
        assert m[j] == m[1..][j - 1];
        if i > 0 {
          assert m[i] == m[1..][i - 1];
        } else if j > 1 {
          assert m[1] == m[1..][0];
        }
      }
    }
  }

  lemma WalkIncreasing(cur: Moment, end: Moment, g: Granularity)
    requires !g.Unsupported?
    ensures Increasing(Walk(cur, end, g))
  {
    var r := Walk(cur, end, g);
    var m := seq(|r|, i requires 0 <= i < |r| => Minutes(r[i]));
    forall i | 0 <= i < |m| - 1
      ensures m[i] < m[i + 1]
    {
      assert r[i + 1] == Advance(r[i], g);
    }
    StrictChain(m);
    forall i, j | 0 <= i < j < |r|
      ensures Minutes(r[i]) < Minutes(r[j])
    {
      assert m[i] < m[j];
    }
  }

  /** With a fixed step the walk visits every step from the start up to the end:
      the count is the number of whole steps that fit, plus one. */
  lemma {:induction false} WalkCount(cur: Moment, end: Moment, g: Granularity)
    requires !g.Unsupported? && !g.MonthStep?
    requires Minutes(cur) <= Minutes(end)
    ensures |Walk(cur, end, g)| == (Minutes(end) - Minutes(cur)) / StepMinutes(g) + 1
    decreases Minutes(end) - Minutes(cur)
  {
    var next := Advance(cur, g);
    var k := StepMinutes(g);
    var d := Minutes(end) - Minutes(cur);
    if Minutes(next) <= Minutes(end) {
      WalkCount(next, end, g);
      assert (d - k) / k + 1 == d / k;
    } else {
      assert Walk(next, end, g) == [];
      assert d / k == 0;
    }
  }

  /** `iter_range_datetimes(start, end, granularity)`: a `ValueError` when the
      start is after the end or the granularity is not one of the four;
      otherwise the inclusive walk. */
  function IterRange(start: Moment, end: Moment, g: Granularity): (r: Result<seq<Moment>, string>)
    ensures r.Err? <==> Minutes(start) > Minutes(end) || g.Unsupported?
    ensures r.Ok? ==> |r.value| > 0 && r.value[0] == start
    ensures r.Ok? ==> forall i :: 0 <= i < |r.value| ==> Minutes(r.value[i]) <= Minutes(end)
    ensures r.Ok? ==> Increasing(r.value)
    ensures r.Ok? && !g.MonthStep? ==> forall i :: 0 <= i < |r.value| - 1 ==>
        Minutes(r.value[i + 1]) == Minutes(r.value[i]) + StepMinutes(g)
    ensures r.Ok? && !g.MonthStep? ==> Minutes(end) < Minutes(r.value[|r.value| - 1]) + StepMinutes(g)
    ensures r.Ok? && g.MonthStep? ==> forall i :: 0 <= i < |r.value| - 1 ==> r.value[i + 1] == AddMonths(r.value[i], 1)
    ensures r.Ok? && g.MonthStep? ==> Minutes(end) < Minutes(AddMonths(r.value[|r.value| - 1], 1))
  {
    if FieldsBefore(end, start) then
      MinutesOrder(end, start);
      Err("start must be <= end")
    else if g.Unsupported? then
      Err("Unsupported granularity: " + g.name)
    else
      MinutesOrder(end, start);
      WalkIncreasing(start, end, g);
      Ok(Walk(start, end, g))
  }

  /** From noon on 28 February 2024 to midnight on 1 March is 36 hours: the
      leap day lies between. */
  lemma LeapDaySpan()
    ensures Minutes(DateTime(2024, 3, 1, 0, 0, "UTC")) - Minutes(DateTime(2024, 2, 28, 12, 0, "UTC")) == 36 * 60
  {
    assert DaysBeforeMonth(2024, 3) == DaysBeforeMonth(2024, 2) + 29;
  }

  /** With a fixed step the range holds one datetime per whole step that fits
      between start and end, plus the start itself. */
  lemma IterRangeCount(start: Moment, end: Moment, g: Granularity)
    requires Minutes(start) <= Minutes(end) && !g.Unsupported? && !g.MonthStep?
    ensures IterRange(start, end, g).Ok?
    ensures |IterRange(start, end, g).value| == (Minutes(end) - Minutes(start)) / StepMinutes(g) + 1
  {
    MinutesOrder(end, start);
    WalkCount(start, end, g);
  }
}
