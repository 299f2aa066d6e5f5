/** Day-granularity arithmetic on `DateTime` values. A `DateTime` is a
    count of 100-nanosecond ticks since 0001-01-01 00:00, which was a
    Monday; the arithmetic throws `ArgumentOutOfRangeException` when a
    result would leave 0..`MaxTicks`. */
module DateHelper {
  import opened Prelude

  const TicksPerDay: int := 864000000000

  /** Day number of 9999-12-31, the last representable day. */
  const LastDay: int := 3652058

  /** `DateTime.MaxValue.Ticks`, the last tick of `LastDay`. */
  const MaxTicks: int := 3155378975999999999

  type Ticks = t: int | 0 <= t <= MaxTicks

  /** `DayOfWeek.Sunday` and `DayOfWeek.Monday`. */
  const Sunday: int := 0
  const Monday: int := 1

  /** The day a point in time falls on, as a whole number of days since
      0001-01-01. */
  function DayOf(t: Ticks): (d: int)
    ensures 0 <= d <= LastDay
    ensures d * TicksPerDay <= t < (d + 1) * TicksPerDay
  {
    t / TicksPerDay
  }

  /** `date.DayOfWeek`, numbered from Sunday = 0; day 0, 0001-01-01, was
      a Monday. */
  function DayOfWeek(t: Ticks): (w: int)
    ensures 0 <= w < 7
    ensures w == Monday <==> DayOf(t) % 7 == 0
    ensures w == Sunday <==> DayOf(t) % 7 == 6
  {
    (DayOf(t) + 1) % 7
  }

  /** `DateTime.AddTicks(n)`. */
  function AddTicks(t: Ticks, n: int): (r: Result<Ticks>)
    ensures r.Ok? <==> 0 <= t + n <= MaxTicks
    ensures r.Ok? ==> r.value == t + n
  {
    if 0 <= t + n <= MaxTicks then Ok(t + n) else Err(ArgumentOutOfRange)
  }

  /** `DateTime.AddDays(n)` for a whole number of days: the same time of
      day `n` days later, or an error when that day is not representable. */
  function AddDays(t: Ticks, n: int): (r: Result<Ticks>)
    ensures r.Ok? <==> 0 <= DayOf(t) + n <= LastDay
    ensures r.Ok? ==> r.value == t + n * TicksPerDay
    ensures r.Ok? ==> DayOf(r.value) == DayOf(t) + n && r.value % TicksPerDay == t % TicksPerDay
  {
    DayOfAdd(t, n);
    AddTicks(t, n * TicksPerDay)
  }

  /** Adding `n` whole days stays in range exactly when the day number
      does, and then moves the day number by `n` and keeps the time of
      day. */
  lemma DayOfAdd(t: Ticks, n: int)
    ensures 0 <= t + n * TicksPerDay <= MaxTicks <==> 0 <= DayOf(t) + n <= LastDay
    ensures 0 <= t + n * TicksPerDay <= MaxTicks ==>
      (t + n * TicksPerDay) / TicksPerDay == DayOf(t) + n &&
      (t + n * TicksPerDay) % TicksPerDay == t % TicksPerDay
  {
    var d, m := DayOf(t), t % TicksPerDay;
    assert t == d * TicksPerDay + m && 0 <= m < TicksPerDay;
    var u := t + n * TicksPerDay;
    assert u == (d + n) * TicksPerDay + m;
    assert MaxTicks == (LastDay + 1) * TicksPerDay - 1;
    assert 0 <= u ==> 0 <= d + n by {
      if d + n < 0 {
        assert (d + n) * TicksPerDay <= -TicksPerDay;
      }
    }
    assert u <= MaxTicks ==> d + n <= LastDay by {
      if d + n > LastDay {
        assert (d + n) * TicksPerDay >= (LastDay + 1) * TicksPerDay;
      }
    }
    assert 0 <= d + n <= LastDay ==> 0 <= u <= MaxTicks by {
      if 0 <= d + n <= LastDay {
        assert (d + n) * TicksPerDay <= LastDay * TicksPerDay;
      }
    }
  }

  /** `date.Date`: midnight of the same day. */
  function GetStartOfDay(t: Ticks): (r: Ticks)
    ensures r <= t < r + TicksPerDay
    ensures r % TicksPerDay == 0
    ensures DayOf(r) == DayOf(t)
  {
    t - t % TicksPerDay
  }

  /** The start of a day is its own start, whatever the time of day. */
  lemma StartOfDayIdempotent(t: Ticks)
    ensures GetStartOfDay(GetStartOfDay(t)) == GetStartOfDay(t)
  {
  }

  /** `date.Date.AddDays(1).AddTicks(-1)`: the last tick of the same day;
      throws on the last representable day, where the day after does not
      exist. */
  function GetEndOfDay(t: Ticks): (r: Result<Ticks>)
    ensures r.Ok? <==> DayOf(t) < LastDay
    ensures r.Ok? ==> r.value == GetStartOfDay(t) + TicksPerDay - 1
    ensures r.Ok? ==> DayOf(r.value) == DayOf(t) && t <= r.value
  {
    match AddDays(GetStartOfDay(t), 1)
    case Err(e) => Err(e)
    case Ok(next) => AddTicks(next, -1)
  }

  /** The weekday offset the source computes from `DayOfWeek` is the day
      number modulo 7, because day 0 is a Monday. */
  lemma WeekdayOffset(t: Ticks)
    ensures (7 + (DayOfWeek(t) - Monday)) % 7 == DayOf(t) % 7
  {
    var d := DayOf(t);
    var q := d / 7;
    assert d == 7 * q + d % 7;
    if d % 7 == 6 {
      assert (d + 1) % 7 == 0 by { assert d + 1 == 7 * (q + 1); }
    } else {
      assert (d + 1) % 7 == d % 7 + 1 by { assert d + 1 == 7 * q + (d % 7 + 1); }
    }
  }

  /** Midnight of day `d` lies on day `d`. */
  lemma MidnightDay(d: int)
    requires 0 <= d <= LastDay
    ensures 0 <= d * TicksPerDay <= MaxTicks
    ensures DayOf(d * TicksPerDay) == d
  {
    assert d * TicksPerDay <= LastDay * TicksPerDay;
  }

  /** The start of the day of `t` is midnight of `DayOf(t)`. */
  lemma StartOfDayMidnight(t: Ticks)
    ensures GetStartOfDay(t) == DayOf(t) * TicksPerDay
  {
  }

  /** Going back `n` whole days moves back `n` day numbers. */
  lemma DayOfShift(t: Ticks, n: int)
    requires 0 <= n <= DayOf(t)
    ensures 0 <= t - n * TicksPerDay <= MaxTicks
    ensures DayOf(t - n * TicksPerDay) == DayOf(t) - n
  {
    var d := DayOf(t);
    var u := t - n * TicksPerDay;
    assert (d - n) * TicksPerDay <= u < (d - n + 1) * TicksPerDay;
    var e := u / TicksPerDay;
    assert e * TicksPerDay <= u < (e + 1) * TicksPerDay;
    assert e < d - n + 1 && e > d - n - 1 by {
      assert e * TicksPerDay < (d - n + 1) * TicksPerDay;
      assert (d - n) * TicksPerDay < (e + 1) * TicksPerDay;
    }
  }

  /** A day number that is a multiple of 7 is a Monday. */
  lemma MultipleOfSevenIsMonday(d: int)
    requires 0 <= d <= LastDay && d % 7 == 0
    ensures 0 <= d * TicksPerDay <= MaxTicks
    ensures DayOfWeek(d * TicksPerDay) == Monday
  {
    MidnightDay(d);
    assert (d + 1) % 7 == 1 by {
      assert d + 1 == 7 * (d / 7) + 1;
    }
  }

  /** `date.AddDays(-diff).Date` with `diff` the number of days since the
      last Monday: midnight of the Monday that begins the week of `t`. */
  function GetStartOfWeek(t: Ticks): (r: Ticks)
    ensures r == (DayOf(t) / 7) * 7 * TicksPerDay
    ensures r % TicksPerDay == 0 && DayOfWeek(r) == Monday
    ensures r <= t < r + 7 * TicksPerDay
  {
    var diff := (7 + (DayOfWeek(t) - Monday)) % 7;
    WeekdayOffset(t);
    DayOfShift(t, diff);
    var monday := t - diff * TicksPerDay;
    WeekStart(t, monday);
    GetStartOfDay(monday)
  }

  /** Midnight of `monday`, the day of `t` minus its weekday offset, is the
      start of the week of `t`. */
  lemma WeekStart(t: Ticks, monday: Ticks)
    requires DayOf(monday) == DayOf(t) - DayOf(t) % 7
    ensures GetStartOfDay(monday) == (DayOf(t) / 7) * 7 * TicksPerDay
    ensures DayOfWeek(GetStartOfDay(monday)) == Monday
    ensures GetStartOfDay(monday) <= t < GetStartOfDay(monday) + 7 * TicksPerDay
  {
    var d := DayOf(t);
    var m := d - d % 7;
    assert m == (d / 7) * 7;
    StartOfDayMidnight(monday);
    MultipleOfSevenIsMonday(m);
    assert m * TicksPerDay <= d * TicksPerDay;
    assert (d + 1) * TicksPerDay <= (m + 7) * TicksPerDay;
  }

  /** Two points in time get the same start of week exactly when they fall
      in the same Monday-to-Sunday week. */
  lemma SameWeek(a: Ticks, b: Ticks)
    ensures GetStartOfWeek(a) == GetStartOfWeek(b) <==> DayOf(a) / 7 == DayOf(b) / 7
  {
  }

  /** `startOfWeek.AddDays(6).Date.AddDays(1).AddTicks(-1)`: the last tick
      of the Sunday that ends the week; throws when the Monday after is not
      representable. */
  function GetEndOfWeek(t: Ticks): (r: Result<Ticks>)
    ensures r.Ok? <==> GetStartOfWeek(t) + 7 * TicksPerDay <= MaxTicks
    ensures r.Ok? ==> r.value == GetStartOfWeek(t) + 7 * TicksPerDay - 1
    ensures r.Ok? ==> GetStartOfWeek(t) <= t <= r.value && DayOfWeek(r.value) == Sunday
  {
    var startOfWeek := GetStartOfWeek(t);
    match AddDays(startOfWeek, 6)
    case Err(e) => Err(e)
    case Ok(sunday) =>
      MidnightAfterDays(startOfWeek, 6);
      match AddDays(GetStartOfDay(sunday), 1)
      case Err(e) => Err(e)
      case Ok(next) =>
        WeekEnd(t, next);
        AddTicks(next, -1)
  }

  /** A whole number of days after a midnight is a midnight. */
  lemma MidnightAfterDays(t: Ticks, n: nat)
    requires t % TicksPerDay == 0 && t + n * TicksPerDay <= MaxTicks
    ensures GetStartOfDay(t + n * TicksPerDay) == t + n * TicksPerDay
  {
    var u := t + n * TicksPerDay;
    assert t == (t / TicksPerDay) * TicksPerDay;
    assert u == (t / TicksPerDay + n) * TicksPerDay;
    assert u % TicksPerDay == 0;
  }

  /** The tick before the Monday after the week of `t` is a Sunday. */
  lemma WeekEnd(t: Ticks, next: Ticks)
    requires next == GetStartOfWeek(t) + 7 * TicksPerDay
    ensures DayOfWeek(next - 1) == Sunday
  {
    var w := DayOf(t) / 7;
    assert next == (7 * w + 7) * TicksPerDay;
    var last := next - 1;
    assert (7 * w + 6) * TicksPerDay <= last < (7 * w + 7) * TicksPerDay;
    DayOfShift(next - 1, 0);
    assert DayOf(last) == 7 * w + 6 by {
      var e := DayOf(last);
      assert e * TicksPerDay <= last < (e + 1) * TicksPerDay;
      assert e < 7 * w + 7 && e > 7 * w + 5 by {
        assert e * TicksPerDay < (7 * w + 7) * TicksPerDay;
        assert (7 * w + 6) * TicksPerDay < (e + 1) * TicksPerDay;
      }
    }
    assert DayOf(last) + 1 == 7 * (w + 1);
  }

  /** `date.Date >= startDate.Date && date.Date <= endDate.Date`: inclusive
      at both ends, ignoring the time of day. */
  function IsDateInRange(t: Ticks, start: Ticks, end: Ticks): (b: bool)
    ensures b <==> DayOf(start) <= DayOf(t) <= DayOf(end)
    ensures DayOf(end) < DayOf(start) ==> !b
  {
    GetStartOfDay(t) >= GetStartOfDay(start) && GetStartOfDay(t) <= GetStartOfDay(end)
  }

  /** `(int)(endDate.Date - startDate.Date).TotalDays + 1` */
  function GetDaysBetween(start: Ticks, end: Ticks): (n: int)
    ensures n == DayOf(end) - DayOf(start) + 1
    ensures DayOf(start) == DayOf(end) ==> n == 1
    ensures DayOf(end) < DayOf(start) ==> n <= 0
  {
    var span := GetStartOfDay(end) - GetStartOfDay(start);
    assert span == (DayOf(end) - DayOf(start)) * TicksPerDay;
    span / TicksPerDay + 1
  }

  /** The days, as day numbers, whose midnight `IsDateInRange` accepts. */
  function AcceptedDays(start: Ticks, end: Ticks): set<int> {
    set k | 0 <= k <= LastDay && IsDateInRange(k * TicksPerDay, start, end)
  }

  /** For a window that is not inverted, `GetDaysBetween` counts exactly
      the days `IsDateInRange` accepts. */
  lemma DaysBetweenCountsAcceptedDays(start: Ticks, end: Ticks)
    requires DayOf(start) <= DayOf(end)
    ensures GetDaysBetween(start, end) == |AcceptedDays(start, end)|
  {
    assert AcceptedDays(start, end) == Range(DayOf(start), DayOf(end)) by {
      forall k | 0 <= k <= LastDay ensures DayOf(k * TicksPerDay) == k {
      }
    }
  }
}
