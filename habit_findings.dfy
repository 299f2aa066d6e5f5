/** Two places where `HabitService` does not compute what its statistics
    are evidently meant to report, each shown on a concrete input, and the
    corrected computation with the intended property proved about it. */
module HabitFindings {
  import opened Prelude
  import opened Progress
  import opened DateHelper
  import opened HabitService

  // ---------------------------------------------------------------------
  // Best streak: a streak is meant to be a run of consecutive completed days

  /** Each of the `k` days ending on day `last` has a completed record. */
  ghost predicate RunWitnessed(s: seq<Record>, last: int, k: int) {
    forall d :: last - k < d <= last ==> CompletedOn(s, d)
  }

  /** A record that is not completed on the expected day leaves the count
      as it was: a day that is not completed between two completed days
      does not break the best streak. */
  lemma IncompleteDayKeepsStreak(r0: Record, r1: Record, r2: Record)
    requires r1.date == r0.date + 1 && r2.date == r0.date + 2
    requires Completed(r0) && !Completed(r1) && Completed(r2)
    ensures BestStreakOf([r0, r1, r2]) == 2
    ensures !CompletedOn([r0, r1, r2], r1.date)
    ensures forall last :: !RunWitnessed([r0, r1, r2], last, 2)
  {
    var s := [r0, r1, r2];
    OrderedScan(s);
    assert s[..2] == [r0, r1] && [r0, r1][..1] == [r0] && [r0][..0] == [];
    var st := Scan(0, 0, r0.date);
    assert Run(st, [r0]) == Step(st, r0) == Scan(1, 1, r1.date);
    assert Run(st, [r0, r1]) == Step(Scan(1, 1, r1.date), r1) == Scan(1, 1, r2.date);
    assert Run(st, s) == Step(Scan(1, 1, r2.date), r2) == Scan(2, 2, r2.date + 1);
    NoTwoDays(s, r0.date);
  }

  /** `daysDiff` is counted from the day after the previous record, so a
      single missing day is taken for the next day and the count goes
      on. */
  lemma OneMissingDayKeepsStreak(r0: Record, r2: Record)
    requires r2.date == r0.date + 2 && Completed(r0) && Completed(r2)
    ensures BestStreakOf([r0, r2]) == 2
    ensures !CompletedOn([r0, r2], r0.date + 1)
    ensures forall last :: !RunWitnessed([r0, r2], last, 2)
  {
    var s := [r0, r2];
    OrderedScan(s);
    assert s[..1] == [r0] && [r0][..0] == [];
    var st := Scan(0, 0, r0.date);
    assert Run(st, [r0]) == Step(st, r0) == Scan(1, 1, r0.date + 1);
    assert Run(st, s) == Step(Scan(1, 1, r0.date + 1), r2) == Scan(2, 2, r2.date + 1);
    NoTwoDays(s, r0.date);
  }

  /** On records already in ascending order both scans start on the first
      record and take the records as given. */
  lemma OrderedScan(s: seq<Record>)
    requires |s| > 0 && Sorted(s, false)
    ensures BestStreakOf(s) == Run(Scan(0, 0, s[0].date), s).best
    ensures CorrectedBestStreak(s) == CorrectedRun(Scan(0, 0, s[0].date), s).best
  {
    SortSorted(s, false);
  }

  /** Records on days d..d+2 where day d+1 is not completed hold no two
      consecutive completed days. */
  lemma NoTwoDays(s: seq<Record>, d: int)
    requires forall x :: x in s ==> d <= x.date <= d + 2 && (x.date == d + 1 ==> !Completed(x))
    ensures forall last :: !RunWitnessed(s, last, 2)
  {
    forall last ensures !RunWitnessed(s, last, 2) {
      assert RunWitnessed(s, last, 2) ==> CompletedOn(s, last) && CompletedOn(s, last - 1) by {
        assert last - 2 < last - 1 <= last;
      }
    }
  }

  /** The loop body as evidently intended, for records in ascending order.
      A day counts when any of its records is completed, so a record that
      is not completed is passed over, as is a further completed record on
      the day just counted. A completed record on the expected day extends
      the count, and one on a later day starts a new count. */
  function CorrectedStep(st: Scan, p: Record): Scan {
    if !Completed(p) || p.date < st.expected then st
    else
      var current := if p.date == st.expected then st.current + 1 else 1;
      Scan(current, Max(st.best, current), p.date + 1)
  }

  function CorrectedRun(st: Scan, s: seq<Record>): Scan {
    if |s| == 0 then st else CorrectedStep(CorrectedRun(st, s[..|s| - 1]), s[|s| - 1])
  }

  /** The best streak as evidently intended. */
  function CorrectedBestStreak(s: seq<Record>): int {
    if |s| == 0 then 0
    else
      var ordered := SortByDate(s, false);
      CorrectedRun(StartScan(ordered), ordered).best
  }

  /** A completed day stays completed when a record is added. */
  lemma WitnessedGrows(s: seq<Record>, p: Record, last: int, k: int)
    requires RunWitnessed(s, last, k)
    ensures RunWitnessed(s + [p], last, k)
  {
    forall d | last - k < d <= last ensures CompletedOn(s + [p], d) {
      assert CompletedOn(s, d);
      var x :| x in s && x.date == d && Completed(x);
      assert x in s + [p];
    }
  }

  /** A completed record on the day after a witnessed run extends it. */
  lemma WitnessedExtends(s: seq<Record>, p: Record, k: int)
    requires RunWitnessed(s, p.date - 1, k) && Completed(p)
    ensures RunWitnessed(s + [p], p.date, k + 1)
  {
    WitnessedGrows(s, p, p.date - 1, k);
    assert p in s + [p];
  }

  /** A completed record alone witnesses a run of one day. */
  lemma WitnessedAlone(s: seq<Record>, p: Record)
    requires Completed(p)
    ensures RunWitnessed(s + [p], p.date, 1)
  {
    assert p in s + [p];
  }

  /** Whatever the input, the corrected count is a run of completed days
      ending on the last day seen, and the corrected best count is a run
      of completed days ending on the returned day. */
  lemma {:induction false} CorrectedRunSound(e: int, s: seq<Record>) returns (last: int)
    ensures var st := CorrectedRun(Scan(0, 0, e), s);
      && 0 <= st.current <= st.best
      && RunWitnessed(s, st.expected - 1, st.current)
      && RunWitnessed(s, last, st.best)
  {
    if |s| == 0 {
      last := e;
    } else {
      var front, p := s[..|s| - 1], s[|s| - 1];
      assert s == front + [p];
      var last0 := CorrectedRunSound(e, front);
      var st0 := CorrectedRun(Scan(0, 0, e), front);
      var st := CorrectedStep(st0, p);
      WitnessedGrows(front, p, last0, st0.best);
      WitnessedGrows(front, p, st0.expected - 1, st0.current);
      if p.date >= st0.expected && Completed(p) {
        if p.date == st0.expected {
          WitnessedExtends(front, p, st0.current);
        } else {
          WitnessedAlone(front, p);
        }
      }
      last := if st.best == st0.best then last0 else st.expected - 1;
    }
  }

  /** The corrected best streak is never negative and always a run of
      consecutive completed days. */
  lemma CorrectedBestStreakSound(s: seq<Record>) returns (last: int)
    ensures CorrectedBestStreak(s) >= 0
    ensures RunWitnessed(s, last, CorrectedBestStreak(s))
  {
    if |s| == 0 {
      last := 0;
    } else {
      var ordered := SortByDate(s, false);
      last := CorrectedRunSound(ordered[0].date, ordered);
      SortSameRecords(s, false);
      forall d | last - CorrectedBestStreak(s) < d <= last ensures CompletedOn(s, d) {
        assert CompletedOn(ordered, d);
        var x :| x in ordered && x.date == d && Completed(x);
        assert x in s;
      }
    }
  }

  /** What the corrected scan knows after the records `s`, started on day
      `e`: every completed record lies before the expected day, which is
      `e` or the day after a completed record; the count is at least any
      run of completed days ending on the day before the expected day;
      and the best count is at least any run of completed days. */
  ghost predicate Tracks(s: seq<Record>, e: int, st: Scan) {
    && (forall x :: x in s && Completed(x) ==> x.date < st.expected)
    && (st.expected == e || exists x :: x in s && Completed(x) && x.date == st.expected - 1)
    && 0 <= st.current <= st.best
    && (forall l, j :: RunWitnessed(s, l, j) && l + 1 == st.expected ==> st.current >= j)
    && (forall l, j :: RunWitnessed(s, l, j) ==> st.best >= j)
  }

  /** A day other than `p`'s that is completed in `s + [p]` is completed
      in `s`. */
  lemma CompletedBefore(s: seq<Record>, p: Record, d: int)
    requires CompletedOn(s + [p], d) && d != p.date
    ensures CompletedOn(s, d)
  {
    var x :| x in s + [p] && x.date == d && Completed(x);
    assert x in s;
  }

  /** A run of completed days in `s + [p]` that does not reach `p`'s day
      is a run in `s`. */
  lemma RunBefore(s: seq<Record>, p: Record, l: int, j: int)
    requires RunWitnessed(s + [p], l, j) && (l < p.date || l - j >= p.date)
    ensures RunWitnessed(s, l, j)
  {
    forall d | l - j < d <= l ensures CompletedOn(s, d) {
      CompletedBefore(s, p, d);
    }
  }

  /** No record after the latest one: a run of one day or more ending
      after every record's day does not exist. */
  lemma NoRunAfter(s: seq<Record>, l: int, j: int)
    requires forall x :: x in s ==> x.date < l
    requires RunWitnessed(s, l, j)
    ensures j <= 0
  {
    assert j > 0 ==> CompletedOn(s, l);
  }

  /** A completed record that is passed over leaves the completed days as
      they were. */
  lemma SameDaysAfterRepeat(s: seq<Record>, p: Record, l: int, j: int)
    requires exists x :: x in s && Completed(x) && x.date == p.date
    requires RunWitnessed(s + [p], l, j)
    ensures RunWitnessed(s, l, j)
  {
    forall d | l - j < d <= l ensures CompletedOn(s, d) {
      if d != p.date {
        CompletedBefore(s, p, d);
      }
    }
  }

  /** One step of the corrected scan keeps `Tracks`, for a record no
      earlier than the start day and than every record before it. */
  lemma StepTracks(s: seq<Record>, p: Record, e: int, st: Scan)
    requires Tracks(s, e, st) && e <= p.date
    requires forall x :: x in s ==> x.date <= p.date
    ensures Tracks(s + [p], e, CorrectedStep(st, p))
  {
    var next := CorrectedStep(st, p);
    var t := s + [p];
    assert forall x :: x in t ==> x in s || x == p;
    if !Completed(p) {
      forall l, j | RunWitnessed(t, l, j) ensures RunWitnessed(s, l, j) {
        forall d | l - j < d <= l ensures CompletedOn(s, d) {
          assert CompletedOn(t, d);
          var x :| x in t && x.date == d && Completed(x);
          assert x in s;
        }
      }
      forall l, j | RunWitnessed(t, l, j) && l + 1 == st.expected ensures st.current >= j {
        assert RunWitnessed(s, l, j);
      }
      if st.expected != e {
        var y :| y in s && Completed(y) && y.date == st.expected - 1;
        assert y in t;
      }
    } else if p.date < st.expected {
      assert st.expected != e;
      var y :| y in s && Completed(y) && y.date == st.expected - 1;
      assert p.date == y.date;
      forall l, j | RunWitnessed(t, l, j) ensures RunWitnessed(s, l, j) {
        SameDaysAfterRepeat(s, p, l, j);
      }
      forall l, j | RunWitnessed(t, l, j) && l + 1 == st.expected ensures st.current >= j {
        assert RunWitnessed(s, l, j);
      }
      assert y in t;
    } else {
      assert p in t && Completed(p) && p.date == next.expected - 1;
      forall l, j | RunWitnessed(t, l, j) && l + 1 == next.expected ensures next.current >= j {
        if j > 1 {
          if p.date == st.expected {
            RunBefore(s, p, p.date - 1, j - 1);
          } else {
            CompletedBefore(s, p, p.date - 1) by {
              assert p.date - j < p.date - 1;
            }
            assert false;
          }
        }
      }
      forall l, j | RunWitnessed(t, l, j) ensures next.best >= j {
        if l > p.date {
          NoRunAfter(t, l, j);
        } else if l == p.date {
          assert next.current >= j;
        } else {
          RunBefore(s, p, l, j);
        }
      }
    }
  }

  /** The corrected scan over records in ascending order, started no
      later than the first of them, keeps `Tracks`. */
  lemma {:induction false} CorrectedRunTracks(e: int, s: seq<Record>)
    requires Sorted(s, false) && (|s| > 0 ==> e <= s[0].date)
    ensures Tracks(s, e, CorrectedRun(Scan(0, 0, e), s))
  {
    if |s| > 0 {
      var front, p := s[..|s| - 1], s[|s| - 1];
      assert s == front + [p];
      assert Sorted(front, false) by {
        assert forall i :: 0 <= i < |front| ==> front[i] == s[i];
      }
      CorrectedRunTracks(e, front);
      assert forall x :: x in front ==> x.date <= p.date by {
        assert forall i :: 0 <= i < |front| ==> front[i] == s[i] && InOrder(s[i], s[|s| - 1], false);
      }
      assert e <= p.date by {
        assert |s| > 1 ==> InOrder(s[0], s[|s| - 1], false);
      }
      StepTracks(front, p, e, CorrectedRun(Scan(0, 0, e), front));
    } else {
      forall l, j | RunWitnessed(s, l, j) ensures 0 >= j {
        NoRunAfter(s, l, j);
      }
    }
  }

  /** Every run of consecutive completed days is at most the corrected
      best streak: with `CorrectedBestStreakSound`, the corrected best
      streak is the longest such run. */
  lemma CorrectedBestStreakMaximal(s: seq<Record>, last: int, k: int)
    requires RunWitnessed(s, last, k)
    ensures CorrectedBestStreak(s) >= k
  {
    if |s| == 0 {
      assert k > 0 ==> CompletedOn(s, last);
    } else {
      var ordered := SortByDate(s, false);
      SortSameRecords(s, false);
      forall d | last - k < d <= last ensures CompletedOn(ordered, d) {
        assert CompletedOn(s, d);
        var x :| x in s && x.date == d && Completed(x);
        assert x in ordered;
      }
      CorrectedRunTracks(ordered[0].date, ordered);
      assert RunWitnessed(ordered, last, k);
    }
  }

  /** On completed records on consecutive days, every record extends the
      corrected count. */
  lemma {:induction false} CorrectedRunConsecutive(e: int, s: seq<Record>)
    requires forall i :: 0 <= i < |s| ==> s[i].date == e + i && Completed(s[i])
    ensures CorrectedRun(Scan(0, 0, e), s) == Scan(|s|, |s|, e + |s|)
  {
    if |s| > 0 {
      CorrectedRunConsecutive(e, s[..|s| - 1]);
    }
  }

  /** n completed records on n consecutive days still give n. */
  lemma CorrectedBestStreakConsecutive(s: seq<Record>)
    requires forall i :: 0 <= i < |s| ==> s[i].date == s[0].date + i && Completed(s[i])
    ensures CorrectedBestStreak(s) == |s|
  {
    if |s| > 0 {
      SortSorted(s, false);
      CorrectedRunConsecutive(s[0].date, s);
    }
  }

  /** On the input of `IncompleteDayKeepsStreak` the corrected streak
      is 1. */
  lemma CorrectedOnIncompleteDay(r0: Record, r1: Record, r2: Record)
    requires r1.date == r0.date + 1 && r2.date == r0.date + 2
    requires Completed(r0) && !Completed(r1) && Completed(r2)
    ensures CorrectedBestStreak([r0, r1, r2]) == 1
  {
    var st := Scan(0, 0, r0.date);
    var s := [r0, r1, r2];
    OrderedScan(s);
    assert s[..2] == [r0, r1] && [r0, r1][..1] == [r0] && [r0][..0] == [];
    assert CorrectedRun(st, [r0]) == CorrectedStep(st, r0) == Scan(1, 1, r1.date);
    assert CorrectedRun(st, [r0, r1]) == CorrectedStep(Scan(1, 1, r1.date), r1) == Scan(1, 1, r1.date);
    assert CorrectedRun(st, s) == CorrectedStep(Scan(1, 1, r1.date), r2) == Scan(1, 1, r2.date + 1);
  }

  /** On the input of `OneMissingDayKeepsStreak` the corrected streak is
      1. */
  lemma CorrectedOnMissingDay(r0: Record, r2: Record)
    requires r2.date == r0.date + 2 && Completed(r0) && Completed(r2)
    ensures CorrectedBestStreak([r0, r2]) == 1
  {
    var st := Scan(0, 0, r0.date);
    var t := [r0, r2];
    OrderedScan(t);
    assert t[..1] == [r0] && [r0][..0] == [];
    assert CorrectedRun(st, [r0]) == CorrectedStep(st, r0) == Scan(1, 1, r0.date + 1);
    assert CorrectedRun(st, t) == CorrectedStep(Scan(1, 1, r0.date + 1), r2) == Scan(1, 1, r2.date + 1);
  }

  /** A record that is not completed, followed by a completed one on the
      same day: the day counts, and the corrected streak is 1. */
  lemma CorrectedOnRepeatedDay(r0: Record, r1: Record)
    requires r1.date == r0.date && !Completed(r0) && Completed(r1)
    ensures CorrectedBestStreak([r0, r1]) == 1
  {
    var st := Scan(0, 0, r0.date);
    var s := [r0, r1];
    OrderedScan(s);
    assert s[..1] == [r0] && [r0][..0] == [];
    assert CorrectedRun(st, [r0]) == CorrectedStep(st, r0) == st;
    assert CorrectedRun(st, s) == CorrectedStep(st, r1) == Scan(1, 1, r1.date + 1);
  }

  // ---------------------------------------------------------------------
  // Completion rate: at most 100 when each day holds at most one record

  /** With the window 23:00 on day 0 to 01:00 on day 1, the truncated
      span is 0 whole days, so the window counts as 1 day although it
      touches 2, and two completed days give a rate of 200. */
  lemma CompletionRateOver100()
    ensures var s := [Record(0, 100, ""), Record(1, 100, "")];
      var start, end := 23 * 36000000000, TicksPerDay + 36000000000;
      && DistinctDays(s)
      && DayOf(start) == 0 && DayOf(end) == 1
      && ComputeTotals(s, start, end).totalDays == 1
      && ComputeTotals(s, start, end).completionRate == 200.0
  {
    var s := [Record(0, 100, ""), Record(1, 100, "")];
    assert CompletedCount(s) == 2 by {
      assert s[1..][1..] == [];
    }
  }

  /** The totals with the window counted in calendar days, as
      `GetDaysBetween` counts them. */
  function CorrectedTotals(progress: seq<Record>, startDate: Ticks, endDate: Ticks): (t: Totals)
    ensures t.totalDays == GetDaysBetween(startDate, endDate)
    ensures t.completedDays == CompletedCount(progress)
    ensures t.completionRate == CompletionRate(t.completedDays, t.totalDays)
  {
    var totalDays := GetDaysBetween(startDate, endDate);
    var completedDays := CompletedCount(progress);
    Totals(totalDays, completedDays, LatestCompleted(progress), CompletionRate(completedDays, totalDays))
  }

  /** The days the records fall on. */
  function Dates(s: seq<Record>): set<int> {
    if |s| == 0 then {} else {s[0].date} + Dates(s[1..])
  }

  /** Records on distinct days, all within days `a`..`b`, fall on as many
      days as there are records, all within `Range(a, b)`. */
  lemma {:induction false} DatesInRange(s: seq<Record>, a: int, b: int)
    requires DistinctDays(s)
    requires forall i :: 0 <= i < |s| ==> a <= s[i].date <= b
    ensures |Dates(s)| == |s|
    ensures Dates(s) <= Range(a, b)
  {
    if |s| > 0 {
      var rest := s[1..];
      assert DistinctDays(rest) by {
        forall i, j | 0 <= i < j < |rest| ensures rest[i].date != rest[j].date {
          assert rest[i] == s[i + 1] && rest[j] == s[j + 1];
        }
      }
      DatesInRange(rest, a, b);
      assert s[0].date !in Dates(rest) by {
        forall i | 0 <= i < |rest| ensures rest[i].date != s[0].date {
          assert rest[i] == s[i + 1];
        }
        DatesAvoid(rest, s[0].date);
      }
    }
  }

  lemma {:induction false} DatesAvoid(s: seq<Record>, d: int)
    requires forall i :: 0 <= i < |s| ==> s[i].date != d
    ensures d !in Dates(s)
  {
    if |s| > 0 {
      assert forall i :: 0 <= i < |s| - 1 ==> s[1..][i] == s[i + 1];
      DatesAvoid(s[1..], d);
    }
  }

  /** A subset of a finite set is no larger. */
  lemma SubsetSize(a: set<int>, b: set<int>)
    requires a <= b
    ensures |a| <= |b|
  {
    assert b == a + (b - a);
    assert a * (b - a) == {};
  }

  /** With the window counted in calendar days, records on distinct days
      within the window never give a rate above 100. */
  lemma CorrectedRateAtMost100(progress: seq<Record>, startDate: Ticks, endDate: Ticks)
    requires DistinctDays(progress)
    requires forall i :: 0 <= i < |progress| ==> DayOf(startDate) <= progress[i].date <= DayOf(endDate)
    ensures 0.0 <= CorrectedTotals(progress, startDate, endDate).completionRate <= 100.0
  {
    var t := CorrectedTotals(progress, startDate, endDate);
    var a, b := DayOf(startDate), DayOf(endDate);
    if |progress| > 0 {
      DatesInRange(progress, a, b);
      assert a <= progress[0].date <= b;
      SubsetSize(Dates(progress), Range(a, b));
      assert t.completedDays <= t.totalDays;
      RateAtMost100(t.completedDays, t.totalDays);
    }
  }

  /** The rate is at most 100 when the completed days do not outnumber
      the days. */
  lemma RateAtMost100(completedDays: nat, totalDays: int)
    requires completedDays <= totalDays
    ensures CompletionRate(completedDays, totalDays) <= 100.0
  {
    if totalDays > 0 {
      var r := CompletionRate(completedDays, totalDays);
      var n := totalDays as real;
      assert r * n == (completedDays * 100) as real <= (totalDays * 100) as real == 100.0 * n;
      if r > 100.0 {
        assert r * n > 100.0 * n;
      }
    }
  }
}
