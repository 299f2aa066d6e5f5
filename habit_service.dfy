/** The statistics `HabitService` computes for one habit: the current and
    best streaks, the totals and completion rate over a window, and the
    day-by-day calendar of the window. Record dates are day numbers; the
    window ends are `DateTime` values in ticks, as the caller passes them,
    time of day included. */
module HabitService {
  import opened Prelude
  import opened Progress
  import opened DateHelper

  // ---------------------------------------------------------------------
  // Current streak: walk back one day at a time from today

  /** The first record found for day `d` exists and is completed. */
  predicate FirstFoundCompleted(s: seq<Record>, d: int) {
    var found := FirstOnDay(s, d);
    found.Some? && Completed(found.value)
  }

  /** Whether a day passes depends only on the record found on it. */
  lemma FirstFoundSame(a: seq<Record>, b: seq<Record>, d: int)
    requires FirstOnDay(a, d) == FirstOnDay(b, d)
    ensures FirstFoundCompleted(a, d) <==> FirstFoundCompleted(b, d)
  {
  }

  /** Each of today, today-1, ..., today-k+1 is no earlier than `lo` and
      the first record found on it is completed. */
  predicate CountedBack(s: seq<Record>, today: int, lo: int, k: nat) {
    && (k == 0 || today - k + 1 >= lo)
    && forall d :: today - k < d <= today ==> FirstFoundCompleted(s, d)
  }

  /** Walking back from `today` counts `k` days: the `k` days counted
      back pass, and the walk stops at today-k. */
  predicate IsBackwardRun(s: seq<Record>, today: int, lo: int, k: nat) {
    CountedBack(s, today, lo, k) && (today - k < lo || !FirstFoundCompleted(s, today - k))
  }

  /** A walk from yesterday that `today` may join is one day longer from
      today, and stops where it stopped. */
  lemma WalkExtends(s: seq<Record>, today: int, lo: int, k: nat)
    requires IsBackwardRun(s, today - 1, lo, k)
    requires today >= lo && FirstFoundCompleted(s, today)
    ensures IsBackwardRun(s, today, lo, k + 1)
  {
    assert today - (k + 1) == today - 1 - k;
    forall d | today - (k + 1) < d <= today ensures FirstFoundCompleted(s, d) {
      if d < today {
        assert today - 1 - k < d <= today - 1;
      }
    }
  }

  /** The length of the backward walk from `day` that may not pass `lo`. */
  function BackwardRun(s: seq<Record>, day: int, lo: int): (k: nat)
    ensures IsBackwardRun(s, day, lo, k)
    decreases day - lo + 1
  {
    if day < lo || !FirstFoundCompleted(s, day) then 0
    else
      var k := BackwardRun(s, day - 1, lo);
      WalkExtends(s, day, lo, k);
      k + 1
  }

  /** A walk length is determined by where the walk stops. */
  lemma BackwardRunUnique(s: seq<Record>, today: int, lo: int, j: nat, k: nat)
    requires IsBackwardRun(s, today, lo, j) && IsBackwardRun(s, today, lo, k)
    ensures j == k
  {
    assert CountedBack(s, today, lo, j) && CountedBack(s, today, lo, k);
    assert j < k ==> today - j >= lo && FirstFoundCompleted(s, today - j);
    assert k < j ==> today - k >= lo && FirstFoundCompleted(s, today - k);
  }

  /** The walk counts `today-k` once it passes. */
  lemma CountedOneMore(s: seq<Record>, today: int, lo: int, k: nat, date: int)
    requires CountedBack(s, today, lo, k) && date == today - k
    requires date >= lo && FirstFoundCompleted(s, date)
    ensures CountedBack(s, today, lo, k + 1)
  {
    forall d | today - (k + 1) < d <= today ensures FirstFoundCompleted(s, d) {
      if d > today - k {
        assert today - k < d <= today;
      }
    }
  }

  /** A walk that has counted `k` days and stopped at `date` is the walk
      `BackwardRun` describes. */
  lemma WalkStops(s: seq<Record>, today: int, lo: int, k: nat, date: int)
    requires date == today - k && CountedBack(s, today, lo, k)
    requires date < lo || !FirstFoundCompleted(s, date)
    ensures IsBackwardRun(s, today, lo, k) && k == BackwardRun(s, today, lo)
    ensures !FirstFoundCompleted(s, today) ==> k == 0
  {
    var j := BackwardRun(s, today, lo);
    assert IsBackwardRun(s, today, lo, k);
    BackwardRunUnique(s, today, lo, k, j);
  }

  /** A walk whose first `k` days all pass is at least `k` days long. */
  lemma BackwardRunAtLeast(s: seq<Record>, today: int, lo: int, k: nat)
    requires CountedBack(s, today, lo, k)
    ensures BackwardRun(s, today, lo) >= k
  {
    var j := BackwardRun(s, today, lo);
    assert j < k ==> today - j >= lo && FirstFoundCompleted(s, today - j);
  }

  /** What `CalculateCurrentStreak` returns: 0 without records, otherwise
      the walk back from `today` that stops before the earliest record. */
  function CurrentStreakOf(s: seq<Record>, today: int): nat {
    if |s| == 0 then 0 else BackwardRun(s, today, MinDay(s))
  }

  /** The walk only looks at the record found on each day. */
  lemma {:induction false} BackwardRunSame(a: seq<Record>, b: seq<Record>, day: int, lo: int)
    requires forall d :: FirstOnDay(a, d) == FirstOnDay(b, d)
    ensures BackwardRun(a, day, lo) == BackwardRun(b, day, lo)
    decreases day - lo + 1
  {
    if day >= lo {
      FirstFoundSame(a, b, day);
      BackwardRunSame(a, b, day - 1, lo);
    }
  }

  /** Sorting the records first does not change the streak. */
  lemma SortedCurrentStreak(s: seq<Record>, today: int)
    ensures CurrentStreakOf(SortByDate(s, true), today) == CurrentStreakOf(s, today)
  {
    if |s| > 0 {
      SortMinDay(s, true);
      forall d ensures FirstOnDay(SortByDate(s, true), d) == FirstOnDay(s, d) {
        SortFirstOnDay(s, true, d);
      }
      BackwardRunSame(SortByDate(s, true), s, today, MinDay(s));
    }
  }

  /** `CalculateCurrentStreak`, with "today" passed in. */
  method CalculateCurrentStreak(progress: seq<Record>, today: int) returns (streak: nat)
    ensures streak == CurrentStreakOf(progress, today)
    ensures |progress| == 0 ==> streak == 0
    ensures |progress| > 0 ==> IsBackwardRun(progress, today, MinDay(progress), streak)
    ensures !FirstFoundCompleted(progress, today) ==> streak == 0
  {
    if |progress| == 0 {
      return 0;
    }
    streak := 0;
    var orderedProgress := SortByDate(progress, true);
    SortMinDay(progress, true);
    var earliest := MinDay(orderedProgress);
    var date := today;
    while date >= earliest
      invariant date == today - streak
      invariant CountedBack(progress, today, earliest, streak)
      decreases date - earliest
    {
      var dayProgress := FirstOnDay(orderedProgress, date);
      SortFirstOnDay(progress, true, date);
      if dayProgress.None? || dayProgress.value.value < CompletionThreshold {
        assert !FirstFoundCompleted(progress, date);
        break;
      }
      CountedOneMore(progress, today, earliest, streak, date);
      streak := streak + 1;
      date := date - 1;
    }
    WalkStops(progress, today, earliest, streak, date);
  }

  /** Every day the walk counts really has a completed record. */
  lemma CurrentStreakDaysCompleted(s: seq<Record>, today: int, d: int)
    requires today - CurrentStreakOf(s, today) < d <= today
    ensures CompletedOn(s, d)
  {
    assert FirstFoundCompleted(s, d);
    FirstOnDayFacts(s, d);
  }

  // ---------------------------------------------------------------------
  // Best streak: one forward pass over the records sorted by date

  /** The variables of `CalculateBestStreak`'s loop: `currentStreak`,
      `bestStreak` and `currentDate`, the day the next record is expected
      on. */
  datatype Scan = Scan(current: int, best: int, expected: int)

  /** One pass of the loop body on record `p`. A record on the expected
      day that is not completed matches neither branch and leaves the
      count as it is; any other date compares `daysDiff` with 1. */
  function Step(st: Scan, p: Record): Scan {
    if p.date == st.expected && p.value >= CompletionThreshold then
      Scan(st.current + 1, Max(st.best, st.current + 1), p.date + 1)
    else if p.date != st.expected then
      var daysDiff := p.date - st.expected;
      var current :=
        if daysDiff > 1 then (if Completed(p) then 1 else 0)
        else (if Completed(p) then st.current + 1 else 0);
      Scan(current, Max(st.best, current), p.date + 1)
    else
      Scan(st.current, st.best, p.date + 1)
  }

  /** The loop variables after the records `s`, taken in order. */
  function Run(st: Scan, s: seq<Record>): Scan {
    if |s| == 0 then st else Step(Run(st, s[..|s| - 1]), s[|s| - 1])
  }

  /** The loop's starting state on the records sorted by date. */
  function StartScan(ordered: seq<Record>): Scan
    requires |ordered| > 0
  {
    Scan(0, 0, ordered[0].date)
  }

  /** What `CalculateBestStreak` returns. */
  function BestStreakOf(s: seq<Record>): int {
    if |s| == 0 then 0
    else
      var ordered := SortByDate(s, false);
      Run(StartScan(ordered), ordered).best
  }

  /** `CalculateBestStreak`. */
  method CalculateBestStreak(progress: seq<Record>) returns (bestStreak: int)
    ensures bestStreak == BestStreakOf(progress)
    ensures 0 <= bestStreak <= CompletedCount(progress)
    ensures CompletedCount(progress) > 0 ==> bestStreak >= 1
  {
    BestStreakBounds(progress);
    if |progress| == 0 {
      return 0;
    }
    bestStreak := 0;
    var currentStreak := 0;
    var orderedProgress := SortByDate(progress, false);
    var currentDate := orderedProgress[0].date;
    for i := 0 to |orderedProgress|
      invariant Scan(currentStreak, bestStreak, currentDate)
        == Run(StartScan(orderedProgress), orderedProgress[..i])
    {
      var p := orderedProgress[i];
      assert orderedProgress[..i + 1][..i] == orderedProgress[..i];
      if p.date == currentDate && p.value >= CompletionThreshold {
        currentStreak := currentStreak + 1;
        bestStreak := Max(bestStreak, currentStreak);
      } else if p.date != currentDate {
        var daysDiff := p.date - currentDate;
        if daysDiff > 1 {
          currentStreak := if p.value >= CompletionThreshold then 1 else 0;
        } else {
          currentStreak := if p.value >= CompletionThreshold then currentStreak + 1 else 0;
        }
        bestStreak := Max(bestStreak, currentStreak);
      }
      currentDate := p.date + 1;
    }
    assert orderedProgress[..|orderedProgress|] == orderedProgress;
  }

  /** The count only grows on completed records and the best count is the
      largest count seen, so neither exceeds the completed records; a
      completed record always lifts the best count to at least 1. */
  lemma {:induction false} RunBounds(e: int, s: seq<Record>)
    ensures var st := Run(Scan(0, 0, e), s);
      && 0 <= st.current <= st.best <= CompletedCount(s)
      && (CompletedCount(s) > 0 ==> st.best >= 1)
  {
    if |s| > 0 {
      var front, p := s[..|s| - 1], s[|s| - 1];
      RunBounds(e, front);
      assert s == front + [p];
      CompletedCountAppend(front, [p]);
      assert CompletedCount([p]) == if Completed(p) then 1 else 0;
      StepBounds(Run(Scan(0, 0, e), front), p);
    }
  }

  /** One step raises the count by at most one, and only on a completed
      record; the best count follows the count. */
  lemma StepBounds(st: Scan, p: Record)
    requires 0 <= st.current <= st.best
    ensures var next := Step(st, p);
      && 0 <= next.current <= next.best
      && next.best <= st.best + (if Completed(p) then 1 else 0)
      && (Completed(p) ==> next.best >= 1)
  {
  }

  /** `CalculateBestStreak` is 0 without records, never negative, never
      more than the number of completed records, and at least 1 when some
      record is completed. */
  lemma BestStreakBounds(s: seq<Record>)
    ensures |s| == 0 ==> BestStreakOf(s) == 0
    ensures 0 <= BestStreakOf(s) <= CompletedCount(s)
    ensures CompletedCount(s) > 0 ==> BestStreakOf(s) >= 1
  {
    if |s| > 0 {
      var ordered := SortByDate(s, false);
      RunBounds(ordered[0].date, ordered);
      SortCompletedCount(s, false);
    }
  }

  /** On completed records on consecutive days, taken in order, every
      record extends the count. */
  lemma {:induction false} RunConsecutive(e: int, s: seq<Record>)
    requires forall i :: 0 <= i < |s| ==> s[i].date == e + i && Completed(s[i])
    ensures Run(Scan(0, 0, e), s) == Scan(|s|, |s|, e + |s|)
  {
    if |s| > 0 {
      RunConsecutive(e, s[..|s| - 1]);
    }
  }

  /** n records on n consecutive days, all completed, give a best streak
      of exactly n. */
  lemma BestStreakConsecutive(s: seq<Record>)
    requires forall i :: 0 <= i < |s| ==> s[i].date == s[0].date + i && Completed(s[i])
    ensures BestStreakOf(s) == |s|
  {
    if |s| > 0 {
      SortSorted(s, false);
      RunConsecutive(s[0].date, s);
    }
  }

  /** The result depends only on which records each day holds, in their
      input order, not on how the days are interleaved in the input. */
  lemma BestStreakDependsOnDaysOnly(s: seq<Record>, t: seq<Record>)
    requires forall d :: OnDay(s, d) == OnDay(t, d)
    ensures BestStreakOf(s) == BestStreakOf(t)
  {
    SortDeterminedByDays(s, t, false);
  }

  /** For records on distinct days, the input order does not matter. */
  lemma BestStreakOrderIndependent(s: seq<Record>, t: seq<Record>)
    requires DistinctDays(s) && DistinctDays(t) && multiset(s) == multiset(t)
    ensures BestStreakOf(s) == BestStreakOf(t)
  {
    forall d ensures OnDay(s, d) == OnDay(t, d) {
      PermutationOnDay(s, t, d);
    }
    BestStreakDependsOnDaysOnly(s, t);
  }

  /** So n completed records on n consecutive days give n in any order. */
  lemma BestStreakConsecutiveAnyOrder(s: seq<Record>, t: seq<Record>)
    requires forall i :: 0 <= i < |s| ==> s[i].date == s[0].date + i && Completed(s[i])
    requires DistinctDays(t) && multiset(t) == multiset(s)
    ensures BestStreakOf(t) == |s|
  {
    BestStreakConsecutive(s);
    BestStreakOrderIndependent(s, t);
  }

  /** A record more than one day after the expected day restarts the
      count at 1 when completed and at 0 otherwise. */
  lemma GapRestartsCount(st: Scan, p: Record)
    requires p.date - st.expected > 1
    ensures Step(st, p).current == if Completed(p) then 1 else 0
  {
  }

  /** A record on the expected day that is not completed leaves the count
      unchanged, and a second record on the previous day (a duplicate
      date) extends it when completed. */
  lemma ExpectedDayAndDuplicate(st: Scan, p: Record)
    ensures p.date == st.expected && !Completed(p) ==> Step(st, p).current == st.current
    ensures p.date == st.expected - 1 && Completed(p) ==> Step(st, p).current == st.current + 1
  {
  }

  // ---------------------------------------------------------------------
  // Totals over the window

  /** `(int)TimeSpan.TotalDays` of a span of `ticks`: whole days, truncated
      toward zero. */
  function TruncatedDays(ticks: int): (n: int)
    ensures ticks >= 0 ==> n * TicksPerDay <= ticks < (n + 1) * TicksPerDay
    ensures ticks < 0 ==> (n - 1) * TicksPerDay < ticks <= n * TicksPerDay
  {
    if ticks >= 0 then ticks / TicksPerDay else -((-ticks) / TicksPerDay)
  }

  /** `(int)(endDate - startDate).TotalDays + 1`, on the window ends with
      their time of day. For a window that is not inverted it is the
      number of calendar days, or one less when the end's time of day is
      earlier than the start's. */
  function TotalDays(startDate: Ticks, endDate: Ticks): (n: int)
    ensures startDate <= endDate ==> GetDaysBetween(startDate, endDate) - 1 <= n <= GetDaysBetween(startDate, endDate)
    ensures startDate <= endDate ==> n >= 1
    ensures endDate < startDate ==> n <= 1
  {
    TruncatedDays(endDate - startDate) + 1
  }

  /** `Where(p => p.Value >= 100).OrderByDescending(p => p.Date).FirstOrDefault()?.Date`:
      the latest day with a completed record, if any. */
  function LatestCompleted(s: seq<Record>): (r: Option<int>)
    ensures r.None? <==> forall x :: x in s ==> !Completed(x)
    ensures r.Some? ==> CompletedOn(s, r.value)
    ensures r.Some? ==> forall x :: x in s && Completed(x) ==> x.date <= r.value
  {
    if |s| == 0 then None
    else
      var rest := LatestCompleted(s[1..]);
      assert forall x :: x in s <==> x == s[0] || x in s[1..];
      assert s[0] in s;
      if !Completed(s[0]) then rest
      else if rest.None? || rest.value < s[0].date then Some(s[0].date)
      else rest
  }

  /** `completedDays * 100.0 / totalDays`, or 0 when the window is empty
      or inverted. */
  function CompletionRate(completedDays: nat, totalDays: int): (rate: real)
    ensures totalDays <= 0 ==> rate == 0.0
    ensures totalDays > 0 ==> rate * (totalDays as real) == (completedDays * 100) as real
    ensures rate >= 0.0
  {
    if totalDays > 0 then (completedDays * 100) as real / totalDays as real else 0.0
  }

  datatype Totals = Totals(totalDays: int, completedDays: nat, lastCompleted: Option<int>, completionRate: real)

  /** The totals of `GetHabitStatisticsAsync`; the rate is exact rather
      than a `double`. */
  function ComputeTotals(progress: seq<Record>, startDate: Ticks, endDate: Ticks): (t: Totals)
    ensures t.totalDays == TotalDays(startDate, endDate)
    ensures t.completedDays == CompletedCount(progress)
    ensures t.lastCompleted == LatestCompleted(progress)
    ensures t.completionRate == CompletionRate(t.completedDays, t.totalDays)
  {
    var totalDays := TotalDays(startDate, endDate);
    var completedDays := CompletedCount(progress);
    var lastCompleted := LatestCompleted(progress);
    var completionRate := CompletionRate(completedDays, totalDays);
    Totals(totalDays, completedDays, lastCompleted, completionRate)
  }

  // ---------------------------------------------------------------------
  // Calendar of the window

  datatype DailyProgress = DailyProgress(date: int, completed: bool, notes: string)

  /** The notes of the record found on day `d`, or "" when there is none. */
  function NotesOn(s: seq<Record>, d: int): string {
    match FirstOnDay(s, d)
    case None => ""
    case Some(x) => x.notes
  }

  /** `cal` has one entry per day from `first` to `last` (none when `last`
      is before `first`), in ascending order; an entry is completed exactly
      when a completed record exists on its day and carries that day's
      notes, "" on a day without a record. */
  ghost predicate IsCalendar(s: seq<Record>, first: int, last: int, cal: seq<DailyProgress>) {
    && |cal| == (if last < first then 0 else last - first + 1)
    && forall i :: 0 <= i < |cal| ==>
         && cal[i].date == first + i
         && (cal[i].completed <==> CompletedOn(s, first + i))
         && cal[i].notes == NotesOn(s, first + i)
  }

  /** A calendar up to `last` extended by the entry for the day after is
      the calendar up to that day. */
  lemma CalendarAppend(s: seq<Record>, first: int, last: int, cal: seq<DailyProgress>, e: DailyProgress)
    requires first <= last + 1 && IsCalendar(s, first, last, cal)
    requires e.date == last + 1 && (e.completed <==> CompletedOn(s, e.date)) && e.notes == NotesOn(s, e.date)
    ensures IsCalendar(s, first, last + 1, cal + [e])
  {
    var cal' := cal + [e];
    forall i | 0 <= i < |cal'|
      ensures cal'[i].date == first + i
      ensures cal'[i].completed <==> CompletedOn(s, first + i)
      ensures cal'[i].notes == NotesOn(s, first + i)
    {
      if i == |cal| {
        assert first + i == e.date;
      } else {
        assert cal'[i] == cal[i];
      }
    }
  }

  /** Looking a day up in the dictionary of records by day tells whether
      the day is completed and what its notes are. */
  lemma LookupDay(s: seq<Record>, byDate: map<int, Record>, d: int)
    requires ToDictionary(s) == Some(byDate)
    ensures d in byDate ==> (CompletedOn(s, d) <==> Completed(byDate[d])) && NotesOn(s, d) == byDate[d].notes
    ensures d !in byDate ==> !CompletedOn(s, d) && NotesOn(s, d) == ""
  {
    if d in byDate {
      OnlyOnDay(s, byDate[d]);
    } else {
      assert forall x :: x in s ==> x.date != d;
      FirstOnDayFacts(s, d);
    }
  }

  /** `GetDailyProgress`: fails as `ToDictionary` does when two records
      share a day, and as `DateTime.AddDays` does when the window reaches
      the last representable day; otherwise lists every day of the
      window. */
  method GetDailyProgress(progress: seq<Record>, startDate: Ticks, endDate: Ticks)
    returns (r: Result<seq<DailyProgress>>)
    ensures r.Err? <==> !DistinctDays(progress) || DayOf(startDate) <= DayOf(endDate) == LastDay
    ensures !DistinctDays(progress) ==> r == Err(DuplicateKey)
    ensures DistinctDays(progress) && r.Err? ==> r == Err(ArgumentOutOfRange)
    ensures r.Ok? ==> IsCalendar(progress, DayOf(startDate), DayOf(endDate), r.value)
  {
    var byDate := ToDictionary(progress);
    if byDate.None? {
      return Err(DuplicateKey);
    }
    var progressByDate := byDate.value;
    var dailyProgress: seq<DailyProgress> := [];
    var first, last := DayOf(startDate), DayOf(endDate);
    var date := first;
    while date <= last
      invariant first <= date <= (if first <= last then last + 1 else first)
      invariant date <= LastDay
      invariant IsCalendar(progress, first, date - 1, dailyProgress)
    {
      LookupDay(progress, progressByDate, date);
      var entry;
      if date in progressByDate {
        var dayProgress := progressByDate[date];
        entry := DailyProgress(date, dayProgress.value >= CompletionThreshold, dayProgress.notes);
      } else {
        entry := DailyProgress(date, false, "");
      }
      CalendarAppend(progress, first, date - 1, dailyProgress, entry);
      dailyProgress := dailyProgress + [entry];
      if date == LastDay {
        return Err(ArgumentOutOfRange);
      }
      date := date + 1;
    }
    assert first <= last ==> date - 1 == last;
    return Ok(dailyProgress);
  }

  // ---------------------------------------------------------------------
  // The statistics as a whole

  datatype HabitStatistics = HabitStatistics(
    totalDays: int,
    completedDays: nat,
    completionRate: real,
    currentStreak: nat,
    bestStreak: int,
    lastCompletedDate: Option<int>,
    dailyProgress: seq<DailyProgress>)

  /** The computing part of `GetHabitStatisticsAsync` on the fetched
      records: the whole call fails when the calendar does. */
  method GetHabitStatistics(progress: seq<Record>, today: int, startDate: Ticks, endDate: Ticks)
    returns (r: Result<HabitStatistics>)
    ensures r.Err? <==> !DistinctDays(progress) || DayOf(startDate) <= DayOf(endDate) == LastDay
    ensures !DistinctDays(progress) ==> r == Err(DuplicateKey)
    ensures DistinctDays(progress) && r.Err? ==> r == Err(ArgumentOutOfRange)
    ensures r.Ok? ==>
      var t := ComputeTotals(progress, startDate, endDate);
      && r.value.totalDays == t.totalDays
      && r.value.completedDays == t.completedDays
      && r.value.completionRate == t.completionRate
      && r.value.lastCompletedDate == t.lastCompleted
      && r.value.currentStreak == CurrentStreakOf(progress, today)
      && r.value.bestStreak == BestStreakOf(progress)
      && IsCalendar(progress, DayOf(startDate), DayOf(endDate), r.value.dailyProgress)
  {
    var totals := ComputeTotals(progress, startDate, endDate);
    var currentStreak := CalculateCurrentStreak(progress, today);
    var bestStreak := CalculateBestStreak(progress);
    var daily := GetDailyProgress(progress, startDate, endDate);
    if daily.Err? {
      return Err(daily.error);
    }
    return Ok(HabitStatistics(totals.totalDays, totals.completedDays, totals.completionRate,
                              currentStreak, bestStreak, totals.lastCompleted, daily.value));
  }
}
