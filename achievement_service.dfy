/** What `AchievementService` derives from a habit's records: its own
    current streak, three progress indicators with fixed targets, and the
    achievements awarded when thresholds are reached. */
module AchievementService {
  import opened Prelude
  import opened Progress
  import HabitService

  // ---------------------------------------------------------------------
  // Current streak: the matching prefix of the records, newest first

  /** The first `k` records of `s` fall on today, today-1, ..., today-k+1
      and are completed, and the record after them (if any) breaks that
      pattern. */
  predicate IsLeadingRun(s: seq<Record>, today: int, k: nat) {
    && k <= |s|
    && (forall i :: 0 <= i < k ==> s[i].date == today - i && Completed(s[i]))
    && (k < |s| ==> !(s[k].date == today - k && Completed(s[k])))
  }

  /** The length of the leading run of `s`. */
  function LeadingRun(s: seq<Record>, today: int): (k: nat)
    ensures IsLeadingRun(s, today, k)
  {
    if |s| == 0 || !(s[0].date == today && Completed(s[0])) then 0
    else
      var k := LeadingRun(s[1..], today - 1);
      assert forall i :: 1 <= i <= k ==> s[i] == s[1..][i - 1];
      1 + k
  }

  /** A leading run is determined by where it breaks. */
  lemma LeadingRunUnique(s: seq<Record>, today: int, j: nat, k: nat)
    requires IsLeadingRun(s, today, j) && IsLeadingRun(s, today, k)
    ensures j == k
  {
  }

  /** What `CalculateCurrentStreak` returns. */
  function AchievementStreak(progress: seq<Record>, today: int): nat {
    LeadingRun(SortByDate(progress, true), today)
  }

  /** `CalculateCurrentStreak`, with "today" passed in. */
  method CalculateCurrentStreak(progress: seq<Record>, today: int) returns (streak: nat)
    ensures streak == AchievementStreak(progress, today)
    ensures IsLeadingRun(SortByDate(progress, true), today, streak)
  {
    streak := 0;
    var orderedProgress := SortByDate(progress, true);
    for i := 0 to |orderedProgress|
      invariant streak == i
      invariant forall j :: 0 <= j < i ==> orderedProgress[j].date == today - j && Completed(orderedProgress[j])
    {
      var p := orderedProgress[i];
      if p.date == today - streak && p.value >= CompletionThreshold {
        streak := streak + 1;
      } else {
        break;
      }
    }
    LeadingRunUnique(orderedProgress, today, streak, LeadingRun(orderedProgress, today));
  }

  /** Each record of the leading run is completed and counted once. */
  lemma {:induction false} LeadingRunCompleted(s: seq<Record>, today: int)
    ensures LeadingRun(s, today) <= CompletedCount(s)
  {
    if |s| > 0 && s[0].date == today && Completed(s[0]) {
      LeadingRunCompleted(s[1..], today - 1);
    }
  }

  /** The streak never exceeds the number of records, nor the number of
      completed ones, and it is 0 when the newest record is not dated today
      or not completed. */
  lemma AchievementStreakBounds(progress: seq<Record>, today: int)
    ensures AchievementStreak(progress, today) <= CompletedCount(progress) <= |progress|
    ensures var ordered := SortByDate(progress, true);
      |ordered| == 0 || ordered[0].date != today || !Completed(ordered[0]) ==> AchievementStreak(progress, today) == 0
  {
    LeadingRunCompleted(SortByDate(progress, true), today);
    SortCompletedCount(progress, true);
  }

  /** Two records on the same day stop the count at the second of them. */
  lemma DuplicateStopsStreak(progress: seq<Record>, today: int, i: nat)
    requires i + 1 < |progress|
    requires SortByDate(progress, true)[i].date == SortByDate(progress, true)[i + 1].date
    ensures AchievementStreak(progress, today) <= i + 1
  {
  }

  /** In any order, the first record found on each day of the leading
      run is the run's own record for that day. */
  lemma {:induction false} LeadingRunFirstFound(s: seq<Record>, today: int, k: nat)
    requires IsLeadingRun(s, today, k) && |s| > 0
    ensures HabitService.CountedBack(s, today, MinDay(s), k)
  {
    assert k > 0 ==> s[k - 1] in s;
    forall d | today - k < d <= today ensures HabitService.FirstFoundCompleted(s, d) {
      FirstOnDayAt(s, today - d, d);
    }
  }

  /** So `AchievementService`'s streak never exceeds `HabitService`'s. */
  lemma AchievementStreakAtMostHabitStreak(progress: seq<Record>, today: int)
    ensures AchievementStreak(progress, today) <= HabitService.CurrentStreakOf(progress, today)
  {
    var ordered := SortByDate(progress, true);
    var k := LeadingRun(ordered, today);
    if |ordered| > 0 {
      LeadingRunFirstFound(ordered, today, k);
      HabitService.BackwardRunAtLeast(ordered, today, MinDay(ordered), k);
    }
    HabitService.SortedCurrentStreak(progress, today);
  }

  /** Descending order with distinct days is strictly descending. */
  lemma StrictlyDescending(s: seq<Record>)
    requires Sorted(s, true) && DistinctDays(s)
    ensures forall i, j :: 0 <= i < j < |s| ==> s[i].date > s[j].date
  {
    forall i, j | 0 <= i < j < |s| ensures s[i].date > s[j].date {
      assert InOrder(s[i], s[j], true);
    }
  }

  /** In descending order with distinct days and no day after today, a
      record on the day after the leading run would be the next record. */
  lemma NextIsOnDay(s: seq<Record>, today: int, k: nat, j: int)
    requires Sorted(s, true) && DistinctDays(s)
    requires forall x :: x in s ==> x.date <= today
    requires IsLeadingRun(s, today, k)
    requires 0 <= j < |s| && s[j].date == today - k
    ensures j == k
  {
    StrictlyDescending(s);
    assert s[0] in s;
    assert k > 0 ==> s[k - 1].date == today - (k - 1);
  }

  /** Under the same conditions the day after the leading run has no
      completed first record. */
  lemma LeadingRunStops(s: seq<Record>, today: int, k: nat)
    requires Sorted(s, true) && DistinctDays(s)
    requires forall x :: x in s ==> x.date <= today
    requires IsLeadingRun(s, today, k)
    ensures !HabitService.FirstFoundCompleted(s, today - k)
  {
    FirstOnDayFacts(s, today - k);
    var found := FirstOnDay(s, today - k);
    if found.Some? {
      var j :| 0 <= j < |s| && s[j] == found.value;
      NextIsOnDay(s, today, k, j);
    }
  }

  /** Records already in descending order with distinct days, none after
      today: the leading run is the walk of `HabitService`. */
  lemma OrderedStreaksAgree(s: seq<Record>, today: int)
    requires Sorted(s, true) && DistinctDays(s)
    requires forall x :: x in s ==> x.date <= today
    ensures LeadingRun(s, today) == HabitService.CurrentStreakOf(s, today)
  {
    if |s| > 0 {
      var k := LeadingRun(s, today);
      LeadingRunStops(s, today, k);
      StoppedRunAgrees(s, today, k);
    }
  }

  /** A leading run whose next day does not pass is the walk of
      `HabitService`. */
  lemma StoppedRunAgrees(s: seq<Record>, today: int, k: nat)
    requires |s| > 0 && IsLeadingRun(s, today, k)
    requires !HabitService.FirstFoundCompleted(s, today - k)
    ensures k == HabitService.CurrentStreakOf(s, today)
  {
    LeadingRunFirstFound(s, today, k);
    HabitService.WalkStops(s, today, MinDay(s), k, today - k);
  }

  /** With at most one record per day and none after today, the two
      streaks agree. */
  lemma StreaksAgreeOnDistinctDays(progress: seq<Record>, today: int)
    requires DistinctDays(progress)
    requires forall x :: x in progress ==> x.date <= today
    ensures AchievementStreak(progress, today) == HabitService.CurrentStreakOf(progress, today)
  {
    SortedBounded(progress, today);
    OrderedStreaksAgree(SortByDate(progress, true), today);
    HabitService.SortedCurrentStreak(progress, today);
  }

  /** Sorting keeps the days distinct and none after today. */
  lemma SortedBounded(progress: seq<Record>, today: int)
    requires DistinctDays(progress)
    requires forall x :: x in progress ==> x.date <= today
    ensures DistinctDays(SortByDate(progress, true))
    ensures forall x :: x in SortByDate(progress, true) ==> x.date <= today
  {
    SortSameRecords(progress, true);
    SortKeepsDistinct(progress, true);
  }

  /** Two completed records on today, the second of which the walk of
      `HabitService` never looks at, then a completed record yesterday:
      this service counts 1, `HabitService` counts 2. */
  lemma StreaksDiffer(r0: Record, r1: Record, r2: Record, today: int)
    requires r0.date == today && r1.date == today && r2.date == today - 1
    requires Completed(r0) && !Completed(r1) && Completed(r2)
    ensures AchievementStreak([r0, r1, r2], today) == 1
    ensures HabitService.CurrentStreakOf([r0, r1, r2], today) == 2
  {
    DuplicateTodayStopsRun(r0, r1, r2, today);
    DuplicateTodayIgnored(r0, r1, r2, today);
  }

  /** The second record on today stops this service's count at 1. */
  lemma DuplicateTodayStopsRun(r0: Record, r1: Record, r2: Record, today: int)
    requires r0.date == today && r1.date == today && r2.date == today - 1
    requires Completed(r0) && !Completed(r1)
    ensures AchievementStreak([r0, r1, r2], today) == 1
  {
    var s := [r0, r1, r2];
    assert Sorted(s, true);
    SortSorted(s, true);
    assert s[1..] == [r1, r2];
    assert LeadingRun(s[1..], today - 1) == 0;
  }

  /** `HabitService` sees only the first record on today and counts 2. */
  lemma DuplicateTodayIgnored(r0: Record, r1: Record, r2: Record, today: int)
    requires r0.date == today && r1.date == today && r2.date == today - 1
    requires Completed(r0) && Completed(r2)
    ensures HabitService.CurrentStreakOf([r0, r1, r2], today) == 2
  {
    var s := [r0, r1, r2];
    assert r2 in s;
    assert MinDay(s) == today - 1;
    FirstOnDayAt(s, 0, today);
    FirstOnDayAt(s, 2, today - 1);
    HabitStreakOfTwoDays(s, today);
  }

  /** The walk of `HabitService` over completed first records on today and
      yesterday, with nothing earlier, counts 2. */
  lemma HabitStreakOfTwoDays(s: seq<Record>, today: int)
    requires |s| > 0 && MinDay(s) == today - 1
    requires HabitService.FirstFoundCompleted(s, today) && HabitService.FirstFoundCompleted(s, today - 1)
    ensures HabitService.CurrentStreakOf(s, today) == 2
  {
    var lo := today - 1;
    assert HabitService.BackwardRun(s, today - 2, lo) == 0;
    assert HabitService.BackwardRun(s, today - 1, lo) == 1;
  }

  // ---------------------------------------------------------------------
  // Progress indicators

  datatype Habit = Habit(id: int, name: string)

  /** `AchievementProgressDTO` without `LastUpdated`, which is the clock. */
  datatype AchievementProgress = AchievementProgress(
    name: string,
    description: string,
    currentProgress: int,
    requiredProgress: int,
    isCompleted: bool,
    achievementType: string,
    habitId: int,
    habitName: string)

  const StreakTarget: int := 30
  const CompletionTarget: int := 20
  const MilestoneTarget: int := 1000

  /** An indicator is completed exactly when its progress reaches its
      target. */
  predicate Consistent(a: AchievementProgress) {
    a.isCompleted <==> a.currentProgress >= a.requiredProgress
  }

  /** `CalculateStreakProgress`. */
  function CalculateStreakProgress(habit: Habit, progress: seq<Record>, today: int): (a: AchievementProgress)
    ensures a.currentProgress == AchievementStreak(progress, today) && a.requiredProgress == StreakTarget
    ensures a.isCompleted <==> AchievementStreak(progress, today) >= 30
    ensures Consistent(a) && a.achievementType == "Streak"
    ensures a.habitId == habit.id && a.habitName == habit.name
  {
    var currentStreak := AchievementStreak(progress, today);
    AchievementProgress("Daily Streak", "Complete the habit every day", currentStreak, StreakTarget,
                        currentStreak >= StreakTarget, "Streak", habit.id, habit.name)
  }

  /** `CalculateCompletionProgress`. */
  function CalculateCompletionProgress(habit: Habit, progress: seq<Record>): (a: AchievementProgress)
    ensures a.currentProgress == CompletedCount(progress) && a.requiredProgress == CompletionTarget
    ensures a.isCompleted <==> CompletedCount(progress) >= 20
    ensures Consistent(a) && a.achievementType == "Completion"
    ensures a.habitId == habit.id && a.habitName == habit.name
  {
    var completedDays := CompletedCount(progress);
    AchievementProgress("Completion Master", "Complete the habit fully for a number of days", completedDays,
                        CompletionTarget, completedDays >= CompletionTarget, "Completion", habit.id, habit.name)
  }

  /** `CalculateMilestoneProgress`. */
  function CalculateMilestoneProgress(habit: Habit, progress: seq<Record>): (a: AchievementProgress)
    ensures a.currentProgress == ValueSum(progress) && a.requiredProgress == MilestoneTarget
    ensures a.isCompleted <==> ValueSum(progress) >= 1000
    ensures Consistent(a) && a.achievementType == "Milestone"
    ensures a.habitId == habit.id && a.habitName == habit.name
  {
    var totalProgress := ValueSum(progress);
    AchievementProgress("Progress Milestone", "Accumulate total progress points", totalProgress,
                        MilestoneTarget, totalProgress >= MilestoneTarget, "Milestone", habit.id, habit.name)
  }

  /** A completed streak indicator implies a completed completion
      indicator: 30 consecutive completed days are 30 completed records. */
  lemma StreakIndicatorImpliesCompletion(habit: Habit, progress: seq<Record>, today: int)
    ensures CalculateStreakProgress(habit, progress, today).isCompleted ==>
            CalculateCompletionProgress(habit, progress).isCompleted
  {
    AchievementStreakBounds(progress, today);
  }

  /** With values in 0..100 the milestone needs at least 10 records. */
  lemma MilestoneNeedsTenRecords(habit: Habit, progress: seq<Record>)
    requires ValidValues(progress)
    ensures CalculateMilestoneProgress(habit, progress).isCompleted ==> |progress| >= 10
  {
    assert forall x :: x in progress ==> 0 <= x.value <= CompletionThreshold;
  }

  /** The three indicators of one habit, in the order they are listed. */
  function Indicators(habit: Habit, progress: seq<Record>, today: int): seq<AchievementProgress> {
    [CalculateStreakProgress(habit, progress, today),
     CalculateCompletionProgress(habit, progress),
     CalculateMilestoneProgress(habit, progress)]
  }

  /** The indicators of each habit in turn. */
  function AllIndicators(habits: seq<(Habit, seq<Record>)>, today: int): seq<AchievementProgress> {
    if |habits| == 0 then []
    else
      var last := habits[|habits| - 1];
      AllIndicators(habits[..|habits| - 1], today) + Indicators(last.0, last.1, today)
  }

  /** Three entries per habit. */
  lemma {:induction false} AllIndicatorsLength(habits: seq<(Habit, seq<Record>)>, today: int)
    ensures |AllIndicators(habits, today)| == 3 * |habits|
  {
    if |habits| > 0 {
      AllIndicatorsLength(habits[..|habits| - 1], today);
    }
  }

  /** The entries of habit `i` are at 3i, 3i+1 and 3i+2: streak,
      completion, milestone. */
  lemma {:induction false} AllIndicatorsAt(habits: seq<(Habit, seq<Record>)>, today: int, i: int)
    requires 0 <= i < |habits|
    ensures |AllIndicators(habits, today)| == 3 * |habits|
    ensures AllIndicators(habits, today)[3 * i] == CalculateStreakProgress(habits[i].0, habits[i].1, today)
    ensures AllIndicators(habits, today)[3 * i + 1] == CalculateCompletionProgress(habits[i].0, habits[i].1)
    ensures AllIndicators(habits, today)[3 * i + 2] == CalculateMilestoneProgress(habits[i].0, habits[i].1)
  {
    var front := habits[..|habits| - 1];
    AllIndicatorsLength(front, today);
    AllIndicatorsLength(habits, today);
    var last := habits[|habits| - 1];
    var r := AllIndicators(habits, today);
    assert r == AllIndicators(front, today) + Indicators(last.0, last.1, today);
    if i < |front| {
      AllIndicatorsAt(front, today, i);
      assert habits[i] == front[i];
      assert 3 * i + 2 < 3 * |front|;
    } else {
      assert 3 * i == 3 * |front|;
    }
  }

  /** Every entry is completed exactly when it reaches its target. */
  lemma {:induction false} AllIndicatorsConsistent(habits: seq<(Habit, seq<Record>)>, today: int)
    ensures forall a :: a in AllIndicators(habits, today) ==> Consistent(a)
  {
    if |habits| > 0 {
      var last := habits[|habits| - 1];
      AllIndicatorsConsistent(habits[..|habits| - 1], today);
      assert forall a :: a in Indicators(last.0, last.1, today) ==> Consistent(a);
    }
  }

  /** Three entries per habit, in habit order and, within a habit, streak,
      completion, milestone; every entry is completed exactly when it
      reaches its target. */
  lemma AllIndicatorsShape(habits: seq<(Habit, seq<Record>)>, today: int)
    ensures |AllIndicators(habits, today)| == 3 * |habits|
    ensures forall i :: 0 <= i < |habits| ==>
      && AllIndicators(habits, today)[3 * i] == CalculateStreakProgress(habits[i].0, habits[i].1, today)
      && AllIndicators(habits, today)[3 * i + 1] == CalculateCompletionProgress(habits[i].0, habits[i].1)
      && AllIndicators(habits, today)[3 * i + 2] == CalculateMilestoneProgress(habits[i].0, habits[i].1)
    ensures forall a :: a in AllIndicators(habits, today) ==> Consistent(a)
  {
    AllIndicatorsLength(habits, today);
    forall i | 0 <= i < |habits|
      ensures && AllIndicators(habits, today)[3 * i] == CalculateStreakProgress(habits[i].0, habits[i].1, today)
              && AllIndicators(habits, today)[3 * i + 1] == CalculateCompletionProgress(habits[i].0, habits[i].1)
              && AllIndicators(habits, today)[3 * i + 2] == CalculateMilestoneProgress(habits[i].0, habits[i].1)
    {
      AllIndicatorsAt(habits, today, i);
    }
    AllIndicatorsConsistent(habits, today);
  }

  /** `GetUserAchievementProgressAsync` on the records fetched for each of
      the user's habits: three indicators per habit, in habit order. */
  method GetUserAchievementProgress(habits: seq<(Habit, seq<Record>)>, today: int)
    returns (progressList: seq<AchievementProgress>)
    ensures progressList == AllIndicators(habits, today)
    ensures |progressList| == 3 * |habits|
    ensures forall i :: 0 <= i < |habits| ==>
      && progressList[3 * i] == CalculateStreakProgress(habits[i].0, habits[i].1, today)
      && progressList[3 * i + 1] == CalculateCompletionProgress(habits[i].0, habits[i].1)
      && progressList[3 * i + 2] == CalculateMilestoneProgress(habits[i].0, habits[i].1)
    ensures forall a :: a in progressList ==> Consistent(a)
  {
    progressList := [];
    for h := 0 to |habits|
      invariant progressList == AllIndicators(habits[..h], today)
    {
      var (habit, habitProgress) := habits[h];
      var streakProgress := CalculateStreakProgress(habit, habitProgress, today);
      var completionProgress := CalculateCompletionProgress(habit, habitProgress);
      var milestoneProgress := CalculateMilestoneProgress(habit, habitProgress);
      assert habits[..h + 1][..h] == habits[..h];
      assert AllIndicators(habits[..h + 1], today)
          == AllIndicators(habits[..h], today) + Indicators(habit, habitProgress, today);
      progressList := progressList + [streakProgress, completionProgress, milestoneProgress];
    }
    assert habits[..|habits|] == habits;
    AllIndicatorsShape(habits, today);
  }

  // ---------------------------------------------------------------------
  // Awards

  datatype Achievement = Achievement(name: string, achievementType: string)

  const WeekWarrior := Achievement("Week Warrior", "Streak")
  const MonthMaster := Achievement("Month Master", "Streak")
  const PerfectTen := Achievement("Perfect Ten", "Completion")
  const ProgressPro := Achievement("Progress Pro", "Milestone")

  /** The awards a streak of `streak` days earns, in the order they are added. */
  function StreakAwards(streak: nat): seq<Achievement> {
    (if streak >= 7 then [WeekWarrior] else []) + (if streak >= 30 then [MonthMaster] else [])
  }

  /** The award `completedDays` completed records earn. */
  function CompletionAwards(completedDays: nat): seq<Achievement> {
    if completedDays >= 10 then [PerfectTen] else []
  }

  /** The award a value sum of `totalProgress` earns. */
  function MilestoneAwards(totalProgress: int): seq<Achievement> {
    if totalProgress >= 1000 then [ProgressPro] else []
  }

  /** Streak, completion and milestone awards, concatenated in that order. */
  function AwardsFor(streak: nat, completedDays: nat, totalProgress: int): seq<Achievement> {
    StreakAwards(streak) + CompletionAwards(completedDays) + MilestoneAwards(totalProgress)
  }

  /** The awards the records earn. */
  function Awards(progress: seq<Record>, today: int): seq<Achievement> {
    AwardsFor(AchievementStreak(progress, today), CompletedCount(progress), ValueSum(progress))
  }

  /** The body of `CheckStreakAchievements`. */
  method CheckStreakAchievements(progress: seq<Record>, today: int) returns (achievements: seq<Achievement>)
    ensures achievements == StreakAwards(AchievementStreak(progress, today))
    ensures WeekWarrior in achievements <==> AchievementStreak(progress, today) >= 7
    ensures MonthMaster in achievements <==> AchievementStreak(progress, today) >= 30
  {
    achievements := [];
    var streak := CalculateCurrentStreak(progress, today);
    if streak >= 7 {
      achievements := achievements + [WeekWarrior];
    }
    if streak >= 30 {
      achievements := achievements + [MonthMaster];
    }
    assert WeekWarrior != MonthMaster;
  }

  /** The body of `CheckCompletionAchievements`. */
  method CheckCompletionAchievements(progress: seq<Record>) returns (achievements: seq<Achievement>)
    ensures achievements == CompletionAwards(CompletedCount(progress))
    ensures PerfectTen in achievements <==> CompletedCount(progress) >= 10
  {
    var completedDays := CompletedCount(progress);
    achievements := [];
    if completedDays >= 10 {
      achievements := achievements + [PerfectTen];
    }
  }

  /** The body of `CheckMilestoneAchievements`. */
  method CheckMilestoneAchievements(progress: seq<Record>) returns (achievements: seq<Achievement>)
    ensures achievements == MilestoneAwards(ValueSum(progress))
    ensures ProgressPro in achievements <==> ValueSum(progress) >= 1000
  {
    var totalProgress := ValueSum(progress);
    achievements := [];
    if totalProgress >= 1000 {
      achievements := achievements + [ProgressPro];
    }
  }

  /** The rank of an achievement type in the award order. */
  function TypeRank(a: Achievement): int {
    if a.achievementType == "Streak" then 0
    else if a.achievementType == "Completion" then 1
    else 2
  }

  /** `CheckAndAwardAchievementsAsync` on the fetched records. */
  method CheckAndAwardAchievements(progress: seq<Record>, today: int) returns (achievements: seq<Achievement>)
    ensures achievements == Awards(progress, today)
  {
    achievements := [];
    var streakAwards := CheckStreakAchievements(progress, today);
    achievements := achievements + streakAwards;
    var completionAwards := CheckCompletionAchievements(progress);
    achievements := achievements + completionAwards;
    var milestoneAwards := CheckMilestoneAchievements(progress);
    achievements := achievements + milestoneAwards;
  }

  /** The four awards are distinct and ranked streak, completion, milestone. */
  lemma AwardConstants()
    ensures WeekWarrior != MonthMaster && WeekWarrior != PerfectTen && WeekWarrior != ProgressPro
    ensures MonthMaster != PerfectTen && MonthMaster != ProgressPro && PerfectTen != ProgressPro
    ensures TypeRank(WeekWarrior) == 0 && TypeRank(MonthMaster) == 0
    ensures TypeRank(PerfectTen) == 1 && TypeRank(ProgressPro) == 2
  {
    assert WeekWarrior.name[0] == 'W' && MonthMaster.name[0] == 'M';
    assert PerfectTen.name[1] == 'e' && ProgressPro.name[1] == 'r';
    assert "Streak"[0] == 'S' && "Completion"[0] == 'C' && "Milestone"[0] == 'M';
  }

  /** Each award is earned exactly when its threshold is reached. */
  lemma AwardsMembership(streak: nat, completedDays: nat, totalProgress: int)
    ensures var r := AwardsFor(streak, completedDays, totalProgress);
      && (WeekWarrior in r <==> streak >= 7)
      && (MonthMaster in r <==> streak >= 30)
      && (PerfectTen in r <==> completedDays >= 10)
      && (ProgressPro in r <==> totalProgress >= 1000)
      && (forall x :: x in r ==> x == WeekWarrior || x == MonthMaster || x == PerfectTen || x == ProgressPro)
  {
    AwardConstants();
    var a, b, c := StreakAwards(streak), CompletionAwards(completedDays), MilestoneAwards(totalProgress);
    assert forall x :: x in a + b + c <==> x in a || x in b || x in c;
  }

  /** At most four awards, and they come in type order. */
  lemma AwardsOrdered(streak: nat, completedDays: nat, totalProgress: int)
    ensures var r := AwardsFor(streak, completedDays, totalProgress);
      && |r| <= 4
      && (forall i, j :: 0 <= i < j < |r| ==> TypeRank(r[i]) <= TypeRank(r[j]))
  {
    AwardConstants();
    AwardOrder(StreakAwards(streak), CompletionAwards(completedDays), MilestoneAwards(totalProgress));
  }

  /** Streak awards, then completion awards, then milestone awards are in
      type order. */
  lemma AwardOrder(a: seq<Achievement>, b: seq<Achievement>, c: seq<Achievement>)
    requires forall x :: x in a ==> TypeRank(x) == 0
    requires forall x :: x in b ==> TypeRank(x) == 1
    requires forall x :: x in c ==> TypeRank(x) == 2
    ensures forall i, j :: 0 <= i < j < |a + b + c| ==> TypeRank((a + b + c)[i]) <= TypeRank((a + b + c)[j])
  {
    var r := a + b + c;
    forall i | 0 <= i < |r| ensures TypeRank(r[i]) == if i < |a| then 0 else if i < |a| + |b| then 1 else 2 {
      if i < |a| {
        assert r[i] == a[i];
      } else if i < |a| + |b| {
        assert r[i] == b[i - |a|];
      } else {
        assert r[i] == c[i - |a| - |b|];
      }
    }
  }

  /** A month-long streak earns every award but the milestone: it implies
      Week Warrior and, with 30 completed records, Perfect Ten. */
  lemma MonthStreakEarnsPerfectTen(progress: seq<Record>, today: int)
    ensures AchievementStreak(progress, today) >= 30 ==> CompletedCount(progress) >= 10
  {
    AchievementStreakBounds(progress, today);
  }
}
