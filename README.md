# Habit progress aggregation, verified in Dafny

This project models how the Islamic habit tracker's back end turns a habit's
dated progress records into statistics and achievements. It also proves what
those computations promise. Each record has a day, an integer value and notes,
and a day counts as completed when its value reaches 100. The three parts
modelled are:

- `HabitService` statistics:
  - the current streak, found by walking back one day at a time from today;
  - the best streak, found by one forward pass over the records sorted by date;
  - the totals and completion rate over a window;
  - the gap-filled calendar of the window.
- `AchievementService`:
  - its own, different current streak, which scans the records newest first and stops at the first mismatch;
  - three progress indicators with fixed targets (30, 20, 1000);
  - four awards (7 and 30 streak days, 10 completed records, 1000 progress points), and the order in which all of these are listed.
- `DateHelper`: day-granularity date arithmetic on `DateTime` ticks.
  - Ticks count 100 ns since 0001-01-01, which was a Monday.
  - `AddDays` and `AddTicks` throw `ArgumentOutOfRangeException` when the result falls outside the `DateTime` range.

How the model is set up:

- **Dates.** Record dates are day numbers. Window ends are ticks, time of day included, as the callers pass them.
- **Today.** "Today" is a parameter.
- **Exceptions.** An exception is an `Err` of a `Result`:
  - `DuplicateKey` when `ToDictionary` meets two records on one day;
  - `ArgumentOutOfRange` when date arithmetic leaves the `DateTime` range.
- **Sorting.** LINQ's `OrderBy`/`OrderByDescending` on the date is one stable insertion sort, `Progress.SortByDate`. Its stability is what lets "the first record found on a day" be stated on the unsorted input.
- **Methods and loops.** The loops of the source are methods with loop invariants. Each is proved equal to a specification function, and the properties are lemmas about those functions.

Files:

- `prelude.dfy`: Option, Result, `Max`, integer ranges.
- `progress.dfy`: records, counting and summing, records of a day, `ToDictionary`, the stable sort, `Min` on dates.
- `date_helper.dfy`: `DateHelper`.
- `habit_service.dfy`: `HabitService`.
- `achievement_service.dfy`: `AchievementService`, and how its streak relates to `HabitService`'s.
- `habit_findings.dfy`: the two findings below, each with a corrected version.

The two current-streak algorithms do differ:

- `AchievementService.StreaksAgreeOnDistinctDays` proves that they agree when each day has at most one record and no record is dated after today. This holds for records dated at midnight. The model gives every record a whole day, and "## Left out" says what a time of day would change.
- `AchievementService.StreaksDiffer` shows that with two records on today they do not. `HabitService` only looks at the first record found for a day. `AchievementService` meets the second one and stops.

## Model

| member | source | states |
|---|---|---|
| Progress.FirstOnDayFacts | IslamicHabitTracker/Services/HabitService.cs:144 | `FirstOrDefault` on the date finds a record of that day, and finds none exactly when no record is dated that day |
| Progress.FirstOnDayAt | IslamicHabitTracker/Services/HabitService.cs:144 | the record found on a day is the earliest-listed record dated that day |
| Progress.OnlyOnDay | IslamicHabitTracker/Services/HabitService.cs:198-207 | with at most one record per day, the record found on its day is that record, and the day is completed exactly when that record is |
| Progress.ToDictionary | IslamicHabitTracker/Services/HabitService.cs:198 | keying by day succeeds exactly when no two records share a day; the map then sends every record's day to that record and holds nothing else |
| Progress.SortByDate | IslamicHabitTracker/Services/HabitService.cs:138-140 | the sorted records are a permutation of the input and are ordered by date, ascending or descending |
| Progress.SortOnDay | IslamicHabitTracker/Services/HabitService.cs:138-144 | the sort is stable: the records of each day keep their input order |
| Progress.SortFirstOnDay | IslamicHabitTracker/Services/HabitService.cs:138-144 | the record found on a day is the same before and after sorting |
| Progress.SortSameRecords | IslamicHabitTracker/Services/HabitService.cs:159-161 | sorting keeps exactly the same records |
| Progress.SortCompletedCount | IslamicHabitTracker/Services/HabitService.cs:159-161 | sorting keeps the number of completed records |
| Progress.SortSorted | IslamicHabitTracker/Services/HabitService.cs:159-161 | records that are already in order are left as they are |
| Progress.SortedUnique | IslamicHabitTracker/Services/HabitService.cs:159-161 | two sorted sequences with the same records, in the same order, on every day are equal |
| Progress.SortDeterminedByDays | IslamicHabitTracker/Services/HabitService.cs:159-161 | the sorted order depends only on the records of each day in their input order |
| Progress.PermutationOnDay | IslamicHabitTracker/Services/HabitService.cs:159-161 | two orderings of the same records on distinct days hold the same records on every day |
| Progress.SortKeepsDistinct | IslamicHabitTracker/Services/HabitService.cs:138-140 | sorting keeps the days distinct |
| Progress.MinDay | IslamicHabitTracker/Services/HabitService.cs:142 | `Min(p => p.Date)` is no later than any record's day and is the day of some record |
| Progress.SortMinDay | IslamicHabitTracker/Services/HabitService.cs:138-142 | the earliest day is the same before and after sorting |
| Progress.CompletedCount | IslamicHabitTracker/Services/HabitService.cs:110 | `Count(p => p.Value >= 100)` is at most the number of records, and is 0 exactly when no record is completed |
| Progress.ValueSum | IslamicHabitTracker/Services/AchievementService.cs:151 | `Sum(p => p.Value)` is never negative when no value is, is 0 when every value is 0, and is at most 100 per record when no value exceeds 100 |
| Progress.CompletedCountAppend | IslamicHabitTracker/Services/HabitService.cs:110 | `Count(p => p.Value >= 100)` over a concatenation is the sum of the counts |
| DateHelper.GetStartOfDay | IslamicHabitTracker/Helpers/DateHelper.cs:14-17 | `date.Date` is a midnight on the same day, no later than the input and less than a day before it |
| DateHelper.StartOfDayIdempotent | IslamicHabitTracker/Helpers/DateHelper.cs:14-17 | taking the start of a day twice changes nothing |
| DateHelper.GetEndOfDay | IslamicHabitTracker/Helpers/DateHelper.cs:22-25 | throws exactly on the last representable day; otherwise it is the start of the day plus one day less one tick, on the same day and not before the input |
| DateHelper.AddTicks | IslamicHabitTracker/Helpers/DateHelper.cs:24 | `AddTicks` succeeds exactly when the result stays within the `DateTime` range, and then adds the ticks |
| DateHelper.AddDays | IslamicHabitTracker/Helpers/DateHelper.cs:24 | `AddDays(n)` succeeds exactly when the day n days later is representable; it then adds n days of ticks, moving the day number by n and keeping the time of day |
| DateHelper.DayOfAdd | IslamicHabitTracker/Helpers/DateHelper.cs:33 | adding n whole days of ticks stays in the `DateTime` range exactly when the day number stays within 0..9999-12-31, and then moves the day number by n and keeps the time of day |
| DateHelper.DayOfWeek | IslamicHabitTracker/Helpers/DateHelper.cs:32 | `date.DayOfWeek` is between 0 (Sunday) and 6; it is Monday exactly on day numbers divisible by 7, since 0001-01-01 was a Monday, and Sunday exactly on those 6 more than a multiple of 7 |
| DateHelper.WeekdayOffset | IslamicHabitTracker/Helpers/DateHelper.cs:32 | the days since the last Monday, computed from `DayOfWeek`, are the day number modulo 7 |
| DateHelper.GetStartOfWeek | IslamicHabitTracker/Helpers/DateHelper.cs:30-34 | midnight of a Monday, no later than the input and less than 7 days before it |
| DateHelper.SameWeek | IslamicHabitTracker/Helpers/DateHelper.cs:30-34 | two dates get the same start of week exactly when they fall in the same Monday-to-Sunday week |
| DateHelper.GetEndOfWeek | IslamicHabitTracker/Helpers/DateHelper.cs:39-43 | throws exactly when the Monday after is not representable; otherwise it is the start of week plus 7 days less one tick, a Sunday, and the input lies between the two |
| DateHelper.IsDateInRange | IslamicHabitTracker/Helpers/DateHelper.cs:48-51 | inclusive at both ends by day, ignoring time of day; false for every date when the end's day precedes the start's |
| DateHelper.GetDaysBetween | IslamicHabitTracker/Helpers/DateHelper.cs:56-59 | the difference of the day numbers plus 1: 1 on the same day, at most 0 when the end's day precedes the start's |
| DateHelper.DaysBetweenCountsAcceptedDays | IslamicHabitTracker/Helpers/DateHelper.cs:48-59 | for a window that is not inverted, `GetDaysBetween` is the number of days `IsDateInRange` accepts |
| HabitService.BackwardRun | IslamicHabitTracker/Services/HabitService.cs:142-148 | the walk back from a day counts days whose first-found record is completed, none before the earliest record's day, and stops at the first day that fails |
| HabitService.BackwardRunUnique | IslamicHabitTracker/Services/HabitService.cs:142-148 | the count of such a walk is determined by where it stops |
| HabitService.BackwardRunAtLeast | IslamicHabitTracker/Services/HabitService.cs:142-148 | if k days back from today all pass, the walk counts at least k |
| HabitService.WalkStops | IslamicHabitTracker/Services/HabitService.cs:142-148 | k passing days followed by a failing or too-early day make the walk's count exactly k |
| HabitService.CalculateCurrentStreak | IslamicHabitTracker/Services/HabitService.cs:132-151 | 0 for no records and 0 when today's first-found record is missing or incomplete; otherwise today, today-1, ..., today-k+1 all pass, none is earlier than the earliest record, and today-k fails or is earlier than it |
| HabitService.CurrentStreakDaysCompleted | IslamicHabitTracker/Services/HabitService.cs:142-148 | every day the current streak counts has a completed record |
| HabitService.SortedCurrentStreak | IslamicHabitTracker/Services/HabitService.cs:138-140 | sorting the records before the walk does not change the streak |
| HabitService.BackwardRunSame | IslamicHabitTracker/Services/HabitService.cs:144-145 | the walk depends only on the record found on each day |
| HabitService.CalculateBestStreak | IslamicHabitTracker/Services/HabitService.cs:153-190 | the loop computes the pass over the records sorted by date; 0 for no records, never negative, at most the number of completed records, at least 1 when one is completed |
| HabitService.StepBounds | IslamicHabitTracker/Services/HabitService.cs:167-185 | one pass of the loop body keeps the count between 0 and the best count, raises the best count by at most one and only on a completed record, and leaves the best count at least 1 after a completed record |
| HabitService.BestStreakBounds | IslamicHabitTracker/Services/HabitService.cs:155-184 | the best streak is 0 without records, between 0 and the number of completed records, and at least 1 when some record is completed |
| HabitService.RunConsecutive | IslamicHabitTracker/Services/HabitService.cs:165-187 | completed records on consecutive days, in order, each extend the count |
| HabitService.BestStreakConsecutive | IslamicHabitTracker/Services/HabitService.cs:165-186 | n completed records on n consecutive days, listed in date order, give n |
| HabitService.BestStreakConsecutiveAnyOrder | IslamicHabitTracker/Services/HabitService.cs:159-186 | n completed records on n consecutive distinct days give n in any input order |
| HabitService.BestStreakDependsOnDaysOnly | IslamicHabitTracker/Services/HabitService.cs:159-161 | the result depends only on which records each day holds, in their input order |
| HabitService.BestStreakOrderIndependent | IslamicHabitTracker/Services/HabitService.cs:159-161 | for records on distinct days, the result does not depend on the input order |
| HabitService.GapRestartsCount | IslamicHabitTracker/Services/HabitService.cs:175-179 | a record more than one day after the expected day restarts the count at 1 if completed, 0 otherwise |
| HabitService.ExpectedDayAndDuplicate | IslamicHabitTracker/Services/HabitService.cs:167-183 | an incomplete record on the expected day leaves the count unchanged; a completed second record on the previous day extends it |
| HabitService.TruncatedDays | IslamicHabitTracker/Services/HabitService.cs:109 | `(int)TotalDays` as the exact quotient of the span by a day, truncated toward zero; the `double` rounding of `TotalDays` is not modelled (see "## Left out") |
| HabitService.TotalDays | IslamicHabitTracker/Services/HabitService.cs:109 | with the span divided exactly: for a window that is not inverted, the total is the number of calendar days, or one less, and at least 1; for an inverted window, at most 1 |
| HabitService.LatestCompleted | IslamicHabitTracker/Services/HabitService.cs:111-114 | none exactly when no record is completed; otherwise a completed day that no completed record comes after |
| HabitService.CompletionRate | IslamicHabitTracker/Services/HabitService.cs:118 | 0 when the total is not positive; otherwise rate times total is 100 times the completed days; never negative |
| HabitService.ComputeTotals | IslamicHabitTracker/Services/HabitService.cs:109-118 | the totals are the truncated window length, the number of completed records, the latest completed day and the rate computed from those two numbers |
| HabitService.CalendarAppend | IslamicHabitTracker/Services/HabitService.cs:200-220 | appending the next day's entry to a calendar gives the calendar one day longer |
| HabitService.LookupDay | IslamicHabitTracker/Services/HabitService.cs:198-219 | a dictionary lookup tells whether the day is completed and gives its notes; a missing day is not completed and has notes "" |
| HabitService.GetDailyProgress | IslamicHabitTracker/Services/HabitService.cs:192-223 | fails with `DuplicateKey` exactly when two records share a day; with distinct days, fails with `ArgumentOutOfRange` exactly when the window reaches the last representable day; otherwise one entry per day of the window, in ascending order, none when the window is inverted; an entry is completed iff a completed record exists that day, and has the day's notes or "" |
| HabitService.GetHabitStatistics | IslamicHabitTracker/Services/HabitService.cs:100-130 | fails exactly when the calendar does, with the same error (`DuplicateKey` for a repeated day, otherwise `ArgumentOutOfRange`); otherwise each field is the totals, the two streaks and the calendar above |
| AchievementService.LeadingRun | IslamicHabitTracker/Services/AchievementService.cs:172-182 | the first k records are dated today, today-1, ..., and are completed, and the next record breaks that pattern |
| AchievementService.LeadingRunUnique | IslamicHabitTracker/Services/AchievementService.cs:172-182 | the length of such a leading run is determined by where it breaks |
| AchievementService.CalculateCurrentStreak | IslamicHabitTracker/Services/AchievementService.cs:166-185 | the streak is the leading run of the records sorted newest first |
| AchievementService.LeadingRunCompleted | IslamicHabitTracker/Services/AchievementService.cs:172-177 | a leading run has no more records than the completed records |
| AchievementService.AchievementStreakBounds | IslamicHabitTracker/Services/AchievementService.cs:168-184 | the streak is at most the completed records and at most the records, and it is 0 when the newest record is not dated today or is incomplete |
| AchievementService.DuplicateStopsStreak | IslamicHabitTracker/Services/AchievementService.cs:174 | two sorted records on the same day stop the count at the second of them |
| AchievementService.LeadingRunFirstFound | IslamicHabitTracker/Services/AchievementService.cs:172-177 | every day of a leading run passes the walk of `HabitService` |
| AchievementService.AchievementStreakAtMostHabitStreak | IslamicHabitTracker/Services/AchievementService.cs:166-185 | this streak never exceeds `HabitService`'s current streak |
| AchievementService.NextIsOnDay | IslamicHabitTracker/Services/AchievementService.cs:172-181 | for records sorted newest first on distinct days, none after today, a record dated today-k, the day a leading run of k would reach next, can only be record k |
| AchievementService.LeadingRunStops | IslamicHabitTracker/Services/AchievementService.cs:178-181 | under the same conditions, the day today-k just past a leading run of k has no completed first-found record |
| AchievementService.OrderedStreaksAgree | IslamicHabitTracker/Services/AchievementService.cs:166-185 | on sorted records on distinct days, none after today, the leading run is `HabitService`'s current streak |
| AchievementService.StoppedRunAgrees | IslamicHabitTracker/Services/AchievementService.cs:166-185 | a leading run whose next day fails the walk is `HabitService`'s current streak |
| AchievementService.StreaksAgreeOnDistinctDays | IslamicHabitTracker/Services/AchievementService.cs:166-185 | with at most one record per day and none after today, the two current streaks are equal |
| AchievementService.StreaksDiffer | IslamicHabitTracker/Services/AchievementService.cs:172-181 | completed, incomplete on today and completed yesterday: this streak is 1 while `HabitService`'s is 2 |
| AchievementService.DuplicateTodayStopsRun | IslamicHabitTracker/Services/AchievementService.cs:174-180 | a second, incomplete record on today stops this streak at 1 |
| AchievementService.DuplicateTodayIgnored | IslamicHabitTracker/Services/AchievementService.cs:174-180 | `HabitService` sees only the first record of today and counts 2 |
| AchievementService.HabitStreakOfTwoDays | IslamicHabitTracker/Services/AchievementService.cs:166-185 | completed first records on today and yesterday, none earlier, give `HabitService` a streak of 2 |
| AchievementService.CalculateStreakProgress | IslamicHabitTracker/Services/AchievementService.cs:115-130 | progress is the current streak, required 30, completed iff the streak reaches 30, type "Streak", the habit's id and name |
| AchievementService.CalculateCompletionProgress | IslamicHabitTracker/Services/AchievementService.cs:132-147 | progress is the number of completed records, required 20, completed iff that number reaches 20, type "Completion" |
| AchievementService.CalculateMilestoneProgress | IslamicHabitTracker/Services/AchievementService.cs:149-164 | progress is the sum of the values, required 1000, completed iff the sum reaches 1000, type "Milestone" |
| AchievementService.StreakIndicatorImpliesCompletion | IslamicHabitTracker/Services/AchievementService.cs:115-147 | a completed streak indicator implies a completed completion indicator |
| AchievementService.MilestoneNeedsTenRecords | IslamicHabitTracker/Services/AchievementService.cs:149-164 | with values in 0..100, a completed milestone needs at least 10 records |
| AchievementService.AllIndicatorsLength | IslamicHabitTracker/Services/AchievementService.cs:98-110 | three entries per habit |
| AchievementService.AllIndicatorsAt | IslamicHabitTracker/Services/AchievementService.cs:105-109 | habit i's streak, completion and milestone entries are at 3i, 3i+1 and 3i+2 |
| AchievementService.AllIndicatorsConsistent | IslamicHabitTracker/Services/AchievementService.cs:115-164 | every entry is completed exactly when its progress reaches its target |
| AchievementService.AllIndicatorsShape | IslamicHabitTracker/Services/AchievementService.cs:93-113 | three entries per habit, in habit order and in the order streak, completion, milestone, each consistent |
| AchievementService.GetUserAchievementProgress | IslamicHabitTracker/Services/AchievementService.cs:93-113 | the loop builds the indicators of each habit in turn: three per habit, at 3i..3i+2, each consistent |
| AchievementService.CheckStreakAchievements | IslamicHabitTracker/Services/AchievementService.cs:187-199 | "Week Warrior" is awarded iff the streak reaches 7 and "Month Master" iff it reaches 30, in that order |
| AchievementService.CheckCompletionAchievements | IslamicHabitTracker/Services/AchievementService.cs:201-212 | "Perfect Ten" is awarded iff at least 10 records are completed |
| AchievementService.CheckMilestoneAchievements | IslamicHabitTracker/Services/AchievementService.cs:214-225 | "Progress Pro" is awarded iff the values sum to at least 1000 |
| AchievementService.CheckAndAwardAchievements | IslamicHabitTracker/Services/AchievementService.cs:36-57 | the awards are the streak, completion and milestone awards concatenated in that order |
| AchievementService.AwardsMembership | IslamicHabitTracker/Services/AchievementService.cs:52-54 | each of the four awards is present exactly when its threshold is reached, and nothing else is present |
| AchievementService.AwardsOrdered | IslamicHabitTracker/Services/AchievementService.cs:52-54 | at most four awards, ordered by type: streak, then completion, then milestone |
| AchievementService.AwardOrder | IslamicHabitTracker/Services/AchievementService.cs:52-54 | concatenating streak, completion and milestone awards keeps them in type order |
| AchievementService.AwardConstants | IslamicHabitTracker/Services/AchievementService.cs:194-221 | the four awards are distinct and their types rank streak, completion, milestone |
| AchievementService.MonthStreakEarnsPerfectTen | IslamicHabitTracker/Services/AchievementService.cs:195-208 | a 30-day streak implies 10 completed records, so Month Master comes with Perfect Ten |
| HabitFindings.IncompleteDayKeepsStreak | IslamicHabitTracker/Services/HabitService.cs:167-185 | completed, incomplete and completed records on three consecutive days give a best streak of 2, although no two consecutive days are completed |
| HabitFindings.OneMissingDayKeepsStreak | IslamicHabitTracker/Services/HabitService.cs:175-183 | completed records two days apart give a best streak of 2, although the day between has no record |
| HabitFindings.NoTwoDays | IslamicHabitTracker/Services/HabitService.cs:167-185 | records on days d..d+2 whose day d+1 is incomplete hold no two consecutive completed days |
| HabitFindings.OrderedScan | IslamicHabitTracker/Services/HabitService.cs:159-165 | on records already in ascending order, both best-streak scans start from the first record's day |
| HabitFindings.CorrectedRunSound | IslamicHabitTracker/Services/HabitService.cs:165-187 | the corrected count is always a run of that many consecutive completed days, as is the corrected best count |
| HabitFindings.CorrectedBestStreakSound | IslamicHabitTracker/Services/HabitService.cs:153-190 | the corrected best streak is never negative and is always witnessed by that many consecutive completed days |
| HabitFindings.CorrectedBestStreakMaximal | IslamicHabitTracker/Services/HabitService.cs:153-190 | every run of consecutive days that each have a completed record is at most the corrected best streak, so with the row above it is the longest such run |
| HabitFindings.CorrectedRunTracks | IslamicHabitTracker/Services/HabitService.cs:165-187 | over records in ascending order, the corrected best count is at least every run of completed days so far, and the count is at least every run ending on the day before the expected day |
| HabitFindings.StepTracks | IslamicHabitTracker/Services/HabitService.cs:167-186 | one corrected loop step keeps those bounds for a record no earlier than the ones before it |
| HabitFindings.CorrectedOnRepeatedDay | IslamicHabitTracker/Services/HabitService.cs:167-171 | an incomplete record followed by a completed one on the same day gives a corrected streak of 1: the day counts |
| HabitFindings.CorrectedRunConsecutive | IslamicHabitTracker/Services/HabitService.cs:165-187 | on completed records on consecutive days, in order, every record extends the corrected count |
| HabitFindings.CorrectedBestStreakConsecutive | IslamicHabitTracker/Services/HabitService.cs:165-186 | n completed records on n consecutive days still give n |
| HabitFindings.CorrectedOnIncompleteDay | IslamicHabitTracker/Services/HabitService.cs:167-185 | on the input of `IncompleteDayKeepsStreak` the corrected best streak is 1 |
| HabitFindings.CorrectedOnMissingDay | IslamicHabitTracker/Services/HabitService.cs:175-183 | on the input of `OneMissingDayKeepsStreak` the corrected best streak is 1 |
| HabitFindings.CompletionRateOver100 | IslamicHabitTracker/Services/HabitService.cs:109-118 | a window from 23:00 on one day to 01:00 on the next counts 1 day, so completed records on both days give a rate of 200 |
| HabitFindings.CorrectedTotals | IslamicHabitTracker/Services/HabitService.cs:109-118 | the totals with the window counted in calendar days by `GetDaysBetween` |
| HabitFindings.DatesInRange | IslamicHabitTracker/Services/HabitService.cs:110 | records on distinct days within a window fall on as many days of the window as there are records |
| HabitFindings.CorrectedRateAtMost100 | IslamicHabitTracker/Services/HabitService.cs:109-118 | with the window counted in calendar days, records on distinct days within the window give a rate between 0 and 100 |
| HabitFindings.RateAtMost100 | IslamicHabitTracker/Services/HabitService.cs:118 | the rate is at most 100 when the completed days do not outnumber the total days |

## Left out

- Repositories, database access and `async`/`Task.Run` plumbing are not modelled. The records a repository would fetch are passed in as a sequence. So is the 30-day window that `CheckAndAwardAchievementsAsync` and `GetUserAchievementProgressAsync` fetch (AchievementService.cs:46-49, 100-103).
- The habit lookups and ownership checks are not modelled: "Habit not found" in `GetHabitStatisticsAsync` and "not found or unauthorized" in `CheckAndAwardAchievementsAsync` and `GetHabitAchievementsAsync`. They are repository I/O and authorisation.
- `GetUserAchievementsAsync` and `GetHabitAchievementsAsync` are not modelled. They only call `CheckAndAwardAchievementsAsync` for each habit and concatenate the results, behind the same ownership check.
- `DateTime.UtcNow` is a `today` parameter (a day number), and the `LastUpdated` field of each progress indicator, which is the clock, is dropped.
- Record dates are whole days, because the model has no time of day on a record. The source stores a record's date with its time of day, as the client sends it. A time of day would change four things:
  - Two records on the same day count as equal dates. The stable sort keeps their input order, where the source would order them by time.
  - In `HabitService`'s current streak (HabitService.cs:142), the midnight `date` is compared with the full timestamp `Min(p => p.Date)`. If the earliest record has a time of day, its day is never walked. So one completed record at 10:00 today gives 0 in the source and 1 in `HabitService.CalculateCurrentStreak`.
  - `AchievementService`'s streak counts 1 on that same input. So `AchievementService.AchievementStreakAtMostHabitStreak` and `AchievementService.StreaksAgreeOnDistinctDays` hold only for records dated at midnight.
  - `CalculateBestStreak` starts `currentDate` from the first record's full timestamp (HabitService.cs:163). On the first record this takes the `daysDiff` branch instead of the expected-day branch, which gives the same count.
- HabitService.CompletionRate: an exact real instead of a `double`, so rounding is not modelled.
- HabitService.TruncatedDays: `TimeSpan.TotalDays` is a `double`, but the model divides the span exactly. From 2^53 ticks (about 10,425 days) a span can round up to a whole number of days when it falls a tick or so short of one. The source then counts one day more than `HabitService.TotalDays` and its bound `n <= GetDaysBetween` state. Example: a window from tick 0 to tick 10425 days less one tick gives 10426 in the source and 10425 in the model.
- Progress.ValueSum: an unbounded integer, so the `OverflowException` that `Sum` throws past `int.MaxValue` is not modelled.
- HabitService.CalculateCurrentStreak: `date.AddDays(-1)` below 0001-01-01 would throw, but the walk's day numbers are not bounded below. This only matters for records dated on the first representable day.
- HabitService.CalculateBestStreak: `p.Date.Date.AddDays(1)` (HabitService.cs:186) throws for a record dated 9999-12-31. The model computes the day after without a bound.
- AchievementService.CalculateCurrentStreak: `currentDate.AddDays(-streak)` (AchievementService.cs:174) throws when the streak reaches back past 0001-01-01. The model's day numbers are not bounded below.
- Record values come as integers of any size. The range 0..100 is only assumed where a lemma says so (`ValidValues`).

## Findings

| source | as written | input that shows it | evidently intended | confidence | as-written member | corrected member |
|---|---|---|---|---|---|---|
| IslamicHabitTracker/Services/HabitService.cs:167-185 | A record on the expected day that is not completed matches neither branch and leaves the running count unchanged. `daysDiff` is measured from the day after the previous record, so one missing day counts as no gap. | completed records on days d and d+2, with or without an incomplete record on d+1 | the best streak is the longest run of consecutive days that each have a completed record; here 1 | high; not executed | HabitFindings.IncompleteDayKeepsStreak, HabitFindings.OneMissingDayKeepsStreak | HabitFindings.CorrectedBestStreakSound, HabitFindings.CorrectedBestStreakMaximal |
| IslamicHabitTracker/Services/HabitService.cs:109-118 | `totalDays` truncates the raw span between the window ends, time of day included. The records are fetched by calendar day. | window 23:00 on day 0 to 01:00 on day 1, completed records on days 0 and 1 | the number of calendar days in the window, so the rate stays at most 100; here 2 days and 100 | medium; not executed | HabitFindings.CompletionRateOver100 | HabitFindings.CorrectedRateAtMost100 |

Both quirks are kept in `HabitService` as written, because the model follows the code. The corrected definitions sit beside them in `habit_findings.dfy`, with the intended properties proved.
