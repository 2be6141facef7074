# MedTrack dose scheduling and adherence, in Dafny

This project models the logic at the centre of the MedTrack mobile app, which tracks medications. It covers:

- how a list of medications expands into the day's dose schedule;
- the dose log, which the screens mark taken or skipped;
- the adherence statistics: per-day counts and rate, the current and longest streak, the date of the last missed day, the overall rate and the 7-day mean;
- the dose status the log screen derives and its date stepping;
- the bounded date-format cache and the call throttle;
- the colour bands of the calendar heatmap and its grouping of days into weeks;
- the rows and figures of the exported report.

One Dafny module corresponds to each source file:

| module | source |
|---|---|
| `ScheduleBuilder` | `src/utils/scheduleBuilder.ts` |
| `DoseLogStore` | `src/hooks/useDoseLog.ts` |
| `Statistics` | `src/screens/StatisticsScreen.tsx` |
| `DoseLogScreen` | `src/screens/DoseLogScreen.tsx` |
| `Performance` | `src/utils/performance.ts` |
| `CalendarHeatmap` | `src/components/CalendarHeatmap.tsx` |
| `PdfExport` | `src/utils/pdfExport.ts` |

Five helper modules support them:

- `MedTypes`: the records of `src/types/medication.ts`.
- `Lex`: the host's string order.
- `Rounding`: `Math.round` of a percentage.
- `Calendar`: the civil-date arithmetic and the `YYYY-MM-DD` text form the host's `Date` provides.
- `DoseOrder`: the stable sort by `scheduledTime`.

Code that changes state step by step is modelled with methods and loop invariants:

- the schedule builder's nested loops;
- the by-date grouping and the backward streak scan;
- the week grouping;
- the cache and the throttle, which are classes whose methods update their fields;
- the dose log store, a class whose `logs` map each mutator replaces.

Each of these methods is proved against a specification function. The specification's own properties are proved as lemmas.

Several values are parameters rather than read from the host:

- the clock (`now`, in milliseconds);
- today's date;
- the weekday of a date string;
- the instant of a scheduled-time string;
- the locale's long date form;
- the uncached date formatting.

A string comparison with `<`, `>=` or `localeCompare` is modelled as lexicographic order on characters. Within the fixed-format ISO strings the app uses, the two orders agree.

`Math.round(taken / total * 100)` is modelled as exact round-half-up, `(200 * taken + total) / (2 * total)`.

## Model

| member | source | states |
|---|---|---|
| Lex.Transitive | src/utils/scheduleBuilder.ts:9-10 | string `<` is transitive |
| Lex.Total | src/utils/scheduleBuilder.ts:9-10 | of two different strings one is below the other |
| Lex.Irreflexive | src/utils/scheduleBuilder.ts:9-10 | no string is below itself |
| Rounding.Percent | src/screens/StatisticsScreen.tsx:38 | the result is the integer nearest to 100·taken/total, halves rounded up; it lies within 0..100, is 0 exactly when taken/total < 0.5 %, is 100 exactly when taken/total >= 99.5 %, and is 100 when all are taken |
| Rounding.RoundDivUnique | src/screens/StatisticsScreen.tsx:144 | only one integer is nearest to a/b with halves rounded up, so the bracket in the rate contracts fixes the value `Math.round` gives |
| Calendar.AddDaysAdd | src/screens/DoseLogScreen.tsx:92-96 | stepping a date by a days and then by b days steps it by a + b |
| Calendar.PrevNext | src/screens/DoseLogScreen.tsx:83-84 | the day before the day after a date is that date |
| Calendar.ParseFormat | src/screens/DoseLogScreen.tsx:95 | a date with a four-digit year formats to text that parses back to it |
| Calendar.FormatParse | src/screens/DoseLogScreen.tsx:93 | any text that parses as a date is the formatted form of that date |
| Calendar.FormatInjective | src/screens/DoseLogScreen.tsx:86-87 | two different dates with four-digit years have different text forms |
| DoseOrder.Sort | src/utils/scheduleBuilder.ts:30 | the sort returns a permutation of its input, ordered by `scheduledTime`, with entries of equal time in input order (stable) |
| DoseOrder.SortUnique | src/utils/scheduleBuilder.ts:30 | a sorted sequence holding, for every scheduled time, exactly the input's entries of that time in input order is the sort's result: the stable sort is unique |
| ScheduleBuilder.TimesForFrequency | src/utils/scheduleBuilder.ts:33-50 | non-empty custom times are used unchanged. Otherwise the defaults are: 08:00 for daily and weekly; 08:00 and 20:00 for twice-daily; 08:00, 14:00 and 20:00 for three-times-daily; none for as-needed. The defaults are in ascending order |
| ScheduleBuilder.MedicationDoses | src/utils/scheduleBuilder.ts:8-26 | a medication contributes one dose per time if it is active, not ended before the date and not starting after it, and none otherwise |
| ScheduleBuilder.BuildDailySchedule | src/utils/scheduleBuilder.ts:4-31 | the schedule has one dose per time of each scheduled medication; it holds exactly the doses those medications contribute, is ordered by scheduled time, and is the stable sort of the generated doses |
| ScheduleBuilder.GeneratedMembers | src/utils/scheduleBuilder.ts:7-27 | a dose is generated exactly when some scheduled medication contributes it at one of its times |
| ScheduleBuilder.GeneratedLength | src/utils/scheduleBuilder.ts:7-27 | the number of generated doses is the sum of time counts over the scheduled medications |
| ScheduleBuilder.UnscheduledContributesNothing | src/utils/scheduleBuilder.ts:8-10 | removing an inactive, ended or not-yet-started medication leaves the schedule unchanged |
| ScheduleBuilder.GeneratedConcat | src/utils/scheduleBuilder.ts:7-27 | the doses of two medication lists concatenated are the doses of each list, in list order |
| ScheduleBuilder.SortOfSorted | src/utils/scheduleBuilder.ts:30 | sorting an already sorted schedule changes nothing |
| ScheduleBuilder.TwiceDailyExample | src/utils/scheduleBuilder.ts:12-30 | a twice-daily medication with times 08:00 and 20:00 yields its 08:00 dose and then its 20:00 dose, with the literal scheduled times |
| ScheduleBuilder.ShouldTakeOnDate | src/utils/scheduleBuilder.ts:53-59 | true for every non-weekly medication; for a weekly one, true exactly when the date's weekday is the start date's |
| ScheduleBuilder.ShouldTakeOnStartDate | src/utils/scheduleBuilder.ts:53-59 | a medication with a readable start date is due on its start date |
| ScheduleBuilder.InRange | src/utils/scheduleBuilder.ts:67 | keeps exactly the logs dated within the inclusive range, each as many times as it occurs in the input |
| ScheduleBuilder.CalculateAdherence | src/utils/scheduleBuilder.ts:62-72 | 0 when no log is in range. Otherwise it is the integer nearest to 100·taken/in-range, halves rounded up, within 0..100, and 100 when every in-range log is taken |
| ScheduleBuilder.AdherenceExample | src/utils/scheduleBuilder.ts:62-72 | three taken logs out of four in range give 75 |
| ScheduleBuilder.GetUpcomingDoses | src/utils/scheduleBuilder.ts:75-84 | an order-preserving subsequence holding exactly the open doses whose instant lies within the next `spanMs` milliseconds (`hoursAhead` hours), each as many times as it occurs in the input |
| DoseLogStore.MarkTakenIn | src/hooks/useDoseLog.ts:17-21 | the bucket keeps its length and order; matching entries become taken at `now` and not skipped, and all other entries are unchanged |
| DoseLogStore.MarkSkippedIn | src/hooks/useDoseLog.ts:28-32 | the bucket keeps its length and order; matching entries become skipped with no taken instant, and all other entries are unchanged |
| DoseLogStore.MarkUnknownId | src/hooks/useDoseLog.ts:17-21 | an id no entry carries leaves the bucket as it was |
| DoseLogStore.SkipAfterTake | src/hooks/useDoseLog.ts:17-32 | skipping after taking is the same as skipping alone |
| DoseLogStore.TakeAfterSkip | src/hooks/useDoseLog.ts:17-32 | taking after skipping is the same as taking alone |
| DoseLogStore.TakeAfterTake | src/hooks/useDoseLog.ts:19 | a second take keeps only the later instant |
| DoseLogStore.MarkTakenCount | src/hooks/useDoseLog.ts:14-23 | marking taken never lowers the taken count, and leaves at least one taken entry when the id is present |
| DoseLogStore.AddThenTake | src/hooks/useDoseLog.ts:14-41 | adding a fresh entry and marking it taken leaves it taken at the end of the bucket |
| DoseLogStore.Store.constructor | src/hooks/useDoseLog.ts:7 | the store starts with no buckets |
| DoseLogStore.Store.GetDosesForDate | src/hooks/useDoseLog.ts:9-12 | the bucket of the date, or the empty bucket for a date never logged |
| DoseLogStore.Store.MarkTaken | src/hooks/useDoseLog.ts:14-23 | replaces only the date's bucket with the marked bucket; a missing bucket is created empty; other buckets are unchanged |
| DoseLogStore.Store.MarkSkipped | src/hooks/useDoseLog.ts:25-34 | the same for a skip |
| DoseLogStore.Store.AddDoseEntry | src/hooks/useDoseLog.ts:36-41 | appends the entry at the end of its date's bucket, creating it if absent; other buckets are unchanged |
| Statistics.GroupByDate | src/screens/StatisticsScreen.tsx:21-24 | the map's keys are the logged dates, and each bucket holds exactly that date's logs |
| Statistics.LogsOnMultiplicity | src/screens/StatisticsScreen.tsx:21-24 | a log occurs in its date's bucket as many times as in the logs, and in no other bucket |
| Statistics.LogsOnInOrder | src/screens/StatisticsScreen.tsx:21-24 | a date's bucket keeps the logs in input order |
| Statistics.LogsOnPartition | src/screens/StatisticsScreen.tsx:21-24 | each log lands in its own date's bucket and in no other |
| Statistics.DayStats | src/screens/StatisticsScreen.tsx:26-40 | total, taken and skipped are counted from the day's logs. Missed is total − taken − skipped when that is positive, else 0. The rate is the integer nearest to 100·taken/total, halves rounded up, within 0..100, and 0 without doses. The day qualifies exactly when 200·taken >= 199·total |
| Statistics.TakenAndSkipped | src/screens/StatisticsScreen.tsx:29-37 | a log both taken and skipped counts in both tallies and is not missed |
| Statistics.Window | src/screens/StatisticsScreen.tsx:43-53 | n consecutive days ending today, each well formed and dated in order |
| Statistics.Last7InLast30 | src/screens/StatisticsScreen.tsx:43-53 | the 7-day window is the last seven days of the 30-day window |
| Statistics.Trailing | src/screens/StatisticsScreen.tsx:61-69 | the length of the longest all-qualifying suffix of the window |
| Statistics.LastMissed | src/screens/StatisticsScreen.tsx:70 | none exactly when no day misses; otherwise the date of the most recent missed day |
| Statistics.LongestIsUpperBound | src/screens/StatisticsScreen.tsx:63-75 | no run of days free of misses holds more qualifying days than the longest streak |
| Statistics.LongestIsAttained | src/screens/StatisticsScreen.tsx:63-75 | some run of days free of misses holds exactly the longest streak's number of qualifying days |
| Statistics.LongestBound | src/screens/StatisticsScreen.tsx:71-75 | the longest streak is no longer than the window |
| Statistics.TrailingAtMostLongest | src/screens/StatisticsScreen.tsx:61-75 | the current streak never exceeds the longest |
| Statistics.ZeroDayNeutral | src/screens/StatisticsScreen.tsx:63 | inserting a day without doses changes neither the longest streak nor the last missed date |
| Statistics.ZeroDayEndsCurrentStreak | src/screens/StatisticsScreen.tsx:66 | a trailing day without doses makes the current streak 0 |
| Statistics.ComputeStreak | src/screens/StatisticsScreen.tsx:55-75 | the backward scan yields the current streak, the longest streak and the last missed date as defined above, with current <= longest |
| Statistics.OverallRate | src/screens/StatisticsScreen.tsx:77-79 | the integer nearest to 100·taken/logs, halves rounded up. It lies within 0..100, is 0 for no logs or below 0.5 % taken, and is 100 exactly when at least 99.5 % are taken |
| Statistics.OverallIsRangeAdherence | src/screens/StatisticsScreen.tsx:77-79 | over logs all dated in a range, the overall rate equals the range adherence of the schedule builder |
| Statistics.DaysWithDoses | src/screens/StatisticsScreen.tsx:142 | keeps exactly the days with doses, each as many times as it occurs |
| Statistics.Last7Rate | src/screens/StatisticsScreen.tsx:141-145 | 0 when no day had doses; otherwise the integer nearest to the mean of those days' rates, halves rounded up |
| Statistics.Last7RateBounds | src/screens/StatisticsScreen.tsx:141-145 | the 7-day mean is within 0..100, 0 when no day had doses, and 100 when every day with doses is at 100 |
| Statistics.ComputeStats | src/screens/StatisticsScreen.tsx:15-87 | the 7- and 30-day windows, the streak fields of the 30-day window with current <= longest <= 30, and the overall rate |
| DoseLogScreen.GetDoseStatus | src/screens/DoseLogScreen.tsx:20-26 | taken whenever a taken instant is set; else skipped when flagged; else missed exactly when the scheduled instant is before now; else pending |
| DoseLogScreen.OfferedMeansOpen | src/screens/DoseLogScreen.tsx:65 | a dose offering the Taken and Skip actions is neither taken nor skipped and not yet due |
| DoseLogScreen.MarkedStatus | src/screens/DoseLogScreen.tsx:20-26 | an entry the store marks taken shows as taken and one it marks skipped shows as skipped, at any clock reading |
| DoseLogScreen.SummaryTakenIsCountTaken | src/screens/DoseLogScreen.tsx:105 | the summary's taken count is the number of entries with a taken instant |
| DoseLogScreen.SummaryAdherence | src/screens/DoseLogScreen.tsx:105-107 | the summary percentage is within 0..100 and equals the statistics' overall rate of the shown doses |
| DoseLogScreen.AddDays | src/screens/DoseLogScreen.tsx:92-96 | fails exactly on text that is not a `YYYY-MM-DD` calendar date |
| DoseLogScreen.AddDaysZero | src/screens/DoseLogScreen.tsx:92-96 | stepping by zero days gives the date back |
| DoseLogScreen.AddDaysCompose | src/screens/DoseLogScreen.tsx:92-96 | two steps add up |
| DoseLogScreen.ForwardThenBack | src/screens/DoseLogScreen.tsx:113-117 | the next-day arrow followed by the previous-day arrow returns to the shown date |
| DoseLogScreen.FormatDisplayDate | src/screens/DoseLogScreen.tsx:80-90 | "Today" on today's date, "Yesterday" on the day before, the long form otherwise |
| DoseLogScreen.DisplayDateIff | src/screens/DoseLogScreen.tsx:80-90 | the label is "Today" exactly on today's date and "Yesterday" exactly on the day before |
| Performance.StepDistinct | src/utils/performance.ts:44-50 | a lookup keeps the cached keys distinct, and a miss leaves the looked-up key newest |
| Performance.RunBound | src/utils/performance.ts:44-50 | without the empty string among keys, the cache never holds more than 501 entries |
| Performance.RunFills | src/utils/performance.ts:44-50 | up to 501 distinct dates are all kept, in order |
| Performance.FifoEviction | src/utils/performance.ts:44-50 | the 502nd distinct date evicts the first one inserted |
| Performance.EmptyOldestKeyGrows | src/utils/performance.ts:46-47 | with the empty string as the oldest key nothing is ever evicted |
| Performance.DateCache.constructor | src/utils/performance.ts:29 | the cache starts empty and consistent |
| Performance.DateCache.FormatDate | src/utils/performance.ts:31-52 | the result is always the uncached formatting; the key order follows the FIFO step; a hit changes nothing; the cache stays consistent |
| Performance.ForwardedSpaced | src/utils/performance.ts:59-65 | forwarded calls are at least the limit apart, the first at least the limit after the starting instant |
| Performance.Throttle.CallEach | src/utils/performance.ts:59-65 | a run of calls through the wrapper forwards exactly the instants `Forwarded` lists, which ties the spacing of ForwardedSpaced to the wrapper |
| Performance.ThrottleExamples | src/utils/performance.ts:59-65 | with a 200 ms limit, repeated calls at one instant forward only the first; a call 250 ms later is forwarded; a call before 200 ms after the epoch is dropped |
| Performance.Throttle.constructor | src/utils/performance.ts:59 | the last forwarded call starts at instant 0 |
| Performance.Throttle.Call | src/utils/performance.ts:60-65 | forwards exactly when the limit has passed since the last forwarded call, and only then moves that instant |
| CalendarHeatmap.GetHeatColor | src/components/CalendarHeatmap.tsx:10-17 | grey exactly without data; with data red at 0, light red below 50, yellow below 80, light green below 100, green from 100 |
| CalendarHeatmap.CellColorMatchesStreak | src/components/CalendarHeatmap.tsx:92 | a day's cell is green exactly when it counts toward a streak, grey exactly when it had no doses |
| CalendarHeatmap.LegendDistinct | src/components/CalendarHeatmap.tsx:68-70 | the legend's 0, 50, 80 and 100 % entries show four different colours |
| CalendarHeatmap.GroupWeeks | src/components/CalendarHeatmap.tsx:22-53 | every row has seven cells; read row by row they are the first day's weekday in blanks, every day once in order, then fewer than seven blanks; the row count is that total over seven, rounded up; no days give no rows |
| CalendarHeatmap.FillLastWeek | src/components/CalendarHeatmap.tsx:44-50 | pads an unfinished last row to seven cells and appends it, dropping an empty one |
| CalendarHeatmap.DayPosition | src/components/CalendarHeatmap.tsx:28-42 | day i sits in row (pad + i) / 7, column (pad + i) % 7 |
| PdfExport.ReportRateMatchesStatistics | src/utils/pdfExport.ts:20-23 | the report's adherence figure equals the statistics screen's overall rate |
| PdfExport.RateColor | src/utils/pdfExport.ts:93 | the figure is green from 80 % and amber below |
| PdfExport.ActiveCount | src/utils/pdfExport.ts:85 | the active-medications figure is at most the number of medications, and 0 exactly when none is active |
| PdfExport.ActiveCountIndices | src/utils/pdfExport.ts:85 | the figure is the number of list positions holding an active medication, so a medication listed twice counts twice |
| PdfExport.AllActive | src/utils/pdfExport.ts:85 | the figure equals the number of medications exactly when all are active |
| PdfExport.TotalDosesByStatus | src/utils/pdfExport.ts:89 | the total-doses figure is the number of logs whose report status is taken, plus skipped, plus missed; none is pending. The taken ones are exactly the entries the adherence figure counts |
| PdfExport.FrequencyCell | src/utils/pdfExport.ts:31 | the frequency cell has the stored name's length and no dash |
| PdfExport.ReplaceDashes | src/utils/pdfExport.ts:31 | every '-' becomes a space and every other character is kept |
| PdfExport.FrequencyCells | src/utils/pdfExport.ts:31 | twice-daily shows as "twice daily" |
| PdfExport.JoinEmpty | src/utils/pdfExport.ts:32 | the joined times are empty exactly for no times or one empty time |
| PdfExport.JoinLength | src/utils/pdfExport.ts:32 | the joined text holds every time plus two characters per separator |
| PdfExport.TimesCellAsNeeded | src/utils/pdfExport.ts:32 | "As needed" for no times or one empty time, the joined times otherwise |
| PdfExport.LastEntries | src/utils/pdfExport.ts:39 | the last 50 entries, or all when fewer, as a suffix of the logs |
| PdfExport.HistoryRows | src/utils/pdfExport.ts:38-40 | at most 50 rows, latest scheduled time first, a permutation of the last 50 entries, all drawn from the logs. Entries with equal scheduled times keep their logged order (stable sort) |
| PdfExport.OlderEntriesDropped | src/utils/pdfExport.ts:39 | an entry before the last 50 is not shown unless an equal entry is among them |
| PdfExport.ReportStatus | src/utils/pdfExport.ts:42 | taken when a taken instant is set, else skipped when flagged, else missed; never pending |
| PdfExport.ReportStatusAgrees | src/utils/pdfExport.ts:42 | agrees with the log screen's status except that a pending dose shows as missed |
| PdfExport.StatusColor | src/utils/pdfExport.ts:43 | green, amber and red exactly for taken, skipped and missed |

## Left out

- Rendering, styles and navigation are not modelled. This covers the JSX of the screens and components, the bar chart, the month label of the heatmap, and the status colours and labels of the dose log screen.
- Persistence is not modelled: the WatermelonDB and SQLite repository and models.
- Notifications and health-platform calls are not modelled.
- The end-to-end device tests are not modelled.
- `runAfterInteractions` and `suggestGarbageCollection` are left out. They are host scheduling and garbage-collection hooks.
- React state mechanics are left out: `useState`, `useCallback`, `useMemo` and re-rendering. Only the state transitions themselves are modelled.
- The report's HTML text and the asynchronous share call are left out. The medication name, dosage and status-label cells of the report are plain interpolation and are not modelled.
- The clock, time zone and locale are parameters, not modelled:
  - the UTC shift of `toISOString` from local noon in `addDays`, which can move a date in UTC+13 and UTC+14;
  - the `today` parameter of Statistics.ComputeStats, Statistics.Window and DoseLogScreen.FormatDisplayDate: it stands for the UTC date of the current instant, which is what `new Date().toISOString()` gives. That date differs from the local date the logs carry for several hours of every day in any zone other than UTC. In those hours the 7- and 30-day windows end one day off the local date, and so do the "Today" and "Yesterday" labels. The model takes the UTC date as given and does not capture this shift;
  - daylight-saving changes that move the local `setDate` steps of the windows across a UTC date boundary;
  - `getDay`;
  - `toLocaleDateString`.
- Floating-point rounding is not modelled. At exact half-percent ties the host's double arithmetic can round down (29 of 200 gives 14); the model rounds half up exactly.
- ICU collation in `localeCompare` is not modelled. Strings are compared character by character.
- Calendar.Parse reads only the strict `YYYY-MM-DD` form with a real calendar day. The host's lenient parsing of other text, such as day overflow and extended years, is not modelled. AddDaysCompose and ForwardThenBack therefore require that the intermediate date keeps a four-digit year.
- The streak follows the code, not its comment. The comment says a day without doses does not break a streak. That holds for the longest streak and the last missed date (ZeroDayNeutral). The current streak, however, follows the index test in the code: it is the longest all-qualifying suffix, so a trailing day without doses ends it (ZeroDayEndsCurrentStreak).
- Performance.DateCache.FormatDate: the uncached formatting is a parameter. The cache is modelled as its key order plus a map, not as a host `Map` object.
- DoseLogStore.Store.MarkTaken: `Date.now()` is the parameter `now`.
- DoseLogScreen.GetDoseStatus and ScheduleBuilder.GetUpcomingDoses: the reading of a scheduled-time string as an instant is a parameter, and an unreadable one counts as invalid.
- ScheduleBuilder.GetUpcomingDoses takes the window as `spanMs`, so that `now + spanMs` is the cutoff the `Date` constructor makes of `now + hoursAhead * 3600000`, truncated to whole milliseconds. Fractional hours are covered that way. The floating-point product, its truncation and a non-finite `hoursAhead` (an invalid cutoff) are left to the caller.
- CalendarHeatmap.GroupWeeks: the weekday of the first date is a parameter. Its column claim (DayPosition) assumes the days are consecutive, which the caller supplies.
- PdfExport.FrequencyCells: only the twice-daily cell is worked out as an example. The others follow from PdfExport.ReplaceDashes.
