/** The adherence analytics of the statistics screen: logs grouped by date,
    per-day counts and rate over the last 7 and 30 days, the streak scan
    over the 30-day window, the overall rate and the 7-day mean rate. */
module Statistics {
  import opened MedTypes
  import Lex
  import Rounding
  import Calendar
  import ScheduleBuilder
  import DoseLogStore

  // ---------------------------------------------------------------------
  // Grouping by date

  /** The dates the logs carry. */
  function Dates(logs: seq<DoseLog>): (r: set<string>)
    ensures forall d :: d in r <==> exists i :: 0 <= i < |logs| && logs[i].date == d
  {
    if logs == [] then {}
    else
      var init := logs[..|logs| - 1];
      var r := Dates(init) + {logs[|logs| - 1].date};
      assert forall i :: 0 <= i < |init| ==> init[i] == logs[i];
      r
  }

  /** The logs dated `date`, in log order. */
  function LogsOn(logs: seq<DoseLog>, date: string): (r: seq<DoseLog>)
    ensures forall x :: x in r <==> x in logs && x.date == date
    ensures |r| <= |logs|
  {
    if logs == [] then []
    else
      var init, last := logs[..|logs| - 1], logs[|logs| - 1];
      assert logs == init + [last];
      LogsOn(init, date) + (if last.date == date then [last] else [])
  }

  /** A log occurs in its date's bucket as often as in the logs, and in no
      other bucket. */
  lemma {:induction false} LogsOnMultiplicity(logs: seq<DoseLog>, date: string)
    ensures forall x :: multiset(LogsOn(logs, date))[x] == (if x.date == date then multiset(logs)[x] else 0)
  {
    if logs != [] {
      var init, last := logs[..|logs| - 1], logs[|logs| - 1];
      assert logs == init + [last];
      LogsOnMultiplicity(init, date);
    }
  }

  /** The bucket of a date keeps the order the logs came in. */
  lemma {:induction false} LogsOnInOrder(logs: seq<DoseLog>, date: string)
    ensures ScheduleBuilder.IsSubsequence(LogsOn(logs, date), logs)
  {
    if logs == [] {
      ScheduleBuilder.EmptySubsequence(logs);
    } else {
      var init, last := logs[..|logs| - 1], logs[|logs| - 1];
      assert logs == init + [last];
      var kept := LogsOn(init, date);
      LogsOnInOrder(init, date);
      ScheduleBuilder.SubsequenceSnoc(kept, init, last);
      if last.date == date {
        assert LogsOn(logs, date) == kept + [last];
      } else {
        assert LogsOn(logs, date) == kept;
      }
    }
  }

  /** Every log is in the bucket of its own date and of no other. */
  lemma LogsOnPartition(logs: seq<DoseLog>, i: nat, date: string)
    requires i < |logs|
    ensures logs[i] in LogsOn(logs, logs[i].date)
    ensures date != logs[i].date ==> logs[i] !in LogsOn(logs, date)
  {
  }

  /** Builds the date-keyed buckets by appending each log to the bucket of
      its date. */
  method GroupByDate(logs: seq<DoseLog>) returns (byDate: map<string, seq<DoseLog>>)
    ensures byDate.Keys == Dates(logs)
    ensures forall date :: DoseLogStore.Bucket(byDate, date) == LogsOn(logs, date)
  {
    byDate := map[];
    for i := 0 to |logs|
      invariant byDate.Keys == Dates(logs[..i])
      invariant forall date :: DoseLogStore.Bucket(byDate, date) == LogsOn(logs[..i], date)
    {
      var log := logs[i];
      assert logs[..i + 1][..i] == logs[..i];
      byDate := byDate[log.date := DoseLogStore.Bucket(byDate, log.date) + [log]];
    }
    assert logs[..|logs|] == logs;
  }

  // ---------------------------------------------------------------------
  // One day

  /** The counts of one day: `taken` counts the logs with a taken instant,
      `skipped` those flagged skipped (a log may be both), `missed` is what
      is left, never below 0, and the rate is the rounded percentage taken,
      0 for a day without doses. */
  function DayStats(dayLogs: seq<DoseLog>, date: string): (r: DailyStats)
    ensures r.date == date && r.total == |dayLogs|
    ensures r.taken == CountTaken(dayLogs) && r.skipped == CountSkipped(dayLogs)
    ensures r.missed == if r.taken + r.skipped < r.total then r.total - r.taken - r.skipped else 0
    ensures r.total > 0 ==> Rounding.Nearest(r.adherenceRate, 100 * r.taken, r.total)
    ensures WellFormed(r)
    ensures r.taken + r.skipped + r.missed >= r.total
    ensures r.taken + r.skipped <= r.total ==> r.taken + r.skipped + r.missed == r.total
    ensures Qualifies(r) <==> dayLogs != [] && 200 * CountTaken(dayLogs) >= 199 * |dayLogs|
    ensures dayLogs != [] && CountTaken(dayLogs) == |dayLogs| ==> Qualifies(r)
  {
    var total := |dayLogs|;
    var taken := CountTaken(dayLogs);
    var skipped := CountSkipped(dayLogs);
    var missed := total - taken - skipped;
    DailyStats(date, total, taken, skipped, if missed > 0 then missed else 0,
               if total > 0 then Rounding.Percent(taken, total) else 0)
  }

  /** What every day the screen computes satisfies. */
  predicate WellFormed(d: DailyStats) {
    && d.taken <= d.total
    && d.skipped <= d.total
    && d.missed <= d.total
    && d.adherenceRate <= 100
    && (d.total == 0 ==> d.adherenceRate == 0)
  }

  /** A log both taken and skipped is counted in both tallies, and then
      nothing is missed. */
  lemma TakenAndSkipped(log: DoseLog, date: string)
    requires log.takenAt.Some? && log.skipped
    ensures DayStats([log], date).taken == 1 && DayStats([log], date).skipped == 1
    ensures DayStats([log], date).missed == 0
  {
    assert [log][1..] == [];
  }

  // ---------------------------------------------------------------------
  // The windows

  /** The date `n - 1 - i` days before `today`: position `i` of an
      `n`-day window that ends today. */
  function WindowDate(today: Calendar.ValidDate, n: nat, i: nat): string
    requires i < n
  {
    Calendar.Format(Calendar.AddDays(today, i - (n - 1)))
  }

  /** The stats of the `n` days ending today, oldest first. `today` is the
      UTC date of the current instant, as `toISOString` gives it. */
  function Window(logs: seq<DoseLog>, today: Calendar.ValidDate, n: nat): (r: seq<DailyStats>)
    ensures |r| == n
    ensures forall i :: 0 <= i < n ==> WellFormed(r[i]) && r[i].date == WindowDate(today, n, i)
    ensures n > 0 ==> r[n - 1].date == Calendar.Format(today)
  {
    seq(n, i requires 0 <= i < n => DayStats(LogsOn(logs, WindowDate(today, n, i)), WindowDate(today, n, i)))
  }

  /** The 7-day window is the tail of the 30-day window. */
  lemma Last7InLast30(logs: seq<DoseLog>, today: Calendar.ValidDate)
    ensures Window(logs, today, 7) == Window(logs, today, 30)[23..]
  {
    var w7, w30 := Window(logs, today, 7), Window(logs, today, 30);
    forall i | 0 <= i < 7 ensures w7[i] == w30[23..][i] {
      assert WindowDate(today, 7, i) == WindowDate(today, 30, i + 23);
    }
  }

  // ---------------------------------------------------------------------
  // The streak scan

  /** A day with doses, all of them (after rounding) taken. */
  predicate Qualifies(d: DailyStats) {
    d.total > 0 && d.adherenceRate == 100
  }

  /** A day with doses that falls short of 100. */
  predicate Misses(d: DailyStats) {
    d.total > 0 && d.adherenceRate != 100
  }

  function Max(a: nat, b: nat): nat {
    if a >= b then a else b
  }

  /** The length of the longest suffix of `s` in which every day
      qualifies. */
  function Trailing(s: seq<DailyStats>): (r: nat)
    ensures r <= |s|
    ensures forall j :: |s| - r <= j < |s| ==> Qualifies(s[j])
    ensures r < |s| ==> !Qualifies(s[|s| - 1 - r])
  {
    if s == [] then 0
    else
      var rest := Trailing(s[1..]);
      if Qualifies(s[0]) && rest == |s| - 1 then |s| else rest
  }

  /** The number of qualifying days before the first missed one. */
  function Front(s: seq<DailyStats>): (r: nat)
    ensures r <= |s|
  {
    if s == [] then 0
    else if Misses(s[0]) then 0
    else (if Qualifies(s[0]) then 1 else 0) + Front(s[1..])
  }

  /** The best run closed by a missed day. */
  function Best(s: seq<DailyStats>): nat {
    if s == [] then 0
    else if Misses(s[0]) then Max(Best(s[1..]), Front(s[1..]))
    else Best(s[1..])
  }

  /** The longest run of qualifying days not interrupted by a missed day. */
  function Longest(s: seq<DailyStats>): nat {
    Max(Best(s), Front(s))
  }

  /** The date of the most recent missed day, if any. */
  function LastMissed(s: seq<DailyStats>): (r: Option<string>)
    ensures r.None? <==> forall j :: 0 <= j < |s| ==> !Misses(s[j])
    ensures r.Some? ==>
      exists j :: 0 <= j < |s| && Misses(s[j]) && s[j].date == r.value && forall k :: j < k < |s| ==> !Misses(s[k])
  {
    if s == [] then None
    else
      var rest := LastMissed(s[1..]);
      assert forall j :: 0 < j < |s| ==> s[j] == s[1..][j - 1];
      if rest.Some? then rest
      else if Misses(s[0]) then Some(s[0].date)
      else None
  }

  /** Number of qualifying days. */
  function CountQualifying(s: seq<DailyStats>): (r: nat)
    ensures r <= |s|
  {
    if s == [] then 0 else (if Qualifies(s[0]) then 1 else 0) + CountQualifying(s[1..])
  }

  predicate NoMiss(s: seq<DailyStats>) {
    forall j :: 0 <= j < |s| ==> !Misses(s[j])
  }

  lemma {:induction false} CountQualifyingAll(s: seq<DailyStats>)
    requires forall j :: 0 <= j < |s| ==> Qualifies(s[j])
    ensures CountQualifying(s) == |s|
  {
    if s != [] {
      CountQualifyingAll(s[1..]);
    }
  }

  lemma {:induction false} FrontBound(s: seq<DailyStats>, b: nat)
    requires b <= |s| && NoMiss(s[..b])
    ensures CountQualifying(s[..b]) <= Front(s)
  {
    if b > 0 {
      assert s[..b][0] == s[0];
      assert s[..b][1..] == s[1..][..b - 1];
      FrontBound(s[1..], b - 1);
    }
  }

  lemma {:induction false} FrontWitness(s: seq<DailyStats>) returns (m: nat)
    ensures m <= |s| && NoMiss(s[..m]) && CountQualifying(s[..m]) == Front(s)
  {
    if s == [] || Misses(s[0]) {
      m := 0;
    } else {
      var m' := FrontWitness(s[1..]);
      m := m' + 1;
      assert s[..m] == [s[0]] + s[1..][..m'];
      assert s[..m][1..] == s[1..][..m'];
    }
  }

  /** Every run of days without a miss holds at most `Longest` qualifying
      days. */
  lemma {:induction false} LongestIsUpperBound(s: seq<DailyStats>, a: nat, b: nat)
    requires a <= b <= |s| && NoMiss(s[a..b])
    ensures CountQualifying(s[a..b]) <= Longest(s)
    decreases a
  {
    if a == 0 {
      assert s[0..b] == s[..b];
      FrontBound(s, b);
    } else {
      assert s[1..][a - 1..b - 1] == s[a..b];
      LongestIsUpperBound(s[1..], a - 1, b - 1);
    }
  }

  /** Some run of days without a miss holds exactly `Longest` qualifying
      days. */
  lemma {:induction false} LongestIsAttained(s: seq<DailyStats>) returns (a: nat, b: nat)
    ensures a <= b <= |s| && NoMiss(s[a..b]) && CountQualifying(s[a..b]) == Longest(s)
  {
    if s == [] {
      a, b := 0, 0;
    } else if Front(s) >= Best(s) {
      var m := FrontWitness(s);
      a, b := 0, m;
      assert s[0..m] == s[..m];
    } else {
      var a', b' := LongestIsAttained(s[1..]);
      a, b := a' + 1, b' + 1;
      assert s[a..b] == s[1..][a'..b'];
    }
  }

  /** No streak is longer than the window. */
  lemma LongestBound(s: seq<DailyStats>)
    ensures Longest(s) <= |s|
  {
    var a, b := LongestIsAttained(s);
    assert |s[a..b]| <= |s|;
  }

  /** The current streak never exceeds the longest one. */
  lemma TrailingAtMostLongest(s: seq<DailyStats>)
    ensures Trailing(s) <= Longest(s)
  {
    var t := Trailing(s);
    var run := s[|s| - t..|s|];
    assert forall j :: 0 <= j < |run| ==> run[j] == s[|s| - t + j];
    CountQualifyingAll(run);
    assert NoMiss(run);
    LongestIsUpperBound(s, |s| - t, |s|);
  }

  /** A day without doses inside the window changes neither the longest
      streak nor the last missed date. */
  lemma {:induction false} ZeroDayNeutral(a: seq<DailyStats>, d: DailyStats, b: seq<DailyStats>)
    requires d.total == 0
    ensures Front(a + [d] + b) == Front(a + b)
    ensures Best(a + [d] + b) == Best(a + b)
    ensures Longest(a + [d] + b) == Longest(a + b)
    ensures LastMissed(a + [d] + b) == LastMissed(a + b)
  {
    if a == [] {
      assert a + [d] + b == [d] + b && a + b == b;
      assert ([d] + b)[1..] == b;
    } else {
      assert (a + [d] + b)[0] == a[0] && (a + b)[0] == a[0];
      assert (a + [d] + b)[1..] == a[1..] + [d] + b;
      assert (a + b)[1..] == a[1..] + b;
      ZeroDayNeutral(a[1..], d, b);
    }
  }

  /** ...but a day without doses at the end of the window ends the current
      streak: the scan counts only an unbroken qualifying suffix. */
  lemma ZeroDayEndsCurrentStreak(s: seq<DailyStats>, d: DailyStats)
    requires d.total == 0
    ensures Trailing(s + [d]) == 0
  {
    assert (s + [d])[|s|] == d;
  }

  /** One step of the backward scan: what the four running values become
      when the day `s[0]` is scanned after `s[1..]`. */
  lemma ScanStep(s: seq<DailyStats>)
    requires s != []
    ensures Trailing(s) == if Qualifies(s[0]) && Trailing(s[1..]) == |s| - 1 then |s| else Trailing(s[1..])
    ensures Front(s) == if Misses(s[0]) then 0 else (if Qualifies(s[0]) then 1 else 0) + Front(s[1..])
    ensures Best(s) == if Misses(s[0]) then Max(Best(s[1..]), Front(s[1..])) else Best(s[1..])
    ensures LastMissed(s) == if LastMissed(s[1..]).Some? then LastMissed(s[1..])
      else if Misses(s[0]) then Some(s[0].date) else None
  {
  }

  /** The days from `i` on are day `i` followed by the days after it. */
  lemma ScanFrom(window: seq<DailyStats>, i: nat, scanned: seq<DailyStats>)
    requires i < |window| && scanned == window[i + 1..]
    ensures [window[i]] + scanned == window[i..]
    ensures ([window[i]] + scanned)[1..] == scanned && ([window[i]] + scanned)[0] == window[i]
  {
  }

  /** The backward scan, most recent day last. */
  method ComputeStreak(window: seq<DailyStats>) returns (streak: AdherenceStreak)
    ensures streak.currentStreak == Trailing(window)
    ensures streak.longestStreak == Longest(window)
    ensures streak.lastMissedDate == LastMissed(window)
    ensures streak.currentStreak <= streak.longestStreak
  {
    var n := |window|;
    var currentStreak, longestStreak, tempStreak := 0, 0, 0;
    var lastMissedDate: Option<string> := None;
    ghost var scanned: seq<DailyStats> := [];
    var i := n - 1;
    while i >= 0
      invariant -1 <= i < n
      invariant scanned == window[i + 1..]
      invariant currentStreak == Trailing(scanned)
      invariant currentStreak == |scanned| ==> tempStreak == currentStreak
      invariant tempStreak == Front(scanned)
      invariant longestStreak == Best(scanned)
      invariant lastMissedDate == LastMissed(scanned)
    {
      var day := window[i];
      ghost var next := [day] + scanned;
      ScanFrom(window, i, scanned);
      ScanStep(next);
      if day.total == 0 {
        scanned := next;
        i := i - 1;
        continue;
      }
      if day.adherenceRate == 100 {
        tempStreak := tempStreak + 1;
        if i >= n - currentStreak - 1 {
          currentStreak := tempStreak;
        }
      } else {
        if lastMissedDate == None {
          lastMissedDate := Some(day.date);
        }
        longestStreak := Max(longestStreak, tempStreak);
        tempStreak := 0;
      }
      scanned := next;
      i := i - 1;
    }
    longestStreak := Max(longestStreak, tempStreak);
    assert window[0..] == window;
    TrailingAtMostLongest(window);
    streak := AdherenceStreak(currentStreak, longestStreak, lastMissedDate);
  }

  // ---------------------------------------------------------------------
  // Rates

  /** The percentage of all logs that were taken, 0 without logs. */
  function OverallRate(logs: seq<DoseLog>): (r: nat)
    ensures logs != [] ==> Rounding.Nearest(r, 100 * CountTaken(logs), |logs|)
    ensures r <= 100
    ensures r == 0 <==> logs == [] || 200 * CountTaken(logs) < |logs|
    ensures r == 100 <==> logs != [] && 200 * CountTaken(logs) >= 199 * |logs|
    ensures logs != [] && CountTaken(logs) == |logs| ==> r == 100
  {
    if |logs| > 0 then Rounding.Percent(CountTaken(logs), |logs|) else 0
  }

  /** Over logs all dated inside a range, the overall rate is the
      adherence over that range. */
  lemma OverallIsRangeAdherence(logs: seq<DoseLog>, startDate: string, endDate: string)
    requires forall i :: 0 <= i < |logs| ==>
      Lex.LessEq(startDate, logs[i].date) && Lex.LessEq(logs[i].date, endDate)
    ensures OverallRate(logs) == ScheduleBuilder.CalculateAdherence(logs, startDate, endDate)
  {
    ScheduleBuilder.InRangeAll(logs, startDate, endDate);
  }

  /** The days that had doses. */
  function DaysWithDoses(days: seq<DailyStats>): (r: seq<DailyStats>)
    ensures |r| <= |days|
    ensures forall x :: x in r <==> x in days && x.total > 0
    ensures forall x :: multiset(r)[x] == (if x.total > 0 then multiset(days)[x] else 0)
  {
    if days == [] then []
    else
      assert days == [days[0]] + days[1..];
      (if days[0].total > 0 then [days[0]] else []) + DaysWithDoses(days[1..])
  }

  function SumRates(days: seq<DailyStats>): nat {
    if days == [] then 0 else days[0].adherenceRate + SumRates(days[1..])
  }

  /** The rounded mean rate over the days that had doses, 0 when none
      did. */
  function Last7Rate(days: seq<DailyStats>): (r: nat)
    ensures DaysWithDoses(days) == [] ==> r == 0
    ensures DaysWithDoses(days) != [] ==>
      Rounding.Nearest(r, SumRates(DaysWithDoses(days)), |DaysWithDoses(days)|)
  {
    var valid := DaysWithDoses(days);
    if |valid| == 0 then 0 else Rounding.RoundDiv(SumRates(valid), |valid|)
  }

  lemma {:induction false} SumRatesBound(days: seq<DailyStats>)
    requires forall x :: x in days ==> x.adherenceRate <= 100
    ensures SumRates(days) <= 100 * |days|
    ensures (forall x :: x in days ==> x.adherenceRate == 100) ==> SumRates(days) == 100 * |days|
  {
    if days != [] {
      SumRatesBound(days[1..]);
    }
  }

  /** On well-formed days the mean rate is a percentage, and it is 100
      when every day with doses had rate 100. */
  lemma Last7RateBounds(days: seq<DailyStats>)
    requires forall x :: x in days ==> WellFormed(x)
    ensures Last7Rate(days) <= 100
    ensures DaysWithDoses(days) != [] && (forall x :: x in days && x.total > 0 ==> x.adherenceRate == 100)
      ==> Last7Rate(days) == 100
  {
    var valid := DaysWithDoses(days);
    if valid != [] {
      assert forall x :: x in valid ==> x.adherenceRate <= 100;
      SumRatesBound(valid);
      Rounding.RoundMeanFacts(SumRates(valid), |valid|, 100, Last7Rate(days));
    }
  }

  // ---------------------------------------------------------------------
  // The whole computation

  datatype Stats = Stats(
    last7Days: seq<DailyStats>,
    last30Days: seq<DailyStats>,
    streak: AdherenceStreak,
    overallRate: nat)

  /** The `n` days ending `today`, each read from its bucket of `byDate`. */
  function GroupedWindow(byDate: map<string, seq<DoseLog>>, today: Calendar.ValidDate, n: nat): seq<DailyStats> {
    seq(n, i requires 0 <= i < n =>
      DayStats(DoseLogStore.Bucket(byDate, WindowDate(today, n, i)), WindowDate(today, n, i)))
  }

  /** Read from the grouped logs, the window is the window of the logs. */
  lemma GroupedWindowIsWindow(byDate: map<string, seq<DoseLog>>, logs: seq<DoseLog>, today: Calendar.ValidDate, n: nat)
    requires forall date :: DoseLogStore.Bucket(byDate, date) == LogsOn(logs, date)
    ensures GroupedWindow(byDate, today, n) == Window(logs, today, n)
  {
  }

  /** Groups the logs, computes the 7- and 30-day windows ending `today`,
      scans the 30-day window for streaks and computes the overall rate. */
  method ComputeStats(logs: seq<DoseLog>, today: Calendar.ValidDate) returns (stats: Stats)
    ensures stats.last7Days == Window(logs, today, 7)
    ensures stats.last30Days == Window(logs, today, 30)
    ensures stats.last7Days == stats.last30Days[23..]
    ensures stats.streak.currentStreak == Trailing(stats.last30Days)
    ensures stats.streak.longestStreak == Longest(stats.last30Days)
    ensures stats.streak.lastMissedDate == LastMissed(stats.last30Days)
    ensures stats.streak.currentStreak <= stats.streak.longestStreak <= 30
    ensures stats.overallRate == OverallRate(logs) && stats.overallRate <= 100
  {
    var byDate := GroupByDate(logs);
    var last7Days := GroupedWindow(byDate, today, 7);
    var last30Days := GroupedWindow(byDate, today, 30);
    GroupedWindowIsWindow(byDate, logs, today, 7);
    GroupedWindowIsWindow(byDate, logs, today, 30);
    Last7InLast30(logs, today);
    var streak := ComputeStreak(last30Days);
    LongestBound(last30Days);
    var totalTaken := CountTaken(logs);
    var overallRate := if |logs| > 0 then Rounding.Percent(totalTaken, |logs|) else 0;
    stats := Stats(last7Days, last30Days, streak, overallRate);
  }
}
