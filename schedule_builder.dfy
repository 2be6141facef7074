/** Expansion of medication definitions into the dated dose instances due
    on one day, the weekly-eligibility predicate, the adherence percentage
    over a date range and the upcoming-dose window. */
module ScheduleBuilder {
  import opened MedTypes
  import Lex
  import Rounding
  import DoseOrder

  /** The times of day a medication is due: its own list when that is not
      empty, otherwise the default list of its frequency. */
  function TimesForFrequency(frequency: Frequency, customTimes: seq<string>): (r: seq<string>)
    ensures customTimes != [] ==> r == customTimes
    ensures customTimes == [] && (frequency == Daily || frequency == Weekly) ==> r == ["08:00"]
    ensures customTimes == [] && frequency == TwiceDaily ==> r == ["08:00", "20:00"]
    ensures customTimes == [] && frequency == ThreeTimesDaily ==> r == ["08:00", "14:00", "20:00"]
    ensures customTimes == [] ==> (r == [] <==> frequency == AsNeeded)
    ensures customTimes == [] ==> |r| <= 3
    ensures customTimes == [] ==> forall i, j :: 0 <= i < j < |r| ==> Lex.Less(r[i], r[j])
  {
    if |customTimes| > 0 then customTimes
    else
      DefaultTimesAscending();
      match frequency
      case Daily => ["08:00"]
      case TwiceDaily => ["08:00", "20:00"]
      case ThreeTimesDaily => ["08:00", "14:00", "20:00"]
      case Weekly => ["08:00"]
      case AsNeeded => []
  }

  lemma DefaultTimesAscending()
    ensures Lex.Less("08:00", "14:00") && Lex.Less("14:00", "20:00") && Lex.Less("08:00", "20:00")
  {
  }

  /** The end date bounds the schedule only when it is a non-empty string. */
  predicate HasEndDate(med: Medication) {
    med.endDate.Some? && med.endDate.value != ""
  }

  /** The three independent gates a medication passes to be scheduled on
      `date`: active, not ended before `date`, not starting after it. */
  predicate IsScheduledOn(med: Medication, date: string) {
    && med.isActive
    && !(HasEndDate(med) && Lex.Less(med.endDate.value, date))
    && !Lex.Less(date, med.startDate)
  }

  function ScheduledTime(date: string, time: string): string {
    date + "T" + time + ":00"
  }

  function DoseId(med: Medication, date: string, time: string): string {
    med.id + "-" + date + "-" + time
  }

  /** The fresh, pending dose instance of `med` at `time` on `date`. */
  function MakeDose(med: Medication, date: string, time: string): DoseLog {
    DoseLog(DoseId(med, date, time), med.id, med.name, ScheduledTime(date, time), None, false, "", date)
  }

  function TimesOf(med: Medication): seq<string> {
    TimesForFrequency(med.frequency, med.times)
  }

  /** The doses `med` contributes on `date`, one per time, in time-list order. */
  function MedicationDoses(med: Medication, date: string): (r: seq<DoseLog>)
    ensures |r| == (if IsScheduledOn(med, date) then |TimesOf(med)| else 0)
  {
    if IsScheduledOn(med, date) then
      var ts := TimesOf(med);
      seq(|ts|, k requires 0 <= k < |ts| => MakeDose(med, date, ts[k]))
    else []
  }

  /** All doses due on `date`, medication by medication, before sorting. */
  function Generated(meds: seq<Medication>, date: string): seq<DoseLog> {
    if meds == [] then []
    else Generated(meds[..|meds| - 1], date) + MedicationDoses(meds[|meds| - 1], date)
  }

  /** The number of times summed over the medications scheduled on `date`. */
  function DoseCount(meds: seq<Medication>, date: string): nat {
    if meds == [] then 0
    else (if IsScheduledOn(meds[0], date) then |TimesOf(meds[0])| else 0) + DoseCount(meds[1..], date)
  }

  /** `d` is the dose of some scheduled medication at one of its times. */
  ghost predicate Contributes(meds: seq<Medication>, date: string, d: DoseLog) {
    exists i, k :: 0 <= i < |meds| && IsScheduledOn(meds[i], date) && 0 <= k < |TimesOf(meds[i])|
      && d == MakeDose(meds[i], date, TimesOf(meds[i])[k])
  }

  lemma GeneratedSnoc(meds: seq<Medication>, m: Medication, date: string)
    ensures Generated(meds + [m], date) == Generated(meds, date) + MedicationDoses(m, date)
  {
    var s := meds + [m];
    assert s[..|s| - 1] == meds;
  }

  lemma {:induction false} GeneratedConcat(a: seq<Medication>, b: seq<Medication>, date: string)
    ensures Generated(a + b, date) == Generated(a, date) + Generated(b, date)
    decreases |b|
  {
    if b == [] {
      assert a + b == a;
    } else {
      var b', last := b[..|b| - 1], b[|b| - 1];
      assert (a + b') + [last] == a + b;
      GeneratedConcat(a, b', date);
      GeneratedSnoc(a + b', last, date);
      GeneratedSnoc(b', last, date);
      Regroup(Generated(a, date), Generated(b', date), MedicationDoses(last, date));
    }
  }

  lemma {:induction false} GeneratedLength(meds: seq<Medication>, date: string)
    ensures |Generated(meds, date)| == DoseCount(meds, date)
  {
    if meds != [] {
      assert meds == [meds[0]] + meds[1..];
      GeneratedConcat([meds[0]], meds[1..], date);
      assert [meds[0]][..0] == [];
      GeneratedLength(meds[1..], date);
    }
  }

  /** Exactly the doses of the scheduled medications, at their times, are
      generated. */
  lemma {:induction false} GeneratedMembers(meds: seq<Medication>, date: string, d: DoseLog)
    ensures d in Generated(meds, date) <==> Contributes(meds, date, d)
  {
    if meds != [] {
      var init, last := meds[..|meds| - 1], meds[|meds| - 1];
      GeneratedMembers(init, date, d);
      if d in MedicationDoses(last, date) {
        var k :| 0 <= k < |MedicationDoses(last, date)| && MedicationDoses(last, date)[k] == d;
        assert meds[|meds| - 1] == last;
      }
      if Contributes(meds, date, d) {
        var i, k :| 0 <= i < |meds| && IsScheduledOn(meds[i], date) && 0 <= k < |TimesOf(meds[i])|
          && d == MakeDose(meds[i], date, TimesOf(meds[i])[k]);
        if i < |meds| - 1 {
          assert init[i] == meds[i];
        } else {
          assert MedicationDoses(last, date)[k] == d;
        }
      }
      if Contributes(init, date, d) {
        var i, k :| 0 <= i < |init| && IsScheduledOn(init[i], date) && 0 <= k < |TimesOf(init[i])|
          && d == MakeDose(init[i], date, TimesOf(init[i])[k]);
        assert meds[i] == init[i];
      }
    }
  }

  /** A medication that fails a gate on `date` can be dropped from the
      input without changing the result. */
  lemma UnscheduledContributesNothing(meds: seq<Medication>, i: nat, date: string)
    requires i < |meds| && !IsScheduledOn(meds[i], date)
    ensures Generated(meds, date) == Generated(meds[..i] + meds[i + 1..], date)
  {
    var a, b := meds[..i], meds[i + 1..];
    assert meds == (a + [meds[i]]) + b;
    GeneratedConcat(a + [meds[i]], b, date);
    GeneratedSnoc(a, meds[i], date);
    GeneratedConcat(a, b, date);
  }

  /** Expands the medications into the doses due on `date` and sorts them
      by scheduled time, stably. */
  method BuildDailySchedule(medications: seq<Medication>, date: string) returns (doses: seq<DoseLog>)
    ensures |doses| == DoseCount(medications, date)
    ensures forall d :: d in doses <==> Contributes(medications, date, d)
    ensures DoseOrder.Sorted(doses, false)
    ensures multiset(doses) == multiset(Generated(medications, date))
    ensures forall t :: DoseOrder.WithTime(doses, t) == DoseOrder.WithTime(Generated(medications, date), t)
  {
    var generated: seq<DoseLog> := [];
    for i := 0 to |medications|
      invariant generated == Generated(medications[..i], date)
    {
      var med := medications[i];
      assert medications[..i + 1] == medications[..i] + [med];
      GeneratedSnoc(medications[..i], med, date);
      if !med.isActive {
        continue;
      }
      if HasEndDate(med) && Lex.Less(med.endDate.value, date) {
        continue;
      }
      if Lex.Less(date, med.startDate) {
        continue;
      }
      var times := TimesForFrequency(med.frequency, med.times);
      ghost var before := generated;
      for j := 0 to |times|
        invariant generated == before + DosesUpTo(med, date, times, j)
      {
        var scheduledTime := date + "T" + times[j] + ":00";
        DosesUpToStep(med, date, times, j);
        Regroup(before, DosesUpTo(med, date, times, j), [MakeDose(med, date, times[j])]);
        generated := generated + [DoseLog(med.id + "-" + date + "-" + times[j], med.id, med.name,
                                          scheduledTime, None, false, "", date)];
      }
      assert DosesUpTo(med, date, times, |times|) == MedicationDoses(med, date);
    }
    assert medications[..|medications|] == medications;
    doses := DoseOrder.Sort(generated, false);
    SortedSchedule(medications, date, doses);
  }

  /** The doses of `med` at its first `j` times. */
  function DosesUpTo(med: Medication, date: string, times: seq<string>, j: nat): (r: seq<DoseLog>)
    requires j <= |times|
    ensures |r| == j
  {
    seq(j, k requires 0 <= k < j => MakeDose(med, date, times[k]))
  }

  lemma DosesUpToStep(med: Medication, date: string, times: seq<string>, j: nat)
    requires j < |times|
    ensures DosesUpTo(med, date, times, j + 1) == DosesUpTo(med, date, times, j) + [MakeDose(med, date, times[j])]
  {
  }

  /** The stable sort of the generated doses has the schedule's length,
      members, order and per-time order. */
  lemma SortedSchedule(medications: seq<Medication>, date: string, doses: seq<DoseLog>)
    requires doses == DoseOrder.Sort(Generated(medications, date), false)
    ensures |doses| == DoseCount(medications, date)
    ensures forall d :: d in doses <==> Contributes(medications, date, d)
  {
    GeneratedLength(medications, date);
    forall d ensures d in doses <==> Contributes(medications, date, d) {
      GeneratedMembers(medications, date, d);
      assert d in doses <==> d in multiset(doses);
    }
  }

  /** A sorted sequence is its own stable sort. */
  lemma SortOfSorted(s: seq<DoseLog>, descending: bool)
    requires DoseOrder.Sorted(s, descending)
    ensures DoseOrder.Sort(s, descending) == s
  {
    DoseOrder.SortUnique(s, s, descending);
  }

  /** An active, open-ended medication with times 08:00 and 20:00 yields
      exactly those two doses on any date from its start date on, morning
      first; for 2021-06-15 their times are 2021-06-15T08:00:00 and
      2021-06-15T20:00:00. */
  lemma TwiceDailyExample(med: Medication, date: string)
    requires med.isActive && med.endDate == None && Lex.LessEq(med.startDate, date)
    requires med.times == ["08:00", "20:00"]
    ensures DoseOrder.Sort(Generated([med], date), false)
      == [MakeDose(med, date, "08:00"), MakeDose(med, date, "20:00")]
    ensures ScheduledTime("2021-06-15", "08:00") == "2021-06-15T08:00:00"
    ensures ScheduledTime("2021-06-15", "20:00") == "2021-06-15T20:00:00"
  {
    var g := [MakeDose(med, date, "08:00"), MakeDose(med, date, "20:00")];
    TwiceDailyGenerated(med, date);
    TwiceDailySorted(med, date);
    SortOfSorted(g, false);
    ScheduledTimeLiterals();
  }

  lemma ScheduledTimeLiterals()
    ensures ScheduledTime("2021-06-15", "08:00") == "2021-06-15T08:00:00"
    ensures ScheduledTime("2021-06-15", "20:00") == "2021-06-15T20:00:00"
  {
  }

  lemma TwiceDailyGenerated(med: Medication, date: string)
    requires med.isActive && med.endDate == None && Lex.LessEq(med.startDate, date)
    requires med.times == ["08:00", "20:00"]
    ensures Generated([med], date) == [MakeDose(med, date, "08:00"), MakeDose(med, date, "20:00")]
  {
    assert [med][..0] == [];
    assert TimesOf(med) == ["08:00", "20:00"];
    var doses := MedicationDoses(med, date);
    assert Generated([med], date) == Generated([], date) + doses;
    assert |doses| == 2 && doses[0] == MakeDose(med, date, "08:00") && doses[1] == MakeDose(med, date, "20:00");
    assert doses == [MakeDose(med, date, "08:00"), MakeDose(med, date, "20:00")];
  }

  lemma TwiceDailySorted(med: Medication, date: string)
    ensures DoseOrder.Sorted([MakeDose(med, date, "08:00"), MakeDose(med, date, "20:00")], false)
  {
    var g := [MakeDose(med, date, "08:00"), MakeDose(med, date, "20:00")];
    assert ScheduledTime(date, "08:00") == (date + "T") + "08:00:00";
    assert ScheduledTime(date, "20:00") == (date + "T") + "20:00:00";
    Lex.CommonPrefix(date + "T", "08:00:00", "20:00:00");
    NotLessWhenLess(g[0].scheduledTime, g[1].scheduledTime);
    Lex.Irreflexive(g[0].scheduledTime);
    Lex.Irreflexive(g[1].scheduledTime);
  }

  /** For weekly medications: the date falls on the weekday of the start
      date. Every other frequency is due every day. An unparsable date has
      no weekday (the host's NaN), and NaN equals nothing. */
  function ShouldTakeOnDate(medication: Medication, date: string, weekdayOf: string -> Option<Weekday>): (r: bool)
    ensures medication.frequency != Weekly ==> r
    ensures medication.frequency == Weekly ==>
      (r <==> weekdayOf(medication.startDate).Some? && weekdayOf(date) == weekdayOf(medication.startDate))
  {
    if medication.frequency != Weekly then true
    else
      var startDay := weekdayOf(medication.startDate);
      var targetDay := weekdayOf(date);
      startDay.Some? && targetDay.Some? && startDay.value == targetDay.value
  }

  /** A weekly medication is always due on its own start date, provided
      that date has a weekday. */
  lemma ShouldTakeOnStartDate(medication: Medication, weekdayOf: string -> Option<Weekday>)
    requires weekdayOf(medication.startDate).Some?
    ensures ShouldTakeOnDate(medication, medication.startDate, weekdayOf)
  {
  }

  lemma NotLessWhenLess(a: string, b: string)
    requires Lex.Less(a, b)
    ensures !Lex.Less(b, a) && a != b
  {
    if Lex.Less(b, a) {
      Lex.Transitive(a, b, a);
    }
    Lex.Irreflexive(a);
  }

  /** The logs whose date lies in [startDate, endDate], in log order. */
  function InRange(logs: seq<DoseLog>, startDate: string, endDate: string): (r: seq<DoseLog>)
    ensures |r| <= |logs|
    ensures forall x :: x in r <==> x in logs && Lex.LessEq(startDate, x.date) && Lex.LessEq(x.date, endDate)
    ensures forall x :: multiset(r)[x] == (if Lex.LessEq(startDate, x.date) && Lex.LessEq(x.date, endDate) then multiset(logs)[x] else 0)
  {
    if logs == [] then []
    else
      assert logs == [logs[0]] + logs[1..];
      (if Lex.LessEq(startDate, logs[0].date) && Lex.LessEq(logs[0].date, endDate) then [logs[0]] else [])
      + InRange(logs[1..], startDate, endDate)
  }

  /** Percentage of taken doses among the logs dated in [startDate, endDate];
      0 when there are none. */
  function CalculateAdherence(logs: seq<DoseLog>, startDate: string, endDate: string): (r: nat)
    ensures var f := InRange(logs, startDate, endDate);
      f != [] ==> Rounding.Nearest(r, 100 * CountTaken(f), |f|)
    ensures r <= 100
    ensures r == 0 <==> (var f := InRange(logs, startDate, endDate); f == [] || 200 * CountTaken(f) < |f|)
    ensures r == 100 <==> (var f := InRange(logs, startDate, endDate); f != [] && 200 * CountTaken(f) >= 199 * |f|)
    ensures (var f := InRange(logs, startDate, endDate); f != [] && CountTaken(f) == |f|) ==> r == 100
  {
    var filtered := InRange(logs, startDate, endDate);
    if |filtered| == 0 then 0
    else Rounding.Percent(CountTaken(filtered), |filtered|)
  }

  /** Two doses on each of two days, three of them taken: 75 over a range
      holding both days (the range 2021-06-01..2021-06-02, for one). */
  lemma AdherenceExample(a: DoseLog, b: DoseLog, c: DoseLog, d: DoseLog, s: string, e: string)
    requires Lex.Less(s, e)
    requires a.date == s && b.date == s && c.date == e && d.date == e
    requires a.takenAt.Some? && b.takenAt.None? && c.takenAt.Some? && d.takenAt.Some?
    ensures CalculateAdherence([a, b, c, d], s, e) == 75
  {
    NotLessWhenLess(s, e);
    Lex.Irreflexive(s);
    Lex.Irreflexive(e);
    InRangeAll([a, b, c, d], s, e);
    ExampleCount(a, b, c, d);
    PercentThreeOfFour();
  }

  lemma PercentThreeOfFour()
    ensures Rounding.Percent(3, 4) == 75
  {
    assert Rounding.RoundDiv(300, 4) == 604 / 8;
  }

  /** The dates of the example range are ordered. */
  lemma ExampleDatesOrdered()
    ensures Lex.Less("2021-06-01", "2021-06-02")
  {
    Lex.CommonPrefix("2021-06-0", "1", "2");
    assert "2021-06-0" + "1" == "2021-06-01" && "2021-06-0" + "2" == "2021-06-02";
  }

  lemma ExampleCount(a: DoseLog, b: DoseLog, c: DoseLog, d: DoseLog)
    requires a.takenAt.Some? && b.takenAt.None? && c.takenAt.Some? && d.takenAt.Some?
    ensures CountTaken([a, b, c, d]) == 3
  {
    assert CountTaken([d]) == 1;
    assert [c, d][1..] == [d];
    assert CountTaken([c, d]) == 2;
    assert [b, c, d][1..] == [c, d];
    assert CountTaken([b, c, d]) == 2;
    assert [a, b, c, d][1..] == [b, c, d];
  }

  /** With every log dated inside the range, the filter keeps them all. */
  lemma {:induction false} InRangeAll(logs: seq<DoseLog>, s: string, e: string)
    requires forall i :: 0 <= i < |logs| ==> Lex.LessEq(s, logs[i].date) && Lex.LessEq(logs[i].date, e)
    ensures InRange(logs, s, e) == logs
  {
    if logs != [] {
      InRangeAll(logs[1..], s, e);
      assert logs == [logs[0]] + logs[1..];
    }
  }

  /** `s` is `t` with some entries left out, the rest in order. */
  predicate IsSubsequence(s: seq<DoseLog>, t: seq<DoseLog>)
    decreases |t|
  {
    if s == [] then true
    else if t == [] then false
    else (s[0] == t[0] && IsSubsequence(s[1..], t[1..])) || IsSubsequence(s, t[1..])
  }

  /** Appending the same entry to both sides keeps a subsequence one, and
      so does appending to the longer side only. */
  lemma {:induction false} SubsequenceSnoc(s: seq<DoseLog>, t: seq<DoseLog>, x: DoseLog)
    requires IsSubsequence(s, t)
    ensures IsSubsequence(s, t + [x])
    ensures IsSubsequence(s + [x], t + [x])
    decreases |t|
  {
    if s == [] {
      EmptySubsequence(t + [x]);
      if t == [] {
        assert [x][1..] == [];
      } else {
        assert (t + [x])[1..] == t[1..] + [x];
        EmptySubsequence(t[1..]);
        SubsequenceSnoc([], t[1..], x);
      }
    } else {
      assert (t + [x])[1..] == t[1..] + [x];
      assert (s + [x])[1..] == s[1..] + [x];
      if s[0] == t[0] && IsSubsequence(s[1..], t[1..]) {
        SubsequenceSnoc(s[1..], t[1..], x);
      } else {
        SubsequenceSnoc(s, t[1..], x);
      }
    }
  }

  lemma EmptySubsequence(t: seq<DoseLog>)
    ensures IsSubsequence([], t)
  {
  }

  /** Still open (neither taken nor skipped), and scheduled in [now, cutoff]. */
  predicate IsUpcoming(d: DoseLog, now: int, cutoff: int, instantOf: string -> Option<int>) {
    d.takenAt.None? && !d.skipped && instantOf(d.scheduledTime).Some?
    && now <= instantOf(d.scheduledTime).value <= cutoff
  }

  /** The open doses due within the next `spanMs` milliseconds of `now`,
      in input order. `now + spanMs` is the cutoff instant the host's `Date`
      constructor makes of `now + hoursAhead * 3600000`, truncated to whole
      milliseconds, so a fractional number of hours is expressed exactly. `instantOf` reads a scheduled time as an instant; `None`
      stands for an invalid date, which compares false with everything. */
  function GetUpcomingDoses(doses: seq<DoseLog>, spanMs: int, now: int, instantOf: string -> Option<int>): (r: seq<DoseLog>)
    ensures IsSubsequence(r, doses)
    ensures forall d :: d in r <==> d in doses && IsUpcoming(d, now, now + spanMs, instantOf)
    ensures forall d :: multiset(r)[d] == (if IsUpcoming(d, now, now + spanMs, instantOf) then multiset(doses)[d] else 0)
  {
    if doses == [] then []
    else
      var rest := GetUpcomingDoses(doses[1..], spanMs, now, instantOf);
      var d := doses[0];
      var keep := IsUpcoming(d, now, now + spanMs, instantOf);
      assert keep ==> ([d] + rest)[1..] == rest;
      assert doses == [d] + doses[1..];
      if keep then [d] + rest else rest
  }
}
