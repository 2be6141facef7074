/** The data of the shareable adherence report: its key figures, the cells
    of the medication table, and the rows of the dose history, which show
    the latest fifty entries newest first with a status and its colour. */
module PdfExport {
  import opened MedTypes
  import Rounding
  import DoseOrder
  import Statistics
  import DoseLogScreen

  /** The entries whose `takenAt` is set, in their order. */
  function TakenEntries(logs: seq<DoseLog>): (r: seq<DoseLog>)
    ensures |r| <= |logs|
    ensures forall x :: x in r <==> x in logs && IsTaken(x)
    ensures forall x :: multiset(r)[x] == (if IsTaken(x) then multiset(logs)[x] else 0)
  {
    if logs == [] then []
    else
      var init := TakenEntries(logs[..|logs| - 1]);
      var last := logs[|logs| - 1];
      assert logs == logs[..|logs| - 1] + [last];
      assert forall x :: x in logs <==> x in logs[..|logs| - 1] || x == last;
      if IsTaken(last) then init + [last] else init
  }

  /** The filter counts what `CountTaken` counts. */
  lemma {:induction false} TakenEntriesCount(logs: seq<DoseLog>)
    ensures |TakenEntries(logs)| == CountTaken(logs)
  {
    if logs != [] {
      var init, last := logs[..|logs| - 1], logs[|logs| - 1];
      TakenEntriesCount(init);
      CountTakenConcat(init, [last]);
      assert init + [last] == logs;
    }
  }

  /** The report's adherence figure: the rounded percentage of entries
      with a taken instant, 0 without entries. */
  function ReportRate(logs: seq<DoseLog>): (r: nat)
    ensures r <= 100
  {
    if |logs| > 0 then Rounding.Percent(|TakenEntries(logs)|, |logs|) else 0
  }

  /** The report and the statistics screen compute the same overall rate. */
  lemma ReportRateMatchesStatistics(logs: seq<DoseLog>)
    ensures ReportRate(logs) == Statistics.OverallRate(logs)
    ensures ReportRate(logs) == 0 <==> logs == [] || 200 * CountTaken(logs) < |logs|
  {
    TakenEntriesCount(logs);
  }

  /** The adherence figure is green from 80 percent, amber below. */
  function RateColor(rate: nat): (r: string)
    ensures r == "#22c55e" <==> rate >= 80
    ensures r == "#f59e0b" <==> rate < 80
  {
    if rate >= 80 then "#22c55e" else "#f59e0b"
  }

  /** The medications whose `isActive` flag is set, in their order. */
  function ActiveMedications(meds: seq<Medication>): (r: seq<Medication>)
    ensures |r| <= |meds|
    ensures forall m :: m in r <==> m in meds && m.isActive
    ensures forall m :: multiset(r)[m] == (if m.isActive then multiset(meds)[m] else 0)
  {
    if meds == [] then []
    else
      var init := ActiveMedications(meds[..|meds| - 1]);
      var last := meds[|meds| - 1];
      assert meds == meds[..|meds| - 1] + [last];
      assert forall m :: m in meds <==> m in meds[..|meds| - 1] || m == last;
      if last.isActive then init + [last] else init
  }

  /** The "Active Medications" figure: no more than all medications, all
      of them exactly when every one is active, none exactly when none is. */
  function ActiveCount(meds: seq<Medication>): (r: nat)
    ensures r <= |meds|
    ensures r == 0 <==> forall m :: m in meds ==> !m.isActive
  {
    var active := ActiveMedications(meds);
    assert active != [] ==> active[0] in active;
    |active|
  }

  lemma {:induction false} AllActive(meds: seq<Medication>)
    ensures ActiveCount(meds) == |meds| <==> forall m :: m in meds ==> m.isActive
  {
    if meds != [] {
      var init, last := meds[..|meds| - 1], meds[|meds| - 1];
      AllActive(init);
      assert forall m :: m in meds <==> m in init || m == last;
    }
  }

  /** The figure is the number of positions holding an active medication,
      so a medication listed twice counts twice. */
  lemma {:induction false} ActiveCountIndices(meds: seq<Medication>)
    ensures ActiveCount(meds) == |set i | 0 <= i < |meds| && meds[i].isActive|
  {
    if meds != [] {
      var init, last := meds[..|meds| - 1], meds[|meds| - 1];
      ActiveCountIndices(init);
      assert ActiveMedications(meds) == ActiveMedications(init) + (if last.isActive then [last] else []);
      ActiveIndicesSnoc(meds);
    }
  }

  /** The active positions of a list are those of its prefix, plus the last
      position when that medication is active. */
  lemma ActiveIndicesSnoc(meds: seq<Medication>)
    requires meds != []
    ensures var n := |meds| - 1;
      |set i | 0 <= i < |meds| && meds[i].isActive| ==
      |set i | 0 <= i < n && meds[..n][i].isActive| + (if meds[n].isActive then 1 else 0)
  {
    var n := |meds| - 1;
    var s := set i | 0 <= i < |meds| && meds[i].isActive;
    var t := set i | 0 <= i < n && meds[..n][i].isActive;
    if meds[n].isActive {
      assert s == t + {n};
    } else {
      assert s == t;
    }
  }

  /** The "Total Doses" figure counts every entry of the period. */
  function TotalDoses(logs: seq<DoseLog>): (r: nat)
    ensures r >= |TakenEntries(logs)|
  {
    |logs|
  }

  /** The number of logs whose report status is `s`. */
  function CountStatus(logs: seq<DoseLog>, s: DoseStatus): nat {
    if logs == [] then 0
    else CountStatus(logs[..|logs| - 1], s) + (if ReportStatus(logs[|logs| - 1]) == s then 1 else 0)
  }

  /** The total is the number of logs whose report status is taken, plus
      skipped, plus missed; none is pending. The taken ones are the entries
      the adherence figure counts. */
  lemma {:induction false} TotalDosesByStatus(logs: seq<DoseLog>)
    ensures TotalDoses(logs) == CountStatus(logs, Taken) + CountStatus(logs, Skipped) + CountStatus(logs, Missed)
    ensures CountStatus(logs, Taken) == |TakenEntries(logs)|
    ensures CountStatus(logs, Pending) == 0
  {
    if logs != [] {
      TotalDosesByStatus(logs[..|logs| - 1]);
    }
  }

  /** The frequency as stored: lower case, words joined by '-'. */
  function FrequencyName(f: Frequency): string {
    match f
    case Daily => "daily"
    case TwiceDaily => "twice-daily"
    case ThreeTimesDaily => "three-times-daily"
    case Weekly => "weekly"
    case AsNeeded => "as-needed"
  }

  /** `s` with every '-' turned into a space. */
  function ReplaceDashes(s: string): (r: string)
    ensures |r| == |s|
    ensures forall i :: 0 <= i < |s| ==> r[i] == if s[i] == '-' then ' ' else s[i]
  {
    if s == [] then []
    else [if s[0] == '-' then ' ' else s[0]] + ReplaceDashes(s[1..])
  }

  /** The frequency column: every dash of the stored name replaced, so the
      cell has no dash left. */
  function FrequencyCell(f: Frequency): (r: string)
    ensures '-' !in r
    ensures |r| == |FrequencyName(f)|
  {
    ReplaceDashes(FrequencyName(f))
  }

  /** The cell twice-daily shows. */
  lemma FrequencyCells()
    ensures FrequencyCell(TwiceDaily) == "twice daily"
  {
    ReplaceDashesOf("twice-daily", "twice daily");
  }

  lemma ReplaceDashesOf(s: string, t: string)
    requires |s| == |t|
    requires forall i :: 0 <= i < |s| ==> t[i] == if s[i] == '-' then ' ' else s[i]
    ensures ReplaceDashes(s) == t
  {
  }

  /** The times joined with ", " between consecutive ones. */
  function Join(times: seq<string>): (r: string)
    ensures |times| == 1 ==> r == times[0]
  {
    if times == [] then ""
    else if |times| == 1 then times[0]
    else Join(times[..|times| - 1]) + ", " + times[|times| - 1]
  }

  /** The joined text is empty only for no times or a single empty one:
      two or more times always leave a separator. */
  lemma {:induction false} JoinEmpty(times: seq<string>)
    ensures Join(times) == "" <==> times == [] || times == [""]
  {
    if |times| > 1 {
      assert |Join(times)| >= 2;
    }
  }

  /** The text is the times' lengths plus two per separator. */
  lemma {:induction false} JoinLength(times: seq<string>)
    requires times != []
    ensures |Join(times)| == SumLengths(times) + 2 * (|times| - 1)
  {
    if |times| > 1 {
      JoinLength(times[..|times| - 1]);
    }
  }

  function SumLengths(times: seq<string>): nat {
    if times == [] then 0 else SumLengths(times[..|times| - 1]) + |times[|times| - 1]|
  }

  /** The times column: the joined times, or "As needed" when that text is
      empty. */
  function TimesCell(times: seq<string>): (r: string)
    ensures r != ""
  {
    var joined := Join(times);
    if joined == "" then "As needed" else joined
  }

  /** A medication without times, or with a single empty one, reads "As
      needed"; otherwise the cell is the joined times. */
  lemma TimesCellAsNeeded(times: seq<string>)
    ensures times == [] || times == [""] ==> TimesCell(times) == "As needed"
    ensures times != [] && times != [""] ==> TimesCell(times) == Join(times)
  {
    JoinEmpty(times);
  }

  /** The history keeps at most the last 50 entries, in their order. */
  const HistoryLimit := 50

  /** The last `HistoryLimit` entries, or all of them when there are
      fewer. */
  function LastEntries(logs: seq<DoseLog>): (r: seq<DoseLog>)
    ensures |r| <= HistoryLimit
    ensures |r| == if |logs| < HistoryLimit then |logs| else HistoryLimit
    ensures r == logs[|logs| - |r|..]
  {
    if |logs| <= HistoryLimit then logs else logs[|logs| - HistoryLimit..]
  }

  /** The history rows: the last 50 entries, latest scheduled time first,
      entries with the same scheduled time in their logged order. */
  function HistoryRows(logs: seq<DoseLog>): (r: seq<DoseLog>)
    ensures |r| <= HistoryLimit
    ensures |logs| <= HistoryLimit ==> |r| == |logs|
    ensures DoseOrder.Sorted(r, true)
    ensures multiset(r) == multiset(LastEntries(logs))
    ensures forall k :: DoseOrder.WithTime(r, k) == DoseOrder.WithTime(LastEntries(logs), k)
    ensures forall x :: x in r ==> x in logs
  {
    var last := LastEntries(logs);
    var r := DoseOrder.Sort(last, true);
    assert |r| == |last| by {
      assert |multiset(r)| == |multiset(last)|;
    }
    forall x | x in r ensures x in logs {
      assert x in multiset(last);
      assert x in last;
    }
    r
  }

  /** An entry older than the last 50 is not shown, unless an equal entry
      is among the last 50. */
  lemma OlderEntriesDropped(logs: seq<DoseLog>, i: nat)
    requires i < |logs| - HistoryLimit
    requires forall j :: |logs| - HistoryLimit <= j < |logs| ==> logs[j] != logs[i]
    ensures logs[i] !in HistoryRows(logs)
  {
    var last := LastEntries(logs);
    forall k | 0 <= k < |last| ensures last[k] != logs[i] {
      assert last[k] == logs[|logs| - HistoryLimit + k];
    }
    assert logs[i] !in multiset(last);
  }

  /** The status a history row shows: taken when a taken instant is set,
      else skipped when flagged, else missed. An open entry counts as
      missed whatever its scheduled time. */
  function ReportStatus(log: DoseLog): (r: DoseStatus)
    ensures r != Pending
    ensures r == Taken <==> log.takenAt.Some?
    ensures r == Skipped <==> log.takenAt.None? && log.skipped
    ensures r == Missed <==> log.takenAt.None? && !log.skipped
  {
    if log.takenAt.Some? then Taken
    else if log.skipped then Skipped
    else Missed
  }

  /** The report agrees with the dose log screen on taken, skipped and
      missed entries; an entry the screen shows as pending the report
      shows as missed. */
  lemma ReportStatusAgrees(log: DoseLog, now: int, instantOf: string -> Option<int>)
    ensures DoseLogScreen.GetDoseStatus(log, now, instantOf) != Pending ==>
      ReportStatus(log) == DoseLogScreen.GetDoseStatus(log, now, instantOf)
    ensures DoseLogScreen.GetDoseStatus(log, now, instantOf) == Pending ==> ReportStatus(log) == Missed
  {
  }

  /** The colour of a row's status: green, amber, red. */
  function StatusColor(log: DoseLog): (r: string)
    ensures r == "#22c55e" <==> ReportStatus(log) == Taken
    ensures r == "#f59e0b" <==> ReportStatus(log) == Skipped
    ensures r == "#ef4444" <==> ReportStatus(log) == Missed
  {
    if log.takenAt.Some? then "#22c55e"
    else if log.skipped then "#f59e0b"
    else "#ef4444"
  }
}
