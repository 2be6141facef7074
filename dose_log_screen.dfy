/** The logic of the daily dose log screen: the status derived from a dose
    entry, the day summary, stepping the shown date one day back or
    forward, and the label of the shown date. */
module DoseLogScreen {
  import opened MedTypes
  import Calendar
  import Rounding
  import DoseLogStore
  import Statistics

  /** The status shown for a dose at instant `now`. A taken instant wins
      over the skipped flag; an open dose is missed once its scheduled
      instant has passed. `instantOf` reads the scheduled time as an
      instant; `None` stands for an invalid date, which is never earlier
      than anything, so such a dose stays pending. */
  function GetDoseStatus(dose: DoseLog, now: int, instantOf: string -> Option<int>): (r: DoseStatus)
    ensures r == Taken <==> dose.takenAt.Some?
    ensures r == Skipped <==> dose.takenAt.None? && dose.skipped
    ensures r == Missed <==>
      dose.takenAt.None? && !dose.skipped && instantOf(dose.scheduledTime).Some? && instantOf(dose.scheduledTime).value < now
    ensures r == Pending <==>
      dose.takenAt.None? && !dose.skipped && (instantOf(dose.scheduledTime).None? || instantOf(dose.scheduledTime).value >= now)
  {
    if dose.takenAt.Some? then Taken
    else if dose.skipped then Skipped
    else
      var scheduled := instantOf(dose.scheduledTime);
      if scheduled.Some? && scheduled.value < now then Missed
      else Pending
  }

  /** The Taken and Skip actions are offered on pending doses only. */
  predicate ActionsOffered(dose: DoseLog, now: int, instantOf: string -> Option<int>) {
    GetDoseStatus(dose, now, instantOf) == Pending
  }

  /** A dose offering actions is open and not yet due. */
  lemma OfferedMeansOpen(dose: DoseLog, now: int, instantOf: string -> Option<int>)
    requires ActionsOffered(dose, now, instantOf)
    ensures dose.takenAt.None? && !dose.skipped
    ensures instantOf(dose.scheduledTime).Some? ==> instantOf(dose.scheduledTime).value >= now
  {
  }

  /** Whatever the clock says, a dose marked taken in the store shows as
      taken and a dose marked skipped shows as skipped; neither offers the
      actions again. */
  lemma MarkedStatus(dose: DoseLog, takenAt: int, now: int, instantOf: string -> Option<int>)
    ensures GetDoseStatus(DoseLogStore.Taken(dose, takenAt), now, instantOf) == Taken
    ensures GetDoseStatus(DoseLogStore.Skipped(dose), now, instantOf) == Skipped
    ensures !ActionsOffered(DoseLogStore.Taken(dose, takenAt), now, instantOf)
    ensures !ActionsOffered(DoseLogStore.Skipped(dose), now, instantOf)
  {
  }

  /** Number of doses whose status is taken. */
  function SummaryTaken(doses: seq<DoseLog>, now: int, instantOf: string -> Option<int>): nat {
    if doses == [] then 0
    else
      (if GetDoseStatus(doses[0], now, instantOf) == Taken then 1 else 0)
      + SummaryTaken(doses[1..], now, instantOf)
  }

  /** The summary's taken count is the number of doses with a taken
      instant: it does not depend on the clock. */
  lemma {:induction false} SummaryTakenIsCountTaken(doses: seq<DoseLog>, now: int, instantOf: string -> Option<int>)
    ensures SummaryTaken(doses, now, instantOf) == CountTaken(doses)
  {
    if doses != [] {
      SummaryTakenIsCountTaken(doses[1..], now, instantOf);
    }
  }

  /** The day's adherence: the rounded percentage of taken doses, 0 for a
      day without doses. */
  function SummaryAdherence(doses: seq<DoseLog>, now: int, instantOf: string -> Option<int>): (r: nat)
    ensures r <= 100
    ensures r == Statistics.OverallRate(doses)
  {
    var taken := SummaryTaken(doses, now, instantOf);
    var total := |doses|;
    SummaryTakenIsCountTaken(doses, now, instantOf);
    if total > 0 then Rounding.Percent(taken, total) else 0
  }

  /** The date `days` days after the `YYYY-MM-DD` date `dateStr` (before
      it, for negative `days`). A string that is not such a date makes the
      host's date invalid, and formatting it fails. */
  function AddDays(dateStr: string, days: int): (r: Result<string>)
    ensures r.Err? <==> Calendar.Parse(dateStr).None?
  {
    match Calendar.Parse(dateStr)
    case None => Err(InvalidDate)
    case Some(d) => Ok(Calendar.Format(Calendar.AddDays(d, days)))
  }

  /** Stepping a date by zero days gives it back. */
  lemma AddDaysZero(dateStr: string)
    requires Calendar.Parse(dateStr).Some?
    ensures AddDays(dateStr, 0) == Ok(dateStr)
  {
    Calendar.FormatParse(dateStr);
  }

  /** Two steps add up, as long as the intermediate date keeps a four-digit
      year (the only form read back). */
  lemma AddDaysCompose(dateStr: string, a: int, b: int)
    requires Calendar.Parse(dateStr).Some?
    requires Calendar.InFourDigitRange(Calendar.AddDays(Calendar.Parse(dateStr).value, a))
    ensures AddDays(dateStr, a).Ok?
    ensures AddDays(AddDays(dateStr, a).value, b) == AddDays(dateStr, a + b)
  {
    var d := Calendar.Parse(dateStr).value;
    Calendar.ParseFormat(Calendar.AddDays(d, a));
    Calendar.AddDaysAdd(d, a, b);
  }

  /** The screen's next-day arrow followed by its previous-day arrow comes
      back to the shown date. */
  lemma ForwardThenBack(dateStr: string)
    requires Calendar.Parse(dateStr).Some?
    requires Calendar.InFourDigitRange(Calendar.AddDays(Calendar.Parse(dateStr).value, 1))
    ensures AddDays(dateStr, 1).Ok?
    ensures AddDays(AddDays(dateStr, 1).value, -1) == Ok(dateStr)
  {
    AddDaysCompose(dateStr, 1, -1);
    AddDaysZero(dateStr);
  }

  /** The label of the shown date: "Today", "Yesterday", or the long form
      `longFormat` gives (weekday, month and day). `today` is the UTC date
      of the current instant, as `toISOString` gives it, not the local
      date. */
  function FormatDisplayDate(dateStr: string, today: Calendar.ValidDate, longFormat: string -> string): (r: string)
    ensures dateStr == Calendar.Format(today) ==> r == "Today"
    ensures dateStr != Calendar.Format(today) && dateStr == Calendar.Format(Calendar.Prev(today)) ==> r == "Yesterday"
    ensures dateStr != Calendar.Format(today) && dateStr != Calendar.Format(Calendar.Prev(today)) ==> r == longFormat(dateStr)
  {
    if dateStr == Calendar.Format(today) then "Today"
    else if dateStr == Calendar.Format(Calendar.Prev(today)) then "Yesterday"
    else longFormat(dateStr)
  }

  /** When the long form never reads "Today" or "Yesterday", the label is
      "Today" exactly on today's date and "Yesterday" exactly on the day
      before. */
  lemma DisplayDateIff(dateStr: string, today: Calendar.ValidDate, longFormat: string -> string)
    requires longFormat(dateStr) != "Today" && longFormat(dateStr) != "Yesterday"
    requires Calendar.InFourDigitRange(today) && Calendar.InFourDigitRange(Calendar.Prev(today))
    ensures FormatDisplayDate(dateStr, today, longFormat) == "Today" <==> dateStr == Calendar.Format(today)
    ensures FormatDisplayDate(dateStr, today, longFormat) == "Yesterday"
      <==> dateStr == Calendar.Format(Calendar.Prev(today))
  {
    Calendar.PrevYear(today);
    Calendar.FormatInjective(today, Calendar.Prev(today));
  }
}
