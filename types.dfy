/** The data model shared by the scheduling, logging and analytics code:
    medications, dose instances and the derived aggregates. */
module MedTypes {

  datatype Option<+T> = None | Some(value: T)

  /** The error a date step can raise: an unparsable date string makes the
      host's date value invalid, and formatting it throws. */
  datatype DateError = InvalidDate

  datatype Result<+T> = Ok(value: T) | Err(error: DateError)

  /** A day of the week as the host numbers it, Sunday = 0. */
  type Weekday = x: int | 0 <= x < 7

  datatype Frequency = Daily | TwiceDaily | ThreeTimesDaily | Weekly | AsNeeded

  datatype DoseUnit = Mg | Ml | Tablet | Capsule | Drop | Unit

  /** A recurring prescription. `endDate == None` is the null end date;
      the dates are ISO `YYYY-MM-DD` strings, the times `HH:MM` strings. */
  datatype Medication = Medication(
    id: string,
    name: string,
    dosage: real,
    unit: DoseUnit,
    frequency: Frequency,
    times: seq<string>,
    notes: string,
    color: string,
    startDate: string,
    endDate: Option<string>,
    isActive: bool,
    createdAt: int,
    updatedAt: int)

  /** One scheduled occurrence of one medication. `takenAt` is the instant
      (milliseconds) the dose was marked taken, `None` for null. */
  datatype DoseLog = DoseLog(
    id: string,
    medicationId: string,
    medicationName: string,
    scheduledTime: string,
    takenAt: Option<int>,
    skipped: bool,
    notes: string,
    date: string)

  datatype DoseStatus = Pending | Taken | Skipped | Missed

  datatype DailyStats = DailyStats(
    date: string,
    total: nat,
    taken: nat,
    skipped: nat,
    missed: nat,
    adherenceRate: nat)

  datatype AdherenceStreak = AdherenceStreak(
    currentStreak: nat,
    longestStreak: nat,
    lastMissedDate: Option<string>)

  /** A log entry counts as taken when its `takenAt` is set, whatever its
      `skipped` flag says. */
  predicate IsTaken(l: DoseLog) {
    l.takenAt.Some?
  }

  /** Number of entries of `s` whose `takenAt` is set. */
  function CountTaken(s: seq<DoseLog>): (r: nat)
    ensures r <= |s|
  {
    if s == [] then 0 else (if IsTaken(s[0]) then 1 else 0) + CountTaken(s[1..])
  }

  /** Number of entries of `s` whose `skipped` flag is set. */
  function CountSkipped(s: seq<DoseLog>): (r: nat)
    ensures r <= |s|
  {
    if s == [] then 0 else (if s[0].skipped then 1 else 0) + CountSkipped(s[1..])
  }

  lemma {:induction false} CountTakenAll(s: seq<DoseLog>)
    requires forall i :: 0 <= i < |s| ==> IsTaken(s[i])
    ensures CountTaken(s) == |s|
  {
    if s != [] {
      CountTakenAll(s[1..]);
    }
  }

  lemma {:induction false} CountTakenConcat(a: seq<DoseLog>, b: seq<DoseLog>)
    ensures CountTaken(a + b) == CountTaken(a) + CountTaken(b)
  {
    if a == [] {
      assert a + b == b;
    } else {
      assert (a + b)[1..] == a[1..] + b;
      CountTakenConcat(a[1..], b);
    }
  }

  /** Concatenation of entry lists regroups freely. */
  lemma Regroup(x: seq<DoseLog>, y: seq<DoseLog>, z: seq<DoseLog>)
    ensures (x + y) + z == x + (y + z)
  {
  }
}
