/** The in-memory dose log: a map from a `YYYY-MM-DD` date to the ordered
    bucket of dose entries logged for that date, with an append and two
    marking transitions. Every transition replaces the whole map by a copy
    in which only the bucket of the given date differs. */
module DoseLogStore {
  import opened MedTypes

  /** The bucket of `date`, or the empty bucket when the date has none. */
  function Bucket(logs: map<string, seq<DoseLog>>, date: string): (r: seq<DoseLog>)
    ensures date in logs ==> r == logs[date]
    ensures date !in logs ==> r == []
  {
    if date in logs then logs[date] else []
  }

  /** The entry as marked taken at instant `now`: taken, not skipped, and
      otherwise the same entry. */
  function Taken(dose: DoseLog, now: int): (r: DoseLog)
    ensures r.takenAt == Some(now) && !r.skipped
    ensures r.(takenAt := dose.takenAt, skipped := dose.skipped) == dose
  {
    dose.(takenAt := Some(now), skipped := false)
  }

  /** The entry as marked skipped: skipped, with no taken instant, and
      otherwise the same entry. */
  function Skipped(dose: DoseLog): (r: DoseLog)
    ensures r.skipped && r.takenAt == None
    ensures r.(takenAt := dose.takenAt, skipped := dose.skipped) == dose
  {
    dose.(skipped := true, takenAt := None)
  }

  /** Marks every entry of `bucket` whose id is `doseId` as taken at `now`;
      entries keep their place, and only those two fields of a matching
      entry change. */
  function MarkTakenIn(bucket: seq<DoseLog>, doseId: string, now: int): (r: seq<DoseLog>)
    ensures |r| == |bucket|
    ensures forall i :: 0 <= i < |r| && bucket[i].id != doseId ==> r[i] == bucket[i]
    ensures forall i :: 0 <= i < |r| && bucket[i].id == doseId ==> r[i] == Taken(bucket[i], now)
  {
    if bucket == [] then []
    else
      [if bucket[0].id == doseId then Taken(bucket[0], now) else bucket[0]]
      + MarkTakenIn(bucket[1..], doseId, now)
  }

  /** Marks every entry of `bucket` whose id is `doseId` as skipped; entries
      keep their place, and only those two fields of a matching entry
      change. */
  function MarkSkippedIn(bucket: seq<DoseLog>, doseId: string): (r: seq<DoseLog>)
    ensures |r| == |bucket|
    ensures forall i :: 0 <= i < |r| && bucket[i].id != doseId ==> r[i] == bucket[i]
    ensures forall i :: 0 <= i < |r| && bucket[i].id == doseId ==> r[i] == Skipped(bucket[i])
  {
    if bucket == [] then []
    else
      [if bucket[0].id == doseId then Skipped(bucket[0]) else bucket[0]]
      + MarkSkippedIn(bucket[1..], doseId)
  }

  /** An id no entry carries leaves the bucket as it was. */
  lemma {:induction false} MarkUnknownId(bucket: seq<DoseLog>, doseId: string, now: int)
    requires forall x :: x in bucket ==> x.id != doseId
    ensures MarkTakenIn(bucket, doseId, now) == bucket
    ensures MarkSkippedIn(bucket, doseId) == bucket
  {
    if bucket != [] {
      MarkUnknownId(bucket[1..], doseId, now);
    }
  }

  /** The later mark wins outright: skipping a taken dose forgets when it
      was taken. Nothing makes a mark final. */
  lemma {:induction false} SkipAfterTake(bucket: seq<DoseLog>, doseId: string, now: int)
    ensures MarkSkippedIn(MarkTakenIn(bucket, doseId, now), doseId) == MarkSkippedIn(bucket, doseId)
  {
    if bucket != [] {
      SkipAfterTake(bucket[1..], doseId, now);
    }
  }

  /** Taking a skipped dose clears the skip. */
  lemma {:induction false} TakeAfterSkip(bucket: seq<DoseLog>, doseId: string, now: int)
    ensures MarkTakenIn(MarkSkippedIn(bucket, doseId), doseId, now) == MarkTakenIn(bucket, doseId, now)
  {
    if bucket != [] {
      TakeAfterSkip(bucket[1..], doseId, now);
    }
  }

  /** Taking twice keeps only the later instant. */
  lemma {:induction false} TakeAfterTake(bucket: seq<DoseLog>, doseId: string, earlier: int, now: int)
    ensures MarkTakenIn(MarkTakenIn(bucket, doseId, earlier), doseId, now) == MarkTakenIn(bucket, doseId, now)
  {
    if bucket != [] {
      TakeAfterTake(bucket[1..], doseId, earlier, now);
    }
  }

  /** Marking a dose taken never lowers the taken count of its bucket, and
      a bucket holding that id has a taken entry afterwards. */
  lemma {:induction false} MarkTakenCount(bucket: seq<DoseLog>, doseId: string, now: int)
    ensures CountTaken(bucket) <= CountTaken(MarkTakenIn(bucket, doseId, now))
    ensures (exists i :: 0 <= i < |bucket| && bucket[i].id == doseId) ==> CountTaken(MarkTakenIn(bucket, doseId, now)) > 0
  {
    if bucket != [] {
      MarkTakenCount(bucket[1..], doseId, now);
    }
  }

  /** The dose log state of the app: one bucket per date; each bucket
      keeps its entries in insertion order. */
  class Store {
    var logs: map<string, seq<DoseLog>>

    /** The store starts empty. */
    constructor ()
      ensures logs == map[]
    {
      logs := map[];
    }

    /** The entries logged for `date`; a date never logged reads as the
        empty bucket rather than failing. */
    function GetDosesForDate(date: string): (r: seq<DoseLog>)
      reads this
      ensures date in logs ==> r == logs[date]
      ensures date !in logs ==> r == []
    {
      Bucket(logs, date)
    }

    /** Marks the entries of `date`'s bucket whose id is `doseId` as taken
        at `now`. A date without a bucket gains an empty one. */
    method MarkTaken(doseId: string, date: string, now: int)
      modifies this
      ensures logs == old(logs)[date := MarkTakenIn(Bucket(old(logs), date), doseId, now)]
      ensures logs.Keys == old(logs).Keys + {date}
      ensures forall d :: d in old(logs) && d != date ==> logs[d] == old(logs)[d]
      ensures |logs[date]| == |Bucket(old(logs), date)|
    {
      logs := logs[date := MarkTakenIn(Bucket(logs, date), doseId, now)];
    }

    /** Marks the entries of `date`'s bucket whose id is `doseId` as
        skipped. A date without a bucket gains an empty one. */
    method MarkSkipped(doseId: string, date: string)
      modifies this
      ensures logs == old(logs)[date := MarkSkippedIn(Bucket(old(logs), date), doseId)]
      ensures logs.Keys == old(logs).Keys + {date}
      ensures forall d :: d in old(logs) && d != date ==> logs[d] == old(logs)[d]
      ensures |logs[date]| == |Bucket(old(logs), date)|
    {
      logs := logs[date := MarkSkippedIn(Bucket(logs, date), doseId)];
    }

    /** Appends `dose` at the end of the bucket of its own date, creating
        the bucket if needed; ids are not checked for duplicates. */
    method AddDoseEntry(dose: DoseLog)
      modifies this
      ensures logs == old(logs)[dose.date := Bucket(old(logs), dose.date) + [dose]]
      ensures logs.Keys == old(logs).Keys + {dose.date}
      ensures forall d :: d in old(logs) && d != dose.date ==> logs[d] == old(logs)[d]
    {
      logs := logs[dose.date := Bucket(logs, dose.date) + [dose]];
    }
  }

  /** Adding an entry and then marking it taken leaves it taken at the end
      of its bucket, after the entries that were already there. */
  lemma {:induction false} AddThenTake(bucket: seq<DoseLog>, dose: DoseLog, now: int)
    requires forall x :: x in bucket ==> x.id != dose.id
    ensures MarkTakenIn(bucket + [dose], dose.id, now) == bucket + [Taken(dose, now)]
  {
    if bucket == [] {
      assert [dose][1..] == [];
    } else {
      assert (bucket + [dose])[1..] == bucket[1..] + [dose];
      AddThenTake(bucket[1..], dose, now);
    }
  }
}
