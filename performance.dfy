/** The memoising date formatter, a map from date strings to their
    formatted form that evicts its oldest entry once it holds more than
    500, and the throttle that forwards a call only when enough time has
    passed since the last forwarded one. */
module Performance {

  /** The size beyond which the cache evicts before inserting. */
  const CacheLimit := 500

  /** The key order of the cache after looking up `dateStr`: a hit leaves
      it alone; a miss first drops the oldest key when there are more than
      `CacheLimit` keys and that key is not the empty string, then appends
      `dateStr`. */
  function CacheStep(keys: seq<string>, dateStr: string): seq<string> {
    if dateStr in keys then keys
    else if |keys| > CacheLimit && keys[0] != "" then keys[1..] + [dateStr]
    else keys + [dateStr]
  }

  /** The key order after looking up each of `dates` in turn. */
  function CacheRun(keys: seq<string>, dates: seq<string>): seq<string>
    decreases |dates|
  {
    if dates == [] then keys else CacheRun(CacheStep(keys, dates[0]), dates[1..])
  }

  predicate Distinct(s: seq<string>) {
    forall i, j :: 0 <= i < j < |s| ==> s[i] != s[j]
  }

  /** A step keeps the keys distinct, and a miss leaves `dateStr` newest. */
  lemma StepDistinct(keys: seq<string>, dateStr: string)
    requires Distinct(keys)
    ensures Distinct(CacheStep(keys, dateStr))
    ensures dateStr in CacheStep(keys, dateStr)
    ensures dateStr !in keys ==> CacheStep(keys, dateStr)[|CacheStep(keys, dateStr)| - 1] == dateStr
  {
    if dateStr !in keys && |keys| > CacheLimit && keys[0] != "" {
      assert dateStr !in keys[1..];
    }
  }

  /** Without the empty string among the keys, a cache of at most 501 keys
      stays at most 501 keys. */
  lemma StepBound(keys: seq<string>, dateStr: string)
    requires |keys| <= CacheLimit + 1 && "" !in keys
    ensures |CacheStep(keys, dateStr)| <= CacheLimit + 1
  {
    if |keys| > CacheLimit {
      assert keys[0] in keys;
    }
  }

  /** So however many non-empty dates are formatted, the cache never holds
      more than 501 entries. */
  lemma {:induction false} RunBound(keys: seq<string>, dates: seq<string>)
    requires |keys| <= CacheLimit + 1 && "" !in keys
    requires "" !in dates
    ensures |CacheRun(keys, dates)| <= CacheLimit + 1
    decreases |dates|
  {
    if dates != [] {
      StepBound(keys, dates[0]);
      assert dates[0] != "" by { assert dates[0] in dates; }
      assert "" !in dates[1..] by { assert forall x :: x in dates[1..] ==> x in dates; }
      RunBound(CacheStep(keys, dates[0]), dates[1..]);
    }
  }

  /** Fewer than 502 distinct dates formatted into an empty cache are all
      kept, in order. */
  lemma {:induction false} RunFills(dates: seq<string>)
    requires |dates| <= CacheLimit + 1 && Distinct(dates)
    ensures CacheRun([], dates) == dates
    decreases |dates|
  {
    if dates != [] {
      var init, last := dates[..|dates| - 1], dates[|dates| - 1];
      RunFills(init);
      RunSnoc([], init, last);
      assert dates == init + [last];
    }
  }

  lemma {:induction false} RunSnoc(keys: seq<string>, dates: seq<string>, d: string)
    ensures CacheRun(keys, dates + [d]) == CacheStep(CacheRun(keys, dates), d)
    decreases |dates|
  {
    if dates == [] {
      assert [d][1..] == [];
    } else {
      assert (dates + [d])[1..] == dates[1..] + [d];
      RunSnoc(CacheStep(keys, dates[0]), dates[1..], d);
    }
  }

  /** The 502nd distinct date evicts the first one formatted: the cache is
      first-in first-out. */
  lemma FifoEviction(dates: seq<string>)
    requires |dates| == CacheLimit + 2 && Distinct(dates) && "" !in dates
    ensures CacheRun([], dates) == dates[1..]
  {
    var init, last := dates[..CacheLimit + 1], dates[CacheLimit + 1];
    RunFills(init);
    RunSnoc([], init, last);
    assert dates == init + [last];
    assert init[0] in dates;
    assert last !in init;
    assert init[1..] + [last] == dates[1..];
  }

  /** With the empty string as the oldest key, no key is ever evicted: fresh
      dates pile up beyond 501 entries. */
  lemma {:induction false} EmptyOldestKeyGrows(keys: seq<string>, dates: seq<string>)
    requires keys != [] && keys[0] == ""
    requires Distinct(dates) && forall d :: d in dates ==> d !in keys
    ensures CacheRun(keys, dates) == keys + dates
    decreases |dates|
  {
    if dates != [] {
      var k := keys + [dates[0]];
      assert CacheStep(keys, dates[0]) == k;
      assert forall d :: d in dates[1..] ==> d in dates && d != dates[0];
      EmptyOldestKeyGrows(k, dates[1..]);
      assert k + dates[1..] == keys + dates;
    }
  }

  /** Keys are distinct, in insertion order, exactly the map's keys, and
      every stored value is `format` of its key. */
  ghost predicate Consistent(keys: seq<string>, values: map<string, string>, format: string -> string) {
    && Distinct(keys)
    && values.Keys == set k | k in keys
    && forall k :: k in values ==> values[k] == format(k)
  }

  /** Dropping the oldest key and its value keeps the cache consistent. */
  lemma EvictOldest(keys: seq<string>, values: map<string, string>, format: string -> string)
    requires Consistent(keys, values, format) && keys != []
    ensures Consistent(keys[1..], values - {keys[0]}, format)
  {
    assert forall k :: k in keys[1..] ==> k != keys[0];
    assert (set k | k in keys[1..]) == (set k | k in keys) - {keys[0]};
  }

  /** Adding a fresh key with its formatted value keeps the cache
      consistent. */
  lemma InsertFresh(keys: seq<string>, values: map<string, string>, format: string -> string, dateStr: string)
    requires Consistent(keys, values, format) && dateStr !in keys
    ensures Consistent(keys + [dateStr], values[dateStr := format(dateStr)], format)
  {
    assert (set k | k in keys + [dateStr]) == (set k | k in keys) + {dateStr};
  }

  /** The module-level cache. `format` is the uncached formatting (split
      on '-', a local date, the host's en-US short form), which the model
      takes as given. */
  class DateCache {
    const format: string -> string
    var keys: seq<string>
    var values: map<string, string>

    ghost predicate Valid()
      reads this
    {
      Consistent(keys, values, format)
    }

    constructor (format: string -> string)
      ensures Valid() && this.format == format && keys == [] && values == map[]
    {
      this.format := format;
      keys := [];
      values := map[];
    }

    /** The formatted form of `dateStr`, from the cache when present. */
    method FormatDate(dateStr: string) returns (formatted: string)
      requires Valid()
      modifies this
      ensures Valid()
      ensures formatted == format(dateStr)
      ensures keys == CacheStep(old(keys), dateStr)
      ensures dateStr in old(keys) ==> values == old(values)
    {
      if dateStr in values {
        return values[dateStr];
      }
      assert dateStr !in keys;
      formatted := format(dateStr);
      if |keys| > CacheLimit {
        var firstKey := keys[0];
        if firstKey != "" {
          EvictOldest(keys, values, format);
          values := values - {firstKey};
          keys := keys[1..];
        }
      }
      InsertFresh(keys, values, format, dateStr);
      values := values[dateStr := formatted];
      keys := keys + [dateStr];
    }
  }

  // ---------------------------------------------------------------------
  // Throttle

  /** Whether a call at `now` is forwarded, the last forwarded call having
      been at `lastCall`. */
  predicate Admits(limitMs: int, lastCall: int, now: int) {
    now - lastCall >= limitMs
  }

  /** The instants, among calls made at `times`, that are forwarded. */
  function Forwarded(limitMs: int, lastCall: int, times: seq<int>): (r: seq<int>)
    ensures |r| <= |times|
    ensures forall x :: x in r ==> x in times
    decreases |times|
  {
    if times == [] then []
    else if Admits(limitMs, lastCall, times[0]) then [times[0]] + Forwarded(limitMs, times[0], times[1..])
    else Forwarded(limitMs, lastCall, times[1..])
  }

  /** Forwarded calls are at least `limitMs` apart, and the first is at
      least `limitMs` after the starting `lastCall`. */
  lemma {:induction false} ForwardedSpaced(limitMs: int, lastCall: int, times: seq<int>)
    ensures var f := Forwarded(limitMs, lastCall, times);
      (f != [] ==> f[0] - lastCall >= limitMs)
      && forall i :: 0 < i < |f| ==> f[i] - f[i - 1] >= limitMs
    decreases |times|
  {
    if times != [] {
      if Admits(limitMs, lastCall, times[0]) {
        ForwardedSpaced(limitMs, times[0], times[1..]);
      } else {
        ForwardedSpaced(limitMs, lastCall, times[1..]);
      }
    }
  }

  /** A fresh throttle with a limit of 200 ms: three calls at the same
      instant forward the first only; a second call 250 ms later is
      forwarded too; a first call earlier than 200 ms after the epoch is
      dropped, since the last call starts at 0. */
  lemma ThrottleExamples(t: int)
    requires t >= 200
    ensures Forwarded(200, 0, [t, t, t]) == [t]
    ensures Forwarded(200, 0, [t, t + 250]) == [t, t + 250]
    ensures Forwarded(200, 0, [199]) == []
  {
    assert [t, t, t][1..] == [t, t] && [t, t][1..] == [t] && [t][1..] == [];
    assert Forwarded(200, t, [t]) == [];
    assert Forwarded(200, t, [t, t]) == [];
    assert [t, t + 250][1..] == [t + 250] && [t + 250][1..] == [];
    assert Forwarded(200, t, [t + 250]) == [t + 250];
  }

  /** The wrapper returned for a function and a limit; `now` is the host
      clock at the call. */
  class Throttle {
    const limitMs: int
    var lastCall: int

    constructor (limitMs: int)
      ensures this.limitMs == limitMs && lastCall == 0
    {
      this.limitMs := limitMs;
      lastCall := 0;
    }

    /** Forwards the call when `limitMs` has passed since the last
        forwarded one; only a forwarded call moves `lastCall`. */
    method Call(now: int) returns (forwarded: bool)
      modifies this
      ensures forwarded == Admits(limitMs, old(lastCall), now)
      ensures lastCall == if forwarded then now else old(lastCall)
    {
      if now - lastCall < limitMs {
        return false;
      }
      lastCall := now;
      forwarded := true;
    }

    /** Calls the wrapper at each instant of `times` in turn: the calls it
        forwards are exactly those `Forwarded` lists, so the spacing proved
        by `ForwardedSpaced` holds for the wrapper itself. */
    method CallEach(times: seq<int>) returns (sent: seq<int>)
      modifies this
      ensures sent == Forwarded(limitMs, old(lastCall), times)
    {
      sent := [];
      ghost var start := lastCall;
      for i := 0 to |times|
        invariant sent + Forwarded(limitMs, lastCall, times[i..]) == Forwarded(limitMs, start, times)
      {
        var t := times[i];
        assert times[i..] == [t] + times[i + 1..];
        var rest := Forwarded(limitMs, if Admits(limitMs, lastCall, t) then t else lastCall, times[i + 1..]);
        var ok := Call(t);
        if ok {
          assert sent + ([t] + rest) == (sent + [t]) + rest;
          sent := sent + [t];
        }
      }
      assert sent + [] == sent;
    }
  }
}
