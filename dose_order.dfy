/** Stable sorting of dose instances by their `scheduledTime` string, the
    result the host's stable array sort gives with a `localeCompare`
    comparator (ascending) or its reverse (descending). */
module DoseOrder {
  import opened MedTypes
  import Lex

  /** `x` may stand before `y` in the requested direction. */
  predicate InOrder(x: DoseLog, y: DoseLog, descending: bool) {
    if descending then Lex.LessEq(y.scheduledTime, x.scheduledTime)
    else Lex.LessEq(x.scheduledTime, y.scheduledTime)
  }

  /** `y` must stand after `x`: the comparator says `x` comes first. */
  predicate StrictlyAfter(y: DoseLog, x: DoseLog, descending: bool) {
    !InOrder(y, x, descending)
  }

  predicate Sorted(s: seq<DoseLog>, descending: bool) {
    forall i, j :: 0 <= i < j < |s| ==> InOrder(s[i], s[j], descending)
  }

  /** The entries of `s` whose `scheduledTime` is `t`, in their order in `s`. */
  function WithTime(s: seq<DoseLog>, t: string): (r: seq<DoseLog>)
    ensures |r| <= |s|
  {
    if s == [] then []
    else (if s[0].scheduledTime == t then [s[0]] else []) + WithTime(s[1..], t)
  }

  lemma {:induction false} WithTimeConcat(a: seq<DoseLog>, b: seq<DoseLog>, t: string)
    ensures WithTime(a + b, t) == WithTime(a, t) + WithTime(b, t)
  {
    if a == [] {
      assert a + b == b;
    } else {
      var h := if a[0].scheduledTime == t then [a[0]] else [];
      assert (a + b)[0] == a[0] && (a + b)[1..] == a[1..] + b;
      assert WithTime(a + b, t) == h + WithTime(a[1..] + b, t);
      WithTimeConcat(a[1..], b, t);
      Regroup(h, WithTime(a[1..], t), WithTime(b, t));
    }
  }

  /** No entry of `s` has time `t`. */
  lemma {:induction false} WithTimeNone(s: seq<DoseLog>, t: string)
    requires forall i :: 0 <= i < |s| ==> s[i].scheduledTime != t
    ensures WithTime(s, t) == []
  {
    if s != [] {
      WithTimeNone(s[1..], t);
    }
  }

  lemma InOrderTotal(x: DoseLog, y: DoseLog, descending: bool)
    ensures InOrder(x, y, descending) || InOrder(y, x, descending)
  {
    var a, b := x.scheduledTime, y.scheduledTime;
    if Lex.Less(a, b) && Lex.Less(b, a) {
      Lex.Transitive(a, b, a);
      Lex.Irreflexive(a);
    }
  }

  lemma InOrderTransitive(x: DoseLog, y: DoseLog, z: DoseLog, descending: bool)
    requires InOrder(x, y, descending) && InOrder(y, z, descending)
    ensures InOrder(x, z, descending)
  {
    if descending {
      Lex.LessEqTransitive(z.scheduledTime, y.scheduledTime, x.scheduledTime);
    } else {
      Lex.LessEqTransitive(x.scheduledTime, y.scheduledTime, z.scheduledTime);
    }
  }

  /** Entries comparing equal have the same time. */
  lemma InOrderBoth(x: DoseLog, y: DoseLog, descending: bool)
    requires InOrder(x, y, descending) && InOrder(y, x, descending)
    ensures x.scheduledTime == y.scheduledTime
  {
    Lex.Total(x.scheduledTime, y.scheduledTime);
  }

  /** Puts `x` after every entry of `t` that the comparator does not place
      after it. */
  function Insert(t: seq<DoseLog>, x: DoseLog, descending: bool): (r: seq<DoseLog>)
    ensures multiset(r) == multiset(t) + multiset{x}
    ensures Sorted(t, descending) ==> Sorted(r, descending)
    ensures Sorted(t, descending) ==> forall k :: WithTime(r, k) == WithTime(t, k) + WithTime([x], k)
  {
    if t == [] then
      [x]
    else if StrictlyAfter(t[0], x, descending) then
      InsertFront(t, x, descending);
      [x] + t
    else
      var rest := Insert(t[1..], x, descending);
      InsertLater(t, x, descending, rest);
      [t[0]] + rest
  }

  lemma InsertFront(t: seq<DoseLog>, x: DoseLog, descending: bool)
    requires t != [] && StrictlyAfter(t[0], x, descending)
    ensures Sorted(t, descending) ==> Sorted([x] + t, descending)
    ensures Sorted(t, descending) ==> forall k :: WithTime([x] + t, k) == WithTime(t, k) + WithTime([x], k)
  {
    InOrderTotal(t[0], x, descending);
    if Sorted(t, descending) {
      var r := [x] + t;
      forall i, j | 0 <= i < j < |r| ensures InOrder(r[i], r[j], descending) {
        if i == 0 && j > 1 {
          InOrderTransitive(x, t[0], t[j - 1], descending);
        }
      }
      forall k ensures WithTime([x] + t, k) == WithTime(t, k) + WithTime([x], k) {
        WithTimeConcat([x], t, k);
        if x.scheduledTime == k {
          forall i | 0 <= i < |t| ensures t[i].scheduledTime != k {
            if i > 0 {
              assert InOrder(t[0], t[i], descending);
            }
            Lex.Irreflexive(k);
          }
          WithTimeNone(t, k);
        }
      }
    }
  }

  lemma InsertLater(t: seq<DoseLog>, x: DoseLog, descending: bool, rest: seq<DoseLog>)
    requires t != [] && !StrictlyAfter(t[0], x, descending)
    requires multiset(rest) == multiset(t[1..]) + multiset{x}
    requires Sorted(t[1..], descending) ==> Sorted(rest, descending)
    requires Sorted(t[1..], descending) ==> forall k :: WithTime(rest, k) == WithTime(t[1..], k) + WithTime([x], k)
    ensures multiset([t[0]] + rest) == multiset(t) + multiset{x}
    ensures Sorted(t, descending) ==> Sorted([t[0]] + rest, descending)
    ensures Sorted(t, descending) ==> forall k :: WithTime([t[0]] + rest, k) == WithTime(t, k) + WithTime([x], k)
  {
    assert t == [t[0]] + t[1..];
    if Sorted(t, descending) {
      InsertLaterSorted(t, x, descending, rest);
      InsertLaterTimes(t, x, rest);
    }
  }

  lemma InsertLaterTimes(t: seq<DoseLog>, x: DoseLog, rest: seq<DoseLog>)
    requires t != []
    requires forall k :: WithTime(rest, k) == WithTime(t[1..], k) + WithTime([x], k)
    ensures forall k :: WithTime([t[0]] + rest, k) == WithTime(t, k) + WithTime([x], k)
  {
    assert t == [t[0]] + t[1..];
    forall k ensures WithTime([t[0]] + rest, k) == WithTime(t, k) + WithTime([x], k) {
      WithTimeConcat([t[0]], rest, k);
      WithTimeConcat([t[0]], t[1..], k);
      Regroup(WithTime([t[0]], k), WithTime(t[1..], k), WithTime([x], k));
    }
  }

  lemma InsertLaterSorted(t: seq<DoseLog>, x: DoseLog, descending: bool, rest: seq<DoseLog>)
    requires t != [] && !StrictlyAfter(t[0], x, descending)
    requires multiset(rest) == multiset(t[1..]) + multiset{x}
    requires Sorted(t, descending) && Sorted(rest, descending)
    ensures Sorted([t[0]] + rest, descending)
  {
    var r := [t[0]] + rest;
    forall j | 0 < j < |r| ensures InOrder(t[0], r[j], descending) {
      assert r[j] == rest[j - 1];
      assert rest[j - 1] in multiset(rest);
      if r[j] != x {
        assert r[j] in multiset(t[1..]);
        var m :| 0 <= m < |t[1..]| && t[1..][m] == r[j];
        assert t[m + 1] == r[j];
      }
    }
  }

  /** The stable sort: inserts each entry, first to last, after the entries
      placed before it that it does not precede. */
  function Sort(s: seq<DoseLog>, descending: bool): (r: seq<DoseLog>)
    ensures multiset(r) == multiset(s)
    ensures Sorted(r, descending)
    ensures forall k :: WithTime(r, k) == WithTime(s, k)
  {
    if s == [] then []
    else
      var init := s[..|s| - 1];
      var sorted := Sort(init, descending);
      var r := Insert(sorted, s[|s| - 1], descending);
      SortStep(s, sorted, r);
      r
  }

  lemma SortStep(s: seq<DoseLog>, sorted: seq<DoseLog>, r: seq<DoseLog>)
    requires s != []
    requires multiset(sorted) == multiset(s[..|s| - 1])
    requires multiset(r) == multiset(sorted) + multiset{s[|s| - 1]}
    requires forall k :: WithTime(sorted, k) == WithTime(s[..|s| - 1], k)
    requires forall k :: WithTime(r, k) == WithTime(sorted, k) + WithTime([s[|s| - 1]], k)
    ensures multiset(r) == multiset(s)
    ensures forall k :: WithTime(r, k) == WithTime(s, k)
  {
    var init, last := s[..|s| - 1], s[|s| - 1];
    assert s == init + [last];
    forall k ensures WithTime(r, k) == WithTime(s, k) {
      WithTimeConcat(init, [last], k);
    }
  }

  /** Together, the three properties of `Sort` fix its result: any sequence
      that is sorted, a permutation of `s`, and keeps the order of entries
      sharing a time is `Sort(s)`. */
  lemma {:induction false} SortUnique(s: seq<DoseLog>, r: seq<DoseLog>, descending: bool)
    requires Sorted(r, descending)
    requires forall k :: WithTime(r, k) == WithTime(s, k)
    ensures r == Sort(s, descending)
  {
    var q := Sort(s, descending);
    SortedSameTimesEqual(r, q, descending);
  }

  lemma {:induction false} SortedSameTimesEqual(r: seq<DoseLog>, q: seq<DoseLog>, descending: bool)
    requires Sorted(r, descending) && Sorted(q, descending)
    requires forall k :: WithTime(r, k) == WithTime(q, k)
    ensures r == q
    decreases |r| + |q|
  {
    HasOwnTime(r);
    HasOwnTime(q);
    if r != [] && q != [] {
      var a, b := r[0], q[0];
      // the first entry of each is the first entry with its time in the other
      FirstIsMinimal(r, q, descending);
      FirstIsMinimal(q, r, descending);
      InOrderBoth(a, b, descending);
      var k := a.scheduledTime;
      assert r == [a] + r[1..] && q == [b] + q[1..];
      WithTimeConcat([a], r[1..], k);
      WithTimeConcat([b], q[1..], k);
      assert WithTime(r, k)[0] == a;
      assert WithTime(q, k)[0] == b;
      assert a == b;
      forall k' ensures WithTime(r[1..], k') == WithTime(q[1..], k') {
        WithTimeConcat([a], r[1..], k');
        WithTimeConcat([a], q[1..], k');
        var p := WithTime([a], k');
        assert WithTime(r, k') == p + WithTime(r[1..], k');
        assert WithTime(q, k') == p + WithTime(q[1..], k');
        assert WithTime(r[1..], k') == (p + WithTime(r[1..], k'))[|p|..];
        assert WithTime(q[1..], k') == (p + WithTime(q[1..], k'))[|p|..];
      }
      SortedSameTimesEqual(r[1..], q[1..], descending);
      assert r == [a] + r[1..] && q == [b] + q[1..];
    }
  }

  lemma HasOwnTime(s: seq<DoseLog>)
    ensures s != [] ==> WithTime(s, s[0].scheduledTime) != []
  {
  }

  /** The first entry of a sorted `r` may stand before every entry of any
      `q` with the same entries per time. */
  lemma FirstIsMinimal(r: seq<DoseLog>, q: seq<DoseLog>, descending: bool)
    requires r != [] && q != []
    requires Sorted(r, descending)
    requires forall k :: WithTime(r, k) == WithTime(q, k)
    ensures InOrder(r[0], q[0], descending)
  {
    var k := q[0].scheduledTime;
    assert q == [q[0]] + q[1..];
    WithTimeConcat([q[0]], q[1..], k);
    assert WithTime(r, k) != [];
    var i := WithTimeIndex(r, k);
    if i > 0 {
    } else {
      InOrderTotal(r[0], q[0], descending);
      Lex.Irreflexive(k);
    }
  }

  lemma {:induction false} WithTimeIndex(s: seq<DoseLog>, k: string) returns (i: nat)
    requires WithTime(s, k) != []
    ensures i < |s| && s[i].scheduledTime == k
  {
    if s[0].scheduledTime == k {
      i := 0;
    } else {
      var j := WithTimeIndex(s[1..], k);
      i := j + 1;
    }
  }
}
