/** `sorted(tasks, key=lambda t: t.end_time)`: a stable sort by end time,
    written as an insertion sort. */
module StableSort {
  import opened Tasks

  /** Inserts `t` in front of the first task that does not end before it, so
      that `t` precedes the tasks of equal end time already in `s`. */
  function InsertByEnd(t: Task, s: seq<Task>): (r: seq<Task>)
    ensures |r| == |s| + 1
    ensures multiset(r) == multiset(s) + multiset{t}
  {
    if s == [] then [t]
    else if t.endTime <= s[0].endTime then [t] + s
    else
      assert s == [s[0]] + s[1..];
      [s[0]] + InsertByEnd(t, s[1..])
  }

  lemma {:induction false} InsertByEndSorted(t: Task, s: seq<Task>)
    requires SortedByEnd(s)
    ensures SortedByEnd(InsertByEnd(t, s))
  {
    if s != [] && t.endTime > s[0].endTime {
      var tail := s[1..];
      var rest := InsertByEnd(t, tail);
      InsertByEndSorted(t, tail);
      assert InsertByEnd(t, s) == [s[0]] + rest;
      // The new head is t or the old second task; both end no earlier than s[0].
      assert rest[0] == t || (tail != [] && rest[0] == tail[0]);
      assert s[0].endTime <= rest[0].endTime;
    }
  }

  /** The tasks in non-decreasing order of end time, a permutation of the input. */
  function SortByEnd(s: seq<Task>): (r: seq<Task>)
    ensures |r| == |s|
    ensures SortedByEnd(r)
    ensures multiset(r) == multiset(s)
  {
    if s == [] then []
    else
      assert s == [s[0]] + s[1..];
      InsertByEndSorted(s[0], SortByEnd(s[1..]));
      InsertByEnd(s[0], SortByEnd(s[1..]))
  }

  /** The tasks of `s` whose end time is `k`, in their order in `s`. */
  function WithEnd(s: seq<Task>, k: int): seq<Task> {
    if s == [] then []
    else (if s[0].endTime == k then [s[0]] else []) + WithEnd(s[1..], k)
  }

  lemma {:induction false} WithEndConcat(a: seq<Task>, b: seq<Task>, k: int)
    ensures WithEnd(a + b, k) == WithEnd(a, k) + WithEnd(b, k)
  {
    if a != [] {
      assert (a + b)[1..] == a[1..] + b;
      WithEndConcat(a[1..], b, k);
    } else {
      assert a + b == b;
    }
  }

  lemma WithEndCons(x: Task, s: seq<Task>, k: int)
    ensures WithEnd([x] + s, k) == (if x.endTime == k then [x] else []) + WithEnd(s, k)
  {
    assert ([x] + s)[1..] == s;
  }

  /** Two tasks of different end times can trade places without changing
      the tasks of any end time. */
  lemma SwapHeads(x: Task, y: Task, u: seq<Task>, k: int)
    requires x.endTime != y.endTime
    ensures WithEnd([x] + ([y] + u), k) == WithEnd([y] + ([x] + u), k)
  {
    WithEndCons(x, [y] + u, k);
    WithEndCons(y, u, k);
    WithEndCons(y, [x] + u, k);
    WithEndCons(x, u, k);
  }

  lemma {:induction false} InsertByEndStable(t: Task, s: seq<Task>, k: int)
    ensures WithEnd(InsertByEnd(t, s), k) == WithEnd([t] + s, k)
  {
    if s != [] && t.endTime > s[0].endTime {
      var rest := InsertByEnd(t, s[1..]);
      assert InsertByEnd(t, s) == [s[0]] + rest;
      InsertByEndStable(t, s[1..], k);
      WithEndCons(s[0], rest, k);
      WithEndCons(s[0], [t] + s[1..], k);
      SwapHeads(s[0], t, s[1..], k);
      assert [s[0]] + s[1..] == s;
    }
  }

  /** Tasks with equal end times keep their input order. */
  lemma {:induction false} SortByEndStable(s: seq<Task>, k: int)
    ensures WithEnd(SortByEnd(s), k) == WithEnd(s, k)
  {
    if s != [] {
      InsertByEndStable(s[0], SortByEnd(s[1..]), k);
      SortByEndStable(s[1..], k);
      WithEndConcat([s[0]], SortByEnd(s[1..]), k);
      WithEndConcat([s[0]], s[1..], k);
      assert s == [s[0]] + s[1..];
    }
  }

  lemma {:induction false} WithEndBelowFirst(s: seq<Task>, k: int)
    requires SortedByEnd(s) && s != [] && k < s[0].endTime
    ensures WithEnd(s, k) == []
  {
    if |s| > 1 {
      WithEndBelowFirst(s[1..], k);
    }
  }

  lemma WithEndOfFirst(s: seq<Task>)
    requires s != []
    ensures WithEnd(s, s[0].endTime) == [s[0]] + WithEnd(s[1..], s[0].endTime)
  {
  }

  /** Two sequences sorted by end time that agree on the tasks of every end
      time, in order, are equal. */
  lemma {:induction false} SortedAgreeingAreEqual(r: seq<Task>, q: seq<Task>)
    requires SortedByEnd(r) && SortedByEnd(q)
    requires forall k :: WithEnd(r, k) == WithEnd(q, k)
    ensures r == q
  {
    if r == [] && q == [] {
    } else if r == [] {
      WithEndOfFirst(q);
      assert false;
    } else if q == [] {
      WithEndOfFirst(r);
      assert false;
    } else {
      WithEndOfFirst(r);
      WithEndOfFirst(q);
      if r[0].endTime < q[0].endTime {
        WithEndBelowFirst(q, r[0].endTime);
        assert false;
      } else if q[0].endTime < r[0].endTime {
        WithEndBelowFirst(r, q[0].endTime);
        assert false;
      }
      assert WithEnd(r, r[0].endTime)[0] == r[0];
      assert WithEnd(q, r[0].endTime)[0] == q[0];
      assert r[0] == q[0];
      forall k ensures WithEnd(r[1..], k) == WithEnd(q[1..], k) {
        var head := if r[0].endTime == k then [r[0]] else [];
        assert WithEnd(r, k) == head + WithEnd(r[1..], k);
        assert WithEnd(q, k) == head + WithEnd(q[1..], k);
        assert WithEnd(r[1..], k) == WithEnd(r, k)[|head|..];
        assert WithEnd(q[1..], k) == WithEnd(q, k)[|head|..];
      }
      SortedAgreeingAreEqual(r[1..], q[1..]);
      assert r == [r[0]] + r[1..];
      assert q == [q[0]] + q[1..];
    }
  }

  /** SortByEnd is the one stable sort by end time: every sequence that is
      sorted by end time and keeps the input order of the tasks of each end
      time is equal to it. */
  lemma StableSortUnique(s: seq<Task>, r: seq<Task>)
    requires SortedByEnd(r)
    requires forall k :: WithEnd(r, k) == WithEnd(s, k)
    ensures r == SortByEnd(s)
  {
    forall k ensures WithEnd(r, k) == WithEnd(SortByEnd(s), k) {
      SortByEndStable(s, k);
    }
    SortedAgreeingAreEqual(r, SortByEnd(s));
  }
}
