/** The task record the scheduler works on, the conflict rule between two
    tasks, and the total profit of a selection. */
module Tasks {

  /** A task interval: an identifier and a label the algorithm only carries
      along, and integer start time, end time and profit. */
  datatype Task = Task(id: int, name: string, startTime: int, endTime: int, profit: int)

  /** The interval invariant that the add and edit forms enforce before a
      task is stored: a task ends strictly after it starts. */
  predicate WellFormed(t: Task) {
    t.startTime < t.endTime
  }

  predicate AllWellFormed(s: seq<Task>) {
    forall i :: 0 <= i < |s| ==> WellFormed(s[i])
  }

  /** Two tasks can both be scheduled when one ends no later than the other
      starts; ending exactly when the other starts is allowed. */
  predicate Compatible(a: Task, b: Task) {
    a.endTime <= b.startTime || b.endTime <= a.startTime
  }

  /** No two tasks of the selection (at different positions) overlap. */
  predicate ConflictFree(s: seq<Task>) {
    forall i, j :: 0 <= i < j < |s| ==> Compatible(s[i], s[j])
  }

  /** The tasks appear in non-decreasing order of end time. */
  predicate SortedByEnd(s: seq<Task>) {
    forall i, j :: 0 <= i < j < |s| ==> s[i].endTime <= s[j].endTime
  }

  function TotalProfit(s: seq<Task>): int {
    if s == [] then 0 else TotalProfit(s[..|s| - 1]) + s[|s| - 1].profit
  }

  /** A selection drawn from `pool` (each task of the pool used at most as
      often as it occurs there) in which no two tasks overlap. */
  ghost predicate Feasible(sel: seq<Task>, pool: seq<Task>) {
    multiset(sel) <= multiset(pool) && ConflictFree(sel)
  }

  lemma {:induction false} TotalProfitConcat(a: seq<Task>, b: seq<Task>)
    ensures TotalProfit(a + b) == TotalProfit(a) + TotalProfit(b)
  {
    if b == [] {
      assert a + b == a;
    } else {
      assert (a + b)[..|a + b| - 1] == a + b[..|b| - 1];
      TotalProfitConcat(a, b[..|b| - 1]);
    }
  }

  /** Taking the task at position k out of a selection lowers its profit by
      exactly that task's profit. */
  lemma RemoveAtProfit(s: seq<Task>, k: nat)
    requires k < |s|
    ensures TotalProfit(s) == TotalProfit(s[..k] + s[k + 1..]) + s[k].profit
  {
    var before, after := s[..k], s[k + 1..];
    assert s == (before + [s[k]]) + after;
    TotalProfitConcat(before + [s[k]], after);
    TotalProfitConcat(before, [s[k]]);
    TotalProfitConcat(before, after);
    assert TotalProfit([s[k]]) == s[k].profit by {
      assert [s[k]][..0] == [];
    }
  }

  /** Taking a task out of a conflict-free selection keeps it conflict-free. */
  lemma RemoveAtConflictFree(s: seq<Task>, k: nat)
    requires k < |s| && ConflictFree(s)
    ensures ConflictFree(s[..k] + s[k + 1..])
  {
    var r := s[..k] + s[k + 1..];
    forall i, j | 0 <= i < j < |r| ensures Compatible(r[i], r[j]) {
      var i' := if i < k then i else i + 1;
      var j' := if j < k then j else j + 1;
      assert r[i] == s[i'] && r[j] == s[j'];
    }
  }

  lemma RemoveAtMultiset(s: seq<Task>, k: nat)
    requires k < |s|
    ensures multiset(s[..k] + s[k + 1..]) == multiset(s) - multiset{s[k]}
  {
    assert s == s[..k] + [s[k]] + s[k + 1..];
  }

  /** In a conflict-free selection, every other task is compatible with the
      task at position k. */
  lemma RemoveAtCompatible(s: seq<Task>, k: nat, r: seq<Task>)
    requires k < |s| && ConflictFree(s) && r == s[..k] + s[k + 1..]
    ensures forall a :: 0 <= a < |r| ==> Compatible(r[a], s[k])
  {
    forall a | 0 <= a < |r| ensures Compatible(r[a], s[k]) {
      if a < k {
        assert r[a] == s[a];
      } else {
        assert r[a] == s[a + 1];
      }
    }
  }

  /** Appending a task that starts, and ends, no earlier than every task of a
      conflict-free sorted selection ends keeps it conflict-free and sorted. */
  lemma AppendLater(c: seq<Task>, t: Task)
    requires ConflictFree(c) && SortedByEnd(c)
    requires forall a :: 0 <= a < |c| ==> c[a].endTime <= t.startTime && c[a].endTime <= t.endTime
    ensures ConflictFree(c + [t]) && SortedByEnd(c + [t])
  {
  }
}
