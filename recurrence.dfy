/** The dynamic program of weighted interval scheduling as functions over the
    tasks sorted by end time: the predecessor of each task, the best profit
    of each prefix, and the selection the backtrack recovers; and the lemmas
    that this selection is conflict-free, sums to the best profit and is
    optimal. */
module Recurrence {
  import opened Tasks
  import opened Sequences
  import opened StableSort

  /** The largest index j < k whose task ends no later than `start`, or -1. */
  function LastEndingBy(s: seq<Task>, start: int, k: nat): (j: int)
    requires k <= |s|
    ensures -1 <= j < k
    ensures j >= 0 ==> s[j].endTime <= start
    ensures forall m :: j < m < k ==> start < s[m].endTime
  {
    if k == 0 then -1
    else if s[k - 1].endTime <= start then k - 1
    else LastEndingBy(s, start, k - 1)
  }

  /** The predecessor of task i: the last earlier task that ends by the time
      task i starts, or -1. */
  function Pred(s: seq<Task>, i: nat): int
    requires i < |s|
  {
    LastEndingBy(s, s[i].startTime, i)
  }

  /** Profit of taking task i together with the best of its predecessors. */
  function Include(s: seq<Task>, i: nat): int
    requires i < |s|
    decreases i + 1, 0
  {
    s[i].profit + Opt(s, Pred(s, i))
  }

  /** Profit of leaving task i out: the best of the tasks before it. */
  function Exclude(s: seq<Task>, i: nat): int
    requires i < |s|
    decreases i + 1, 0
  {
    Opt(s, i - 1)
  }

  /** choose[i]: including task i is strictly better than leaving it out;
      on a tie the task is left out. */
  predicate IncludeWins(s: seq<Task>, i: nat)
    requires i < |s|
    decreases i + 1, 1
  {
    Include(s, i) > Exclude(s, i)
  }

  /** dp[i]: the larger of Include and Exclude, Exclude on a tie; 0 for the
      empty prefix (i = -1). */
  function Opt(s: seq<Task>, i: int): int
    requires -1 <= i < |s|
    decreases i + 1, 2
  {
    if i < 0 then 0
    else if IncludeWins(s, i) then Include(s, i)
    else Exclude(s, i)
  }

  /** The tasks the backtrack from index i selects, in ascending order. */
  function Chosen(s: seq<Task>, i: int): seq<Task>
    requires -1 <= i < |s|
    decreases i + 1
  {
    if i < 0 then []
    else if IncludeWins(s, i) then Chosen(s, Pred(s, i)) + [s[i]]
    else Chosen(s, i - 1)
  }

  /** The best total profit of a scheduling run over `tasks`. */
  function MaxProfit(tasks: seq<Task>): int {
    if tasks == [] then 0 else Opt(SortByEnd(tasks), |tasks| - 1)
  }

  /** The tasks a scheduling run over `tasks` returns. */
  function Schedule(tasks: seq<Task>): seq<Task> {
    if tasks == [] then [] else Chosen(SortByEnd(tasks), |tasks| - 1)
  }

  /** j is the largest index of ALL the tasks whose task ends no later than
      task i starts, or -1 when there is none. */
  predicate IsLastEndingBefore(s: seq<Task>, i: nat, j: int)
    requires i < |s|
  {
    && -1 <= j < |s|
    && (j >= 0 ==> s[j].endTime <= s[i].startTime)
    && forall m :: j < m < |s| ==> s[i].startTime < s[m].endTime
  }

  /** With the tasks sorted by end time and each ending after it starts, the
      last task ending by the start of task i, searched over all tasks, lies
      before i and is Pred(s, i). */
  lemma LastOverallIsPred(s: seq<Task>, i: nat, j: int)
    requires SortedByEnd(s) && AllWellFormed(s) && i < |s|
    requires IsLastEndingBefore(s, i, j)
    ensures j < i && j == Pred(s, i)
  {
    assert WellFormed(s[i]);
  }

  /** Why the interval invariant is needed: when task i ends no later than it
      starts, it ends by its own start, so the last task ending by that start,
      searched over all tasks, is task i or a later one. The backtrack's jump
      to p[i] then does not move back. */
  lemma EmptyIntervalIsOwnPredecessor(s: seq<Task>, i: nat, j: int)
    requires i < |s| && s[i].endTime <= s[i].startTime
    requires IsLastEndingBefore(s, i, j)
    ensures i <= j
  {
  }

  /** A single task of length zero, (5, 5, profit 3), is its own predecessor
      in the whole-list search. */
  lemma ZeroLengthTaskExample()
    ensures IsLastEndingBefore([Task(1, "A", 5, 5, 3)], 0, 0)
    ensures !IsLastEndingBefore([Task(1, "A", 5, 5, 3)], 0, -1)
  {
  }

  /** One step of the recurrence, as the DP loop and the backtrack compute it. */
  lemma OptStep(s: seq<Task>, i: nat, p: int, before: int, atPred: int)
    requires i < |s| && p == Pred(s, i)
    requires before == Opt(s, i - 1)
    requires atPred == Opt(s, p)
    ensures Include(s, i) == s[i].profit + atPred
    ensures Exclude(s, i) == before
    ensures IncludeWins(s, i) == (s[i].profit + atPred > before)
    ensures Opt(s, i) == if s[i].profit + atPred > before then s[i].profit + atPred else before
    ensures Chosen(s, i) == if s[i].profit + atPred > before then Chosen(s, p) + [s[i]] else Chosen(s, i - 1)
  {
  }

  /** dp[i] is the maximum of the include and exclude profits. */
  lemma OptIsMax(s: seq<Task>, i: nat)
    requires i < |s|
    ensures Opt(s, i) >= Include(s, i) && Opt(s, i) >= Exclude(s, i)
    ensures Opt(s, i) == Include(s, i) || Opt(s, i) == Exclude(s, i)
  {
  }

  /** dp is non-decreasing. */
  lemma {:induction false} OptNonDecreasing(s: seq<Task>, i: int, j: int)
    requires -1 <= i <= j < |s|
    ensures Opt(s, i) <= Opt(s, j)
    decreases j - i
  {
    if i < j {
      OptNonDecreasing(s, i, j - 1);
      OptIsMax(s, j);
    }
  }

  /** The selection the backtrack recovers earns exactly dp[i]. */
  lemma {:induction false} ChosenProfit(s: seq<Task>, i: int)
    requires -1 <= i < |s|
    ensures TotalProfit(Chosen(s, i)) == Opt(s, i)
    decreases i + 1
  {
    if i >= 0 {
      if IncludeWins(s, i) {
        var c := Chosen(s, Pred(s, i));
        ChosenProfit(s, Pred(s, i));
        assert (c + [s[i]])[..|c|] == c;
      } else {
        ChosenProfit(s, i - 1);
      }
    }
  }

  /** The selection is a subsequence of the first i + 1 sorted tasks. */
  lemma {:induction false} ChosenSubsequence(s: seq<Task>, i: int)
    requires -1 <= i < |s|
    ensures IsSubsequence(Chosen(s, i), s[..i + 1])
    decreases i + 1
  {
    if i >= 0 {
      if IncludeWins(s, i) {
        var p := Pred(s, i);
        var c := Chosen(s, p);
        ChosenSubsequence(s, p);
        SubsequenceOfLongerPrefix(c, s, p + 1, i);
        assert (c + [s[i]])[..|c|] == c;
        assert s[..i + 1][..i] == s[..i];
      } else {
        ChosenSubsequence(s, i - 1);
        SubsequenceOfLongerPrefix(Chosen(s, i - 1), s, i, i + 1);
      }
    }
  }

  /** Every task of the selection from index i is one of the first i + 1
      sorted tasks, and so ends no later than task i. */
  lemma ChosenEndsBy(s: seq<Task>, i: int)
    requires SortedByEnd(s) && 0 <= i < |s|
    ensures forall a :: 0 <= a < |Chosen(s, i)| ==> Chosen(s, i)[a].endTime <= s[i].endTime
  {
    var c := Chosen(s, i);
    ChosenSubsequence(s, i);
    SubsequenceMultiset(c, s[..i + 1]);
    forall a | 0 <= a < |c| ensures c[a].endTime <= s[i].endTime {
      assert c[a] in multiset(s[..i + 1]);
      var b :| 0 <= b <= i && s[b] == c[a];
    }
  }

  /** Over tasks sorted by end time, the selection is conflict-free and
      itself sorted by end time. */
  lemma {:induction false} ChosenConflictFree(s: seq<Task>, i: int)
    requires SortedByEnd(s) && -1 <= i < |s|
    ensures ConflictFree(Chosen(s, i)) && SortedByEnd(Chosen(s, i))
    decreases i + 1
  {
    if i >= 0 {
      if IncludeWins(s, i) {
        var p := Pred(s, i);
        ChosenConflictFree(s, p);
        if p >= 0 {
          ChosenEndsBy(s, p);
          assert s[p].endTime <= s[i].startTime && s[p].endTime <= s[i].endTime;
        }
        AppendLater(Chosen(s, p), s[i]);
      } else {
        ChosenConflictFree(s, i - 1);
      }
    }
  }

  /** Every task of a multiset drawn from the first i sorted tasks that ends
      by the start of task i is drawn from the first Pred(s, i) + 1 tasks. */
  lemma DrawnBeforePred(s: seq<Task>, i: nat, sel: seq<Task>)
    requires i < |s|
    requires multiset(sel) <= multiset(s[..i])
    requires forall a :: 0 <= a < |sel| ==> sel[a].endTime <= s[i].startTime
    ensures multiset(sel) <= multiset(s[..Pred(s, i) + 1])
  {
    var p := Pred(s, i);
    assert s[..i] == s[..p + 1] + s[p + 1..i];
    forall x | x in multiset(sel) ensures multiset(sel)[x] <= multiset(s[..p + 1])[x] {
      assert x !in s[p + 1..i];
    }
  }

  /** A task drawn from the first i sorted tasks and compatible with task i
      ends no later than task i starts. */
  lemma CompatibleBeforeEndsBy(s: seq<Task>, i: nat, sel: seq<Task>)
    requires SortedByEnd(s) && AllWellFormed(s) && i < |s|
    requires multiset(sel) <= multiset(s[..i])
    requires forall a :: 0 <= a < |sel| ==> Compatible(sel[a], s[i])
    ensures forall a :: 0 <= a < |sel| ==> sel[a].endTime <= s[i].startTime
  {
    forall a | 0 <= a < |sel| ensures sel[a].endTime <= s[i].startTime {
      assert sel[a] in multiset(s[..i]);
      var b :| 0 <= b < i && s[b] == sel[a];
      assert WellFormed(s[b]);
    }
  }

  lemma RemoveFromPrefix(s: seq<Task>, i: nat, sel: seq<Task>, k: nat)
    requires i < |s| && k < |sel| && sel[k] == s[i]
    requires multiset(sel) <= multiset(s[..i + 1])
    ensures multiset(sel[..k] + sel[k + 1..]) <= multiset(s[..i])
  {
    assert s[..i + 1] == s[..i] + [s[i]];
    RemoveAtMultiset(sel, k);
    var a, b := multiset(sel), multiset(s[..i]);
    assert a <= b + multiset{s[i]};
    forall x ensures (a - multiset{s[i]})[x] <= b[x] {
    }
  }

  /** Taking task i out of a conflict-free selection drawn from the first
      i + 1 sorted tasks leaves a conflict-free selection drawn from the first
      Pred(s, i) + 1 tasks, whose profit is less by the profit of task i. */
  lemma TakeOutLast(s: seq<Task>, i: nat, sel: seq<Task>, k: nat)
    requires SortedByEnd(s) && AllWellFormed(s) && i < |s|
    requires multiset(sel) <= multiset(s[..i + 1]) && ConflictFree(sel)
    requires k < |sel| && sel[k] == s[i]
    ensures multiset(sel[..k] + sel[k + 1..]) <= multiset(s[..Pred(s, i) + 1])
    ensures ConflictFree(sel[..k] + sel[k + 1..])
    ensures TotalProfit(sel) == TotalProfit(sel[..k] + sel[k + 1..]) + s[i].profit
  {
    var rest := sel[..k] + sel[k + 1..];
    RemoveAtProfit(sel, k);
    RemoveAtConflictFree(sel, k);
    RemoveAtCompatible(sel, k, rest);
    RemoveFromPrefix(s, i, sel, k);
    CompatibleBeforeEndsBy(s, i, rest);
    DrawnBeforePred(s, i, rest);
  }

  /** dp[i] is an upper bound on the profit of every conflict-free selection
      drawn from the first i + 1 sorted tasks. */
  lemma {:induction false} OptIsUpperBound(s: seq<Task>, i: int, sel: seq<Task>)
    requires SortedByEnd(s) && AllWellFormed(s) && -1 <= i < |s|
    requires multiset(sel) <= multiset(s[..i + 1]) && ConflictFree(sel)
    ensures TotalProfit(sel) <= Opt(s, i)
    decreases i + 1
  {
    if i < 0 {
      assert sel == [];
    } else if s[i] !in sel {
      assert s[..i + 1] == s[..i] + [s[i]];
      assert multiset(sel) <= multiset(s[..i]);
      OptIsUpperBound(s, i - 1, sel);
      OptNonDecreasing(s, i - 1, i);
    } else {
      var k :| 0 <= k < |sel| && sel[k] == s[i];
      TakeOutLast(s, i, sel, k);
      OptIsUpperBound(s, Pred(s, i), sel[..k] + sel[k + 1..]);
      OptIsMax(s, i);
    }
  }

  /** The selection of a run is a subsequence of the sorted tasks, drawn from
      the input, conflict-free, in ascending order of end time, and its profit
      is the best profit. */
  lemma ScheduleAttainsMax(tasks: seq<Task>)
    ensures IsSubsequence(Schedule(tasks), SortByEnd(tasks))
    ensures Feasible(Schedule(tasks), tasks)
    ensures SortedByEnd(Schedule(tasks))
    ensures TotalProfit(Schedule(tasks)) == MaxProfit(tasks)
  {
    if tasks != [] {
      var s := SortByEnd(tasks);
      var n := |tasks|;
      ChosenSubsequence(s, n - 1);
      assert s[..n] == s;
      SubsequenceMultiset(Chosen(s, n - 1), s);
      ChosenConflictFree(s, n - 1);
      ChosenProfit(s, n - 1);
    }
  }

  /** No conflict-free selection from the input earns more than MaxProfit. */
  lemma MaxProfitIsOptimal(tasks: seq<Task>, sel: seq<Task>)
    requires AllWellFormed(tasks) && Feasible(sel, tasks)
    ensures TotalProfit(sel) <= MaxProfit(tasks)
  {
    if tasks == [] {
      assert sel == [];
    } else {
      var s := SortByEnd(tasks);
      var n := |tasks|;
      assert s[..n] == s;
      forall b | 0 <= b < n ensures WellFormed(s[b]) {
        assert s[b] in multiset(tasks);
      }
      OptIsUpperBound(s, n - 1, sel);
    }
  }

  /** The best profit does not depend on the order of the input. */
  lemma MaxProfitOrderInvariant(tasks: seq<Task>, shuffled: seq<Task>)
    requires AllWellFormed(tasks) && multiset(shuffled) == multiset(tasks)
    ensures MaxProfit(shuffled) == MaxProfit(tasks)
  {
    forall b | 0 <= b < |shuffled| ensures WellFormed(shuffled[b]) {
      assert shuffled[b] in multiset(tasks);
    }
    ScheduleAttainsMax(tasks);
    ScheduleAttainsMax(shuffled);
    MaxProfitIsOptimal(tasks, Schedule(shuffled));
    MaxProfitIsOptimal(shuffled, Schedule(tasks));
  }
}
