/** `weighted_interval_scheduling`: sort the tasks by end time, find each
    task's predecessor by binary search, fill the DP table, backtrack from the
    last index and reverse the picked tasks. */
module Scheduler {
  import opened Tasks
  import opened Sequences
  import opened StableSort
  import opened Bisect
  import opened Recurrence

  /** p[i] for every task: one less than the right insertion point of the
      task's start time among the sorted end times. */
  method Predecessors(sorted: seq<Task>) returns (p: seq<int>)
    requires SortedByEnd(sorted) && AllWellFormed(sorted)
    ensures |p| == |sorted|
    ensures forall i :: 0 <= i < |p| ==> IsLastEndingBefore(sorted, i, p[i])
    ensures forall i :: 0 <= i < |p| ==> p[i] < i && p[i] == Pred(sorted, i)
  {
    var n := |sorted|;
    var endTimes := seq(n, k requires 0 <= k < n => sorted[k].endTime);
    assert Ascending(endTimes);
    p := [];
    for i := 0 to n
      invariant |p| == i
      invariant forall j :: 0 <= j < i ==> IsLastEndingBefore(sorted, j, p[j])
      invariant forall j :: 0 <= j < i ==> p[j] < j && p[j] == Pred(sorted, j)
    {
      var idx := BisectRight(endTimes, sorted[i].startTime);
      assert forall m :: 0 <= m < n ==> endTimes[m] == sorted[m].endTime;
      assert IsLastEndingBefore(sorted, i, idx - 1);
      LastOverallIsPred(sorted, i, idx - 1);
      p := p + [idx - 1];
    }
  }

  /** The DP table: dp[i] is the larger of the include and exclude profits,
      and choose[i] holds exactly when including task i is strictly better. */
  method FillTable(sorted: seq<Task>, p: seq<int>) returns (dp: seq<int>, choose: seq<bool>)
    requires |p| == |sorted|
    requires forall i :: 0 <= i < |p| ==> p[i] == Pred(sorted, i)
    ensures |dp| == |sorted| && |choose| == |sorted|
    ensures forall i :: 0 <= i < |dp| ==> dp[i] == Opt(sorted, i)
    ensures forall i :: 0 <= i < |choose| ==> choose[i] == IncludeWins(sorted, i)
    ensures forall i, j :: 0 <= i <= j < |dp| ==> dp[i] <= dp[j]
  {
    var n := |sorted|;
    var table := new int[n];
    var picks := new bool[n];
    for i := 0 to n
      invariant forall j :: 0 <= j < i ==> table[j] == Opt(sorted, j)
      invariant forall j :: 0 <= j < i ==> picks[j] == IncludeWins(sorted, j)
    {
      var includeProfit := sorted[i].profit + (if p[i] >= 0 then table[p[i]] else 0);
      var excludeProfit := if i > 0 then table[i - 1] else 0;
      OptStep(sorted, i, p[i], excludeProfit, if p[i] >= 0 then table[p[i]] else 0);
      if includeProfit > excludeProfit {
        table[i] := includeProfit;
        picks[i] := true;
      } else {
        table[i] := excludeProfit;
        picks[i] := false;
      }
    }
    dp, choose := table[..], picks[..];
    forall i, j | 0 <= i <= j < n ensures dp[i] <= dp[j] {
      OptNonDecreasing(sorted, i, j);
    }
  }

  /** Walks back from the last index, taking task i and jumping to p[i] when
      including it is strictly better, otherwise stepping to i - 1, then
      reverses what it took. */
  method Backtrack(sorted: seq<Task>, p: seq<int>, dp: seq<int>) returns (selected: seq<Task>)
    requires SortedByEnd(sorted)
    requires |p| == |sorted| && |dp| == |sorted|
    requires forall i :: 0 <= i < |p| ==> p[i] == Pred(sorted, i)
    requires forall i :: 0 <= i < |dp| ==> dp[i] == Opt(sorted, i)
    ensures selected == Chosen(sorted, |sorted| - 1)
    ensures IsSubsequence(selected, sorted)
    ensures ConflictFree(selected) && SortedByEnd(selected)
    ensures TotalProfit(selected) == if sorted == [] then 0 else dp[|sorted| - 1]
  {
    var n := |sorted|;
    var picked: seq<Task> := [];
    var i := n - 1;
    while i >= 0
      invariant -1 <= i < n
      invariant Chosen(sorted, n - 1) == Chosen(sorted, i) + Reverse(picked)
      decreases i
    {
      var includeProfit := sorted[i].profit + (if p[i] >= 0 then dp[p[i]] else 0);
      var excludeProfit := if i > 0 then dp[i - 1] else 0;
      OptStep(sorted, i, p[i], excludeProfit, if p[i] >= 0 then dp[p[i]] else 0);
      if includeProfit > excludeProfit {
        ReverseSnoc(picked, sorted[i]);
        picked := picked + [sorted[i]];
        i := p[i];
      } else {
        i := i - 1;
      }
    }
    selected := Reverse(picked);
    ChosenSubsequence(sorted, n - 1);
    assert sorted[..n] == sorted;
    ChosenConflictFree(sorted, n - 1);
    ChosenProfit(sorted, n - 1);
  }

  /** The maximum-profit set of pairwise non-overlapping tasks, in ascending
      order of end time, and its total profit. */
  method WeightedIntervalScheduling(tasks: seq<Task>) returns (selected: seq<Task>, totalProfit: int)
    requires AllWellFormed(tasks)
    ensures tasks == [] ==> selected == [] && totalProfit == 0
    ensures selected == Schedule(tasks) && totalProfit == MaxProfit(tasks)
    ensures IsSubsequence(selected, SortByEnd(tasks)) && multiset(selected) <= multiset(tasks)
    ensures ConflictFree(selected) && SortedByEnd(selected)
    ensures TotalProfit(selected) == totalProfit
    ensures forall sel :: Feasible(sel, tasks) ==> TotalProfit(sel) <= totalProfit
  {
    if |tasks| == 0 {
      return [], 0;
    }
    var sorted := SortByEnd(tasks);
    var n := |sorted|;
    forall b | 0 <= b < n ensures WellFormed(sorted[b]) {
      assert sorted[b] in multiset(tasks);
    }
    var p := Predecessors(sorted);
    var dp, choose := FillTable(sorted, p);
    selected := Backtrack(sorted, p, dp);
    totalProfit := dp[n - 1];
    ScheduleAttainsMax(tasks);
    forall sel | Feasible(sel, tasks) ensures TotalProfit(sel) <= totalProfit {
      MaxProfitIsOptimal(tasks, sel);
    }
  }

  /** A task ending exactly when another starts does not conflict with it:
      both are selected. */
  lemma BackToBackBothSelected()
    ensures var a, b := Task(1, "A", 0, 5, 3), Task(2, "B", 5, 10, 4);
      Schedule([a, b]) == [a, b] && MaxProfit([a, b]) == 7
  {
    var a, b := Task(1, "A", 0, 5, 3), Task(2, "B", 5, 10, 4);
    var s := SortByEnd([a, b]);
    assert s == [a, b];
    assert Pred(s, 0) == -1 && Pred(s, 1) == 0;
    assert Opt(s, 0) == 3 && Chosen(s, 0) == [a];
    assert IncludeWins(s, 1);
  }

  /** Of two overlapping tasks only the more profitable one is selected. */
  lemma OverlapKeepsBetter()
    ensures var a, b := Task(1, "A", 0, 10, 5), Task(2, "B", 5, 15, 6);
      Schedule([a, b]) == [b] && MaxProfit([a, b]) == 6
  {
    var a, b := Task(1, "A", 0, 10, 5), Task(2, "B", 5, 15, 6);
    var s := SortByEnd([a, b]);
    assert s == [a, b];
    assert Pred(s, 0) == -1 && Pred(s, 1) == -1;
    assert Opt(s, 0) == 5 && Chosen(s, 0) == [a];
    assert IncludeWins(s, 1);
  }

  /** On a tie between including and excluding a task, the task is left out:
      of two overlapping tasks of equal profit the one ending first is kept. */
  lemma TieKeepsEarlier()
    ensures var a, b := Task(1, "A", 0, 10, 5), Task(2, "B", 5, 15, 5);
      Schedule([b, a]) == [a] && MaxProfit([b, a]) == 5
  {
    var a, b := Task(1, "A", 0, 10, 5), Task(2, "B", 5, 15, 5);
    var s := SortByEnd([b, a]);
    assert s == [a, b];
    assert Pred(s, 0) == -1 && Pred(s, 1) == -1;
    assert Opt(s, 0) == 5 && Chosen(s, 0) == [a];
    assert !IncludeWins(s, 1);
  }

  /** Of two tasks with the same interval and the same positive profit, the
      one given first is selected: the sort keeps their order, and the second
      only ties the first. */
  lemma FirstOfTwinsKept(x: Task, y: Task)
    requires WellFormed(x) && x.profit > 0
    requires y.startTime == x.startTime && y.endTime == x.endTime && y.profit == x.profit
    ensures Schedule([x, y]) == [x] && MaxProfit([x, y]) == x.profit
  {
    var s := SortByEnd([x, y]);
    assert SortByEnd([y]) == [y];
    assert s == [x, y];
    assert Pred(s, 0) == -1 && Pred(s, 1) == -1;
    assert Opt(s, 0) == x.profit && Chosen(s, 0) == [x];
    assert !IncludeWins(s, 1);
  }

  /** The selected tasks can depend on the input order even though the best
      profit does not: of two tasks with the same interval and profit, the
      one given first is kept. */
  lemma SelectionFollowsInputOrder()
    ensures var a, b := Task(1, "A", 0, 10, 5), Task(2, "B", 0, 10, 5);
      Schedule([a, b]) == [a] && Schedule([b, a]) == [b] && MaxProfit([a, b]) == MaxProfit([b, a]) == 5
  {
    var a, b := Task(1, "A", 0, 10, 5), Task(2, "B", 0, 10, 5);
    FirstOfTwinsKept(a, b);
    FirstOfTwinsKept(b, a);
  }
}
