# Weighted interval scheduling, modelled in Dafny

The application records tasks. Each task has an identifier, a name, integer start and end times, and an integer profit. It computes the most profitable set of tasks that do not overlap. Two tasks overlap unless one ends no later than the other starts, so back-to-back tasks are allowed. The scheduling function `weighted_interval_scheduling` in `app.py` does this in four steps:

1. It stable-sorts the tasks by end time.
2. For each task it finds a predecessor: the last task that ends by the time this one starts. It uses `bisect_right` over the sorted end times.
3. It fills a DP table with `dp[i] = max(profit[i] + dp[p[i]], dp[i-1])`. The comparison is strict `>`, so on a tie the task is left out.
4. It walks back from the last index to recover the chosen tasks, then reverses them.

This project models that function and the `Task` record. It proves the following:

- the selection is conflict-free;
- the selection is drawn from the input;
- the selection is in ascending order of end time;
- the selection's profits add up to the returned total;
- no conflict-free selection from the input earns more than that total.

The files:

- `tasks.dfy` (module `Tasks`): the `Task` datatype. Predicates for the interval invariant (`WellFormed`), compatibility, conflict-freedom and order by end time. `TotalProfit`, and `Feasible`, which says a selection is a sub-multiset of the input with no two tasks overlapping.
- `sequences.dfy` (module `Sequences`): subsequences, and the reversal done by `selected.reverse()`.
- `sorting.dfy` (module `StableSort`): `sorted(tasks, key=lambda t: t.end_time)` as a functional insertion sort. It is proved sorted, a permutation and stable, and proved to be the only stable sort by end time.
- `bisect.dfy` (module `Bisect`): `bisect_right`, written as the standard library's binary-search loop.
- `recurrence.dfy` (module `Recurrence`): the dynamic program as functions over the sorted tasks. `Pred` is the predecessor, found by a linear scan. `Include`, `Exclude` and `IncludeWins` give the two candidate profits and the strict tie-break. `Opt` is the value of `dp[i]`; `Chosen` is the selection the backtrack recovers. `MaxProfit` and `Schedule` give the whole run. The file also holds the optimality proof.
- `scheduler.dfy` (module `Scheduler`): the imperative function. `Predecessors` is the loop that builds `p` by appending binary-search results. `FillTable` fills `dp` and `choose` in arrays. `Backtrack` is the `while` loop that appends to `selected` and then reverses it. `WeightedIntervalScheduling` ties the steps together. Worked examples follow.

Three points where the model's reading of the code needs stating:

- **Predecessor search.** The comment at `app.py:83` calls `p[i]` the last task that does not conflict with task `i`, which in the textbook recurrence is the largest index `j < i` whose task ends by the start of task `i`. The code's binary search runs over all `n` end times, not only those before `i`. `Recurrence.LastOverallIsPred` proves the two agree when every task ends after it starts. Without that invariant they differ, and the code may not terminate (see "## Left out").
- **Order of the selection.** One might expect any order of the same input to give the same selected subset. The code does not do this. Tasks with equal end times keep their input order, and the strict tie-break keeps whichever of two equal tasks came first, so only the total profit is independent of order. `Recurrence.MaxProfitOrderInvariant` proves that the total is independent of order. `Scheduler.SelectionFollowsInputOrder` gives an input whose selected task changes when the input is reordered.
- **Numbers.** Times and profits are Python `int`s, so the model uses Dafny's unbounded `int` and no overflow is modelled. The algorithm would work for any totally ordered numeric type; the model fixes it to the integers the code uses. Profits may have any sign.

## Model

| member | source | states |
|---|---|---|
| `StableSort.SortByEnd` | app.py:77 | The result has the input's length, is in non-decreasing order of end time, and is a permutation of the input (equal multisets). |
| `StableSort.SortByEndStable` | app.py:77 | For every end time k, the tasks ending at k appear in the sorted result in the same order as in the input (the sort is stable). |
| `StableSort.StableSortUnique` | app.py:77 | A sequence that is sorted by end time and keeps the input order of the tasks of each end time is exactly `SortByEnd` of the input. So the model's sort is Python's stable `sorted`. |
| `Bisect.BisectRight` | app.py:86 | On an ascending list, the result lies in 0..len. Every entry before it is at most x, and every entry from it on is greater than x. This is `bisect_right`'s insertion point. |
| `Recurrence.LastEndingBy` | app.py:83-87 | The result j satisfies -1 <= j < k. When j >= 0, task j ends no later than `start`. Every task between j and k ends after `start`. So j is the largest such index, or -1. |
| `Recurrence.LastOverallIsPred` | app.py:81-87 | For tasks sorted by end time, each ending after it starts: if j is the last of ALL tasks ending by the start of task i, then j < i and j equals `Pred(s, i)`. |
| `Recurrence.EmptyIntervalIsOwnPredecessor` | app.py:83-87 | When task i ends no later than it starts, the last task of the whole list ending by its start is task i or a later one, so p[i] >= i and the jump `i = p[i]` at app.py:113 does not move back. This is what goes wrong without the interval invariant. |
| `Recurrence.ZeroLengthTaskExample` | app.py:86 | For the single task (5, 5, profit 3) the whole-list search gives 0, the task itself, and not -1. |
| `Scheduler.Predecessors` | app.py:80-87 | `bisect_right(end_times, start) - 1` gives each p[i]. p[i] is the last index of the whole sorted list whose task ends by the start of task i, or -1. Also p[i] < i and p[i] == `Pred(sorted, i)`. |
| `Recurrence.OptIsMax` | app.py:93-102 | dp[i] is at least both the include profit and the exclude profit, and equals one of them. |
| `Recurrence.OptNonDecreasing` | app.py:93-102 | For -1 <= i <= j, dp[i] <= dp[j]. |
| `Scheduler.FillTable` | app.py:89-102 | Each dp[i] equals `Opt(sorted, i)`. choose[i] holds exactly when the include profit is strictly greater than the exclude profit (exclude wins a tie). dp is non-decreasing. |
| `Recurrence.OptIsUpperBound` | app.py:89-102 | No conflict-free selection drawn (as a sub-multiset) from the first i+1 sorted tasks has total profit above dp[i]. |
| `Recurrence.ChosenProfit` | app.py:104-115 | The tasks the backtrack collects from index i have total profit exactly dp[i]. |
| `Recurrence.ChosenSubsequence` | app.py:105-115 | The backtracked tasks from index i form a subsequence of the first i+1 sorted tasks. |
| `Recurrence.ChosenConflictFree` | app.py:105-117 | Over tasks sorted by end time, the backtracked selection, once reversed, is conflict-free and in ascending order of end time. |
| `Sequences.Reverse` | app.py:117 | The reversed list has the same length, and its element k is the original's element n-1-k. |
| `Scheduler.Backtrack` | app.py:104-118 | The while loop walks back from n-1, jumping to p[i] or stepping to i-1, and then reverses. The result equals `Chosen(sorted, n-1)`. It is a subsequence of the sorted tasks, conflict-free, and ascending by end time. Its profit is dp[n-1], or 0 when there are no tasks. |
| `Recurrence.ScheduleAttainsMax` | app.py:60-119 | The selection of a run is a subsequence of the sorted tasks and a feasible selection from the input. It is ascending by end time, and its profit equals `MaxProfit`. |
| `Recurrence.MaxProfitIsOptimal` | app.py:60-119 | For well-formed input, no feasible selection from the input has profit above `MaxProfit`. |
| `Recurrence.MaxProfitOrderInvariant` | app.py:76-78 | Two well-formed inputs with the same tasks in any order have the same best profit. |
| `Scheduler.WeightedIntervalScheduling` | app.py:60-119 | Empty input gives ([], 0). Otherwise the result equals `Schedule(tasks)` and `MaxProfit(tasks)`. The selection is a subsequence of the sorted tasks and a sub-multiset of the input. It is conflict-free and ascending by end time. Its profits sum to the returned total, and no feasible selection from the input earns more. |
| `Scheduler.BackToBackBothSelected` | app.py:60-119 | Tasks (0,5,profit 3) and (5,10,profit 4) are both selected, for a total of 7. |
| `Scheduler.OverlapKeepsBetter` | app.py:60-119 | Of the overlapping tasks (0,10,5) and (5,15,6), only the second is selected, for a total of 6. |
| `Scheduler.TieKeepsEarlier` | app.py:97-102 | For overlapping tasks of equal profit, the include and exclude profits tie at the second task. The task is left out, so only the first task is selected. |
| `Scheduler.FirstOfTwinsKept` | app.py:77-102 | For two well-formed tasks with the same interval and the same positive profit, the sort keeps them in input order and the second only ties the first, so the run selects the first and earns its profit. |
| `Scheduler.SelectionFollowsInputOrder` | app.py:77 | Two tasks with the same interval and profit: whichever is given first is the one selected. The best profit is the same for both orders. |

## Left out

- The Flask application, its routes and its templates (`dashboard`, `view_tasks`, `add_task`, `edit_task`, `delete_task`, `generate_schedule`) are left out. They are web plumbing around the scheduler.
- SQLite access (`get_db`, `close_db`, `init_db` and the queries) is left out. It is I/O and resource scoping.
- Form parsing and flash messages are left out, because they are I/O. The check of the add and edit forms that rejects `end_time <= start_time` (app.py:151 and app.py:182) becomes the precondition `AllWellFormed` on the scheduler's input.
- WeightedIntervalScheduling: does not model a run on a task with `end_time <= start_time`, because on such input `p[i] >= i` and the code may not terminate. On the single task (5, 5, profit 3) it does not terminate. `bisect_right([5], 5) - 1` is 0, so `p[0] == 0` and `dp[0] == 3`. The backtrack's include profit is `3 + dp[0] == 6 > 0`, so it sets `i = p[0] = 0` again (app.py:107-113) and appends to `selected` forever. On other such inputs, such as the single task (5, 5, profit 0), it terminates. There the include profit `0 + dp[0]` is not above 0, so the run returns `([], 0)`. Even then the DP step at app.py:94 reads the entry `dp[p[i]]` with `p[i] >= i`, which it has not yet filled. The model does not say what happens on such input. `AllWellFormed` rules this input out. `Recurrence.LastOverallIsPred` is where it is used: it gives `p[i] < i`, which is the decrease of the backtrack loop. `Recurrence.EmptyIntervalIsOwnPredecessor` and `Recurrence.ZeroLengthTaskExample` state what goes wrong without it.
- The dashboard's total of all profits is left out. It is a one-line aggregate in a view.
- `bisect_right` comes from Python's standard library, not from app.py. It is modelled as the library's documented binary-search loop. It requires an ascending list, which is that function's own precondition, and the sorted end times always meet it.
- `sorted` is a library call that returns a new list. It is modelled as a value (a functional insertion sort), not as the library's algorithm. `StableSortUnique` proves that the result is the stable sort.
- `selected.reverse()` works in place on the list. It is modelled as a value-level reversal of the sequence that the backtrack has built, so the model does not capture the in-place update.
- The `choose` list is computed as in the code, where it is a local that is never read or returned (app.py:91-102). `FillTable` returns it, and `WeightedIntervalScheduling` discards it, so no property of the run depends on it.
