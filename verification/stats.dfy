/** The figures the statistics panel derives from the task list: the four counts,
    the completion percentage, and the conditions under which each of the three
    insights is shown. */
module Stats {
  import opened Tasks
  import opened Seqs
  import opened Query

  /** The number of completed tasks. */
  function CompletedTasks(tasks: seq<Task>): (n: nat)
    ensures n <= |tasks|
    ensures n == 0 <==> forall k :: 0 <= k < |tasks| ==> !tasks[k].completed
  {
    FilterEmpty(tasks, (t: Task) => t.completed);
    |Filter(tasks, (t: Task) => t.completed)|
  }

  /** The total less the completed ones. */
  function PendingTasks(tasks: seq<Task>): (n: int)
    ensures 0 <= n <= |tasks|
  {
    |tasks| - CompletedTasks(tasks)
  }

  /** The number of tasks that are overdue at `now`. */
  function OverdueTasks(tasks: seq<Task>, now: int): (n: nat)
    ensures n <= |tasks|
    ensures n == 0 <==> forall k :: 0 <= k < |tasks| ==> !IsOverdue(tasks[k], now)
  {
    FilterEmpty(tasks, t => IsOverdue(t, now));
    |Filter(tasks, t => IsOverdue(t, now))|
  }

  /** `Math.round(completed / total * 100)`, or 0 for an empty list, in exact
      arithmetic: the nearest whole percentage, halves rounded up. */
  function CompletionRate(tasks: seq<Task>): (r: int)
    ensures 0 <= r <= 100
    ensures |tasks| == 0 ==> r == 0
    ensures CompletedTasks(tasks) == 0 ==> r == 0
    ensures |tasks| > 0 && CompletedTasks(tasks) == |tasks| ==> r == 100
  {
    var total, done := |tasks|, CompletedTasks(tasks);
    if total > 0 then
      RoundedPercent(done, total);
      (200 * done + total) / (2 * total)
    else 0
  }

  lemma DivBelow(n: int, d: int, m: int)
    requires d > 0 && 0 <= n < d * m
    ensures n / d < m
  {
  }

  lemma MulMonotone(d: int, a: int, b: int)
    requires d >= 0 && a <= b
    ensures d * a <= d * b
  {
    assert d * b - d * a == d * (b - a);
  }

  lemma DivAbove(n: int, d: int, m: int)
    requires d > 0 && 0 <= d * m <= n
    ensures m <= n / d
  {
    var q := n / d;
    assert n < d * q + d;
    if q < m {
      assert d * (m - 1) == d * m - d;
      MulMonotone(d, q, m - 1);
    }
  }

  /** The rounded percentage of `c` out of `t` lies between 0 and 100 and hits
      both ends exactly. */
  lemma RoundedPercent(c: int, t: int)
    requires 0 <= c <= t && 0 < t
    ensures 0 <= (200 * c + t) / (2 * t) <= 100
    ensures c == 0 ==> (200 * c + t) / (2 * t) == 0
    ensures c == t ==> (200 * c + t) / (2 * t) == 100
  {
    var n, d := 200 * c + t, 2 * t;
    assert n < d * 101 by { assert 200 * c <= 200 * t; }
    DivBelow(n, d, 101);
    if c == t {
      assert d * 100 <= n;
      DivAbove(n, d, 100);
    }
    if c == 0 {
      DivBelow(n, d, 1);
    }
  }

  /** The percentage is within one half of the exact ratio, and a tie goes up. */
  lemma RateIsNearest(tasks: seq<Task>)
    requires |tasks| > 0
    ensures var r, t, c := CompletionRate(tasks), |tasks|, CompletedTasks(tasks);
      2 * t * r - t <= 200 * c < 2 * t * r + t
  {
  }

  /** "Great job": at least 80 percent done. */
  predicate GreatJob(tasks: seq<Task>)
    ensures GreatJob(tasks) ==> |tasks| > 0 && CompletedTasks(tasks) > 0
  {
    CompletionRate(tasks) >= 80
  }

  /** The overdue warning. */
  predicate OverdueAlert(tasks: seq<Task>, now: int)
    ensures OverdueAlert(tasks, now) ==> PendingTasks(tasks) > 0
  {
    OverdueAtMostPending(tasks, now);
    OverdueTasks(tasks, now) > 0
  }

  /** "All tasks completed". */
  predicate AllDone(tasks: seq<Task>)
    ensures AllDone(tasks) ==> CompletionRate(tasks) == 100
  {
    PendingTasks(tasks) == 0 && |tasks| > 0
  }

  /** The pending count, although computed by subtraction, counts exactly the
      tasks that are not completed. */
  lemma PendingCountsIncomplete(tasks: seq<Task>)
    ensures PendingTasks(tasks) == |Filter(tasks, (t: Task) => !t.completed)|
    ensures CompletedTasks(tasks) + |Filter(tasks, (t: Task) => !t.completed)| == |tasks|
  {
    FilterPartition(tasks, (t: Task) => t.completed, (t: Task) => !t.completed);
  }

  /** An overdue task is a pending one, so there are never more overdue tasks
      than pending ones. */
  lemma OverdueAtMostPending(tasks: seq<Task>, now: int)
    ensures OverdueTasks(tasks, now) <= PendingTasks(tasks)
  {
    PendingCountsIncomplete(tasks);
    FilterMonotone(tasks, t => IsOverdue(t, now), (t: Task) => !t.completed);
  }

  /** The panel's counts agree with the lengths of the lists the query returns
      for the matching status filter, whatever the sort key. */
  lemma CountsMatchQuery(tasks: seq<Task>, sortBy: SortKey, now: int)
    ensures CompletedTasks(tasks) == |View(tasks, Completed, "", sortBy, now)|
    ensures PendingTasks(tasks) == |View(tasks, Pending, "", sortBy, now)|
    ensures OverdueTasks(tasks, now) == |View(tasks, Overdue, "", sortBy, now)|
    ensures |tasks| == |View(tasks, All, "", sortBy, now)|
  {
    PendingCountsIncomplete(tasks);
    FilterSamePredicate(tasks, (t: Task) => t.completed, (t: Task) => PassesStatus(Completed, t, now));
    FilterSamePredicate(tasks, (t: Task) => !t.completed, (t: Task) => PassesStatus(Pending, t, now));
    FilterSamePredicate(tasks, t => IsOverdue(t, now), (t: Task) => PassesStatus(Overdue, t, now));
    assert Filter(tasks, (t: Task) => t.completed) == Selected(tasks, Completed, "", now);
    assert Filter(tasks, (t: Task) => !t.completed) == Selected(tasks, Pending, "", now);
    assert Filter(tasks, t => IsOverdue(t, now)) == Selected(tasks, Overdue, "", now);
  }

  /** "All tasks completed" shows exactly when the list is non-empty and every
      task in it is completed. */
  lemma AllDoneIff(tasks: seq<Task>)
    ensures AllDone(tasks) <==> |tasks| > 0 && forall k :: 0 <= k < |tasks| ==> tasks[k].completed
  {
    PendingCountsIncomplete(tasks);
    FilterEmpty(tasks, (t: Task) => !t.completed);
  }

  /** When everything is done, the rate is 100, "Great job" shows too, and no
      overdue warning can show. */
  lemma AllDoneInsights(tasks: seq<Task>, now: int)
    requires AllDone(tasks)
    ensures CompletionRate(tasks) == 100 && GreatJob(tasks)
    ensures !OverdueAlert(tasks, now)
  {
    OverdueAtMostPending(tasks, now);
  }
}
