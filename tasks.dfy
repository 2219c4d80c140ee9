/** The task record of TodoApp and the pure queries it runs over its task list. */
module Tasks {

  datatype Option<+T> = None | Some(value: T)

  /** Milliseconds in one hour: getDeadlineClass measures the distance to a deadline in hours. */
  const HourMs: int := 1000 * 60 * 60

  /** A task as addTask builds it. Timestamps are milliseconds since the epoch; `deadline` is
      None where the source stores null (no deadline was entered). `points` is the reward. */
  datatype Task = Task(
    id: int,
    text: string,
    completed: bool,
    createdAt: int,
    deadline: Option<int>,
    points: int)

  /** The urgency class getDeadlineClass gives a task: '' (NoClass), 'overdue' or 'due-soon'. */
  datatype DeadlineClass = NoClass | Overdue | DueSoon

  /** The counters getTaskStats returns. */
  datatype TaskStats = TaskStats(total: int, completed: int, remaining: int)

  /** isOverdue: a deadline is overdue once it lies strictly before the current time. */
  function IsOverdue(deadline: int, now: int): (b: bool)
    ensures b <==> now > deadline
    ensures now == deadline ==> !b
  {
    deadline < now
  }

  /** Once a deadline is overdue it stays overdue as the clock moves on. */
  lemma OverdueStaysOverdue(deadline: int, now: int, later: int)
    requires IsOverdue(deadline, now) && now <= later
    ensures IsOverdue(deadline, later)
  {
  }

  /** The reward a task stands for, `task.points || 10`: a zero reward falls back to 10. */
  function BaseValue(t: Task): (r: int)
    ensures r != 0
    ensures t.points >= 0 ==> r > 0
  {
    if t.points == 0 then 10 else t.points
  }

  /** The points awardPoints adds on completion: the base value, plus a bonus of 5 exactly when
      the task has a deadline that is not yet overdue at `now`. */
  function AwardValue(t: Task, now: int): (r: int)
    ensures r == BaseValue(t) || r == BaseValue(t) + 5
    ensures r == BaseValue(t) + 5 <==> t.deadline.Some? && now <= t.deadline.value
  {
    var base := BaseValue(t);
    if t.deadline.Some? && !IsOverdue(t.deadline.value, now) then base + 5 else base
  }

  /** findIndex by id: the position of the first task carrying `id`, or -1 when there is none. */
  function FirstIndex(ts: seq<Task>, id: int): (r: int)
    ensures -1 <= r < |ts|
    ensures r == -1 <==> forall k :: 0 <= k < |ts| ==> ts[k].id != id
    ensures 0 <= r ==> ts[r].id == id && forall k :: 0 <= k < r ==> ts[k].id != id
  {
    if |ts| == 0 then -1
    else if ts[0].id == id then 0
    else
      var r := FirstIndex(ts[1..], id);
      if r == -1 then -1 else r + 1
  }

  /** The number of completed tasks, `tasks.filter(t => t.completed).length`. */
  function CountCompleted(ts: seq<Task>): (n: nat)
    ensures n <= |ts|
    ensures n == 0 <==> forall k :: 0 <= k < |ts| ==> !ts[k].completed
    ensures n == |ts| <==> forall k :: 0 <= k < |ts| ==> ts[k].completed
  {
    if |ts| == 0 then 0
    else
      var rest := CountCompleted(ts[1..]);
      assert forall k :: 1 <= k < |ts| ==> ts[k] == ts[1..][k - 1];
      (if ts[0].completed then 1 else 0) + rest
  }

  /** getTaskStats: the three counters add up and none is negative. */
  function GetTaskStats(ts: seq<Task>): (r: TaskStats)
    ensures r.total == |ts|
    ensures r.total == r.completed + r.remaining
    ensures 0 <= r.completed <= r.total && 0 <= r.remaining
    ensures r.completed == 0 <==> forall k :: 0 <= k < |ts| ==> !ts[k].completed
    ensures r.remaining == 0 <==> forall k :: 0 <= k < |ts| ==> ts[k].completed
  {
    var total := |ts|;
    var completed := CountCompleted(ts);
    TaskStats(total, completed, total - completed)
  }

  /** The tasks clearCompleted keeps, `tasks.filter(t => !t.completed)`: only incomplete tasks,
      every incomplete task, and as many as the stats call remaining. */
  function Incomplete(ts: seq<Task>): (r: seq<Task>)
    ensures forall t :: t in r ==> t in ts && !t.completed
    ensures forall t :: t in ts && !t.completed ==> t in r
    ensures forall k :: 0 <= k < |r| ==> !r[k].completed
    ensures |r| == |ts| - CountCompleted(ts)
  {
    if |ts| == 0 then []
    else
      assert forall t :: t in ts ==> t == ts[0] || t in ts[1..];
      (if ts[0].completed then [] else [ts[0]]) + Incomplete(ts[1..])
  }

  /** `a` is `b` with some elements left out and the rest in their original order. */
  predicate IsSubsequence(a: seq<Task>, b: seq<Task>)
    decreases |b|
  {
    if b == [] then a == []
    else (a != [] && a[0] == b[0] && IsSubsequence(a[1..], b[1..])) || IsSubsequence(a, b[1..])
  }

  /** Filtering out the completed tasks keeps the others in their original relative order. */
  lemma {:induction false} IncompleteKeepsOrder(ts: seq<Task>)
    ensures IsSubsequence(Incomplete(ts), ts)
  {
    if |ts| > 0 {
      var rest := Incomplete(ts[1..]);
      IncompleteKeepsOrder(ts[1..]);
      if !ts[0].completed {
        assert Incomplete(ts) == [ts[0]] + rest;
        assert Incomplete(ts)[1..] == rest;
      } else {
        assert Incomplete(ts) == rest;
      }
    }
  }

  /** getDeadlineClass, with the hour difference computed exactly: no class without a deadline
      or once completed; 'overdue' strictly after the deadline; 'due-soon' when it is less than
      24 hours away; no class beyond that. */
  function GetDeadlineClass(t: Task, now: int): (r: DeadlineClass)
    ensures r == Overdue <==> t.deadline.Some? && !t.completed && t.deadline.value < now
    ensures r == DueSoon <==>
      t.deadline.Some? && !t.completed && now <= t.deadline.value < now + 24 * HourMs
  {
    if t.deadline.None? || t.completed then NoClass
    else
      var diffHours := (t.deadline.value - now) as real / HourMs as real;
      if diffHours < 0.0 then Overdue
      else if diffHours < 24.0 then DueSoon
      else NoClass
  }

  /** The tasks checkOverdueTasks penalises: incomplete, with a deadline before `now`. They are
      exactly the tasks getDeadlineClass marks 'overdue', kept in list order. */
  function OverdueTasks(ts: seq<Task>, now: int): (r: seq<Task>)
    ensures |r| <= |ts|
    ensures forall t :: t in r ==> t in ts && GetDeadlineClass(t, now) == Overdue
    ensures forall t :: t in ts && GetDeadlineClass(t, now) == Overdue ==> t in r
  {
    if |ts| == 0 then []
    else
      var t := ts[0];
      assert forall u :: u in ts ==> u == t || u in ts[1..];
      (if t.deadline.Some? && !t.completed && IsOverdue(t.deadline.value, now) then [t] else [])
      + OverdueTasks(ts[1..], now)
  }

  /** The overdue filter keeps the overdue tasks in their original relative order. */
  lemma {:induction false} OverdueTasksKeepsOrder(ts: seq<Task>, now: int)
    ensures IsSubsequence(OverdueTasks(ts, now), ts)
  {
    if |ts| > 0 {
      var rest := OverdueTasks(ts[1..], now);
      OverdueTasksKeepsOrder(ts[1..], now);
      if GetDeadlineClass(ts[0], now) == Overdue {
        assert OverdueTasks(ts, now) == [ts[0]] + rest;
        assert OverdueTasks(ts, now)[1..] == rest;
      } else {
        assert OverdueTasks(ts, now) == rest;
      }
    }
  }

  /** The filter keeps every overdue task as often as the list holds it and drops every other
      task, so its length is the number of overdue entries of the list. */
  lemma {:induction false} OverdueTasksCounts(ts: seq<Task>, now: int)
    ensures forall t ::
              multiset(OverdueTasks(ts, now))[t] ==
                if GetDeadlineClass(t, now) == Overdue then multiset(ts)[t] else 0
  {
    if |ts| > 0 {
      OverdueTasksCounts(ts[1..], now);
      assert ts == [ts[0]] + ts[1..];
      assert multiset(ts) == multiset{ts[0]} + multiset(ts[1..]);
      var rest := OverdueTasks(ts[1..], now);
      if GetDeadlineClass(ts[0], now) == Overdue {
        assert OverdueTasks(ts, now) == [ts[0]] + rest;
        assert multiset(OverdueTasks(ts, now)) == multiset{ts[0]} + multiset(rest);
      } else {
        assert OverdueTasks(ts, now) == rest;
      }
    }
  }
}
