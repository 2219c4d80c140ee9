/** The state of a TodoApp as a value, the effect of each of its operations on that state, and
    the invariants the operations keep. The class in module App is proved to follow these. */
module Store {
  import opened Tasks
  import opened Text
  import opened Mood

  /** The reward addTask puts on every new task. */
  const NewTaskPoints: int := 10

  /** What checkOverdueTasks takes off the point total for each overdue task. */
  const OverduePenalty: int := 5

  /** The fields of TodoApp that make up its state: the task list in display order, the next
      id to hand out, the running point total and the 1-10 mood level. */
  datatype AppState = AppState(tasks: seq<Task>, taskIdCounter: int, points: int, moodLevel: int)

  /** The state the constructor sets before loading: no tasks, ids from 0, no points, mood 5. */
  const Default: AppState := AppState([], 0, 0, 5)

  function Max(a: int, b: int): int {
    if a < b then b else a
  }

  /** Ids grow along the list; in particular no two tasks share an id. */
  predicate IdsIncreasing(ts: seq<Task>) {
    forall i, j :: 0 <= i < j < |ts| ==> ts[i].id < ts[j].id
  }

  /** Every id was handed out already: it lies below the counter. */
  predicate IdsBelow(ts: seq<Task>, counter: int) {
    forall i :: 0 <= i < |ts| ==> 0 <= ts[i].id < counter
  }

  predicate RewardsNonNegative(ts: seq<Task>) {
    forall i :: 0 <= i < |ts| ==> ts[i].points >= 0
  }

  /** The invariant every operation keeps: ids unique, ordered and below the counter, no
      negative reward or point total, and the mood level within 1 to 10. */
  predicate Valid(s: AppState) {
    && IdsIncreasing(s.tasks)
    && 0 <= s.taskIdCounter
    && IdsBelow(s.tasks, s.taskIdCounter)
    && RewardsNonNegative(s.tasks)
    && s.points >= 0
    && 1 <= s.moodLevel <= 10
  }

  // ---------------------------------------------------------------------------------------
  // The operations
  // ---------------------------------------------------------------------------------------

  /** addTask: a text that is only whitespace changes nothing; any other text appends one new,
      incomplete task with the trimmed text, the counter as its id and the default reward, and
      moves the counter on. Points and mood level stay as they were. */
  function AddTask(s: AppState, text: string, deadline: Option<int>, now: int): (r: AppState)
    ensures AllWhitespace(text) ==> r == s
    ensures !AllWhitespace(text) ==>
      && r.tasks == s.tasks + [Task(s.taskIdCounter, Trim(text), false, now, deadline, NewTaskPoints)]
      && r.taskIdCounter == s.taskIdCounter + 1
      && r.points == s.points && r.moodLevel == s.moodLevel
  {
    var taskText := Trim(text);
    if taskText == [] then s
    else
      var newTask := Task(s.taskIdCounter, taskText, false, now, deadline, NewTaskPoints);
      s.(tasks := s.tasks + [newTask], taskIdCounter := s.taskIdCounter + 1)
  }

  /** toggleTaskComplete: the first task with the id flips `completed`, and nothing else about
      any task changes; completing adds the task's award, un-completing takes back its base
      value without going below 0. An unknown id changes nothing. */
  function ToggleTaskComplete(s: AppState, id: int, now: int): (r: AppState)
    ensures r.taskIdCounter == s.taskIdCounter && r.moodLevel == s.moodLevel
    ensures |r.tasks| == |s.tasks|
    ensures FirstIndex(s.tasks, id) == -1 ==> r == s
    ensures forall k :: 0 <= k < |s.tasks| ==>
      && r.tasks[k] == s.tasks[k].(completed := r.tasks[k].completed)
      && (r.tasks[k].completed != s.tasks[k].completed <==> k == FirstIndex(s.tasks, id))
    ensures var i := FirstIndex(s.tasks, id);
      0 <= i ==> r.points == if s.tasks[i].completed
                             then Max(0, s.points - BaseValue(s.tasks[i]))
                             else s.points + AwardValue(s.tasks[i], now)
  {
    var i := FirstIndex(s.tasks, id);
    if i < 0 then s
    else
      var task := s.tasks[i];
      var wasCompleted := task.completed;
      var task' := task.(completed := !wasCompleted);
      var points :=
        if task'.completed && !wasCompleted then s.points + AwardValue(task, now)
        else if !task'.completed && wasCompleted then Max(0, s.points - BaseValue(task))
        else s.points;
      s.(tasks := s.tasks[i := task'], points := points)
  }

  /** deleteTask: the first task with the id leaves the list, the others keep their order;
      the counter, the points and the mood level are untouched. */
  function DeleteTask(s: AppState, id: int): (r: AppState)
    ensures r.taskIdCounter == s.taskIdCounter && r.points == s.points
    ensures r.moodLevel == s.moodLevel
    ensures |r.tasks| == if FirstIndex(s.tasks, id) == -1 then |s.tasks| else |s.tasks| - 1
  {
    var taskIndex := FirstIndex(s.tasks, id);
    if taskIndex == -1 then s
    else s.(tasks := s.tasks[..taskIndex] + s.tasks[taskIndex + 1..])
  }

  /** clearCompleted: only the incomplete tasks stay. */
  function ClearCompleted(s: AppState): (r: AppState)
    ensures r.taskIdCounter == s.taskIdCounter && r.points == s.points
    ensures r.moodLevel == s.moodLevel
    ensures forall t :: t in r.tasks <==> t in s.tasks && !t.completed
  {
    s.(tasks := Incomplete(s.tasks))
  }

  /** clearAll, once the user confirmed: the list empties, the counter and the points stay. */
  function ClearAll(s: AppState): (r: AppState)
    ensures r.tasks == [] && GetTaskStats(r.tasks).total == 0
    ensures r.taskIdCounter == s.taskIdCounter && r.points == s.points
    ensures r.moodLevel == s.moodLevel
  {
    s.(tasks := [])
  }

  /** The number of tasks checkOverdueTasks penalises at `now`. */
  function OverdueCount(s: AppState, now: int): nat {
    |OverdueTasks(s.tasks, now)|
  }

  /** One round of checkOverdueTasks' loop body: 5 points off, never below 0, and one mood
      level off, never below 1. */
  function PenaliseOnce(s: AppState): (r: AppState)
    ensures r.tasks == s.tasks && r.taskIdCounter == s.taskIdCounter
    ensures r.points >= 0 && r.moodLevel >= 1
    ensures r.points == s.points - OverduePenalty || (r.points == 0 && s.points <= OverduePenalty)
    ensures r.moodLevel == s.moodLevel - 1 || (r.moodLevel == 1 && s.moodLevel <= 2)
  {
    s.(points := Max(0, s.points - OverduePenalty), moodLevel := Max(1, s.moodLevel - 1))
  }

  /** `n` rounds of the loop body, one after the other. */
  function PenaliseTimes(s: AppState, n: nat): AppState {
    if n == 0 then s else PenaliseOnce(PenaliseTimes(s, n - 1))
  }

  /** checkOverdueTasks: one round of the penalty per overdue task, so the points drop by 5 per
      task (never below 0) and the mood level by one per task (never below 1); the task list
      and the counter are untouched. With no overdue task nothing changes, whatever the fields
      hold. */
  function CheckOverdueTasks(s: AppState, now: int): (r: AppState)
    ensures r == PenaliseTimes(s, OverdueCount(s, now))
    ensures r.tasks == s.tasks && r.taskIdCounter == s.taskIdCounter
    ensures OverdueCount(s, now) == 0 ==> r == s
  {
    var n := OverdueCount(s, now);
    PenaliseTimesClosedForm(s, n);
    if n == 0 then s
    else s.(points := Max(0, s.points - OverduePenalty * n), moodLevel := Max(1, s.moodLevel - n))
  }

  /** The rounds of the penalty add up: after n > 0 rounds the clamps apply once, to the
      total. */
  lemma {:induction false} PenaliseTimesClosedForm(s: AppState, n: nat)
    ensures PenaliseTimes(s, n) ==
      if n == 0 then s
      else s.(points := Max(0, s.points - OverduePenalty * n), moodLevel := Max(1, s.moodLevel - n))
  {
    if n > 1 {
      PenaliseTimesClosedForm(s, n - 1);
    }
  }

  // ---------------------------------------------------------------------------------------
  // The invariant
  // ---------------------------------------------------------------------------------------

  /** The state a fresh app starts with satisfies the invariant. */
  lemma DefaultValid()
    ensures Valid(Default)
  {
  }

  /** addTask keeps the invariant: the new id is the counter, above every id in the list. */
  lemma AddTaskPreservesValid(s: AppState, text: string, deadline: Option<int>, now: int)
    requires Valid(s)
    ensures Valid(AddTask(s, text, deadline, now))
  {
    if !AllWhitespace(text) {
      AppendKeepsValid(s, Task(s.taskIdCounter, Trim(text), false, now, deadline, NewTaskPoints));
    }
  }

  /** Appending a task whose id is the counter, and moving the counter on, keeps the invariant. */
  lemma AppendKeepsValid(s: AppState, t: Task)
    requires Valid(s) && t.id == s.taskIdCounter && t.points >= 0
    ensures Valid(s.(tasks := s.tasks + [t], taskIdCounter := s.taskIdCounter + 1))
  {
    var ts := s.tasks + [t];
    assert forall k :: 0 <= k < |s.tasks| ==> ts[k] == s.tasks[k];
  }

  /** The id addTask hands out belongs to no task in the list, and the counter never goes back. */
  lemma AddTaskAssignsFreshId(s: AppState, text: string, deadline: Option<int>, now: int)
    requires Valid(s) && !AllWhitespace(text)
    ensures var r := AddTask(s, text, deadline, now);
      && r.tasks[|r.tasks| - 1].id == s.taskIdCounter
      && (forall t :: t in s.tasks ==> t.id < s.taskIdCounter)
      && r.taskIdCounter > s.taskIdCounter
  {
  }

  lemma ToggleTaskCompletePreservesValid(s: AppState, id: int, now: int)
    requires Valid(s)
    ensures Valid(ToggleTaskComplete(s, id, now))
  {
    var i := FirstIndex(s.tasks, id);
    if 0 <= i {
      assert BaseValue(s.tasks[i]) > 0;
    }
  }

  /** With unique ids, deleting removes exactly the task with that id and keeps the order. */
  lemma DeleteTaskRemovesExactly(s: AppState, id: int)
    requires Valid(s)
    ensures var r := DeleteTask(s, id);
      && (forall t :: t in r.tasks <==> t in s.tasks && t.id != id)
      && IsSubsequence(r.tasks, s.tasks)
  {
    var i := FirstIndex(s.tasks, id);
    if i == -1 {
      SubsequenceRefl(s.tasks);
    } else {
      RemoveAtMembers(s.tasks, i);
      RemoveAtIsSubsequence(s.tasks, i);
    }
  }

  lemma DeleteTaskPreservesValid(s: AppState, id: int)
    requires Valid(s)
    ensures Valid(DeleteTask(s, id))
  {
    var i := FirstIndex(s.tasks, id);
    if i != -1 {
      var ts := s.tasks;
      var rest := ts[..i] + ts[i + 1..];
      assert forall k :: 0 <= k < |rest| ==> rest[k] == if k < i then ts[k] else ts[k + 1];
    }
  }

  lemma ClearCompletedPreservesValid(s: AppState)
    requires Valid(s)
    ensures Valid(ClearCompleted(s))
  {
    IncompleteIdsIncreasing(s.tasks);
    var r := Incomplete(s.tasks);
    forall k | 0 <= k < |r| ensures 0 <= r[k].id < s.taskIdCounter && r[k].points >= 0 {
      assert r[k] in s.tasks;
    }
  }

  /** After clearCompleted nothing is completed, the order of what stays is kept, and there
      are as many tasks as the stats called remaining before. */
  lemma ClearCompletedStats(s: AppState)
    ensures var before := GetTaskStats(s.tasks);
      GetTaskStats(ClearCompleted(s).tasks) == TaskStats(before.remaining, 0, before.remaining)
    ensures IsSubsequence(ClearCompleted(s).tasks, s.tasks)
  {
    IncompleteKeepsOrder(s.tasks);
  }

  lemma CheckOverdueTasksPreservesValid(s: AppState, now: int)
    requires Valid(s)
    ensures Valid(CheckOverdueTasks(s, now))
  {
  }

  // ---------------------------------------------------------------------------------------
  // Properties of the operations
  // ---------------------------------------------------------------------------------------

  /** Toggling the same id twice restores the task list. */
  lemma ToggleTwiceRestoresTasks(s: AppState, id: int, now1: int, now2: int)
    ensures ToggleTaskComplete(ToggleTaskComplete(s, id, now1), id, now2).tasks == s.tasks
  {
    var m := ToggleTaskComplete(s, id, now1);
    var i := FirstIndex(s.tasks, id);
    assert forall k :: 0 <= k < |s.tasks| ==> m.tasks[k].id == s.tasks[k].id;
    assert FirstIndex(m.tasks, id) == i;
  }

  /** Completing a task and then taking the completion back leaves the point total higher by
      exactly the deadline bonus earned at completion: 5 when the deadline had not passed, 0
      otherwise. Toggling is its own inverse on the tasks but not on the points. */
  lemma CompleteThenUncompleteKeepsBonus(s: AppState, id: int, now1: int, now2: int)
    requires Valid(s)
    requires 0 <= FirstIndex(s.tasks, id) && !s.tasks[FirstIndex(s.tasks, id)].completed
    ensures var t := s.tasks[FirstIndex(s.tasks, id)];
      var bonus := if t.deadline.Some? && now1 <= t.deadline.value then 5 else 0;
      ToggleTaskComplete(ToggleTaskComplete(s, id, now1), id, now2) == s.(points := s.points + bonus)
  {
    ToggleTwiceRestoresTasks(s, id, now1, now2);
    var m := ToggleTaskComplete(s, id, now1);
    var i := FirstIndex(s.tasks, id);
    assert forall k :: 0 <= k < |s.tasks| ==> m.tasks[k].id == s.tasks[k].id;
    assert FirstIndex(m.tasks, id) == i;
    assert BaseValue(m.tasks[i]) == BaseValue(s.tasks[i]);
  }

  /** Completing a task adds one to the completed count; un-completing takes one off. */
  lemma ToggleTaskCompleteStats(s: AppState, id: int, now: int)
    requires 0 <= FirstIndex(s.tasks, id)
    ensures var before := GetTaskStats(s.tasks);
      var after := GetTaskStats(ToggleTaskComplete(s, id, now).tasks);
      && after.total == before.total
      && after.completed ==
           before.completed + (if s.tasks[FirstIndex(s.tasks, id)].completed then -1 else 1)
  {
    var i := FirstIndex(s.tasks, id);
    var t := s.tasks[i];
    CountCompletedUpdate(s.tasks, i, t.(completed := !t.completed));
  }

  /** checkOverdueTasks penalises afresh on every call: two calls take twice the penalty. */
  lemma CheckOverdueTasksRepeats(s: AppState, now: int)
    ensures var n := OverdueCount(s, now);
      var twice := CheckOverdueTasks(CheckOverdueTasks(s, now), now);
      twice == if n == 0 then s
               else s.(points := Max(0, s.points - 2 * OverduePenalty * n),
                       moodLevel := Max(1, s.moodLevel - 2 * n))
  {
  }

  /** So the check is not idempotent: a second call changes the state again exactly when there
      is an overdue task and either points are left after the first call's penalty or the mood
      level is still above its floor of 1. */
  lemma CheckOverdueTasksNotIdempotent(s: AppState, now: int)
    ensures var n := OverdueCount(s, now);
      CheckOverdueTasks(CheckOverdueTasks(s, now), now) != CheckOverdueTasks(s, now) <==>
        n > 0 && (s.points > OverduePenalty * n || s.moodLevel > n + 1)
  {
    CheckOverdueTasksRepeats(s, now);
  }

  // ---------------------------------------------------------------------------------------
  // Any sequence of operations
  // ---------------------------------------------------------------------------------------

  /** The calls the presentation layer and the deadline timer make into the app. */
  datatype Op =
    | AddOp(text: string, deadline: Option<int>, now: int)
    | ToggleOp(id: int, now: int)
    | DeleteOp(id: int)
    | ClearCompletedOp
    | ClearAllOp
    | CheckOverdueOp(now: int)

  function Apply(s: AppState, op: Op): AppState {
    match op
    case AddOp(text, deadline, now) => AddTask(s, text, deadline, now)
    case ToggleOp(id, now) => ToggleTaskComplete(s, id, now)
    case DeleteOp(id) => DeleteTask(s, id)
    case ClearCompletedOp => ClearCompleted(s)
    case ClearAllOp => ClearAll(s)
    case CheckOverdueOp(now) => CheckOverdueTasks(s, now)
  }

  function Run(s: AppState, ops: seq<Op>): AppState
    decreases |ops|
  {
    if ops == [] then s else Run(Apply(s, ops[0]), ops[1..])
  }

  lemma ApplyPreservesValid(s: AppState, op: Op)
    requires Valid(s)
    ensures Valid(Apply(s, op))
    ensures Apply(s, op).taskIdCounter >= s.taskIdCounter
  {
    match op
    case AddOp(text, deadline, now) => AddTaskPreservesValid(s, text, deadline, now);
    case ToggleOp(id, now) => ToggleTaskCompletePreservesValid(s, id, now);
    case DeleteOp(id) => DeleteTaskPreservesValid(s, id);
    case ClearCompletedOp => ClearCompletedPreservesValid(s);
    case ClearAllOp =>
    case CheckOverdueOp(now) => CheckOverdueTasksPreservesValid(s, now);
  }

  /** Whatever the user and the timer do, ids stay unique, ordered and below a counter that
      never goes back, points stay non-negative and the mood level stays within 1 to 10. */
  lemma {:induction false} RunPreservesValid(s: AppState, ops: seq<Op>)
    requires Valid(s)
    ensures Valid(Run(s, ops))
    ensures Run(s, ops).taskIdCounter >= s.taskIdCounter
    decreases |ops|
  {
    if ops != [] {
      ApplyPreservesValid(s, ops[0]);
      RunPreservesValid(Apply(s, ops[0]), ops[1..]);
    }
  }

  // ---------------------------------------------------------------------------------------
  // Scenarios
  // ---------------------------------------------------------------------------------------

  /** One task without a deadline: stats (1, 0, 1), progress 0, the sleepy face. */
  lemma OneOpenTaskScenario(now: int)
    ensures var s := AddTask(Default, "Buy milk", None, now);
      var st := GetTaskStats(s.tasks);
      && st == TaskStats(1, 0, 1)
      && Progress(st) == 0.0
      && MoodFor(Progress(st)) == Sleepy
  {
    var text := "Buy milk";
    assert text[0] == 'B' && !IsJsWhitespace('B');
    var s := AddTask(Default, text, None, now);
    assert s.tasks == [Task(0, Trim(text), false, now, None, NewTaskPoints)];
    assert CountCompleted(s.tasks) == 0;
  }

  /** Two of four tasks done: progress 50 and the happy face with its dance. */
  lemma HalfDoneScenario(ts: seq<Task>)
    requires |ts| == 4 && ts[0].completed && ts[1].completed
    requires !ts[2].completed && !ts[3].completed
    ensures var st := GetTaskStats(ts);
      && Progress(st) == 50.0
      && MoodFor(Progress(st)) == Happy
      && MoodFor(Progress(st)).Animation() == HappyDance
  {
    assert ts[1..][1..][1..][1..] == [];
    assert CountCompleted(ts) == 2;
  }

  /** A task due an hour ago that is still open: classed overdue, and one check takes 5
      points (not below 0) and one mood level (not below 1). */
  lemma OverdueTaskScenario(s: AppState, t: Task, now: int)
    requires s.tasks == [t] && !t.completed && t.deadline == Some(now - HourMs)
    ensures GetDeadlineClass(t, now) == Overdue
    ensures var r := CheckOverdueTasks(s, now);
      r.points == Max(0, s.points - 5) && r.moodLevel == Max(1, s.moodLevel - 1)
  {
    assert s.tasks[1..] == [];
    assert OverdueTasks(s.tasks, now) == [t];
  }

  // ---------------------------------------------------------------------------------------
  // Helpers about lists
  // ---------------------------------------------------------------------------------------

  lemma {:induction false} SubsequenceRefl(ts: seq<Task>)
    ensures IsSubsequence(ts, ts)
    decreases |ts|
  {
    if ts != [] { SubsequenceRefl(ts[1..]); }
  }

  /** Removing one element keeps the rest as a subsequence. */
  lemma {:induction false} RemoveAtIsSubsequence(ts: seq<Task>, i: int)
    requires 0 <= i < |ts|
    ensures IsSubsequence(ts[..i] + ts[i + 1..], ts)
    decreases i
  {
    if i == 0 {
      assert ts[..0] + ts[1..] == ts[1..];
      SubsequenceRefl(ts[1..]);
    } else {
      var rest := ts[..i] + ts[i + 1..];
      RemoveAtIsSubsequence(ts[1..], i - 1);
      assert rest[1..] == ts[1..][..i - 1] + ts[1..][i..];
    }
  }

  /** With unique ids, removing position i removes exactly the task with that position's id. */
  lemma RemoveAtMembers(ts: seq<Task>, i: int)
    requires 0 <= i < |ts| && IdsIncreasing(ts)
    ensures forall t :: t in ts[..i] + ts[i + 1..] <==> t in ts && t.id != ts[i].id
  {
    assert ts == ts[..i] + [ts[i]] + ts[i + 1..];
    forall t | t in ts[..i] ensures t.id < ts[i].id {
      var k :| 0 <= k < i && ts[..i][k] == t;
    }
    forall t | t in ts[i + 1..] ensures t.id > ts[i].id {
      var k :| 0 <= k < |ts| - i - 1 && ts[i + 1..][k] == t;
      assert t == ts[i + 1 + k];
    }
  }

  /** Filtering keeps ids increasing. */
  lemma {:induction false} IncompleteIdsIncreasing(ts: seq<Task>)
    requires IdsIncreasing(ts)
    ensures IdsIncreasing(Incomplete(ts))
    decreases |ts|
  {
    if ts != [] {
      var rest := Incomplete(ts[1..]);
      TailIds(ts);
      IncompleteIdsIncreasing(ts[1..]);
      if !ts[0].completed {
        assert Incomplete(ts) == [ts[0]] + rest;
        ConsIdsIncreasing(ts[0], rest);
      } else {
        assert Incomplete(ts) == rest;
      }
    }
  }

  /** The tail of a list with increasing ids has increasing ids, all above the head's. */
  lemma TailIds(ts: seq<Task>)
    requires ts != [] && IdsIncreasing(ts)
    ensures IdsIncreasing(ts[1..])
    ensures forall t :: t in ts[1..] ==> ts[0].id < t.id
  {
    var tail := ts[1..];
    forall i, j | 0 <= i < j < |tail| ensures tail[i].id < tail[j].id {
      assert tail[i] == ts[i + 1] && tail[j] == ts[j + 1];
    }
    forall t | t in tail ensures ts[0].id < t.id {
      var j :| 0 <= j < |tail| && tail[j] == t;
      assert t == ts[j + 1];
    }
  }

  lemma ConsIdsIncreasing(t: Task, rest: seq<Task>)
    requires IdsIncreasing(rest)
    requires forall u :: u in rest ==> t.id < u.id
    ensures IdsIncreasing([t] + rest)
  {
    var r := [t] + rest;
    forall i, j | 0 <= i < j < |r| ensures r[i].id < r[j].id {
      assert r[j] == rest[j - 1];
      if i > 0 { assert r[i] == rest[i - 1]; }
    }
  }

  /** Replacing one task changes the completed count by the change at that position. */
  lemma {:induction false} CountCompletedUpdate(ts: seq<Task>, i: int, t: Task)
    requires 0 <= i < |ts|
    ensures CountCompleted(ts[i := t]) ==
      CountCompleted(ts) - (if ts[i].completed then 1 else 0) + (if t.completed then 1 else 0)
    decreases |ts|
  {
    if i > 0 {
      assert ts[i := t][1..] == ts[1..][i - 1 := t];
      CountCompletedUpdate(ts[1..], i - 1, t);
    } else {
      assert ts[i := t][1..] == ts[1..];
    }
  }
}
