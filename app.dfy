/** The TodoApp object: its four state fields and the methods that update them in place. Each
    operation method (add, toggle, delete, the overdue check, the two clears) is proved to have
    the effect the matching function of module Store describes and to keep the invariant.
    Loading applies the fallback rules of module Persistence, and it establishes the invariant
    only for missing or unparsable storage. AwardPoints and RemovePoints change only the point
    total; UpdateProgress changes nothing. Rendering, storage writes and timers are not part of
    it. */
module App {
  import opened Tasks
  import opened Text
  import opened Mood
  import opened Store
  import Persistence

  class TodoApp {
    var tasks: seq<Task>
    var taskIdCounter: int
    var points: int
    var moodLevel: int

    /** The fields as one value. */
    function State(): AppState
      reads this
    {
      AppState(tasks, taskIdCounter, points, moodLevel)
    }

    predicate Valid()
      reads this
    {
      Store.Valid(State())
    }

    /** The constructor: the default fields, then loadTasks from what storage holds. */
    constructor(saved: Persistence.Slot)
      ensures State() == Persistence.LoadTasks(Default, saved)
      ensures saved == Persistence.Missing || saved == Persistence.Unparsable ==> Valid()
    {
      tasks := [];
      taskIdCounter := 0;
      points := 0;
      moodLevel := 5;
      new;
      DefaultValid();
      LoadTasks(saved);
    }

    /** loadTasks: replaces the fields by what storage holds, with its fallbacks. */
    method LoadTasks(saved: Persistence.Slot)
      modifies this
      ensures State() == Persistence.LoadTasks(old(State()), saved)
    {
      match saved
      case Missing =>
      case Unparsable =>
        tasks, taskIdCounter, points, moodLevel := [], 0, 0, 5;
      case Parsed(data) =>
        tasks := if data.tasks.Some? then data.tasks.value else [];
        taskIdCounter := Persistence.OrElse(data.nextId, 0);
        points := Persistence.OrElse(data.points, 0);
        moodLevel := Persistence.OrElse(data.moodLevel, 5);
    }

    /** addTask, with the input field's text and deadline as parameters and the clock as `now`.
        Reports whether a task was added; a whitespace-only text changes nothing. */
    method AddTask(text: string, deadline: Option<int>, now: int) returns (added: bool)
      modifies this
      ensures added <==> !AllWhitespace(text)
      ensures State() == Store.AddTask(old(State()), text, deadline, now)
      ensures old(Valid()) ==> Valid()
    {
      ghost var before := State();
      var taskText := Trim(text);
      if taskText == [] {
        added := false;
      } else {
        var newTask := Task(taskIdCounter, taskText, false, now, deadline, NewTaskPoints);
        taskIdCounter := taskIdCounter + 1;
        tasks := tasks + [newTask];
        added := true;
      }
      if Store.Valid(before) {
        AddTaskPreservesValid(before, text, deadline, now);
      }
    }

    /** toggleTaskComplete: flips the first task with the id and awards or takes back points. */
    method ToggleTaskComplete(id: int, now: int)
      modifies this
      ensures State() == Store.ToggleTaskComplete(old(State()), id, now)
      ensures old(Valid()) ==> Valid()
    {
      ghost var before := State();
      var i := FirstIndex(tasks, id);
      if i != -1 {
        var task := tasks[i];
        var wasCompleted := task.completed;
        task := task.(completed := !task.completed);
        tasks := tasks[i := task];
        if task.completed && !wasCompleted {
          AwardPoints(task, now);
        } else if !task.completed && wasCompleted {
          RemovePoints(task);
        }
      }
      if Store.Valid(before) {
        ToggleTaskCompletePreservesValid(before, id, now);
      }
    }

    /** awardPoints: the task's base value, plus the bonus while its deadline has not passed. */
    method AwardPoints(task: Task, now: int)
      modifies this`points
      ensures points == old(points) + AwardValue(task, now)
    {
      var award := BaseValue(task);
      if task.deadline.Some? && !IsOverdue(task.deadline.value, now) {
        award := award + 5;
      }
      points := points + award;
    }

    /** removePoints: takes back the base value, never going below 0. */
    method RemovePoints(task: Task)
      modifies this`points
      ensures points == Max(0, old(points) - BaseValue(task))
    {
      var base := BaseValue(task);
      points := Max(0, points - base);
    }

    /** deleteTask, with the removal done at once. */
    method DeleteTask(id: int)
      modifies this
      ensures State() == Store.DeleteTask(old(State()), id)
      ensures old(Valid()) ==> Valid()
    {
      ghost var before := State();
      var taskIndex := FirstIndex(tasks, id);
      if taskIndex != -1 {
        tasks := tasks[..taskIndex] + tasks[taskIndex + 1..];
      }
      if Store.Valid(before) {
        DeleteTaskPreservesValid(before, id);
      }
    }

    /** checkOverdueTasks at time `now`: collects the overdue tasks, then takes 5 points and
        one mood level for each, clamping at 0 and 1 at every step. */
    method CheckOverdueTasks(now: int)
      modifies this
      ensures State() == Store.CheckOverdueTasks(old(State()), now)
      ensures old(Valid()) ==> Valid()
    {
      ghost var before := State();
      var overdueTasks := OverdueTasks(tasks, now);
      var k := 0;
      while k < |overdueTasks|
        invariant 0 <= k <= |overdueTasks|
        invariant State() == PenaliseTimes(before, k)
      {
        points := Max(0, points - OverduePenalty);
        moodLevel := Max(1, moodLevel - 1);
        k := k + 1;
      }
      if Store.Valid(before) {
        CheckOverdueTasksPreservesValid(before, now);
      }
    }

    /** clearCompleted: keeps only the incomplete tasks. */
    method ClearCompleted()
      modifies this
      ensures State() == Store.ClearCompleted(old(State()))
      ensures old(Valid()) ==> Valid()
    {
      ghost var before := State();
      tasks := Incomplete(tasks);
      if Store.Valid(before) {
        ClearCompletedPreservesValid(before);
      }
    }

    /** clearAll, in the branch where the user confirmed. */
    method ClearAll()
      modifies this
      ensures State() == Store.ClearAll(old(State()))
      ensures old(Valid()) ==> Valid()
    {
      tasks := [];
    }

    /** The values updateProgress and updateMood display: the progress percentage and the
        mood, which is the count-based mood of the current stats. */
    method UpdateProgress() returns (progress: real, mood: Mood)
      ensures progress == Progress(GetTaskStats(tasks))
      ensures 0.0 <= progress <= 100.0
      ensures progress == 100.0 <==> |tasks| > 0 && forall k :: 0 <= k < |tasks| ==> tasks[k].completed
      ensures progress == 0.0 <==> forall k :: 0 <= k < |tasks| ==> !tasks[k].completed
      ensures mood == MoodByCounts(CountCompleted(tasks), |tasks|)
      ensures mood.Animation() == HappyDance <==> progress >= 50.0
    {
      var stats := GetTaskStats(tasks);
      progress := Progress(stats);
      mood := MoodFor(progress);
      MoodForProgress(stats);
    }
  }

  /** A session: a fresh app, one task with a deadline an hour away, completed and then taken
      back; the task stays, and the deadline bonus of 5 stays in the point total. */
  method BonusSession(now: int)
  {
    var app := new TodoApp(Persistence.Missing);
    assert "Water the plants"[0] == 'W' && !IsJsWhitespace('W');
    var added := app.AddTask("Water the plants", Some(now + HourMs), now);
    ghost var s := app.State();
    assert added && Store.Valid(s) && s.points == 0 && s.tasks[0].id == 0;
    assert FirstIndex(s.tasks, 0) == 0 && !s.tasks[0].completed;
    app.ToggleTaskComplete(0, now);
    app.ToggleTaskComplete(0, now);
    CompleteThenUncompleteKeepsBonus(s, 0, now, now);
    assert app.points == 5 && app.tasks == s.tasks;
    app.ClearAll();
    assert app.tasks == [] && app.points == 5 && app.taskIdCounter == 1;
  }
}
