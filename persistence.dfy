/** What saveTasks writes under the storage key and how loadTasks reads it back. The storage
    medium and JSON itself are outside the model: a slot is what getItem and JSON.parse gave. */
module Persistence {
  import opened Tasks
  import opened Store

  /** The saved record as it parses back: a field that is absent or null is None. */
  datatype SavedData = SavedData(
    tasks: Option<seq<Task>>,
    nextId: Option<int>,
    points: Option<int>,
    moodLevel: Option<int>)

  /** What reading the storage key gives: nothing (or an empty string), text that does not
      parse into an object, or a parsed record. */
  datatype Slot = Missing | Unparsable | Parsed(data: SavedData)

  /** JavaScript's `value || fallback` on a stored number: absent and 0 are both falsy. */
  function OrElse(x: Option<int>, fallback: int): (r: int)
    ensures r == fallback || (x == Some(r) && r != 0)
    ensures x.Some? && x.value != 0 ==> r == x.value
  {
    if x.None? || x.value == 0 then fallback else x.value
  }

  /** saveTasks: the four fields of the state under the names the record uses. */
  function SaveTasks(s: AppState): (r: SavedData)
    ensures r.tasks == Some(s.tasks) && r.nextId == Some(s.taskIdCounter)
    ensures r.points == Some(s.points) && r.moodLevel == Some(s.moodLevel)
  {
    SavedData(Some(s.tasks), Some(s.taskIdCounter), Some(s.points), Some(s.moodLevel))
  }

  /** loadTasks on top of the state `current`: nothing stored leaves the state as it is, an
      unparsable record resets to the defaults, and a parsed record takes each field with the
      fallbacks `tasks || []`, `nextId || 0`, `points || 0`, `moodLevel || 5`. */
  function LoadTasks(current: AppState, slot: Slot): (r: AppState)
    ensures slot == Missing ==> r == current
    ensures slot == Unparsable ==> r == Default
    ensures slot.Parsed? ==>
      && r.tasks == (if slot.data.tasks.Some? then slot.data.tasks.value else [])
      && r.taskIdCounter == OrElse(slot.data.nextId, 0)
      && r.points == OrElse(slot.data.points, 0)
      && r.moodLevel == OrElse(slot.data.moodLevel, 5)
      && r.moodLevel != 0
  {
    match slot
    case Missing => current
    case Unparsable => Default
    case Parsed(data) =>
      AppState(
        if data.tasks.Some? then data.tasks.value else [],
        OrElse(data.nextId, 0),
        OrElse(data.points, 0),
        OrElse(data.moodLevel, 5))
  }

  /** Loading what was saved gives back the saved state, for every state whose mood level is
      not 0 (in particular every state satisfying the invariant). */
  lemma LoadSaveRoundTrip(current: AppState, s: AppState)
    requires s.moodLevel != 0
    ensures LoadTasks(current, Parsed(SaveTasks(s))) == s
  {
  }

  /** Loading what was saved from a state satisfying the invariant gives a state satisfying it. */
  lemma LoadSaveKeepsValid(current: AppState, s: AppState)
    requires Valid(s)
    ensures Valid(LoadTasks(current, Parsed(SaveTasks(s))))
  {
    LoadSaveRoundTrip(current, s);
  }

  /** loadTasks checks only for absent or falsy fields: a parsed record holding a negative point
      total is taken as it is, and the loaded state breaks the invariant. */
  lemma LoadTasksKeepsOutOfRangePoints(current: AppState)
    ensures var r := LoadTasks(current, Parsed(SavedData(None, None, Some(-5), None)));
      r.points == -5 && !Valid(r)
  {
  }

  /** The one field the round trip can lose: a stored mood level of 0 comes back as 5. */
  lemma LoadSaveZeroMoodLevel(current: AppState, s: AppState)
    requires s.moodLevel == 0
    ensures LoadTasks(current, Parsed(SaveTasks(s))) == s.(moodLevel := 5)
  {
  }

  /** A fresh app, whether storage is empty or holds garbage, starts from the default state,
      which satisfies the invariant. */
  lemma FreshStartIsDefault(slot: Slot)
    requires slot == Missing || slot == Unparsable
    ensures LoadTasks(Default, slot) == Default && Valid(Default)
  {
    DefaultValid();
  }
}
