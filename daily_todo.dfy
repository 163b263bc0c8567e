/**
 * The state of the daily to-do component (daily-todo.tsx): the task list,
 * the per-task "custom increment input shown" flags and custom amounts, and
 * what the browser store holds under the tasks key. Each handler of the
 * component is a method; the clock and the id generator are parameters.
 */
module DailyTodo {
  import opened Wrappers
  import opened Text
  import opened TaskModel
  import opened TodoOps

  class TodoList {
    var tasks: seq<Task>
    var customIncrements: map<string, bool>
    var customValues: map<string, int>
    /** The stored task list; `None` while nothing has been stored. */
    var saved: Option<seq<Task>>

    /** Mounting: empty state, then the stored list, when there is one, becomes the task list. */
    constructor (stored: Option<seq<Task>>)
      ensures tasks == (if stored.Some? then stored.value else [])
      ensures customIncrements == map[] && customValues == map[]
      ensures saved == stored
    {
      tasks := if stored.Some? then stored.value else [];
      customIncrements, customValues := map[], map[];
      saved := stored;
    }

    /** `saveTasks`: the new list is both shown and stored. */
    method SaveTasks(updated: seq<Task>)
      modifies this
      ensures tasks == updated && saved == Some(updated)
      ensures customIncrements == old(customIncrements) && customValues == old(customValues)
    {
      tasks := updated;
      saved := Some(updated);
    }

    /** `addTask`: a blank name changes nothing; otherwise one new task is appended and stored. */
    method AddTask(name: string, total: int, increment: int, id: string, today: string)
      modifies this
      ensures tasks == AddedTasks(old(tasks), name, total, increment, id, today)
      ensures saved == if Trim(name) == [] then old(saved) else Some(tasks)
      ensures customIncrements == old(customIncrements) && customValues == old(customValues)
    {
      if Trim(name) == [] {
        return;
      }
      var newTask := NewTask(name, total, increment, id, today);
      SaveTasks(tasks + [newTask]);
    }

    /** `deleteTask`: every task with the id goes, and the id is pruned from both side maps. */
    method DeleteTask(id: string)
      modifies this
      ensures tasks == RemoveId(old(tasks), id) && saved == Some(tasks)
      ensures customIncrements == old(customIncrements) - {id}
      ensures customValues == old(customValues) - {id}
    {
      SaveTasks(RemoveId(tasks, id));
      var newCustomIncrements := customIncrements;
      var newCustomValues := customValues;
      newCustomIncrements := newCustomIncrements - {id};
      newCustomValues := newCustomValues - {id};
      customIncrements := newCustomIncrements;
      customValues := newCustomValues;
    }

    /** `completeTask`: the default increment, capped at the target, on every task with the id. */
    method CompleteTask(id: string, today: string)
      modifies this
      ensures tasks == UpdateById(old(tasks), id, DefaultIncrement(today)) && saved == Some(tasks)
      ensures customIncrements == old(customIncrements) && customValues == old(customValues)
      ensures Ids(tasks) == Ids(old(tasks)) && SumTotal(tasks) == SumTotal(old(tasks))
      ensures forall t :: t in tasks && t.id == id ==> CompletedToday(t, today)
      ensures (forall t :: t in old(tasks) ==> InRange(t) && (t.id == id ==> t.defaultIncrement >= 0))
        ==> forall t :: t in tasks ==> InRange(t)
    {
      var e := DefaultIncrement(today);
      UpdateKeepsIds(tasks, id, e);
      IncrementKeepsTargetSum(tasks, id, e);
      IncrementMarksCompletedToday(tasks, id, e, today);
      if forall t :: t in tasks ==> InRange(t) && (t.id == id ==> t.defaultIncrement >= 0) {
        IncrementKeepsRange(tasks, id, e);
      }
      SaveTasks(UpdateById(tasks, id, e));
    }

    /** `addCustomProgress`: the stored custom amount (1 when missing or zero), clamped into [0, total]; the input is hidden. */
    method AddCustomProgress(id: string, today: string)
      modifies this
      ensures tasks == UpdateById(old(tasks), id, CustomIncrement(CustomAmount(old(customValues), id), today))
      ensures saved == Some(tasks)
      ensures customIncrements == old(customIncrements)[id := false]
      ensures customValues == old(customValues)
      ensures Ids(tasks) == Ids(old(tasks)) && SumTotal(tasks) == SumTotal(old(tasks))
      ensures forall t :: t in tasks && t.id == id ==> CompletedToday(t, today)
      ensures (forall t :: t in old(tasks) ==> InRange(t)) ==> forall t :: t in tasks ==> InRange(t)
    {
      var customValue := CustomAmount(customValues, id);
      var e := CustomIncrement(customValue, today);
      var updated := UpdateById(tasks, id, e);
      UpdateKeepsIds(tasks, id, e);
      IncrementKeepsTargetSum(tasks, id, e);
      IncrementMarksCompletedToday(tasks, id, e, today);
      if forall t :: t in tasks ==> InRange(t) {
        IncrementKeepsRange(tasks, id, e);
      }
      customIncrements := customIncrements[id := false];
      SaveTasks(updated);
    }

    /** `toggleCustomIncrement`: the flag flips; a missing or zero amount becomes 1. */
    method ToggleCustomIncrement(id: string)
      modifies this
      ensures customIncrements == ToggledFlags(old(customIncrements), id)
      ensures customValues == DefaultedAmounts(old(customValues), id)
      ensures tasks == old(tasks) && saved == old(saved)
    {
      customIncrements := ToggledFlags(customIncrements, id);
      if !(id in customValues && customValues[id] != 0) {
        customValues := customValues[id := 1];
      }
    }

    /** The custom amount input's change handler: the typed number is stored for the id. */
    method SetCustomValue(id: string, amount: int)
      modifies this
      ensures customValues == old(customValues)[id := amount]
      ensures tasks == old(tasks) && saved == old(saved) && customIncrements == old(customIncrements)
    {
      customValues := customValues[id := amount];
    }

    /** `saveEditedTask`: the edited task takes the place of every task with its id. */
    method SaveEditedTask(updatedTask: Task)
      modifies this
      ensures tasks == ReplaceById(old(tasks), updatedTask) && saved == Some(tasks)
      ensures Ids(tasks) == Ids(old(tasks))
      ensures customIncrements == old(customIncrements) && customValues == old(customValues)
    {
      UpdateKeepsIds(tasks, updatedTask.id, Replace(updatedTask));
      SaveTasks(ReplaceById(tasks, updatedTask));
    }
  }
}
