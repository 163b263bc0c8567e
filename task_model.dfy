/**
 * The task record. daily-todo.tsx declares the fields every task has; the edit
 * dialog extends that record with `startValue` and `includeInTotal`, which are
 * absent from tasks created before the dialog existed, and `lastUpdatedDate` is
 * absent until the first progress update. Numbers are modelled as integers and
 * dates (`Date.toDateString()` values) as the strings they are compared as.
 */
module TaskModel {
  import opened Wrappers

  datatype Task = Task(
    id: string,
    name: string,
    total: int,
    current: int,
    defaultIncrement: int,
    createdDate: string,
    lastUpdatedDate: Option<string>,
    startValue: Option<int>,
    includeInTotal: Option<bool>)

  /** The progress range every increment is meant to keep: `0 <= current <= total`. */
  predicate InRange(t: Task) {
    0 <= t.current <= t.total
  }
}
