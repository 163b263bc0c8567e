/**
 * The task-collection operations of the daily to-do component
 * (daily-todo.tsx) as pure functions over the ordered task sequence and the
 * two side maps keyed by task id. The component's handlers compute each new
 * collection with `filter`, `map` and `reduce`; `DailyTodo.TodoList` stores
 * the results.
 */
module TodoOps {
  import opened Wrappers
  import opened Text
  import opened TaskModel

  // ---------------------------------------------------------------- adding

  /** The record `addTask` builds: trimmed name, no progress yet, no optional fields. */
  function NewTask(name: string, total: int, increment: int, id: string, today: string): Task {
    Task(id, Trim(name), total, 0, increment, today, None, None, None)
  }

  /**
   * The collection after `addTask`: unchanged when the name is empty or only
   * whitespace, otherwise the old tasks in order followed by exactly one new task.
   */
  function AddedTasks(ts: seq<Task>, name: string, total: int, increment: int, id: string, today: string): (r: seq<Task>)
    ensures Trim(name) == [] ==> r == ts
    ensures Trim(name) != [] ==> |r| == |ts| + 1 && r[..|ts|] == ts
    ensures Trim(name) != [] ==>
      (&& r[|ts|].id == id && r[|ts|].name == Trim(name) && r[|ts|].current == 0
       && r[|ts|].total == total && r[|ts|].defaultIncrement == increment && r[|ts|].createdDate == today
       && r[|ts|].lastUpdatedDate == None && r[|ts|].startValue == None && r[|ts|].includeInTotal == None)
  {
    if Trim(name) == [] then ts else ts + [NewTask(name, total, increment, id, today)]
  }

  // -------------------------------------------------------------- deleting

  /** `tasks.filter(task => task.id !== id)`. */
  function RemoveId(ts: seq<Task>, id: string): (r: seq<Task>)
    ensures |r| <= |ts|
    ensures forall t :: t in r <==> t in ts && t.id != id
  {
    if ts == [] then []
    else if ts[0].id == id then RemoveId(ts[1..], id)
    else [ts[0]] + RemoveId(ts[1..], id)
  }

  /** Removing an id distributes over concatenation: the survivors keep their relative order. */
  lemma {:induction false} RemoveIdAppend(a: seq<Task>, b: seq<Task>, id: string)
    ensures RemoveId(a + b, id) == RemoveId(a, id) + RemoveId(b, id)
  {
    if a == [] {
      assert a + b == b;
    } else {
      assert (a + b)[1..] == a[1..] + b;
      RemoveIdAppend(a[1..], b, id);
    }
  }

  /** Removing an id nobody has changes nothing. */
  lemma {:induction false} RemoveAbsentId(ts: seq<Task>, id: string)
    requires forall t :: t in ts ==> t.id != id
    ensures RemoveId(ts, id) == ts
  {
    if ts != [] {
      assert ts[0] in ts;
      assert forall t :: t in ts[1..] ==> t in ts;
      RemoveAbsentId(ts[1..], id);
    }
  }

  /** Deleting a freshly added task (with an id not yet in use) restores the old collection. */
  lemma DeleteUndoesAdd(ts: seq<Task>, name: string, total: int, increment: int, id: string, today: string)
    requires forall t :: t in ts ==> t.id != id
    ensures RemoveId(AddedTasks(ts, name, total, increment, id, today), id) == ts
  {
    RemoveAbsentId(ts, id);
    if Trim(name) != [] {
      var t := NewTask(name, total, increment, id, today);
      RemoveIdAppend(ts, [t], id);
      assert RemoveId([t], id) == [];
    }
  }

  // -------------------------------------------------------------- updating

  /** `Math.min(task.current + task.defaultIncrement, task.total)`, stamped with today. */
  function DefaultIncremented(t: Task, today: string): (r: Task)
    ensures r.current <= t.total && r.current <= t.current + t.defaultIncrement
    ensures r.current == t.total || r.current == t.current + t.defaultIncrement
    ensures r.lastUpdatedDate == Some(today)
    ensures r == t.(current := r.current, lastUpdatedDate := Some(today))
  {
    var next := if t.current + t.defaultIncrement < t.total then t.current + t.defaultIncrement else t.total;
    t.(current := next, lastUpdatedDate := Some(today))
  }

  /** `Math.max(0, Math.min(task.current + amount, task.total))`, stamped with today. */
  function CustomIncremented(t: Task, amount: int, today: string): (r: Task)
    ensures 0 <= r.current
    ensures t.total >= 0 ==> r.current <= t.total
    ensures 0 <= t.current + amount <= t.total ==> r.current == t.current + amount
    ensures t.current + amount > t.total >= 0 ==> r.current == t.total
    ensures t.current + amount < 0 || t.total < 0 ==> r.current == 0
    ensures r.lastUpdatedDate == Some(today)
    ensures r == t.(current := r.current, lastUpdatedDate := Some(today))
  {
    var capped := if t.current + amount < t.total then t.current + amount else t.total;
    t.(current := if capped < 0 then 0 else capped, lastUpdatedDate := Some(today))
  }

  /** The three per-task updates the component applies to the tasks with a given id. */
  datatype Edit =
    | DefaultIncrement(today: string)
    | CustomIncrement(amount: int, today: string)
    | Replace(task: Task)

  function ApplyEdit(e: Edit, t: Task): Task {
    match e
    case DefaultIncrement(today) => DefaultIncremented(t, today)
    case CustomIncrement(amount, today) => CustomIncremented(t, amount, today)
    case Replace(u) => u
  }

  /** `tasks.map(task => task.id === id ? edit(task) : task)`. */
  function UpdateById(ts: seq<Task>, id: string, e: Edit): (r: seq<Task>)
    ensures |r| == |ts|
    ensures forall i :: 0 <= i < |ts| ==> r[i] == if ts[i].id == id then ApplyEdit(e, ts[i]) else ts[i]
  {
    if ts == [] then []
    else [if ts[0].id == id then ApplyEdit(e, ts[0]) else ts[0]] + UpdateById(ts[1..], id, e)
  }

  /** `saveEditedTask`: every task whose id is the edited task's id becomes the edited task. */
  function ReplaceById(ts: seq<Task>, u: Task): (r: seq<Task>)
    ensures |r| == |ts|
    ensures forall i :: 0 <= i < |ts| ==> r[i] == if ts[i].id == u.id then u else ts[i]
  {
    UpdateById(ts, u.id, Replace(u))
  }

  /** The ids of a collection, in display order. */
  function Ids(ts: seq<Task>): (r: seq<string>)
    ensures |r| == |ts| && forall i :: 0 <= i < |ts| ==> r[i] == ts[i].id
  {
    seq(|ts|, i requires 0 <= i < |ts| => ts[i].id)
  }

  /** No update changes which tasks there are or their order: the id sequence is kept. */
  lemma UpdateKeepsIds(ts: seq<Task>, id: string, e: Edit)
    requires e.Replace? ==> e.task.id == id
    ensures Ids(UpdateById(ts, id, e)) == Ids(ts)
  {
    var r := UpdateById(ts, id, e);
    forall i | 0 <= i < |ts| ensures r[i].id == ts[i].id {
      if ts[i].id == id && !e.Replace? {
        assert ApplyEdit(e, ts[i]).id == ts[i].id;
      }
    }
  }

  /** Both increments keep every task within `0 <= current <= total` (the default one when its increment is not negative). */
  lemma {:induction false} IncrementKeepsRange(ts: seq<Task>, id: string, e: Edit)
    requires !e.Replace?
    requires forall t :: t in ts ==> InRange(t)
    requires e.DefaultIncrement? ==> forall t :: t in ts && t.id == id ==> t.defaultIncrement >= 0
    ensures forall t :: t in UpdateById(ts, id, e) ==> InRange(t)
  {
    var r := UpdateById(ts, id, e);
    forall t | t in r ensures InRange(t) {
      var i :| 0 <= i < |r| && r[i] == t;
      assert ts[i] in ts;
    }
  }

  /** Increments never change a target, so the summed target is unchanged. */
  lemma IncrementKeepsTargetSum(ts: seq<Task>, id: string, e: Edit)
    requires !e.Replace?
    ensures SumTotal(UpdateById(ts, id, e)) == SumTotal(ts)
  {
    SameTargetsSameSum(UpdateById(ts, id, e), ts);
  }

  /** Two lists with the same targets, position by position, have the same summed target. */
  lemma {:induction false} SameTargetsSameSum(a: seq<Task>, b: seq<Task>)
    requires |a| == |b| && forall i :: 0 <= i < |a| ==> a[i].total == b[i].total
    ensures SumTotal(a) == SumTotal(b)
  {
    if a != [] {
      SameTargetsSameSum(a[..|a| - 1], b[..|b| - 1]);
    }
  }

  // ------------------------------------------------------------ side maps

  /** `customValues[id] || 1`: a missing or zero stored amount means 1. */
  function CustomAmount(values: map<string, int>, id: string): (v: int)
    ensures v != 0
    ensures id in values && values[id] != 0 ==> v == values[id]
    ensures id !in values || values[id] == 0 ==> v == 1
  {
    if id in values && values[id] != 0 then values[id] else 1
  }

  /** `{ ...prev, [id]: !prev[id] }`: an absent flag reads as false, so it becomes true. */
  function ToggledFlags(flags: map<string, bool>, id: string): (r: map<string, bool>)
    ensures r.Keys == flags.Keys + {id}
    ensures r[id] == !(id in flags && flags[id])
    ensures forall k :: k in flags && k != id ==> r[k] == flags[k]
  {
    flags[id := !(id in flags && flags[id])]
  }

  /** The amount map after a toggle: a missing or zero amount is set to 1, any other is kept. */
  function DefaultedAmounts(values: map<string, int>, id: string): (r: map<string, int>)
    ensures r.Keys == values.Keys + {id}
    ensures r[id] == CustomAmount(values, id)
    ensures forall k :: k in values && k != id ==> r[k] == values[k]
  {
    if id in values && values[id] != 0 then values else values[id := 1]
  }

  // ------------------------------------------------------- derived views

  /**
   * `Math.round((current / total) * 100)` over exact rationals: the integer
   * nearest to 100·current/total, halves rounded up. `total == 0` gives NaN
   * or Infinity in the component and is excluded.
   */
  function RoundedPercent(current: int, total: int): (r: int)
    requires total != 0
    ensures total > 0 ==> 2 * total * r - total <= 200 * current < 2 * total * r + total
    ensures total < 0 ==> 2 * total * r - total >= 200 * current > 2 * total * r + total
  {
    if total > 0 then
      var q := (200 * current + total) / (2 * total);
      DivBounds(200 * current + total, 2 * total);
      q
    else
      var q := (-200 * current - total) / (-2 * total);
      DivBounds(-200 * current - total, -2 * total);
      q
  }

  lemma DivBounds(n: int, d: int)
    requires d > 0
    ensures d * (n / d) <= n < d * (n / d) + d
  {
  }

  /** Multiplying by a positive factor keeps a strict order. */
  lemma MulStrict(k: int, x: int, y: int)
    requires k > 0 && x < y
    ensures k * x < k * y
  {
  }

  /** The percentage of a task within its range lies in [0, 100]: 0 when untouched, 100 when done. */
  lemma PercentInRange(current: int, total: int)
    requires 0 <= current <= total && total > 0
    ensures 0 <= RoundedPercent(current, total) <= 100
    ensures current == 0 ==> RoundedPercent(current, total) == 0
    ensures current == total ==> RoundedPercent(current, total) == 100
  {
    var r := RoundedPercent(current, total);
    assert total * (2 * r - 1) <= 200 * current < total * (2 * r + 1);
    if r < 0 {
      MulStrict(total, 2 * r + 1, 0);
    }
    if r > 100 {
      MulStrict(total, 200, 2 * r - 1);
    }
    if current == 0 && r > 0 {
      MulStrict(total, 0, 2 * r - 1);
    }
    if current == total && r < 100 {
      MulStrict(total, 2 * r + 1, 200);
    }
  }

  /** More progress towards the same positive target never shows a smaller percentage. */
  lemma PercentMonotonic(c1: int, c2: int, total: int)
    requires c1 <= c2 && total > 0
    ensures RoundedPercent(c1, total) <= RoundedPercent(c2, total)
  {
    var r1, r2 := RoundedPercent(c1, total), RoundedPercent(c2, total);
    assert total * (2 * r1 - 1) < total * (2 * r2 + 1);
    if r1 > r2 {
      MulStrict(total, 2 * r2 + 1, 2 * r1 - 1);
    }
  }

  /** `tasks.reduce((sum, task) => sum + task.current, 0)`. */
  function SumCurrent(ts: seq<Task>): (r: int)
    ensures |ts| == 1 ==> r == ts[0].current
    ensures (forall i :: 0 <= i < |ts| ==> ts[i].current >= 0) ==> r >= 0
  {
    if ts == [] then 0 else SumCurrent(ts[..|ts| - 1]) + ts[|ts| - 1].current
  }

  /** `tasks.reduce((sum, task) => sum + task.total, 0)`. */
  function SumTotal(ts: seq<Task>): (r: int)
    ensures |ts| == 1 ==> r == ts[0].total
    ensures (forall i :: 0 <= i < |ts| ==> ts[i].total >= 0) ==> r >= 0
  {
    if ts == [] then 0 else SumTotal(ts[..|ts| - 1]) + ts[|ts| - 1].total
  }

  /** Both sums split over concatenation. */
  lemma {:induction false} SumsAppend(a: seq<Task>, b: seq<Task>)
    ensures SumCurrent(a + b) == SumCurrent(a) + SumCurrent(b)
    ensures SumTotal(a + b) == SumTotal(a) + SumTotal(b)
  {
    if b == [] {
      assert a + b == a;
    } else {
      assert (a + b)[..|a + b| - 1] == a + b[..|b| - 1];
      SumsAppend(a, b[..|b| - 1]);
    }
  }

  /** When every task is within its range, so are the sums. */
  lemma {:induction false} SumsBounded(ts: seq<Task>)
    requires forall t :: t in ts ==> InRange(t)
    ensures 0 <= SumCurrent(ts) <= SumTotal(ts)
  {
    if ts != [] {
      assert ts[|ts| - 1] in ts;
      assert forall t :: t in ts[..|ts| - 1] ==> t in ts;
      SumsBounded(ts[..|ts| - 1]);
    }
  }

  /** The overall progress card: current and target summed over all tasks, and their percentage. */
  datatype Totals = Totals(current: int, total: int, percentage: int)

  /**
   * `getTotalProgress`: `{0, 0, 0}` for no tasks; otherwise the sums over ALL
   * tasks (the `includeInTotal` flag plays no part) and their rounded
   * percentage. A zero target sum gives NaN or an infinity in the component and is excluded.
   */
  function TotalProgress(ts: seq<Task>): (r: Totals)
    requires ts == [] || SumTotal(ts) != 0
    ensures ts == [] ==> r == Totals(0, 0, 0)
    ensures ts != [] ==> r.current == SumCurrent(ts) && r.total == SumTotal(ts)
    ensures ts != [] && r.total > 0 ==> 2 * r.total * r.percentage - r.total <= 200 * r.current < 2 * r.total * r.percentage + r.total
    ensures ts != [] && r.total < 0 ==> 2 * r.total * r.percentage - r.total >= 200 * r.current > 2 * r.total * r.percentage + r.total
  {
    if ts == [] then Totals(0, 0, 0)
    else Totals(SumCurrent(ts), SumTotal(ts), RoundedPercent(SumCurrent(ts), SumTotal(ts)))
  }

  /** With every task in range and a positive target sum, the overall card shows 0..100 %. */
  lemma TotalProgressInRange(ts: seq<Task>)
    requires forall t :: t in ts ==> InRange(t)
    requires SumTotal(ts) > 0
    ensures 0 <= TotalProgress(ts).current <= TotalProgress(ts).total
    ensures 0 <= TotalProgress(ts).percentage <= 100
  {
    SumsBounded(ts);
    PercentInRange(SumCurrent(ts), SumTotal(ts));
  }

  /** When every task has reached its target, the overall card shows 100 %. */
  lemma {:induction false} AllDoneIsHundred(ts: seq<Task>)
    requires forall t :: t in ts ==> t.current == t.total
    requires SumTotal(ts) > 0
    ensures TotalProgress(ts).percentage == 100
  {
    SumsEqualWhenDone(ts);
    PercentInRange(SumCurrent(ts), SumTotal(ts));
  }

  lemma {:induction false} SumsEqualWhenDone(ts: seq<Task>)
    requires forall t :: t in ts ==> t.current == t.total
    ensures SumCurrent(ts) == SumTotal(ts)
  {
    if ts != [] {
      assert ts[|ts| - 1] in ts;
      assert forall t :: t in ts[..|ts| - 1] ==> t in ts;
      SumsEqualWhenDone(ts[..|ts| - 1]);
    }
  }

  /** The `includeInTotal` flag does not affect the overall card: changing it on any tasks leaves the sums alone. */
  lemma {:induction false} TotalsIgnoreIncludeInTotal(ts: seq<Task>, us: seq<Task>)
    requires |us| == |ts|
    requires forall i :: 0 <= i < |ts| ==> us[i] == ts[i].(includeInTotal := us[i].includeInTotal)
    ensures SumCurrent(us) == SumCurrent(ts) && SumTotal(us) == SumTotal(ts)
  {
    if ts != [] {
      TotalsIgnoreIncludeInTotal(ts[..|ts| - 1], us[..|us| - 1]);
    }
  }

  /** Adding a task adds its target to the target sum and nothing to the progress sum. */
  lemma AddedTaskSums(ts: seq<Task>, name: string, total: int, increment: int, id: string, today: string)
    requires Trim(name) != []
    ensures SumTotal(AddedTasks(ts, name, total, increment, id, today)) == SumTotal(ts) + total
    ensures SumCurrent(AddedTasks(ts, name, total, increment, id, today)) == SumCurrent(ts)
  {
    var t := NewTask(name, total, increment, id, today);
    SumsAppend(ts, [t]);
    assert SumTotal([t]) == SumTotal([]) + total by { assert [t][..0] == []; }
    assert SumCurrent([t]) == SumCurrent([]) + 0 by { assert [t][..0] == []; }
  }

  /** `isCompletedToday`: the last update happened on the given calendar day. */
  predicate CompletedToday(t: Task, today: string) {
    t.lastUpdatedDate == Some(today)
  }

  /** The "in progress" statistic: strictly between zero and the target. */
  predicate InProgress(t: Task) {
    0 < t.current < t.total
  }

  /** The "not started" statistic: no progress at all (zero, whatever the start value). */
  predicate NotStarted(t: Task) {
    t.current == 0
  }

  /** `tasks.filter(p).length`. */
  function Count(ts: seq<Task>, p: Task -> bool): (n: nat)
    ensures n <= |ts|
    ensures n == 0 <==> forall t :: t in ts ==> !p(t)
    ensures |ts| == 1 ==> (n == 1 <==> p(ts[0]))
  {
    if ts == [] then 0 else (if p(ts[0]) then 1 else 0) + Count(ts[1..], p)
  }

  /** Counting splits over concatenation; with the one-task case this fixes the count. */
  lemma {:induction false} CountAppend(a: seq<Task>, b: seq<Task>, p: Task -> bool)
    ensures Count(a + b, p) == Count(a, p) + Count(b, p)
  {
    if a != [] {
      assert (a + b)[0] == a[0] && (a + b)[1..] == a[1..] + b;
      CountAppend(a[1..], b, p);
    } else {
      assert a + b == b;
    }
  }

  /** The "today" statistics card: task count, completed today, in progress, not started. */
  datatype Stats = Stats(taskCount: nat, completedToday: nat, inProgress: nat, notStarted: nat)

  function DailyStats(ts: seq<Task>, today: string): (r: Stats)
    ensures r.taskCount == |ts|
    ensures r.completedToday <= |ts| && r.inProgress <= |ts| && r.notStarted <= |ts|
    ensures r.completedToday == 0 <==> forall t :: t in ts ==> !CompletedToday(t, today)
    ensures r.inProgress == 0 <==> forall t :: t in ts ==> !InProgress(t)
    ensures r.notStarted == 0 <==> forall t :: t in ts ==> !NotStarted(t)
    ensures r.completedToday == Count(ts, t => CompletedToday(t, today))
    ensures r.inProgress == Count(ts, InProgress) && r.notStarted == Count(ts, NotStarted)
  {
    Stats(|ts|, Count(ts, t => CompletedToday(t, today)), Count(ts, InProgress), Count(ts, NotStarted))
  }

  /** Two statistics no task can satisfy together count at most all tasks between them. */
  lemma {:induction false} DisjointCounts(ts: seq<Task>, p: Task -> bool, q: Task -> bool)
    requires forall t :: !(p(t) && q(t))
    ensures Count(ts, p) + Count(ts, q) <= |ts|
  {
    if ts != [] {
      DisjointCounts(ts[1..], p, q);
    }
  }

  /** "In progress" and "not started" never overlap, so together they count at most all tasks. */
  lemma StatsDisjoint(ts: seq<Task>, today: string)
    ensures DailyStats(ts, today).inProgress + DailyStats(ts, today).notStarted <= DailyStats(ts, today).taskCount
  {
    DisjointCounts(ts, InProgress, NotStarted);
  }

  /** After an increment of `id` on `today`, that task counts as completed today and no task stops counting. */
  lemma {:induction false} IncrementMarksCompletedToday(ts: seq<Task>, id: string, e: Edit, today: string)
    requires e == DefaultIncrement(today) || (e.CustomIncrement? && e.today == today)
    ensures forall t :: t in UpdateById(ts, id, e) && t.id == id ==> CompletedToday(t, today)
    ensures DailyStats(UpdateById(ts, id, e), today).completedToday >= DailyStats(ts, today).completedToday
  {
    var r := UpdateById(ts, id, e);
    forall t | t in r && t.id == id ensures CompletedToday(t, today) {
      var i :| 0 <= i < |r| && r[i] == t;
    }
    CountGrows(ts, id, e, today);
  }

  lemma {:induction false} CountGrows(ts: seq<Task>, id: string, e: Edit, today: string)
    requires e == DefaultIncrement(today) || (e.CustomIncrement? && e.today == today)
    ensures Count(UpdateById(ts, id, e), t => CompletedToday(t, today)) >= Count(ts, t => CompletedToday(t, today))
  {
    if ts != [] {
      CountGrows(ts[1..], id, e, today);
      assert UpdateById(ts, id, e)[1..] == UpdateById(ts[1..], id, e);
    }
  }
}
