/**
 * The edit dialog (edit-task-dialog.tsx): the form it fills from a task when
 * it opens, and the record `handleSave` builds from the form.
 */
module EditTaskDialog {
  import opened Wrappers
  import opened Text
  import opened TaskModel

  /** The dialog's form fields, as numbers and text after input parsing. */
  datatype Form = Form(
    name: string,
    total: int,
    current: int,
    defaultIncrement: int,
    startValue: int,
    includeInTotal: bool)

  /** `task.startValue || 0`: a missing start value loads as 0. */
  function LoadedStartValue(t: Task): (v: int)
    ensures t.startValue.None? ==> v == 0
    ensures t.startValue.Some? ==> v == t.startValue.value
  {
    if t.startValue.Some? && t.startValue.value != 0 then t.startValue.value else 0
  }

  /** `task.includeInTotal !== false`: only an explicit false loads as false. */
  function LoadedIncludeInTotal(t: Task): (b: bool)
    ensures !b <==> t.includeInTotal == Some(false)
  {
    t.includeInTotal != Some(false)
  }

  /** The opening effect: with a task and the dialog open, the form shows the task; otherwise it is left as it was. */
  function LoadForm(task: Option<Task>, open: bool, previous: Form): (f: Form)
    ensures task.None? || !open ==> f == previous
    ensures task.Some? && open ==>
      (&& f.name == task.value.name && f.total == task.value.total && f.current == task.value.current
       && f.defaultIncrement == task.value.defaultIncrement
       && f.startValue == LoadedStartValue(task.value) && f.includeInTotal == LoadedIncludeInTotal(task.value))
  {
    if task.Some? && open then
      var t := task.value;
      Form(t.name, t.total, t.current, t.defaultIncrement, LoadedStartValue(t), LoadedIncludeInTotal(t))
    else previous
  }

  function Max(a: int, b: int): (m: int)
    ensures m >= a && m >= b && (m == a || m == b)
  {
    if a >= b then a else b
  }

  /**
   * `handleSave`: no update without a task or with a blank name; otherwise the
   * task with the form's values, each number clamped from below, and today's
   * date as last update exactly when the progress value was changed.
   */
  function HandleSave(task: Option<Task>, form: Form, today: string): (r: Option<Task>)
    ensures r.None? <==> task.None? || Trim(form.name) == []
    ensures r.Some? ==>
      var t, u := task.value, r.value;
      && u.id == t.id && u.createdDate == t.createdDate
      && u.name == Trim(form.name)
      && u.total >= form.startValue + 1 && u.total >= form.total
      && (u.total == form.startValue + 1 || u.total == form.total)
      && u.current >= form.startValue && u.current >= form.current
      && (u.current == form.startValue || u.current == form.current)
      && u.startValue.Some? && u.startValue.value >= 0
      && (form.startValue >= 0 ==> u.startValue.value == form.startValue)
      && (form.startValue < 0 ==> u.startValue.value == 0)
      && u.defaultIncrement >= 1 && u.defaultIncrement >= form.defaultIncrement
      && (u.defaultIncrement == 1 || u.defaultIncrement == form.defaultIncrement)
      && u.includeInTotal == Some(form.includeInTotal)
      && u.lastUpdatedDate == (if form.current != t.current then Some(today) else t.lastUpdatedDate)
  {
    if task.None? || Trim(form.name) == [] then None
    else
      var t := task.value;
      var progressChanged := form.current != t.current;
      Some(t.(
        name := Trim(form.name),
        total := Max(form.startValue + 1, form.total),
        current := Max(form.startValue, form.current),
        startValue := Some(Max(0, form.startValue)),
        defaultIncrement := Max(1, form.defaultIncrement),
        includeInTotal := Some(form.includeInTotal),
        lastUpdatedDate := if progressChanged then Some(today) else t.lastUpdatedDate))
  }

  /** A task whose fields already meet every bound `handleSave` enforces. */
  predicate WellFormed(t: Task) {
    && Trim(t.name) == t.name && t.name != []
    && LoadedStartValue(t) >= 0
    && t.total >= LoadedStartValue(t) + 1
    && t.current >= LoadedStartValue(t)
    && t.defaultIncrement >= 1
  }

  /**
   * Opening the dialog on a well-formed task and saving without touching the
   * form gives the task back, with its optional fields now explicit and its
   * last-update date untouched.
   */
  lemma SaveUntouchedForm(t: Task, previous: Form, today: string)
    requires WellFormed(t)
    ensures HandleSave(Some(t), LoadForm(Some(t), true, previous), today)
      == Some(t.(startValue := Some(LoadedStartValue(t)), includeInTotal := Some(LoadedIncludeInTotal(t))))
  {
  }

  /** Whatever the form held, with a start value that is not negative the saved task is well-formed. */
  lemma SavedIsWellFormed(t: Task, form: Form, today: string)
    requires Trim(form.name) != [] && form.startValue >= 0
    ensures WellFormed(HandleSave(Some(t), form, today).value)
  {
    TrimIdempotent(form.name);
  }

  /**
   * Saving is idempotent for start values that are not negative: reopening
   * the saved task and saving again changes nothing.
   */
  lemma SaveIdempotent(t: Task, form: Form, today: string, later: string, previous: Form)
    requires Trim(form.name) != [] && form.startValue >= 0
    ensures var u := HandleSave(Some(t), form, today).value;
      HandleSave(Some(u), LoadForm(Some(u), true, previous), later) == Some(u)
  {
    var u := HandleSave(Some(t), form, today).value;
    SavedIsWellFormed(t, form, today);
    SaveUntouchedForm(u, previous, later);
    assert u.(startValue := Some(LoadedStartValue(u)), includeInTotal := Some(LoadedIncludeInTotal(u))) == u;
  }

  /**
   * With a negative start value the record `handleSave` builds breaks both
   * bounds its comments promise: the target is not above the stored start
   * value and the progress is below it.
   */
  lemma NegativeStartBreaksBounds(t: Task, name: string, today: string)
    requires Trim(name) != []
    ensures var u := HandleSave(Some(t), Form(name, 0, -3, 1, -3, true), today).value;
      && u.startValue == Some(0) && u.total == 0 && u.current == -3
      && !(u.total >= u.startValue.value + 1) && !(u.current >= u.startValue.value)
  {
  }

  /** The save as evidently intended: the target and progress are clamped against the STORED (clamped) start value. */
  function HandleSaveClamped(task: Option<Task>, form: Form, today: string): (r: Option<Task>)
    ensures r.None? <==> task.None? || Trim(form.name) == []
    ensures r.Some? ==>
      var t, u := task.value, r.value;
      && u.id == t.id && u.createdDate == t.createdDate && u.name == Trim(form.name)
      && u.startValue.Some? && u.startValue.value == Max(0, form.startValue)
      && u.total >= u.startValue.value + 1 && u.total >= form.total
      && (u.total == u.startValue.value + 1 || u.total == form.total)
      && u.current >= u.startValue.value && u.current >= form.current
      && (u.current == u.startValue.value || u.current == form.current)
      && u.defaultIncrement >= 1 && u.defaultIncrement >= form.defaultIncrement
      && (u.defaultIncrement == 1 || u.defaultIncrement == form.defaultIncrement)
      && u.includeInTotal == Some(form.includeInTotal)
      && u.lastUpdatedDate == (if form.current != t.current then Some(today) else t.lastUpdatedDate)
  {
    if task.None? || Trim(form.name) == [] then None
    else
      var t := task.value;
      var start := Max(0, form.startValue);
      Some(t.(
        name := Trim(form.name),
        total := Max(start + 1, form.total),
        current := Max(start, form.current),
        startValue := Some(start),
        defaultIncrement := Max(1, form.defaultIncrement),
        includeInTotal := Some(form.includeInTotal),
        lastUpdatedDate := if form.current != t.current then Some(today) else t.lastUpdatedDate))
  }

  /** The corrected save always yields a well-formed task, and saving it again changes nothing. */
  lemma ClampedSaveIsWellFormedAndIdempotent(t: Task, form: Form, today: string, later: string, previous: Form)
    requires Trim(form.name) != []
    ensures WellFormed(HandleSaveClamped(Some(t), form, today).value)
    ensures var u := HandleSaveClamped(Some(t), form, today).value;
      HandleSaveClamped(Some(u), LoadForm(Some(u), true, previous), later) == Some(u)
  {
    var u := HandleSaveClamped(Some(t), form, today).value;
    TrimIdempotent(form.name);
    assert WellFormed(u);
    ClampedAgreesOnValidStart(Some(u), LoadForm(Some(u), true, previous), later);
    SaveUntouchedForm(u, previous, later);
    assert u.(startValue := Some(LoadedStartValue(u)), includeInTotal := Some(LoadedIncludeInTotal(u))) == u;
  }

  /** On start values that are not negative the corrected save agrees with the original one. */
  lemma ClampedAgreesOnValidStart(task: Option<Task>, form: Form, today: string)
    requires form.startValue >= 0
    ensures HandleSaveClamped(task, form, today) == HandleSave(task, form, today)
  {
  }
}
