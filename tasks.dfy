/** The task entity as the interface sees it, and the list lookups the
    callbacks perform on the task list. */
module Tasks {

  datatype Option<T> = None | Some(value: T)

  /** A calendar date (year, month, day); no time component. */
  datatype Date = Date(year: int, month: int, day: int)

  /** Rust's `u8`, the type of a task's priority. */
  type Priority = x: int | 0 <= x < 256

  datatype Task = Task(
    name: string,
    category: string,
    subCategory: string,
    due: Option<Date>,
    done: bool,
    priority: Priority)

  /** `Task::formatted(true)` lives in a crate that is not part of this model:
      every operation takes it as an arbitrary total function. */
  type Formatter = Task -> string

  /** The values of the detail panel's widgets when "save" is pressed
      (name, category, sub-category entries, due switch and calendar,
      done check button, priority spin button already cast to `u8`). */
  datatype Form = Form(
    name: string,
    category: string,
    subCategory: string,
    due: Option<Date>,
    done: bool,
    priority: Priority)

  /** `Iterator::find` together with the position of the element it finds:
      the index of the first element satisfying `p`, or None. */
  function First<T>(s: seq<T>, p: T -> bool): (r: Option<nat>)
    ensures r.Some? ==> r.value < |s| && p(s[r.value])
    ensures r.Some? ==> forall k :: 0 <= k < r.value ==> !p(s[k])
    ensures r.None? <==> forall k :: 0 <= k < |s| ==> !p(s[k])
  {
    if s == [] then None
    else if p(s[0]) then Some(0)
    else
      match First(s[1..], p)
      case None => None
      case Some(i) => Some(i + 1)
  }

  /** The predicate of `find_task_in_list`: same category and same formatted text. */
  predicate Matches(t: Task, cat: string, tf: string, fmt: Formatter) {
    t.category == cat && fmt(t) == tf
  }

  /** No task before index `i` matches `(cat, tf)`. */
  predicate NoneBefore(tasks: seq<Task>, i: nat, cat: string, tf: string, fmt: Formatter) {
    forall k :: 0 <= k < i && k < |tasks| ==> !Matches(tasks[k], cat, tf, fmt)
  }

  predicate HasMatch(tasks: seq<Task>, cat: string, tf: string, fmt: Formatter) {
    exists k :: 0 <= k < |tasks| && Matches(tasks[k], cat, tf, fmt)
  }

  /** `find_task_in_list_mut`: the position of the task the returned `&mut` refers to. */
  function FindTaskIndex(tasks: seq<Task>, cat: string, tf: string, fmt: Formatter): (r: Option<nat>)
    ensures r.Some? ==> r.value < |tasks| && Matches(tasks[r.value], cat, tf, fmt)
    ensures r.Some? ==> NoneBefore(tasks, r.value, cat, tf, fmt)
    ensures r.None? <==> !HasMatch(tasks, cat, tf, fmt)
  {
    First(tasks, t => Matches(t, cat, tf, fmt))
  }

  /** `find_task_in_list`: the first task with category `cat` whose formatted
      text is `tf`; None exactly when no task has both. */
  function FindTask(tasks: seq<Task>, cat: string, tf: string, fmt: Formatter): (r: Option<Task>)
    ensures r.None? <==> !HasMatch(tasks, cat, tf, fmt)
    ensures r.Some? ==> Matches(r.value, cat, tf, fmt)
    ensures r.Some? ==> exists i :: 0 <= i < |tasks| && tasks[i] == r.value && NoneBefore(tasks, i, cat, tf, fmt)
  {
    match FindTaskIndex(tasks, cat, tf, fmt)
    case None => None
    case Some(i) => Some(tasks[i])
  }

  /** The index the delete handler passes to `remove_task` when no task matches. */
  const Sentinel: nat := 9999

  /** The delete handler's `enumerate().find().map()` lookup followed by
      `unwrap_or(9999)`. */
  function DeleteIndex(tasks: seq<Task>, tf: string, cat: string, fmt: Formatter): (i: nat)
    ensures HasMatch(tasks, cat, tf, fmt) ==>
              i < |tasks| && Matches(tasks[i], cat, tf, fmt) && NoneBefore(tasks, i, cat, tf, fmt)
    ensures !HasMatch(tasks, cat, tf, fmt) ==> i == Sentinel
  {
    match First(tasks, (t: Task) => fmt(t) == tf && t.category == cat)
    case Some(i) => i
    case None => Sentinel
  }

  /** The delete handler removes the same task that selecting the leaf shows. */
  lemma DeleteAgreesWithFind(tasks: seq<Task>, tf: string, cat: string, fmt: Formatter)
    ensures FindTaskIndex(tasks, cat, tf, fmt).Some? ==> DeleteIndex(tasks, tf, cat, fmt) == FindTaskIndex(tasks, cat, tf, fmt).value
    ensures FindTaskIndex(tasks, cat, tf, fmt).None? ==> DeleteIndex(tasks, tf, cat, fmt) == Sentinel
  {
  }

  /** On a list of more than 9999 tasks a miss still designates a real task,
      one that does not match the selected leaf. */
  lemma DeleteMissNamesOtherTask(tasks: seq<Task>, tf: string, cat: string, fmt: Formatter)
    requires !HasMatch(tasks, cat, tf, fmt)
    requires |tasks| > Sentinel
    ensures DeleteIndex(tasks, tf, cat, fmt) < |tasks|
    ensures !Matches(tasks[DeleteIndex(tasks, tf, cat, fmt)], cat, tf, fmt)
  {
  }

  /** The save handler's writes through the `&mut Task`: every field is
      overwritten with the panel's value. */
  function Edited(t: Task, form: Form): (r: Task)
    ensures r == Task(form.name, form.category, form.subCategory, form.due, form.done, form.priority)
  {
    t.(name := form.name, category := form.category, subCategory := form.subCategory,
       due := form.due, done := form.done, priority := form.priority)
  }

  /** The task list after the save handler's edit of the task selected as `(cat, tf)`. */
  function EditedList(tasks: seq<Task>, cat: string, tf: string, form: Form, fmt: Formatter): (r: seq<Task>)
    requires HasMatch(tasks, cat, tf, fmt)
    ensures |r| == |tasks|
    ensures forall k :: 0 <= k < |tasks| ==>
              r[k] == (if Matches(tasks[k], cat, tf, fmt) && NoneBefore(tasks, k, cat, tf, fmt)
                       then Edited(tasks[k], form) else tasks[k])
  {
    var i := FindTaskIndex(tasks, cat, tf, fmt).value;
    tasks[i := Edited(tasks[i], form)]
  }

  /** The edit replaces only the first matching task, with the panel's values,
      and that task can be found again under its new category and text at or
      before its own position. */
  lemma EditChangesOnlyMatch(tasks: seq<Task>, cat: string, tf: string, form: Form, fmt: Formatter)
    requires HasMatch(tasks, cat, tf, fmt)
    ensures var i := FindTaskIndex(tasks, cat, tf, fmt).value;
            var r := EditedList(tasks, cat, tf, form, fmt);
            |r| == |tasks| &&
            (forall k :: 0 <= k < |tasks| && k != i ==> r[k] == tasks[k]) &&
            r[i].name == form.name && r[i].category == form.category &&
            r[i].subCategory == form.subCategory && r[i].due == form.due &&
            r[i].done == form.done && r[i].priority == form.priority &&
            FindTaskIndex(r, form.category, fmt(r[i]), fmt).Some? &&
            FindTaskIndex(r, form.category, fmt(r[i]), fmt).value <= i
  {
    var i := FindTaskIndex(tasks, cat, tf, fmt).value;
    var r := EditedList(tasks, cat, tf, form, fmt);
    assert Matches(r[i], form.category, fmt(r[i]), fmt);
  }

  /** The name the "new" button gives the task it creates, and looks for. */
  const NewTaskName: string := "new task"

  predicate HasNewTask(tasks: seq<Task>) {
    exists k :: 0 <= k < |tasks| && tasks[k].name == NewTaskName
  }

  /** The "new" button on the task list: the list afterwards and the index `n`
      the handler computes. `created` is what `Task::new("new task")` returns. */
  function PressNew(tasks: seq<Task>, created: Task): (r: (seq<Task>, nat))
    ensures HasNewTask(tasks) ==>
              r.0 == tasks && r.1 < |tasks| && tasks[r.1].name == NewTaskName &&
              forall k :: 0 <= k < r.1 ==> tasks[k].name != NewTaskName
    ensures !HasNewTask(tasks) ==> r.0 == tasks + [created] && r.1 == |r.0| - 1
  {
    match First(tasks, (t: Task) => t.name == NewTaskName)
    case Some(i) => (tasks, i)
    case None => (tasks + [created], |tasks|)
  }

  /** Pressing "new" twice does what pressing it once does, provided the
      created task carries the name the handler looks for. */
  lemma {:induction false} PressNewIdempotent(tasks: seq<Task>, created: Task)
    requires created.name == NewTaskName
    ensures PressNew(PressNew(tasks, created).0, created) == PressNew(tasks, created)
  {
    var once := PressNew(tasks, created);
    if !HasNewTask(tasks) {
      assert once.0[|tasks|] == created;
      assert HasNewTask(once.0);
      var twice := PressNew(once.0, created);
      assert twice.0 == once.0;
      assert forall k :: 0 <= k < |tasks| ==> once.0[k] == tasks[k];
    }
  }
}
