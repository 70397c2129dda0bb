/** The callbacks of `UILayout` (src/main.rs) with the widgets taken out:
    what each reads from the panel is a parameter, what it asks the view to
    select is a result, and `Task::formatted(true)` and `get_categories` are
    the parameters `fmt` and `categories`. */
module Handlers {
  import opened Tasks
  import opened Tree
  import opened Build
  import opened Relocation
  import opened Store

  /** `TasksManager::get_categories`, outside the model. */
  type Categories = seq<Task> -> seq<string>

  /** `update_tasks_list`: a new store filled by two nested loops, then shown
      by the view. */
  method UpdateTasksList(view: TreeView, tasks: seq<Task>, categories: Categories, fmt: Formatter)
    modifies view
    ensures fresh(view.model)
    ensures view.model.nodes == Built(categories(tasks), tasks, fmt)
  {
    var model := new TreeStore();
    var cats := categories(tasks);
    for ci := 0 to |cats|
      invariant fresh(model)
      invariant model.nodes == Built(cats[..ci], tasks, fmt)
    {
      var parent := model.InsertTop(cats[ci]);
      InsertLeavesOf(model, parent, tasks, fmt);
      assert Built(cats[..ci + 1], tasks, fmt) == Built(cats[..ci], tasks, fmt) + [Node(cats[ci], LeavesOf(cats[ci], tasks, fmt))];
    }
    assert cats[..|cats|] == cats;
    view.model := model;
  }

  /** The inner loop of `update_tasks_list`: every task of the category of
      node `parent` becomes a child of it, in task-list order. */
  method InsertLeavesOf(model: TreeStore, parent: nat, tasks: seq<Task>, fmt: Formatter)
    requires parent < |model.nodes| && model.nodes[parent].leaves == []
    modifies model
    ensures model.nodes == old(model.nodes)[parent := Node(old(model.nodes)[parent].category,
                                                            LeavesOf(old(model.nodes)[parent].category, tasks, fmt))]
  {
    var c := model.nodes[parent].category;
    ghost var start := model.nodes;
    for k := 0 to |tasks|
      invariant model.nodes == start[parent := Node(c, LeavesOf(c, tasks[..k], fmt))]
    {
      assert tasks[..k + 1][..k] == tasks[..k];
      if tasks[k].category == c {
        var _ := model.InsertLeaf(parent, fmt(tasks[k]));
      }
    }
    assert tasks[..|tasks|] == tasks;
  }

  /** What the selection-changed handler does to the detail panel. */
  datatype Panel = Show(task: Task) | Disable | Keep

  /** The selection-changed handler (src/main.rs:111-140): no selection
      disables the panel; a leaf shows the task found for it, or disables the
      panel when none is found; a category row leaves the panel as it is. */
  function OnSelectionChanged(nodes: Forest, selected: Option<Path>, tasks: seq<Task>, fmt: Formatter): (a: Panel)
    requires selected.Some? ==> ValidPath(nodes, selected.value)
    ensures selected.None? ==> a == Disable
    ensures selected.Some? && |selected.value| == 1 ==> a == Keep
    ensures selected.Some? && |selected.value| == 2 ==>
              var path := selected.value;
              var leaf, cat := nodes[path[0]].leaves[path[1]], nodes[path[0]].category;
              (a.Show? <==> HasMatch(tasks, cat, leaf, fmt)) &&
              (a.Show? ==> Matches(a.task, cat, leaf, fmt)) &&
              (!a.Show? ==> a == Disable)
  {
    match selected
    case None => Disable
    case Some(path) =>
      var (tf, cat) := SelectedData(nodes, path);
      if tf.Some? && cat.Some? then
        match FindTask(tasks, cat.value, tf.value, fmt)
        case Some(t) => Show(t)
        case None => Disable
      else
        Keep
  }

  /** Lines 164-181: the panel's values written field by field into the task
      `find_task_in_list_mut` returned. */
  method EditTask(manager: TasksManager, i: nat, form: Form)
    requires i < |manager.tasks|
    modifies manager
    ensures manager.tasks == old(manager.tasks)[i := Edited(old(manager.tasks)[i], form)]
  {
    manager.tasks := manager.tasks[i := manager.tasks[i].(name := form.name)];
    manager.tasks := manager.tasks[i := manager.tasks[i].(category := form.category)];
    manager.tasks := manager.tasks[i := manager.tasks[i].(subCategory := form.subCategory)];
    manager.tasks := manager.tasks[i := manager.tasks[i].(due := form.due)];
    manager.tasks := manager.tasks[i := manager.tasks[i].(done := form.done)];
    manager.tasks := manager.tasks[i := manager.tasks[i].(priority := form.priority)];
  }

  /** The cursor walk of lines 380-397: start on the first top-level row and
      advance before every test, stopping at the first row with `category`. */
  method ScanCategory(model: TreeStore, category: string) returns (wanted: Option<nat>)
    requires |model.nodes| > 0
    ensures wanted == ScanTarget(model.nodes, category, ScanStartAsWritten)
  {
    var cursor := 0;
    wanted := None;
    while true
      invariant cursor < |model.nodes|
      invariant wanted == None
      invariant forall k :: ScanStartAsWritten <= k <= cursor ==> model.nodes[k].category != category
      decreases |model.nodes| - cursor
    {
      if cursor + 1 == |model.nodes| {
        break;
      }
      cursor := cursor + 1;
      if model.nodes[cursor].category == category {
        wanted := Some(cursor);
        break;
      }
    }
  }

  /** Lines 399-403: remove the leaf, then insert `text` under the node the
      scan found, whose iterator `newPos` persists across the removal. */
  method MoveIntoFound(model: TreeStore, path: Path, newPos: nat, text: string) returns (select: Path)
    requires ValidPath(model.nodes, path) && |path| == 2
    requires newPos < |model.nodes| && newPos != path[0] && text == model.nodes[path[0]].leaves[path[1]]
    modifies model
    ensures (model.nodes, select) == IntoFoundNode(old(model.nodes), path[0], path[1], newPos)
  {
    ghost var nodes := model.nodes;
    var p := path[0];
    assert path == [p, path[1]];
    var before := |model.nodes|;
    RemovedKeepsOtherNode(nodes, p, path[1], newPos);
    Remove(model, path);
    // The iterator `new_pos` stays valid; its index moves up when the
    // row-deleted handler pruned a node before it.
    var target := if |model.nodes| < before && p < newPos then newPos - 1 else newPos;
    select := model.InsertLeaf(target, text);
  }

  /** Lines 404-411: insert a new last node for `category`, remove the leaf,
      then insert `text` under the new node. */
  method MoveIntoNew(model: TreeStore, path: Path, category: string, text: string) returns (select: Path)
    requires ValidPath(model.nodes, path) && |path| == 2
    requires text == model.nodes[path[0]].leaves[path[1]]
    modifies model
    ensures (model.nodes, select) == IntoNewNode(old(model.nodes), path[0], path[1], category)
  {
    ghost var nodes := model.nodes;
    var p := path[0];
    assert path == [p, path[1]];
    var parent := model.InsertTop(category);
    assert model.nodes[p] == nodes[p];
    Remove(model, path);
    NewNodeShape(nodes, p, path[1], category);
    var target := |model.nodes| - 1;
    select := model.InsertLeaf(target, text);
  }

  /** Lines 380-411: the leaf at `path` moves to the node of `category`, the
      one the scan found or a new last one inserted before the removal, and
      the moved leaf's path is returned for selection. `text` is the owning
      task's formatted text, which is the leaf's own text. */
  method MoveLeaf(model: TreeStore, path: Path, category: string, text: string) returns (select: Path)
    requires ValidPath(model.nodes, path) && |path| == 2
    requires model.nodes[path[0]].category != category && text == model.nodes[path[0]].leaves[path[1]]
    modifies model
    ensures model.nodes == Relocate(old(model.nodes), path[0], path[1], category, ScanStartAsWritten).0
    ensures select == Relocate(old(model.nodes), path[0], path[1], category, ScanStartAsWritten).1
  {
    var wanted := ScanCategory(model, category);
    match wanted {
      case Some(newPos) =>
        select := MoveIntoFound(model, path, newPos, text);
      case None =>
        select := MoveIntoNew(model, path, category, text);
    }
  }

  /** The row-changed handler (src/main.rs:355-429) on the row at `path`.
      `aborted` is the panic of the `expect` at line 421. */
  method OnRowChanged(model: TreeStore, manager: TasksManager, path: Path, fmt: Formatter)
    returns (aborted: bool, select: Option<Path>)
    requires ValidPath(model.nodes, path)
    modifies model
    ensures var r := RowChanged(old(model.nodes), path, manager.tasks, fmt);
            aborted == r.Abort? && (!aborted ==> model.nodes == r.nodes && select == r.select)
  {
    aborted, select := false, None;
    var (tf, cat) := SelectedData(model.nodes, path);
    if tf.Some? && cat.Some? {
      ghost var step := MoveStep(model.nodes, path, manager.tasks, fmt, ScanStartAsWritten);
      var parentPath := path[..1];
      var found := TextOwner(manager.tasks, tf.value, fmt);
      if found.Some? {
        var task := manager.tasks[found.value];
        if task.category != cat.value {
          var leaf := MoveLeaf(model, path, task.category, fmt(task));
          select := Some(leaf);
        }
      }
      assert model.nodes == step.0 && select == step.1;
      if parentPath[0] < |model.nodes| {
        if |model.nodes[parentPath[0]].leaves| == 0 {
          Remove(model, parentPath);
        }
      } else {
        aborted := true;
      }
    }
  }

  /** The save handler (src/main.rs:150-202). With a leaf selected, the task
      found for it is overwritten with the panel's values, the leaf's text
      becomes the edited task's formatted text, and the row-changed signal
      this emits runs its handler. Nothing happens without a selected leaf. */
  method OnSave(view: TreeView, manager: TasksManager, selected: Option<Path>, form: Form, fmt: Formatter)
    returns (aborted: bool, select: Option<Path>)
    requires selected.Some? ==> ValidPath(view.model.nodes, selected.value)
    requires selected.Some? && |selected.value| == 2 ==>
               HasMatch(manager.tasks, view.model.nodes[selected.value[0]].category,
                        view.model.nodes[selected.value[0]].leaves[selected.value[1]], fmt)
    modifies view.model, manager
    ensures selected.None? || |selected.value| == 1 ==>
              manager.tasks == old(manager.tasks) && view.model.nodes == old(view.model.nodes) &&
              !aborted && select.None?
    ensures selected.Some? && |selected.value| == 2 ==>
              var path := selected.value;
              var leaf, cat := old(view.model.nodes)[path[0]].leaves[path[1]], old(view.model.nodes)[path[0]].category;
              var i := FindTaskIndex(old(manager.tasks), cat, leaf, fmt).value;
              manager.tasks == EditedList(old(manager.tasks), cat, leaf, form, fmt) &&
              var r := RowChanged(SetLeaf(old(view.model.nodes), path[0], path[1], fmt(manager.tasks[i])),
                                  path, manager.tasks, fmt);
              aborted == r.Abort? && (!aborted ==> view.model.nodes == r.nodes && select == r.select)
  {
    aborted, select := false, None;
    var model := view.model;
    if selected.Some? {
      var path := selected.value;
      var (tf, cat) := SelectedData(model.nodes, path);
      if tf.Some? && cat.Some? {
        var i := FindTaskIndex(manager.tasks, cat.value, tf.value, fmt).value;
        EditTask(manager, i, form);
        var newText := fmt(manager.tasks[i]);
        model.SetValue(path, newText);
        aborted, select := OnRowChanged(model, manager, path, fmt);
      }
    }
  }

  /** The delete handler (src/main.rs:207-267). With a leaf selected and the
      dialog answered "yes", it returns the index it hands to `remove_task`
      (whose effect on the task list is outside the model) and removes the
      leaf, with the row-deleted handler pruning an emptied parent; otherwise
      nothing changes. */
  method OnDelete(model: TreeStore, manager: TasksManager, selected: Option<Path>, confirmed: bool, fmt: Formatter)
    returns (removeIndex: Option<nat>)
    requires selected.Some? ==> ValidPath(model.nodes, selected.value)
    modifies model
    ensures selected.Some? && |selected.value| == 2 && confirmed ==>
              var path := selected.value;
              removeIndex == Some(DeleteIndex(manager.tasks, old(model.nodes)[path[0]].leaves[path[1]],
                                              old(model.nodes)[path[0]].category, fmt)) &&
              model.nodes == Removed(old(model.nodes), path)
    ensures !(selected.Some? && |selected.value| == 2 && confirmed) ==>
              removeIndex.None? && model.nodes == old(model.nodes)
  {
    removeIndex := None;
    if selected.Some? {
      var path := selected.value;
      var (tf, cat) := SelectedData(model.nodes, path);
      if tf.Some? && cat.Some? && confirmed {
        removeIndex := Some(DeleteIndex(manager.tasks, tf.value, cat.value, fmt));
        Remove(model, path);
      }
    }
  }

  /** Lines 316-323: the index of the first task named "new task", 0 when
      there is none. */
  method FirstNewTaskIndex(tasks: seq<Task>) returns (res: nat)
    ensures HasNewTask(tasks) ==>
              res < |tasks| && tasks[res].name == NewTaskName &&
              forall k :: 0 <= k < res ==> tasks[k].name != NewTaskName
    ensures !HasNewTask(tasks) ==> res == 0
  {
    res := 0;
    for i := 0 to |tasks|
      invariant res == 0
      invariant forall k :: 0 <= k < i ==> tasks[k].name != NewTaskName
    {
      if tasks[i].name == NewTaskName {
        res := i;
        break;
      }
    }
  }

  /** The "new" handler (src/main.rs:301-349): add `created` (the result of
      `Task::new("new task")`) and rebuild the view unless a task with that
      name exists, then select the top-level row whose index is the chosen
      task's index. */
  method OnNew(view: TreeView, manager: TasksManager, created: Task, categories: Categories, fmt: Formatter)
    returns (n: nat, select: Option<Path>)
    modifies view, manager
    ensures (manager.tasks, n) == PressNew(old(manager.tasks), created)
    ensures !HasNewTask(old(manager.tasks)) ==>
              fresh(view.model) && view.model.nodes == Built(categories(manager.tasks), manager.tasks, fmt)
    ensures HasNewTask(old(manager.tasks)) ==>
              view.model == old(view.model) && view.model.nodes == old(view.model.nodes)
    ensures select == NewTaskRow(view.model.nodes, n)
  {
    if !HasNewTask(manager.tasks) {
      manager.AddTask(created);
      UpdateTasksList(view, manager.tasks, categories, fmt);
      n := |manager.tasks| - 1;
    } else {
      n := FirstNewTaskIndex(manager.tasks);
    }
    select := NewTaskRow(view.model.nodes, n);
  }

  /** The remove-done handler (src/main.rs:272-296): when confirmed, the
      manager's `remove_done` (outside the model, the parameter
      `removeDone`) runs and the view is rebuilt from the result. */
  method OnRemoveDone(view: TreeView, manager: TasksManager, confirmed: bool,
                      removeDone: seq<Task> -> seq<Task>, categories: Categories, fmt: Formatter)
    modifies view, manager
    ensures confirmed ==> manager.tasks == removeDone(old(manager.tasks)) && fresh(view.model) &&
                          view.model.nodes == Built(categories(manager.tasks), manager.tasks, fmt)
    ensures !confirmed ==> manager.tasks == old(manager.tasks) && view.model == old(view.model)
  {
    if confirmed {
      manager.tasks := removeDone(manager.tasks);
      UpdateTasksList(view, manager.tasks, categories, fmt);
    }
  }
}
