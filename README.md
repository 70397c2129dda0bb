# cool_organizer_ui: the category tree behind the task list

`src/main.rs` of cool_organizer_ui is a GTK front end to a task manager. Its
callbacks keep a two-level `TreeStore` in step with the manager's task list.
Each top-level row is a category. Each child row holds the formatted text
(`Task::formatted(true)`) of one task of that category.

This project models that tree and the callbacks that change it:

- building the store from the category list (`update_tasks_list`);
- the task lookups (`find_task_in_list`, `find_task_in_list_mut`, the
  delete handler's index search);
- classifying the selected row (`get_selected_data`);
- the save handler's edit of a task and of its leaf text;
- the delete handler;
- the "new" and "remove done" handlers;
- the row-changed handler, which moves an edited leaf to the node of its
  task's category;
- the row-deleted handler, which prunes a category node left without children.

Modules:

- `Tasks`: the task record, the lookups, the edit, and the "new" button as
  functions on the task list.
- `Tree`: the store as a value. It is a sequence of `Node(category, leaves)`
  addressed by paths `[p]` and `[p, j]`, with its invariants: the leaf count,
  no empty node, and unique categories.
- `Build`: the store `update_tasks_list` builds, and what it promises.
- `Relocation`: the row-changed handler as functions on the store, as written
  and corrected, with what each keeps.
- `Store`: the objects updated in place.
  - `TreeStore`: its insert, set and remove methods.
  - `TreeView`, which holds the store it shows.
  - `TasksManager`, whose task list is a field.
  - `Remove` runs the row-deleted handler on every removal.
- `Handlers`: the callbacks as methods on those objects. Each is proved
  against the functions of the modules above.

GTK behaviour the model relies on:

- `remove` emits row-deleted before it returns. So `Store.Remove` runs
  `Store.OnRowDeleted`, which may call `Remove` again for the parent.
- `set_value` emits row-changed, so `Handlers.OnSave` runs
  `Handlers.OnRowChanged` after `SetValue`.
- `insert_with_values` emits row-inserted only, which has no handler.
- Tree iterators on a `TreeStore` stay valid across other rows' removal. The
  row-changed handler's target iterator therefore keeps naming the same node
  when the row-deleted handler removes a node before it. The model shifts
  the index by one in that case.
- `update_tasks_list` makes a new store each time. The row-changed and
  row-deleted handlers are connected only to the store that existed at
  start-up, so after "new" or "remove done" rebuilds the view they no longer
  run. The handler methods describe one store and do not model this
  disconnection.

Functions from the unseen `cool_organizer` crate are parameters. They are
`Task::formatted(true)` (`fmt`), `get_categories` (`categories`),
`remove_done` (`removeDone`) and `Task::new("new task")` (`created`).

## Model

| member | source | states |
|---|---|---|
| Tasks.First | src/main.rs:489-494 | `Iterator::find` with the position it finds: the first index whose element satisfies the predicate, None exactly when none does |
| Tasks.FindTaskIndex | src/main.rs:492-494 | `find_task_in_list_mut` finds the first task with the given category and formatted text; None exactly when no task has both |
| Tasks.FindTask | src/main.rs:489-491 | `find_task_in_list` returns a task matching category and text, the first such in the list; None exactly when no task matches |
| Tasks.DeleteIndex | src/main.rs:235-239 | the delete lookup yields the index of the first task matching text and category, or 9999 when there is none |
| Tasks.DeleteAgreesWithFind | src/main.rs:235-239 | the delete lookup picks the same task as the save lookup, and 9999 exactly when that lookup misses |
| Tasks.DeleteMissNamesOtherTask | src/main.rs:239 | with more than 9999 tasks, a miss hands `remove_task` the index of a real task that does not match the selected leaf |
| Tasks.Edited | src/main.rs:164-181 | the edited task carries the panel's name, category, sub-category, due date, done flag and priority, and nothing of the old task |
| Tasks.EditedList | src/main.rs:162-181 | the list keeps its length; the first task matching the leaf's category and text is replaced by its edit; every other task is unchanged |
| Tasks.EditChangesOnlyMatch | src/main.rs:162-181 | the save edit replaces only the first matching task; every other task is unchanged; the edited task is found again under its new category and text, at or before its position |
| Tasks.PressNew | src/main.rs:307-325 | with a task named "new task" the list is unchanged and the index is the first such task's; otherwise exactly `created` is appended and the index is `len - 1` |
| Tasks.PressNewIdempotent | src/main.rs:307-325 | pressing "new" a second time changes nothing further and picks the same index |
| Tree.SelectedData | src/main.rs:471-487 | a row yields (leaf text, parent category) exactly when its path is deeper than 1, and these are the selected leaf's own text and its parent's category; a category row yields `(None, None)` |
| Tree.AppendLeaf | src/main.rs:401 | the row's children become the old ones followed by the new text; its category and every other node are unchanged |
| Tree.SetLeaf | src/main.rs:192 | only the addressed leaf changes, to the new text; its node keeps its category and leaf count, and every other node is unchanged |
| Tree.RemoveLeafAt | src/main.rs:251 | the node loses exactly the addressed leaf, later leaves move down one place, and every other node is unchanged |
| Tree.RemoveNodeAt | src/main.rs:426 | the addressed node goes and the later nodes move down one place, in order |
| Tree.RemoveRowAt | src/main.rs:251 | removing a category row drops one node; removing a leaf keeps the node count and drops one leaf of its node |
| Tree.AfterRowDeleted | src/main.rs:431-447 | a top-level path changes nothing; the store loses a node exactly when the deleted leaf's parent has no children left, and never more than that one node |
| Tree.Removed | src/main.rs:431-447 | removing a category row removes one node; removing a leaf removes its node too exactly when it was the node's only leaf |
| Tree.RowDeletedPrunesOnlyEmptyParent | src/main.rs:431-447 | the row-deleted handler does nothing for a top-level path; for a leaf path it removes the parent exactly when the parent has no children, and nothing else; the leaf count is kept |
| Tree.RemovedTopRow | src/main.rs:431-447 | removing a category row removes just that node; the row-deleted handler adds nothing for a top-level path |
| Tree.RemovedOnlyLeaf | src/main.rs:431-447 | deleting a node's only leaf deletes the node |
| Tree.RemovedOneOfLeaves | src/main.rs:431-447 | deleting one of several leaves keeps the node and only drops that leaf |
| Tree.RemovedLeafKeeps | src/main.rs:431-447 | deleting a leaf lowers the leaf count by one and keeps both invariants: no empty node, unique categories |
| Tree.RemovedLeaf | src/main.rs:431-447 | deleting a leaf: the parent goes exactly when that was its only leaf, otherwise only that leaf goes; every other node is kept; the count drops by one; invariants kept |
| Tree.AppendLeafEffects | src/main.rs:400-401 | adding a child keeps every category and both invariants and raises the leaf count by one |
| Tree.RemoveNodeEffects | src/main.rs:426 | removing a node keeps the other nodes in order, and both invariants |
| Tree.SetLeafKeepsShape | src/main.rs:192 | setting a leaf's text changes only that leaf: no node, category or other leaf changes, and the leaf count is kept |
| Build.CountCat | src/main.rs:77-79 | the number of tasks of a category is at most the number of tasks, and positive exactly when some task has that category |
| Build.LeavesOf | src/main.rs:77-79 | a node gets exactly as many leaves as there are tasks of its category |
| Build.Built | src/main.rs:68-82 | one node per category of the list, in order, each holding as many leaves as its category has tasks |
| Build.LeafOfTask | src/main.rs:77-79 | each task of a category is the leaf at the position given by the number of earlier tasks of that category |
| Build.TaskOfLeaf | src/main.rs:77-79 | each leaf is the formatted text of a task of its node's category, at the matching rank |
| Build.LeafOrderFollowsTasks | src/main.rs:77-79 | leaves keep task-list order: an earlier task of a category has an earlier leaf |
| Build.BuiltConsistent | src/main.rs:68-82 | every leaf of a built store renders a task whose category is the leaf's parent category |
| Build.BuiltSelectionResolves | src/main.rs:162 | selecting any leaf of a freshly built store finds its task, so the save handler's `expect` holds there |
| Build.BuiltNoEmpty | src/main.rs:68-82 | the built store has no category node without children exactly when every listed category has a task |
| Build.BuiltUnique | src/main.rs:68-82 | the built store's categories are unique exactly when the category list has no duplicates |
| Build.BuiltKeepsEveryTask | src/main.rs:68-82 | with a duplicate-free category list that covers every task's category, the built store has exactly one leaf per task |
| Build.NewTaskRow | src/main.rs:327-328 | `iter_nth_child(None, n)` names top-level row `n`, or nothing when there are not that many categories |
| Build.NewTaskSelectsCategoryRow | src/main.rs:327-328 | the row "new" selects is a category row, whose selected data is `(None, None)` |
| Build.NewTaskLeaf | src/main.rs:326-328 | the corrected selection is a path exactly when task `n` exists and its category is listed; the path is a leaf path under the first node of that category |
| Build.NewTaskLeafSelectsTask | src/main.rs:326-328 | the corrected selection is a leaf exactly when task `n` exists and its category is listed, and selecting it yields that task's text and category |
| Relocation.ScanTarget | src/main.rs:380-397 | the first node at or after the start position whose category is the wanted one; None exactly when no such node exists |
| Relocation.TextOwner | src/main.rs:370-371 | the first task whose formatted text is the leaf's text, whatever its category; None exactly when there is none |
| Relocation.RemovedKeepsOtherNode | src/main.rs:399-401 | the scan's target node survives the leaf's removal, one index lower exactly when a node before it was pruned |
| Relocation.InsertedLeaf | src/main.rs:401 | inserting under a row returns a valid path under that row whose leaf is the new text and is the row's last child |
| Relocation.IntoFoundNode | src/main.rs:399-403 | the scan's node `q` survives the leaf's removal, one index lower exactly when a pruned node preceded it; the leaf is appended to that copy of `q`, and every other node is as the removal left it |
| Relocation.IntoNewNode | src/main.rs:404-411 | inserting the new node before removing the leaf gives the store after the removal plus a new last node holding only the leaf |
| Relocation.NewNodeShape | src/main.rs:404-411 | appending the leaf to the new last node after the removal is the removal's result followed by a node holding just the leaf |
| Relocation.Relocate | src/main.rs:380-411 | the moved leaf's path is valid, under a node of the wanted category; the leaf there is the old leaf's text and is that node's last child |
| Relocation.MoveStep | src/main.rs:367-415 | without a selection the store is unchanged; a selection is a valid leaf path holding the old leaf's text under a node of another category than the old parent |
| Relocation.RowChanged | src/main.rs:355-429 | a category row changes nothing; the handler panics only for a leaf that was moved |
| Relocation.RowChangedFixed | src/main.rs:355-429 | the corrected handler never panics; a category row changes nothing; a selection is a valid leaf path holding the edited leaf's text |
| Relocation.RelocateIntoFound | src/main.rs:399-403 | moving into the node `q` the scan found: `q` survives the removal, and the result is the removal's result with the leaf appended to `q`'s children and nothing else changed; the leaf count is kept; the old parent goes exactly when emptied |
| Relocation.RelocateIntoNew | src/main.rs:404-411 | with no node found, the result is the store after the leaf's removal plus a new last node holding only the leaf, and the same properties hold |
| Relocation.RelocateEffects | src/main.rs:380-411 | relocation keeps the leaf's text, puts it under the wanted category, keeps the leaf count, leaves no empty node, and keeps categories unique when every node is scanned |
| Relocation.MoveStepEffects | src/main.rs:367-415 | nothing moves exactly when no task renders the leaf text or that task's category is the parent's; otherwise the leaf moves under that task's category with its text |
| Relocation.RowChangedKeeps | src/main.rs:355-429 | when the handler as written does not panic, it keeps the leaf count and adds no node without children |
| Relocation.RowChangedAborts | src/main.rs:420-427 | the handler as written panics exactly when the last node's only leaf moves into an existing node |
| Relocation.RowChangedIsMoveStep | src/main.rs:420-427 | on a store without empty nodes, the re-check of the old parent changes nothing when it does not panic: the store and selection are exactly those of the relocation step |
| Relocation.RowChangedEffects | src/main.rs:355-429 | a category row or an unmoved leaf changes nothing; the leaf count and no-empty-node are kept; on a store without empty nodes a handler that does not panic leaves exactly the relocation step's store and selection; the handler panics exactly when the last node's only leaf moves into an existing node |
| Relocation.TextTwinMovesLeaf | src/main.rs:370-371 | a leaf that resolves under its own category still moves when an earlier task of another category has the same text |
| Relocation.ScanSkipsFirstNode | src/main.rs:380-397 | moving a leaf into the first node's category makes a second node with that category |
| Relocation.RowChangedCanAbort | src/main.rs:420-427 | moving the last node's only leaf into an existing node after the first makes the parent re-check panic |
| Relocation.RowChangedFixedKeepsInvariants | src/main.rs:355-429 | the corrected handler never panics; it keeps the leaf count, no empty node and unique categories, and selects the moved leaf under its owner's category |
| Store.TreeStore.InsertTop | src/main.rs:407 | a new last top-level row with the category and no children; returns its index |
| Store.TreeStore.InsertLeaf | src/main.rs:401 | a new last child of the given row; returns its path |
| Store.TreeStore.SetValue | src/main.rs:192 | replaces the text of one leaf |
| Store.TreeStore.RemoveRaw | src/main.rs:251 | removes one row, with its children for a category row |
| Store.TasksManager.AddTask | src/main.rs:310 | appends the task to the list |
| Store.Remove | src/main.rs:251 | the row goes and the row-deleted handler runs: the store becomes `Removed` of the old one |
| Store.OnRowDeleted | src/main.rs:431-447 | the row-deleted handler removes the parent of a deleted leaf exactly when it has no children left |
| Handlers.UpdateTasksList | src/main.rs:68-82 | the nested loops leave the view showing a new store equal to `Built` of the category list and the tasks |
| Handlers.InsertLeavesOf | src/main.rs:77-79 | the inner loop gives the new node exactly the leaves of its category's tasks, in order |
| Handlers.OnSelectionChanged | src/main.rs:112-140 | no selection disables the panel; a leaf shows a task matching it, or disables the panel exactly when none matches; a category row leaves the panel alone |
| Handlers.EditTask | src/main.rs:164-181 | the field-by-field writes leave the list with only task `i` replaced by its edit |
| Handlers.ScanCategory | src/main.rs:380-397 | the `iter_next` loop finds exactly the scan target starting at row 1 |
| Handlers.MoveIntoFound | src/main.rs:399-403 | removing the leaf and inserting it under the found node, through its persisting iterator, leaves the store and selection `IntoFoundNode` describes |
| Handlers.MoveIntoNew | src/main.rs:404-411 | inserting a new last node, removing the leaf and inserting it under the new node leaves the store and selection `IntoNewNode` describes |
| Handlers.MoveLeaf | src/main.rs:380-411 | scanning for the category node and moving the leaf there leaves the store and selection that `Relocate` describes |
| Handlers.OnRowChanged | src/main.rs:355-429 | the handler's store and selection are those of `RowChanged`, and it panics exactly when that says so |
| Handlers.OnSave | src/main.rs:150-202 | with a leaf selected, the task list becomes the edited list, and the store is the row-changed reaction to the leaf's new text; otherwise nothing changes |
| Handlers.OnDelete | src/main.rs:207-267 | on a confirmed leaf, returns the index given to `remove_task` and removes the leaf, pruning an emptied parent; otherwise nothing changes |
| Handlers.FirstNewTaskIndex | src/main.rs:316-323 | the loop yields the first index named "new task", or 0 when there is none |
| Handlers.OnNew | src/main.rs:301-349 | the list and index are those of `PressNew`; only a new task rebuilds the view; the selected row is top-level row `n` |
| Handlers.OnRemoveDone | src/main.rs:272-296 | on confirmation the list becomes `remove_done`'s result and the view shows a new store built from it; otherwise nothing changes |

## Left out

- GTK widgets, the Glade builder, dialogs, and the calendar, switch and spin-button wiring are left out. Each dialog's answer is a `confirmed` parameter. The panel's values are a `Form`. Selection requests are results.
- `Rc`, `Weak` and `RefCell` handling and the `drop` ordering are left out. The weak reference is taken to always upgrade.
- The selection-changed handler runs again when the delete handler removes the selected row. That run is left out because it only updates the panel.
- `TasksManager::load`, `save`, `default_path`, `remove_task`, `remove_done` and `get_categories` are left out, as are `Task::formatted` and `Task::new`. They belong to the `cool_organizer` crate, which is not part of this model. They are parameters or are left out.
- `Store.TasksManager.AddTask` assumes `add_task` appends to the list. The "new" handler's index `len - 1` relies on that.
- `Handlers.OnDelete` returns the index passed to `remove_task` but does not change the task list, because `remove_task`'s behaviour is not known. What `remove_task(9999)` does is not modelled either.
- The ignored results of saving to disk are I/O and are left out.
- Date conversion through `LocalDate` and `Date::month_from_int` is left out. The priority spin button's `f64 as u8` cast is taken as already done: `Form` carries a date and a priority from 0 to 255.
- The row-changed and row-deleted handlers stop running after a rebuild, because they stay connected to the first store. The handler methods do not capture this.
- The GTK `expect` panics are preconditions, except the parent re-check at src/main.rs:421. That one is modelled as an `Abort` outcome, because ordinary inputs reach it.
- `Handlers.OnRowChanged` and the other handlers follow the code as written. The corrected relocation (`Relocation.RowChangedFixed`) and the corrected "new" selection (`Build.NewTaskLeaf`) are stated and proved beside them, not wired into the handler methods.

## Findings

| source | as written | input that shows it | evidently intended | confidence | as-written member | corrected member |
|---|---|---|---|---|---|---|
| src/main.rs:380-397 | the scan calls `iter_next` before its first test, so the first category node is never tested | store `[A:[a], B:[b]]`; the task rendered as `b` is edited to category `A` | move the leaf into the existing node `A` | high, not executed | Relocation.ScanSkipsFirstNode | Relocation.RowChangedFixedKeepsInvariants |
| src/main.rs:420-427 | the parent path is re-resolved after the row-deleted handler may already have removed the parent, and `expect` panics when it no longer exists | store `[A:[a], B:[b], C:[c]]`; the task rendered as `c` is edited to category `B` | remove the old parent only if it still exists and is empty | high, not executed | Relocation.RowChangedCanAbort | Relocation.RowChangedFixedKeepsInvariants |
| src/main.rs:327-328 | "new" selects top-level row `n`, where `n` is a task index, so it selects a category row (or nothing) | any list without "new task": `n = len - 1` names a category row, never the new task's leaf | select the leaf of task `n` | medium, not executed | Build.NewTaskSelectsCategoryRow | Build.NewTaskLeafSelectsTask |
