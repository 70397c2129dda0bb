/** The objects the callbacks update in place: GTK's `TreeStore`, the tree
    view that shows one, and the task manager's task list. Removing a row
    emits the row-deleted signal, whose handler (src/main.rs:431-447) runs
    before `remove` returns, so the two are modelled together here. */
module Store {
  import opened Tasks
  import opened Tree

  /** The `TreeStore` with its single string column. */
  class TreeStore {
    var nodes: Forest

    /** `gtk::TreeStore::new`: an empty store. */
    constructor ()
      ensures nodes == []
    {
      nodes := [];
    }

    /** `insert_with_values(None, None, ..)`: a new last top-level row. */
    method InsertTop(category: string) returns (p: nat)
      modifies this
      ensures nodes == old(nodes) + [Node(category, [])]
      ensures p == |old(nodes)|
    {
      p := |nodes|;
      nodes := nodes + [Node(category, [])];
    }

    /** `insert_with_values(Some(parent), None, ..)`: a new last child of
        row `p`; returns the new row's path. */
    method InsertLeaf(p: nat, text: string) returns (path: Path)
      requires p < |nodes|
      modifies this
      ensures nodes == AppendLeaf(old(nodes), p, text)
      ensures path == [p, |old(nodes)[p].leaves|] && ValidPath(nodes, path)
    {
      path := [p, |nodes[p].leaves|];
      nodes := nodes[p := Node(nodes[p].category, nodes[p].leaves + [text])];
    }

    /** `set_value` on a leaf row. The row-changed signal it emits is run by
        the caller. */
    method SetValue(path: Path, text: string)
      requires ValidPath(nodes, path) && |path| == 2
      modifies this
      ensures nodes == SetLeaf(old(nodes), path[0], path[1], text)
    {
      var p, j := path[0], path[1];
      nodes := nodes[p := Node(nodes[p].category, nodes[p].leaves[j := text])];
    }

    /** The removal itself, before the row-deleted signal. */
    method RemoveRaw(path: Path)
      requires ValidPath(nodes, path)
      modifies this
      ensures nodes == RemoveRowAt(old(nodes), path)
    {
      var p := path[0];
      if |path| == 1 {
        nodes := nodes[..p] + nodes[p + 1..];
      } else {
        var j := path[1];
        nodes := nodes[p := Node(nodes[p].category, nodes[p].leaves[..j] + nodes[p].leaves[j + 1..])];
      }
    }
  }

  /** The tasks list widget; `set_model` replaces the store it shows. */
  class TreeView {
    var model: TreeStore

    constructor (model: TreeStore)
      ensures this.model == model
    {
      this.model := model;
    }
  }

  /** The task manager's `tasks` vector. */
  class TasksManager {
    var tasks: seq<Task>

    /** `TasksManager::load` is outside the model: the loaded list is given. */
    constructor (tasks: seq<Task>)
      ensures this.tasks == tasks
    {
      this.tasks := tasks;
    }

    /** `add_task`, taken to append its task to the list. */
    method AddTask(t: Task)
      modifies this
      ensures tasks == old(tasks) + [t]
    {
      tasks := tasks + [t];
    }
  }

  /** `model.remove(&iter)`: the row goes, then the row-deleted handler runs
      on its path. */
  method Remove(store: TreeStore, path: Path)
    requires ValidPath(store.nodes, path)
    modifies store
    ensures store.nodes == Removed(old(store.nodes), path)
    decreases |path|, 1
  {
    store.RemoveRaw(path);
    OnRowDeleted(store, path);
  }

  /** The row-deleted handler: move the path up to the parent; if that path
      resolves to a row without children, remove it (which emits row-deleted
      again, for a top-level path). */
  method OnRowDeleted(store: TreeStore, path: Path)
    requires 1 <= |path| <= 2
    modifies store
    ensures store.nodes == AfterRowDeleted(old(store.nodes), path)
    decreases |path|, 0
  {
    var parentPath := path[..|path| - 1];
    if |parentPath| == 1 && parentPath[0] < |store.nodes| {
      if |store.nodes[parentPath[0]].leaves| == 0 {
        Remove(store, parentPath);
      }
    }
  }
}
