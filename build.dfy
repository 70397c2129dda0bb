/** `update_tasks_list` (src/main.rs:68-82) as a function of the category list
    and the task list, and what the store it builds promises. */
module Build {
  import opened Tasks
  import opened Tree

  /** Some task has category `c`. */
  predicate HasCategory(c: string, tasks: seq<Task>) {
    exists k :: 0 <= k < |tasks| && tasks[k].category == c
  }

  /** The number of tasks whose category is `c` (the length of the inner
      loop's `filter`): never more than the tasks, and zero exactly when no
      task has category `c`. */
  function CountCat(c: string, tasks: seq<Task>): (r: nat)
    ensures r <= |tasks|
    ensures r > 0 <==> HasCategory(c, tasks)
  {
    if tasks == [] then 0
    else
      var init := tasks[..|tasks| - 1];
      assert forall k :: 0 <= k < |init| ==> init[k] == tasks[k];
      CountCat(c, init) + (if tasks[|tasks| - 1].category == c then 1 else 0)
  }

  /** The leaves the inner loop inserts under the node for `c`: the formatted
      texts of the tasks of category `c`, in task-list order. */
  function LeavesOf(c: string, tasks: seq<Task>, fmt: Formatter): (r: seq<string>)
    ensures |r| == CountCat(c, tasks)
  {
    if tasks == [] then []
    else
      var init := LeavesOf(c, tasks[..|tasks| - 1], fmt);
      var last := tasks[|tasks| - 1];
      if last.category == c then init + [fmt(last)] else init
  }

  /** The store `update_tasks_list` builds: one node per entry of `cats`, in
      order, each holding the leaves of its category. */
  function Built(cats: seq<string>, tasks: seq<Task>, fmt: Formatter): (r: Forest)
    ensures |r| == |cats|
    ensures forall i :: 0 <= i < |cats| ==> r[i].category == cats[i] && |r[i].leaves| == CountCat(cats[i], tasks)
  {
    seq(|cats|, i requires 0 <= i < |cats| => Node(cats[i], LeavesOf(cats[i], tasks, fmt)))
  }

  /** Task `k` of category `c` is the leaf whose position is the number of
      earlier tasks of category `c`. */
  lemma {:induction false} LeafOfTask(c: string, tasks: seq<Task>, fmt: Formatter, k: nat)
    requires k < |tasks| && tasks[k].category == c
    ensures CountCat(c, tasks[..k]) < |LeavesOf(c, tasks, fmt)|
    ensures LeavesOf(c, tasks, fmt)[CountCat(c, tasks[..k])] == fmt(tasks[k])
  {
    var n := |tasks| - 1;
    var init := tasks[..n];
    if k == n {
      assert tasks[..k] == init;
    } else {
      assert tasks[..k] == init[..k];
      LeafOfTask(c, init, fmt, k);
    }
  }

  /** Every leaf under `c` is the text of a task of category `c`, namely the
      one with as many earlier tasks of category `c` as the leaf's position. */
  lemma {:induction false} TaskOfLeaf(c: string, tasks: seq<Task>, fmt: Formatter, j: nat)
    requires j < |LeavesOf(c, tasks, fmt)|
    ensures exists k :: 0 <= k < |tasks| && tasks[k].category == c &&
                        CountCat(c, tasks[..k]) == j && fmt(tasks[k]) == LeavesOf(c, tasks, fmt)[j]
  {
    var n := |tasks| - 1;
    var init := tasks[..n];
    if j < |LeavesOf(c, init, fmt)| {
      TaskOfLeaf(c, init, fmt, j);
      var k :| 0 <= k < |init| && init[k].category == c &&
               CountCat(c, init[..k]) == j && fmt(init[k]) == LeavesOf(c, init, fmt)[j];
      assert tasks[k] == init[k];
      assert tasks[..k] == init[..k];
    } else {
      assert tasks[..n] == init;
    }
  }

  /** Counting over a longer prefix never counts less. */
  lemma {:induction false} CountCatPrefix(c: string, tasks: seq<Task>, a: nat, b: nat)
    requires a <= b <= |tasks|
    ensures CountCat(c, tasks[..a]) <= CountCat(c, tasks[..b])
    decreases b
  {
    if a < b {
      assert tasks[..b][..b - 1] == tasks[..b - 1];
      CountCatPrefix(c, tasks, a, b - 1);
    }
  }

  /** Leaves keep the order of their tasks: an earlier task of category `c`
      sits at an earlier leaf position than a later one. */
  lemma LeafOrderFollowsTasks(c: string, tasks: seq<Task>, k1: nat, k2: nat)
    requires k1 < k2 < |tasks| && tasks[k1].category == c
    ensures CountCat(c, tasks[..k1]) < CountCat(c, tasks[..k2])
  {
    assert tasks[..k1 + 1][..k1] == tasks[..k1];
    CountCatPrefix(c, tasks, k1 + 1, k2);
  }

  /** Every leaf of a built store is the text of a task whose category is the
      leaf's parent category. */
  lemma BuiltConsistent(cats: seq<string>, tasks: seq<Task>, fmt: Formatter)
    ensures Consistent(Built(cats, tasks, fmt), tasks, fmt)
  {
    var b := Built(cats, tasks, fmt);
    forall i, j | 0 <= i < |b| && 0 <= j < |b[i].leaves|
      ensures HasMatch(tasks, b[i].category, b[i].leaves[j], fmt)
    {
      TaskOfLeaf(cats[i], tasks, fmt, j);
      var k :| 0 <= k < |tasks| && tasks[k].category == cats[i] &&
               CountCat(cats[i], tasks[..k]) == j && fmt(tasks[k]) == LeavesOf(cats[i], tasks, fmt)[j];
      assert Matches(tasks[k], b[i].category, b[i].leaves[j], fmt);
    }
  }

  /** Selecting any leaf of a freshly built store finds its task, so the save
      handler's `expect` cannot fail on it. */
  lemma BuiltSelectionResolves(cats: seq<string>, tasks: seq<Task>, fmt: Formatter, path: Path)
    requires ValidPath(Built(cats, tasks, fmt), path) && |path| == 2
    ensures var d := SelectedData(Built(cats, tasks, fmt), path);
            FindTask(tasks, d.1.value, d.0.value, fmt).Some?
  {
    BuiltConsistent(cats, tasks, fmt);
    var b := Built(cats, tasks, fmt);
    assert HasMatch(tasks, b[path[0]].category, b[path[0]].leaves[path[1]], fmt);
  }

  predicate NoDuplicates(cats: seq<string>) {
    forall i, k :: 0 <= i < k < |cats| ==> cats[i] != cats[k]
  }

  /** A built store has no node without leaves exactly when every listed
      category has a task. */
  lemma BuiltNoEmpty(cats: seq<string>, tasks: seq<Task>, fmt: Formatter)
    ensures NoEmpty(Built(cats, tasks, fmt)) <==> forall i :: 0 <= i < |cats| ==> HasCategory(cats[i], tasks)
  {
    var b := Built(cats, tasks, fmt);
    assert forall i :: 0 <= i < |cats| ==> (b[i].leaves != [] <==> CountCat(cats[i], tasks) > 0);
  }

  /** A built store has unique categories exactly when the category list has
      no duplicates. */
  lemma BuiltUnique(cats: seq<string>, tasks: seq<Task>, fmt: Formatter)
    ensures UniqueCategories(Built(cats, tasks, fmt)) <==> NoDuplicates(cats)
  {
  }

  function SumCounts(cats: seq<string>, tasks: seq<Task>): nat {
    if cats == [] then 0 else CountCat(cats[0], tasks) + SumCounts(cats[1..], tasks)
  }

  function Occurrences(c: string, cats: seq<string>): nat {
    if cats == [] then 0 else (if cats[0] == c then 1 else 0) + Occurrences(c, cats[1..])
  }

  lemma {:induction false} BuiltTotal(cats: seq<string>, tasks: seq<Task>, fmt: Formatter)
    ensures TotalLeaves(Built(cats, tasks, fmt)) == SumCounts(cats, tasks)
  {
    if cats != [] {
      assert Built(cats, tasks, fmt)[1..] == Built(cats[1..], tasks, fmt);
      BuiltTotal(cats[1..], tasks, fmt);
    }
  }

  lemma {:induction false} SumCountsEmpty(cats: seq<string>)
    ensures SumCounts(cats, []) == 0
  {
    if cats != [] {
      SumCountsEmpty(cats[1..]);
    }
  }

  lemma {:induction false} SumCountsStep(cats: seq<string>, tasks: seq<Task>, t: Task)
    ensures SumCounts(cats, tasks + [t]) == SumCounts(cats, tasks) + Occurrences(t.category, cats)
  {
    if cats != [] {
      assert (tasks + [t])[..|tasks|] == tasks;
      SumCountsStep(cats[1..], tasks, t);
    }
  }

  lemma {:induction false} OccursNot(c: string, cats: seq<string>)
    requires c !in cats
    ensures Occurrences(c, cats) == 0
  {
    if cats != [] {
      OccursNot(c, cats[1..]);
    }
  }

  lemma {:induction false} OccursOnce(c: string, cats: seq<string>)
    requires NoDuplicates(cats) && c in cats
    ensures Occurrences(c, cats) == 1
  {
    if cats[0] == c {
      OccursNot(c, cats[1..]);
    } else {
      OccursOnce(c, cats[1..]);
    }
  }

  lemma {:induction false} SumCountsAll(cats: seq<string>, tasks: seq<Task>)
    requires NoDuplicates(cats)
    requires forall k :: 0 <= k < |tasks| ==> tasks[k].category in cats
    ensures SumCounts(cats, tasks) == |tasks|
  {
    if tasks == [] {
      SumCountsEmpty(cats);
    } else {
      var n := |tasks| - 1;
      var init, last := tasks[..n], tasks[n];
      assert tasks == init + [last];
      SumCountsAll(cats, init);
      SumCountsStep(cats, init, last);
      OccursOnce(last.category, cats);
    }
  }

  /** With a duplicate-free category list that covers every task's category,
      the built store has exactly one leaf per task. */
  lemma BuiltKeepsEveryTask(cats: seq<string>, tasks: seq<Task>, fmt: Formatter)
    requires NoDuplicates(cats)
    requires forall k :: 0 <= k < |tasks| ==> tasks[k].category in cats
    ensures TotalLeaves(Built(cats, tasks, fmt)) == |tasks|
  {
    BuiltTotal(cats, tasks, fmt);
    SumCountsAll(cats, tasks);
  }

  /** The row the "new" handler selects (src/main.rs:327-328):
      `iter_nth_child(None, n)` with the task index `n`, a top-level row. */
  function NewTaskRow(nodes: Forest, n: nat): (r: Option<Path>)
    ensures r.Some? <==> n < |nodes|
    ensures r.Some? ==> ValidPath(nodes, r.value) && r.value[0] == n
  {
    if n < |nodes| then Some([n]) else None
  }

  /** As written, "new" never selects a task: the row it selects is a
      category row, whose selected data is `(None, None)`. */
  lemma NewTaskSelectsCategoryRow(nodes: Forest, n: nat)
    requires NewTaskRow(nodes, n).Some?
    ensures SelectedData(nodes, NewTaskRow(nodes, n).value) == (None, None)
  {
  }

  /** Corrected selection: the leaf of task `n` in the store built from
      `cats`, when its category has a node. */
  function NewTaskLeaf(cats: seq<string>, tasks: seq<Task>, n: nat): (r: Option<Path>)
    ensures r.Some? <==> n < |tasks| && tasks[n].category in cats
    ensures r.Some? ==> |r.value| == 2 && r.value[0] < |cats| && cats[r.value[0]] == tasks[n].category &&
                        forall i :: 0 <= i < r.value[0] ==> cats[i] != tasks[n].category
  {
    if n < |tasks| then
      match First(cats, (c: string) => c == tasks[n].category)
      case Some(i) => Some([i, CountCat(tasks[n].category, tasks[..n])])
      case None => None
    else None
  }

  /** The corrected selection is a leaf row exactly when task `n` exists and
      its category is listed, and selecting it yields task `n`'s text and
      category, so the detail panel shows that task. */
  lemma NewTaskLeafSelectsTask(cats: seq<string>, tasks: seq<Task>, fmt: Formatter, n: nat)
    ensures NewTaskLeaf(cats, tasks, n).Some? <==> n < |tasks| && tasks[n].category in cats
    ensures NewTaskLeaf(cats, tasks, n).Some? ==>
              var path := NewTaskLeaf(cats, tasks, n).value;
              ValidPath(Built(cats, tasks, fmt), path) && |path| == 2 &&
              SelectedData(Built(cats, tasks, fmt), path) == (Some(fmt(tasks[n])), Some(tasks[n].category))
  {
    if n < |tasks| {
      var c := tasks[n].category;
      var f := First(cats, (x: string) => x == c);
      if c in cats {
        var i :| 0 <= i < |cats| && cats[i] == c;
        assert f.Some?;
      }
      if f.Some? {
        LeafOfTask(c, tasks, fmt, n);
      }
    }
  }
}
