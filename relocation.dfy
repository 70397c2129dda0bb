/** The row-changed handler (src/main.rs:355-429): when a leaf's text changes,
    the leaf moves under the node of its task's category, and an emptied
    parent is removed. Stated as functions on the forest, as written and
    corrected, with what each keeps. */
module Relocation {
  import opened Tasks
  import opened Tree

  /** The scan as written starts on the first top-level row and calls
      `iter_next` before its first test, so the first row it tests is row 1. */
  const ScanStartAsWritten: nat := 1

  /** The corrected scan tests every top-level row. */
  const ScanStartFixed: nat := 0

  /** The first category node at or after `from` whose category is `category`. */
  function ScanTarget(nodes: Forest, category: string, from: nat): (r: Option<nat>)
    ensures r.Some? ==> from <= r.value < |nodes| && nodes[r.value].category == category
    ensures r.Some? ==> forall k :: from <= k < r.value ==> nodes[k].category != category
    ensures r.None? <==> forall k :: from <= k < |nodes| ==> nodes[k].category != category
  {
    if |nodes| <= from then None
    else
      match First(nodes[from..], (n: Node) => n.category == category)
      case None =>
        assert forall k :: from <= k < |nodes| ==> nodes[k] == nodes[from..][k - from];
        None
      case Some(i) =>
        assert forall k :: from <= k < from + i ==> nodes[k] == nodes[from..][k - from];
        Some(from + i)
  }

  /** The task the handler takes to be the leaf's: the first one whose
      formatted text is the leaf's text, whatever its category
      (src/main.rs:370-371). */
  function TextOwner(tasks: seq<Task>, tf: string, fmt: Formatter): (r: Option<nat>)
    ensures r.Some? ==> r.value < |tasks| && fmt(tasks[r.value]) == tf
    ensures r.Some? ==> forall k :: 0 <= k < r.value ==> fmt(tasks[k]) != tf
    ensures r.None? <==> forall k :: 0 <= k < |tasks| ==> fmt(tasks[k]) != tf
  {
    First(tasks, (t: Task) => fmt(t) == tf)
  }

  /** The forest after appending `text` as the last child of node `p`, with
      the path of the new leaf. */
  function InsertedLeaf(nodes: Forest, p: nat, text: string): (r: (Forest, Path))
    requires p < |nodes|
    ensures |r.1| == 2 && r.1[0] == p && ValidPath(r.0, r.1)
    ensures r.0[p].category == nodes[p].category && r.0[p].leaves[r.1[1]] == text
    ensures r.1[1] == |r.0[p].leaves| - 1
  {
    (AppendLeaf(nodes, p, text), [p, |nodes[p].leaves|])
  }

  /** Lines 399-403: the scan found node `q`. Leaf `j` of node `p` is
      removed, which runs the row-deleted handler and may prune node `p`;
      the iterator on `q` persists, so the leaf lands on the copy of `q`,
      one place up when node `p` before it was pruned. Every other node is
      as the removal left it. */
  function IntoFoundNode(nodes: Forest, p: nat, j: nat, q: nat): (r: (Forest, Path))
    requires p < |nodes| && j < |nodes[p].leaves| && q < |nodes| && q != p
    ensures var removed := Removed(nodes, [p, j]);
            var target := if |removed| < |nodes| && p < q then q - 1 else q;
            target < |removed| && removed[target] == nodes[q] &&
            r == (removed[target := Node(nodes[q].category, nodes[q].leaves + [nodes[p].leaves[j]])],
                  [target, |nodes[q].leaves|])
  {
    var removed := Removed(nodes, [p, j]);
    var target := if |removed| < |nodes| && p < q then q - 1 else q;
    RemovedKeepsOtherNode(nodes, p, j, q);
    InsertedLeaf(removed, target, nodes[p].leaves[j])
  }

  /** Lines 404-411: no node has `category`. A new last node is inserted
      first, then the leaf is removed (possibly pruning its old parent) and
      appended to the new node: the leaf ends up the only child of a new
      last node after the removal's result. */
  function IntoNewNode(nodes: Forest, p: nat, j: nat, category: string): (r: (Forest, Path))
    requires p < |nodes| && j < |nodes[p].leaves|
    ensures var removed := Removed(nodes, [p, j]);
            r == (removed + [Node(category, [nodes[p].leaves[j]])], [|removed|, 0])
  {
    var grown := Removed(nodes + [Node(category, [])], [p, j]);
    NewNodeShape(nodes, p, j, category);
    InsertedLeaf(grown, |grown| - 1, nodes[p].leaves[j])
  }

  /** Appending the leaf to the new last node, after the removal, gives the
      removal's result followed by a node holding just the leaf. */
  lemma NewNodeShape(nodes: Forest, p: nat, j: nat, category: string)
    requires p < |nodes| && j < |nodes[p].leaves|
    ensures var grown := Removed(nodes + [Node(category, [])], [p, j]);
            var removed := Removed(nodes, [p, j]);
            |grown| == |removed| + 1 &&
            AppendLeaf(grown, |removed|, nodes[p].leaves[j]) == removed + [Node(category, [nodes[p].leaves[j]])]
  {
    var tf := nodes[p].leaves[j];
    var n := Node(category, []);
    var grown := Removed(nodes + [n], [p, j]);
    var removed := Removed(nodes, [p, j]);
    assert grown == removed + [n] by {
      RemovedAppend(nodes, p, j, n);
    }
    assert [] + [tf] == [tf];
    assert (removed + [n])[|removed| := Node(category, [tf])] == removed + [Node(category, [tf])];
  }

  /** Lines 380-411: leaf `j` of node `p` moves to be the last child of the
      node found by the scan, or of a new last node for `category` when the
      scan finds none. Returns the forest and the path of the moved leaf,
      which holds the leaf's text under a node of `category`. */
  function Relocate(nodes: Forest, p: nat, j: nat, category: string, from: nat): (r: (Forest, Path))
    requires p < |nodes| && j < |nodes[p].leaves| && nodes[p].category != category
    ensures |r.1| == 2 && ValidPath(r.0, r.1)
    ensures r.0[r.1[0]].category == category && r.0[r.1[0]].leaves[r.1[1]] == nodes[p].leaves[j]
    ensures r.1[1] == |r.0[r.1[0]].leaves| - 1
  {
    match ScanTarget(nodes, category, from)
    case Some(q) =>
      var moved := IntoFoundNode(nodes, p, j, q);
      assert (nodes[q].leaves + [nodes[p].leaves[j]])[|nodes[q].leaves|] == nodes[p].leaves[j];
      moved
    case None =>
      var moved := IntoNewNode(nodes, p, j, category);
      assert moved.0[|moved.0| - 1] == Node(category, [nodes[p].leaves[j]]);
      moved
  }

  /** Lines 370-414: relocate the changed leaf when the task owning its text
      has another category than the leaf's parent; otherwise keep the forest. */
  function MoveStep(nodes: Forest, path: Path, tasks: seq<Task>, fmt: Formatter, from: nat): (r: (Forest, Option<Path>))
    requires ValidPath(nodes, path) && |path| == 2
    ensures r.1.None? ==> r.0 == nodes
    ensures r.1.Some? ==> |r.1.value| == 2 && ValidPath(r.0, r.1.value) &&
                          r.0[r.1.value[0]].leaves[r.1.value[1]] == nodes[path[0]].leaves[path[1]] &&
                          r.0[r.1.value[0]].category != nodes[path[0]].category
  {
    var p, j := path[0], path[1];
    match TextOwner(tasks, nodes[p].leaves[j], fmt)
    case None => (nodes, None)
    case Some(k) =>
      if tasks[k].category == nodes[p].category then (nodes, None)
      else
        var moved := Relocate(nodes, p, j, tasks[k].category, from);
        (moved.0, Some(moved.1))
  }

  /** What the handler leaves behind: the forest and the leaf it selects, or
      a panic. */
  datatype Reaction = Reaction(nodes: Forest, select: Option<Path>) | Abort

  /** The row-changed handler as written. Top-level rows give `(None, None)`
      and nothing happens. For a leaf, after `MoveStep` the handler resolves
      the old parent's path again (line 421): it panics when no row is left
      at that path, and removes the row there when it has no children. */
  function RowChanged(nodes: Forest, path: Path, tasks: seq<Task>, fmt: Formatter): (r: Reaction)
    requires ValidPath(nodes, path)
    ensures |path| == 1 ==> r == Reaction(nodes, None)
    ensures r.Abort? ==> |path| == 2 && MoveStep(nodes, path, tasks, fmt, ScanStartAsWritten).1.Some?
  {
    if |path| == 1 then Reaction(nodes, None)
    else
      var step := MoveStep(nodes, path, tasks, fmt, ScanStartAsWritten);
      var p := path[0];
      if p < |step.0| then
        Reaction(if step.0[p].leaves == [] then RemoveNodeAt(step.0, p) else step.0, step.1)
      else
        Abort
  }

  /** The corrected handler: the scan tests every top-level row, and the old
      parent is left to the row-deleted handler, which already removes it
      when it is empty. */
  function RowChangedFixed(nodes: Forest, path: Path, tasks: seq<Task>, fmt: Formatter): (r: Reaction)
    requires ValidPath(nodes, path)
    ensures r.Reaction? && (|path| == 1 ==> r == Reaction(nodes, None))
    ensures r.select.Some? ==> ValidPath(r.nodes, r.select.value) && |r.select.value| == 2 &&
                               r.nodes[r.select.value[0]].leaves[r.select.value[1]] == nodes[path[0]].leaves[path[1]]
  {
    if |path| == 1 then Reaction(nodes, None)
    else
      var step := MoveStep(nodes, path, tasks, fmt, ScanStartFixed);
      Reaction(step.0, step.1)
  }

  /** Removing a leaf from a forest with one more node at the end is removing
      it from the forest and then adding that node. */
  lemma RemovedAppend(nodes: Forest, p: nat, j: nat, n: Node)
    requires p < |nodes| && j < |nodes[p].leaves|
    ensures Removed(nodes + [n], [p, j]) == Removed(nodes, [p, j]) + [n]
  {
    var g := nodes + [n];
    var cutG := RemoveLeafAt(g, p, j);
    var cut := RemoveLeafAt(nodes, p, j);
    assert cutG == cut + [n];
    if |nodes[p].leaves| == 1 {
      assert cutG[..p] + cutG[p + 1..] == (cut[..p] + cut[p + 1..]) + [n];
    }
  }

  /** The node category at each position of `Removed(nodes, [p, j])`. */
  lemma RemovedCategories(nodes: Forest, p: nat, j: nat)
    requires p < |nodes| && j < |nodes[p].leaves|
    ensures var r := Removed(nodes, [p, j]);
            var pruned := |nodes[p].leaves| == 1;
            forall i :: 0 <= i < |r| ==>
              r[i].category == nodes[if pruned && p <= i then i + 1 else i].category
  {
    if |nodes[p].leaves| == 1 {
      RemovedOnlyLeaf(nodes, p, j);
    } else {
      RemovedOneOfLeaves(nodes, p, j);
    }
  }

  /** What a relocation of leaf `j` of node `p` into a node of `category`
      keeps, for the result `r` and the selected path `sel`. */
  predicate RelocationKeeps(nodes: Forest, p: nat, j: nat, category: string, from: nat, r: Forest, sel: Path)
    requires p < |nodes| && j < |nodes[p].leaves|
  {
    ValidPath(r, sel) && |sel| == 2 &&
    r[sel[0]].category == category &&
    r[sel[0]].leaves[sel[1]] == nodes[p].leaves[j] &&
    sel[1] == |r[sel[0]].leaves| - 1 &&
    TotalLeaves(r) == TotalLeaves(nodes) &&
    |r| == |nodes| + (if ScanTarget(nodes, category, from).None? then 1 else 0)
                   - (if |nodes[p].leaves| == 1 then 1 else 0) &&
    (NoEmpty(nodes) ==> NoEmpty(r)) &&
    (from == 0 && UniqueCategories(nodes) ==> UniqueCategories(r))
  }

  /** The node `q` other than `p` survives the deletion of leaf `j` of node
      `p`, one place up when a node before it was pruned. */
  lemma RemovedKeepsOtherNode(nodes: Forest, p: nat, j: nat, q: nat)
    requires p < |nodes| && j < |nodes[p].leaves| && q < |nodes| && q != p
    ensures var removed := Removed(nodes, [p, j]);
            var t := if |removed| < |nodes| && p < q then q - 1 else q;
            t < |removed| && removed[t] == nodes[q]
  {
    if |nodes[p].leaves| == 1 {
      RemovedOnlyLeaf(nodes, p, j);
    } else {
      RemovedOneOfLeaves(nodes, p, j);
    }
  }

  /** Appending the leaf to the surviving copy of node `q`, after the leaf's
      removal, satisfies `RelocationKeeps` when the scan found `q`. */
  lemma FoundNodeKeeps(nodes: Forest, p: nat, j: nat, category: string, from: nat, q: nat)
    requires p < |nodes| && j < |nodes[p].leaves| && nodes[p].category != category
    requires ScanTarget(nodes, category, from) == Some(q)
    ensures var moved := Relocate(nodes, p, j, category, from);
            RelocationKeeps(nodes, p, j, category, from, moved.0, moved.1)
  {
    var tf := nodes[p].leaves[j];
    var removed := Removed(nodes, [p, j]);
    RemovedKeepsOtherNode(nodes, p, j, q);
    var target := if |removed| < |nodes| && p < q then q - 1 else q;
    var r, sel := AppendLeaf(removed, target, tf), [target, |removed[target].leaves|];
    assert Relocate(nodes, p, j, category, from) == (r, sel);
    assert ValidPath(r, sel) && r[target].category == category && r[sel[0]].leaves[sel[1]] == tf;
    assert |r| == |removed| && TotalLeaves(r) == TotalLeaves(nodes) by {
      RemovedLeafKeeps(nodes, p, j);
      TotalLeavesUpdate(removed, target, r[target]);
    }
    assert |removed| == |nodes| - (if |nodes[p].leaves| == 1 then 1 else 0);
    assert NoEmpty(nodes) ==> NoEmpty(r) by {
      RemovedLeafKeeps(nodes, p, j);
      AppendLeafEffects(removed, target, tf);
    }
    assert UniqueCategories(nodes) ==> UniqueCategories(r) by {
      RemovedLeafKeeps(nodes, p, j);
      AppendLeafEffects(removed, target, tf);
    }
  }

  lemma RelocateIntoFound(nodes: Forest, p: nat, j: nat, category: string, from: nat)
    requires p < |nodes| && j < |nodes[p].leaves| && nodes[p].category != category
    requires ScanTarget(nodes, category, from).Some?
    ensures var r := Relocate(nodes, p, j, category, from);
            var q := ScanTarget(nodes, category, from).value;
            var removed := Removed(nodes, [p, j]);
            r.1[0] < |removed| && removed[r.1[0]] == nodes[q] &&
            r.0 == removed[r.1[0] := Node(nodes[q].category, nodes[q].leaves + [nodes[p].leaves[j]])] &&
            RelocationKeeps(nodes, p, j, category, from, r.0, r.1)
  {
    FoundNodeKeeps(nodes, p, j, category, from, ScanTarget(nodes, category, from).value);
  }

  /** Adding a node with a leaf keeps nodes non-empty, and adding one whose
      category no other node has keeps categories unique. */
  lemma AppendNodeKeeps(nodes: Forest, n: Node)
    ensures NoEmpty(nodes) && n.leaves != [] ==> NoEmpty(nodes + [n])
    ensures UniqueCategories(nodes) && (forall i :: 0 <= i < |nodes| ==> nodes[i].category != n.category) ==>
              UniqueCategories(nodes + [n])
  {
    var r := nodes + [n];
    assert forall i :: 0 <= i < |nodes| ==> r[i] == nodes[i];
    assert r[|nodes|] == n;
  }

  /** Uniqueness survives when the new node's category is on no node. */
  lemma NewNodeKeepsUnique(nodes: Forest, p: nat, j: nat, n: Node)
    requires p < |nodes| && j < |nodes[p].leaves| && UniqueCategories(nodes)
    requires forall k :: 0 <= k < |nodes| ==> nodes[k].category != n.category
    ensures UniqueCategories(Removed(nodes, [p, j]) + [n])
  {
    var removed := Removed(nodes, [p, j]);
    RemovedLeafKeeps(nodes, p, j);
    RemovedCategories(nodes, p, j);
    assert forall i :: 0 <= i < |removed| ==> removed[i].category != n.category;
    AppendNodeKeeps(removed, n);
  }

  /** A new last node holding the leaf, after the leaf's removal, satisfies
      `RelocationKeeps` when no node has `category`. */
  lemma NewNodeKeeps(nodes: Forest, p: nat, j: nat, category: string, from: nat)
    requires p < |nodes| && j < |nodes[p].leaves| && nodes[p].category != category
    requires ScanTarget(nodes, category, from).None?
    ensures var removed := Removed(nodes, [p, j]);
            RelocationKeeps(nodes, p, j, category, from,
                            removed + [Node(category, [nodes[p].leaves[j]])], [|removed|, 0])
  {
    var n := Node(category, [nodes[p].leaves[j]]);
    var removed := Removed(nodes, [p, j]);
    var r := removed + [n];
    assert r[|removed|] == n;
    RemovedLeafKeeps(nodes, p, j);
    TotalLeavesConcat(removed, [n]);
    assert TotalLeaves([n]) == 1;
    AppendNodeKeeps(removed, n);
    if from == 0 && UniqueCategories(nodes) {
      NewNodeKeepsUnique(nodes, p, j, n);
    }
  }

  lemma RelocateIntoNew(nodes: Forest, p: nat, j: nat, category: string, from: nat)
    requires p < |nodes| && j < |nodes[p].leaves| && nodes[p].category != category
    requires ScanTarget(nodes, category, from).None?
    ensures var r := Relocate(nodes, p, j, category, from);
            r.0 == Removed(nodes, [p, j]) + [Node(category, [nodes[p].leaves[j]])] &&
            RelocationKeeps(nodes, p, j, category, from, r.0, r.1)
  {
    NewNodeKeeps(nodes, p, j, category, from);
  }

  /** The relocated leaf keeps its text and becomes the last child of a node
      with the wanted category; the leaf count is unchanged; the forest gains
      a node when the scan found none and loses the old parent when the leaf
      was its only child; no empty node appears; and when the scan tests
      every node, categories stay unique. */
  lemma RelocateEffects(nodes: Forest, p: nat, j: nat, category: string, from: nat)
    requires p < |nodes| && j < |nodes[p].leaves| && nodes[p].category != category
    ensures var r := Relocate(nodes, p, j, category, from);
            RelocationKeeps(nodes, p, j, category, from, r.0, r.1)
  {
    if ScanTarget(nodes, category, from).Some? {
      RelocateIntoFound(nodes, p, j, category, from);
    } else {
      RelocateIntoNew(nodes, p, j, category, from);
    }
  }

  /** One relocation step: nothing changes when no task renders the leaf's
      text or when that task's category is the parent's; otherwise the leaf
      is selected under a node of that task's category. Leaves are neither
      lost nor duplicated, and no empty node appears. */
  lemma MoveStepEffects(nodes: Forest, path: Path, tasks: seq<Task>, fmt: Formatter, from: nat)
    requires ValidPath(nodes, path) && |path| == 2
    ensures var (r, sel) := MoveStep(nodes, path, tasks, fmt, from);
            var owner := TextOwner(tasks, nodes[path[0]].leaves[path[1]], fmt);
            (sel.None? <==> owner.None? || tasks[owner.value].category == nodes[path[0]].category) &&
            (sel.None? ==> r == nodes) &&
            (sel.Some? ==> ValidPath(r, sel.value) && |sel.value| == 2 &&
                           r[sel.value[0]].category == tasks[owner.value].category &&
                           r[sel.value[0]].leaves[sel.value[1]] == nodes[path[0]].leaves[path[1]]) &&
            TotalLeaves(r) == TotalLeaves(nodes) &&
            (NoEmpty(nodes) ==> NoEmpty(r)) &&
            (from == 0 && UniqueCategories(nodes) ==> UniqueCategories(r))
  {
    var owner := TextOwner(tasks, nodes[path[0]].leaves[path[1]], fmt);
    if owner.Some? && tasks[owner.value].category != nodes[path[0]].category {
      RelocateEffects(nodes, path[0], path[1], tasks[owner.value].category, from);
    }
  }

  /** The handler as written keeps the leaf count and adds no empty node. */
  lemma RowChangedKeeps(nodes: Forest, path: Path, tasks: seq<Task>, fmt: Formatter)
    requires ValidPath(nodes, path)
    ensures var r := RowChanged(nodes, path, tasks, fmt);
            (r.Reaction? ==> TotalLeaves(r.nodes) == TotalLeaves(nodes)) &&
            (r.Reaction? && NoEmpty(nodes) ==> NoEmpty(r.nodes))
  {
    if |path| == 2 {
      var p := path[0];
      var step := MoveStep(nodes, path, tasks, fmt, ScanStartAsWritten);
      assert TotalLeaves(step.0) == TotalLeaves(nodes) && (NoEmpty(nodes) ==> NoEmpty(step.0)) by {
        MoveStepEffects(nodes, path, tasks, fmt, ScanStartAsWritten);
      }
      if p < |step.0| && step.0[p].leaves == [] {
        TotalLeavesRemoveNode(step.0, p);
        RemoveNodeEffects(step.0, p);
      }
    }
  }

  /** On a store without empty nodes, the re-check of the old parent after
      a move (lines 420-427) changes nothing when it does not panic: the
      handler leaves exactly the store and selection of the relocation step. */
  lemma RowChangedIsMoveStep(nodes: Forest, path: Path, tasks: seq<Task>, fmt: Formatter)
    requires ValidPath(nodes, path)
    ensures var r := RowChanged(nodes, path, tasks, fmt);
            var step := if |path| == 2 then MoveStep(nodes, path, tasks, fmt, ScanStartAsWritten) else (nodes, None);
            r.Reaction? && NoEmpty(nodes) ==> r.nodes == step.0 && r.select == step.1
  {
    if |path| == 2 {
      MoveStepEffects(nodes, path, tasks, fmt, ScanStartAsWritten);
    }
  }

  /** The handler as written panics exactly when the leaf was the only child
      of the last node and the scan found an existing target. */
  lemma RowChangedAborts(nodes: Forest, path: Path, tasks: seq<Task>, fmt: Formatter)
    requires ValidPath(nodes, path)
    ensures RowChanged(nodes, path, tasks, fmt).Abort? <==>
              |path| == 2 &&
              var owner := TextOwner(tasks, nodes[path[0]].leaves[path[1]], fmt);
              owner.Some? && tasks[owner.value].category != nodes[path[0]].category &&
              ScanTarget(nodes, tasks[owner.value].category, ScanStartAsWritten).Some? &&
              |nodes[path[0]].leaves| == 1 && path[0] == |nodes| - 1
  {
    if |path| == 2 {
      var p := path[0];
      var owner := TextOwner(tasks, nodes[p].leaves[path[1]], fmt);
      if owner.Some? && tasks[owner.value].category != nodes[p].category {
        RelocateEffects(nodes, p, path[1], tasks[owner.value].category, ScanStartAsWritten);
      }
    }
  }

  /** The handler as written: top-level rows and leaves whose task keeps its
      category change nothing; otherwise the leaf count is kept, no empty node
      appears, and the handler panics exactly when the leaf was the only
      child of the last node and the scan found an existing target. */
  lemma RowChangedEffects(nodes: Forest, path: Path, tasks: seq<Task>, fmt: Formatter)
    requires ValidPath(nodes, path)
    ensures var r := RowChanged(nodes, path, tasks, fmt);
            (|path| == 1 ==> r == Reaction(nodes, None)) &&
            (|path| == 2 && MoveStep(nodes, path, tasks, fmt, ScanStartAsWritten).1.None? ==>
               r == Reaction(nodes, None)) &&
            (r.Reaction? ==> TotalLeaves(r.nodes) == TotalLeaves(nodes)) &&
            (r.Reaction? && NoEmpty(nodes) ==> NoEmpty(r.nodes)) &&
            (|path| == 2 && r.Reaction? && NoEmpty(nodes) ==>
               var step := MoveStep(nodes, path, tasks, fmt, ScanStartAsWritten);
               r.nodes == step.0 && r.select == step.1) &&
            (r.Abort? <==>
               |path| == 2 &&
               var owner := TextOwner(tasks, nodes[path[0]].leaves[path[1]], fmt);
               owner.Some? && tasks[owner.value].category != nodes[path[0]].category &&
               ScanTarget(nodes, tasks[owner.value].category, ScanStartAsWritten).Some? &&
               |nodes[path[0]].leaves| == 1 && path[0] == |nodes| - 1)
  {
    RowChangedKeeps(nodes, path, tasks, fmt);
    RowChangedIsMoveStep(nodes, path, tasks, fmt);
    RowChangedAborts(nodes, path, tasks, fmt);
  }

  /** The owner of a leaf is looked up by its text alone (src/main.rs:370-371):
      a leaf that `find_task_in_list` resolves under its own category still
      moves, to another category's node, when an earlier task of that other
      category has the same formatted text. */
  lemma TextTwinMovesLeaf(nodes: Forest, path: Path, tasks: seq<Task>, fmt: Formatter, k: nat)
    requires ValidPath(nodes, path) && |path| == 2
    requires var leaf, cat := nodes[path[0]].leaves[path[1]], nodes[path[0]].category;
             HasMatch(tasks, cat, leaf, fmt) &&
             k < |tasks| && fmt(tasks[k]) == leaf && tasks[k].category != cat &&
             forall i :: 0 <= i < k ==> fmt(tasks[i]) != leaf
    ensures var (r, sel) := MoveStep(nodes, path, tasks, fmt, ScanStartAsWritten);
            sel.Some? && ValidPath(r, sel.value) && |sel.value| == 2 &&
            r[sel.value[0]].category == tasks[k].category &&
            r[sel.value[0]].category != nodes[path[0]].category
  {
    var owner := TextOwner(tasks, nodes[path[0]].leaves[path[1]], fmt);
    assert owner == Some(k);
    MoveStepEffects(nodes, path, tasks, fmt, ScanStartAsWritten);
  }

  /** Finding: the scan never tests the first node, so moving a leaf into the
      first node's category appends a second node with that category. */
  lemma ScanSkipsFirstNode(nodes: Forest, path: Path, tasks: seq<Task>, fmt: Formatter)
    requires ValidPath(nodes, path) && |path| == 2
    requires NoEmpty(nodes) && UniqueCategories(nodes)
    requires var owner := TextOwner(tasks, nodes[path[0]].leaves[path[1]], fmt);
             owner.Some? && tasks[owner.value].category == nodes[0].category &&
             nodes[path[0]].category != nodes[0].category
    ensures var r := RowChanged(nodes, path, tasks, fmt);
            r.Reaction? && |r.nodes| >= 2 &&
            r.nodes[0].category == r.nodes[|r.nodes| - 1].category &&
            !UniqueCategories(r.nodes)
  {
    var p, j := path[0], path[1];
    var c := nodes[0].category;
    assert ScanTarget(nodes, c, ScanStartAsWritten).None?;
    var removed := Removed(nodes, [p, j]);
    RemovedLeaf(nodes, p, j);
    RelocateIntoNew(nodes, p, j, c, ScanStartAsWritten);
    assert removed[0] == nodes[0];
    var step := MoveStep(nodes, path, tasks, fmt, ScanStartAsWritten);
    assert step.0 == Relocate(nodes, p, j, c, ScanStartAsWritten).0;
    RowChangedEffects(nodes, path, tasks, fmt);
    assert step.0[p].leaves != [];
  }

  /** Finding: the handler panics at line 421 when the only leaf of the last
      node moves into an existing node (not the first): the row-deleted
      handler has already removed the old parent, so its path no longer
      resolves. */
  lemma RowChangedCanAbort(nodes: Forest, path: Path, tasks: seq<Task>, fmt: Formatter, q: nat)
    requires ValidPath(nodes, path) && |path| == 2
    requires path[0] == |nodes| - 1 && |nodes[path[0]].leaves| == 1
    requires var owner := TextOwner(tasks, nodes[path[0]].leaves[path[1]], fmt);
             owner.Some? && tasks[owner.value].category != nodes[path[0]].category &&
             1 <= q < path[0] && nodes[q].category == tasks[owner.value].category
    ensures RowChanged(nodes, path, tasks, fmt) == Abort
  {
    var owner := TextOwner(tasks, nodes[path[0]].leaves[path[1]], fmt);
    assert ScanTarget(nodes, tasks[owner.value].category, ScanStartAsWritten).Some?;
    RowChangedEffects(nodes, path, tasks, fmt);
  }

  /** The corrected handler never panics, keeps the leaf count, creates no
      empty node and no second node for a category, and selects the moved
      leaf under the category of the task that owns its text. */
  lemma RowChangedFixedKeepsInvariants(nodes: Forest, path: Path, tasks: seq<Task>, fmt: Formatter)
    requires ValidPath(nodes, path)
    ensures var r := RowChangedFixed(nodes, path, tasks, fmt);
            r.Reaction? &&
            TotalLeaves(r.nodes) == TotalLeaves(nodes) &&
            (NoEmpty(nodes) ==> NoEmpty(r.nodes)) &&
            (UniqueCategories(nodes) ==> UniqueCategories(r.nodes)) &&
            (r.select.Some? ==>
               |path| == 2 && ValidPath(r.nodes, r.select.value) && |r.select.value| == 2 &&
               var owner := TextOwner(tasks, nodes[path[0]].leaves[path[1]], fmt);
               owner.Some? && r.nodes[r.select.value[0]].category == tasks[owner.value].category)
  {
    if |path| == 2 {
      MoveStepEffects(nodes, path, tasks, fmt, ScanStartFixed);
    }
  }
}
