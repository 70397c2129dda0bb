/** The two-level `TreeStore` behind the task list view, as a value: a
    sequence of category nodes, each holding the formatted texts of its task
    leaves. A row is addressed by a `TreePath`: `[p]` is category node `p`,
    `[p, j]` is leaf `j` of that node. */
module Tree {
  import opened Tasks

  datatype Node = Node(category: string, leaves: seq<string>)

  type Forest = seq<Node>

  type Path = seq<nat>

  /** The path names an existing row of a two-level store. */
  predicate ValidPath(nodes: Forest, path: Path) {
    1 <= |path| <= 2 && path[0] < |nodes| &&
    (|path| == 2 ==> path[1] < |nodes[path[0]].leaves|)
  }

  /** `get_selected_data`: the text of the row and of its parent for a leaf,
      `(None, None)` for a top-level category row. */
  function SelectedData(nodes: Forest, path: Path): (r: (Option<string>, Option<string>))
    requires ValidPath(nodes, path)
    ensures r.0.Some? <==> |path| > 1
    ensures r.1.Some? <==> |path| > 1
    ensures |path| > 1 ==> r.0.value == nodes[path[0]].leaves[path[1]] && r.1.value == nodes[path[0]].category
  {
    if |path| > 1 then
      (Some(nodes[path[0]].leaves[path[1]]), Some(nodes[path[0]].category))
    else
      (None, None)
  }

  /** The number of leaf rows in the store. */
  function TotalLeaves(nodes: Forest): nat {
    if nodes == [] then 0 else |nodes[0].leaves| + TotalLeaves(nodes[1..])
  }

  /** No category node is without leaves. */
  predicate NoEmpty(nodes: Forest) {
    forall i :: 0 <= i < |nodes| ==> nodes[i].leaves != []
  }

  /** No two category nodes carry the same category. */
  predicate UniqueCategories(nodes: Forest) {
    forall i, k :: 0 <= i < k < |nodes| ==> nodes[i].category != nodes[k].category
  }

  /** Every leaf renders some task whose category is the leaf's parent category. */
  predicate Consistent(nodes: Forest, tasks: seq<Task>, fmt: Formatter) {
    forall i, j :: 0 <= i < |nodes| && 0 <= j < |nodes[i].leaves| ==>
      HasMatch(tasks, nodes[i].category, nodes[i].leaves[j], fmt)
  }

  /** `remove` on a leaf row, before any handler runs. */
  function RemoveLeafAt(nodes: Forest, p: nat, j: nat): (r: Forest)
    requires p < |nodes| && j < |nodes[p].leaves|
    ensures |r| == |nodes| && r[p].category == nodes[p].category
    ensures |r[p].leaves| == |nodes[p].leaves| - 1
    ensures forall k :: 0 <= k < |r[p].leaves| ==> r[p].leaves[k] == nodes[p].leaves[if k < j then k else k + 1]
    ensures forall i :: 0 <= i < |nodes| && i != p ==> r[i] == nodes[i]
  {
    nodes[p := Node(nodes[p].category, nodes[p].leaves[..j] + nodes[p].leaves[j + 1..])]
  }

  /** `remove` on a top-level row, together with its children. */
  function RemoveNodeAt(nodes: Forest, p: nat): (r: Forest)
    requires p < |nodes|
    ensures |r| == |nodes| - 1
    ensures forall i :: 0 <= i < |r| ==> r[i] == nodes[if i < p then i else i + 1]
  {
    nodes[..p] + nodes[p + 1..]
  }

  /** `insert_with_values(Some(parent), None, ..)`: a new last child. */
  function AppendLeaf(nodes: Forest, p: nat, text: string): (r: Forest)
    requires p < |nodes|
    ensures |r| == |nodes| && r[p].category == nodes[p].category
    ensures |r[p].leaves| == |nodes[p].leaves| + 1
    ensures r[p].leaves[..|nodes[p].leaves|] == nodes[p].leaves && r[p].leaves[|nodes[p].leaves|] == text
    ensures forall i :: 0 <= i < |nodes| && i != p ==> r[i] == nodes[i]
  {
    nodes[p := Node(nodes[p].category, nodes[p].leaves + [text])]
  }

  /** `set_value` on a leaf row. */
  function SetLeaf(nodes: Forest, p: nat, j: nat, text: string): (r: Forest)
    requires p < |nodes| && j < |nodes[p].leaves|
    ensures |r| == |nodes| && r[p].category == nodes[p].category
    ensures |r[p].leaves| == |nodes[p].leaves| && r[p].leaves[j] == text
    ensures forall k :: 0 <= k < |nodes[p].leaves| && k != j ==> r[p].leaves[k] == nodes[p].leaves[k]
    ensures forall i :: 0 <= i < |nodes| && i != p ==> r[i] == nodes[i]
  {
    nodes[p := Node(nodes[p].category, nodes[p].leaves[j := text])]
  }

  /** `remove` of the row at `path`, before the row-deleted handler runs. */
  function RemoveRowAt(nodes: Forest, path: Path): (r: Forest)
    requires ValidPath(nodes, path)
    ensures |path| == 1 ==> |r| == |nodes| - 1
    ensures |path| == 2 ==> |r| == |nodes| && |r[path[0]].leaves| == |nodes[path[0]].leaves| - 1
  {
    if |path| == 1 then RemoveNodeAt(nodes, path[0]) else RemoveLeafAt(nodes, path[0], path[1])
  }

  /** The row-deleted handler (src/main.rs:431-447) for a row deleted at
      `path`: the parent path resolves only for a leaf, and that parent is
      removed when it has no children left. */
  function AfterRowDeleted(nodes: Forest, path: Path): (r: Forest)
    requires 1 <= |path| <= 2
    ensures |path| == 1 ==> r == nodes
    ensures |r| < |nodes| <==> |path| == 2 && path[0] < |nodes| && nodes[path[0]].leaves == []
    ensures |r| >= |nodes| - 1 && (|r| == |nodes| ==> r == nodes)
  {
    if |path| == 2 && path[0] < |nodes| && nodes[path[0]].leaves == [] then
      RemoveNodeAt(nodes, path[0])
    else
      nodes
  }

  /** `remove` of a row with the row-deleted handler run on it. */
  function Removed(nodes: Forest, path: Path): (r: Forest)
    requires ValidPath(nodes, path)
    ensures |path| == 1 ==> |r| == |nodes| - 1
    ensures |path| == 2 ==> |r| == |nodes| - (if |nodes[path[0]].leaves| == 1 then 1 else 0)
  {
    AfterRowDeleted(RemoveRowAt(nodes, path), path)
  }

  lemma {:induction false} TotalLeavesConcat(a: Forest, b: Forest)
    ensures TotalLeaves(a + b) == TotalLeaves(a) + TotalLeaves(b)
  {
    if a == [] {
      assert a + b == b;
    } else {
      assert (a + b)[1..] == a[1..] + b;
      TotalLeavesConcat(a[1..], b);
    }
  }

  lemma TotalLeavesSplit(nodes: Forest, p: nat)
    requires p < |nodes|
    ensures TotalLeaves(nodes) == TotalLeaves(nodes[..p]) + |nodes[p].leaves| + TotalLeaves(nodes[p + 1..])
  {
    assert nodes == nodes[..p] + ([nodes[p]] + nodes[p + 1..]);
    TotalLeavesConcat(nodes[..p], [nodes[p]] + nodes[p + 1..]);
    assert ([nodes[p]] + nodes[p + 1..])[1..] == nodes[p + 1..];
  }

  /** Replacing one node changes the leaf count by the difference of the two
      nodes' leaf counts. */
  lemma TotalLeavesUpdate(nodes: Forest, p: nat, n: Node)
    requires p < |nodes|
    ensures TotalLeaves(nodes[p := n]) == TotalLeaves(nodes) - |nodes[p].leaves| + |n.leaves|
  {
    var u := nodes[p := n];
    TotalLeavesSplit(nodes, p);
    TotalLeavesSplit(u, p);
    assert u[..p] == nodes[..p];
    assert u[p + 1..] == nodes[p + 1..];
  }

  /** Removing a node removes exactly its leaves from the count. */
  lemma TotalLeavesRemoveNode(nodes: Forest, p: nat)
    requires p < |nodes|
    ensures TotalLeaves(RemoveNodeAt(nodes, p)) == TotalLeaves(nodes) - |nodes[p].leaves|
  {
    TotalLeavesSplit(nodes, p);
    TotalLeavesConcat(nodes[..p], nodes[p + 1..]);
  }

  /** Appending a leaf adds one to the count and keeps every category. */
  lemma AppendLeafEffects(nodes: Forest, p: nat, text: string)
    requires p < |nodes|
    ensures var r := AppendLeaf(nodes, p, text);
            |r| == |nodes| && TotalLeaves(r) == TotalLeaves(nodes) + 1 &&
            (forall i :: 0 <= i < |nodes| ==> r[i].category == nodes[i].category) &&
            (NoEmpty(nodes) ==> NoEmpty(r)) &&
            (UniqueCategories(nodes) ==> UniqueCategories(r))
  {
    TotalLeavesUpdate(nodes, p, Node(nodes[p].category, nodes[p].leaves + [text]));
  }

  /** Removing a node keeps the other nodes, in order, so it keeps both
      invariants. */
  lemma RemoveNodeEffects(nodes: Forest, p: nat)
    requires p < |nodes|
    ensures var r := RemoveNodeAt(nodes, p);
            |r| == |nodes| - 1 &&
            (forall i :: 0 <= i < p ==> r[i] == nodes[i]) &&
            (forall i :: p < i < |nodes| ==> r[i - 1] == nodes[i]) &&
            (NoEmpty(nodes) ==> NoEmpty(r)) &&
            (UniqueCategories(nodes) ==> UniqueCategories(r))
  {
    var r := RemoveNodeAt(nodes, p);
    if UniqueCategories(nodes) {
      forall i, k | 0 <= i < k < |r| ensures r[i].category != r[k].category {
        var i' := if i < p then i else i + 1;
        var k' := if k < p then k else k + 1;
        assert r[i] == nodes[i'] && r[k] == nodes[k'];
      }
    }
    if NoEmpty(nodes) {
      forall i | 0 <= i < |r| ensures r[i].leaves != [] {
        assert r[i] == nodes[if i < p then i else i + 1];
      }
    }
  }

  /** The row-deleted handler: deleting a top-level row removes nothing
      further; deleting a leaf removes its parent exactly when the parent has
      no children left, and no other node changes. */
  lemma RowDeletedPrunesOnlyEmptyParent(nodes: Forest, path: Path)
    requires 1 <= |path| <= 2
    ensures var r := AfterRowDeleted(nodes, path);
            (|path| == 1 ==> r == nodes) &&
            (|path| == 2 && path[0] < |nodes| ==>
               (|r| < |nodes| <==> nodes[path[0]].leaves == []) &&
               (|r| < |nodes| ==> r == nodes[..path[0]] + nodes[path[0] + 1..]) &&
               (|r| == |nodes| ==> r == nodes)) &&
            TotalLeaves(r) == TotalLeaves(nodes)
  {
    if |path| == 2 && path[0] < |nodes| && nodes[path[0]].leaves == [] {
      TotalLeavesRemoveNode(nodes, path[0]);
    }
  }

  /** Deleting the only leaf of a node removes the node. */
  lemma RemovedOnlyLeaf(nodes: Forest, p: nat, j: nat)
    requires p < |nodes| && j < |nodes[p].leaves| && |nodes[p].leaves| == 1
    ensures Removed(nodes, [p, j]) == RemoveNodeAt(nodes, p)
  {
    var cut := RemoveLeafAt(nodes, p, j);
    assert cut[p].leaves == [];
    assert cut[..p] == nodes[..p] && cut[p + 1..] == nodes[p + 1..];
  }

  /** Removing a category row removes just that node with its children:
      the row-deleted handler adds nothing for a top-level path. */
  lemma RemovedTopRow(nodes: Forest, p: nat)
    requires p < |nodes|
    ensures Removed(nodes, [p]) == RemoveNodeAt(nodes, p)
  {
    assert AfterRowDeleted(RemoveRowAt(nodes, [p]), [p]) == RemoveRowAt(nodes, [p]);
  }

  /** Deleting one of several leaves of a node keeps the node. */
  lemma RemovedOneOfLeaves(nodes: Forest, p: nat, j: nat)
    requires p < |nodes| && j < |nodes[p].leaves| && |nodes[p].leaves| > 1
    ensures Removed(nodes, [p, j]) == RemoveLeafAt(nodes, p, j)
  {
    assert |RemoveLeafAt(nodes, p, j)[p].leaves| == |nodes[p].leaves| - 1;
  }

  /** Deleting a leaf keeps both invariants when the node keeps a leaf. */
  lemma RemoveLeafKeepsInvariants(nodes: Forest, p: nat, j: nat)
    requires p < |nodes| && j < |nodes[p].leaves| && |nodes[p].leaves| > 1
    ensures var r := RemoveLeafAt(nodes, p, j);
            TotalLeaves(r) == TotalLeaves(nodes) - 1 &&
            (NoEmpty(nodes) ==> NoEmpty(r)) &&
            (UniqueCategories(nodes) ==> UniqueCategories(r))
  {
    var r := RemoveLeafAt(nodes, p, j);
    TotalLeavesUpdate(nodes, p, r[p]);
    assert forall i :: 0 <= i < |r| ==> r[i].category == nodes[i].category;
    assert r[p].leaves != [];
  }

  /** Deleting leaf `j` of node `p` (src/main.rs:251 with the row-deleted
      handler): the leaf count drops by one; the parent goes away exactly when
      that leaf was its only child, otherwise only that leaf goes; every other
      node is kept; and neither invariant is lost. */
  lemma RemovedLeaf(nodes: Forest, p: nat, j: nat)
    requires p < |nodes| && j < |nodes[p].leaves|
    ensures var r := Removed(nodes, [p, j]);
            var pruned := |nodes[p].leaves| == 1;
            (pruned ==> r == nodes[..p] + nodes[p + 1..]) &&
            (!pruned ==> |r| == |nodes| &&
                         r[p] == Node(nodes[p].category, nodes[p].leaves[..j] + nodes[p].leaves[j + 1..]) &&
                         forall i :: 0 <= i < |nodes| && i != p ==> r[i] == nodes[i]) &&
            TotalLeaves(r) == TotalLeaves(nodes) - 1 &&
            (NoEmpty(nodes) ==> NoEmpty(r)) &&
            (UniqueCategories(nodes) ==> UniqueCategories(r))
  {
    RemovedLeafKeeps(nodes, p, j);
    if |nodes[p].leaves| == 1 {
      RemovedOnlyLeaf(nodes, p, j);
    } else {
      RemovedOneOfLeaves(nodes, p, j);
    }
  }

  /** Deleting a leaf, with the row-deleted handler, removes exactly one leaf
      from the count, and one node exactly when it was that node's only leaf,
      and keeps both invariants. */
  lemma RemovedLeafKeeps(nodes: Forest, p: nat, j: nat)
    requires p < |nodes| && j < |nodes[p].leaves|
    ensures var r := Removed(nodes, [p, j]);
            |r| == |nodes| - (if |nodes[p].leaves| == 1 then 1 else 0) &&
            TotalLeaves(r) == TotalLeaves(nodes) - 1 &&
            (NoEmpty(nodes) ==> NoEmpty(r)) &&
            (UniqueCategories(nodes) ==> UniqueCategories(r))
  {
    if |nodes[p].leaves| == 1 {
      RemovedOnlyLeaf(nodes, p, j);
      TotalLeavesRemoveNode(nodes, p);
      RemoveNodeEffects(nodes, p);
    } else {
      RemovedOneOfLeaves(nodes, p, j);
      RemoveLeafKeepsInvariants(nodes, p, j);
    }
  }

  /** `set_value` on a leaf changes only that leaf's text: the shape, every
      category and every other leaf are kept. */
  lemma SetLeafKeepsShape(nodes: Forest, p: nat, j: nat, text: string)
    requires p < |nodes| && j < |nodes[p].leaves|
    ensures var r := SetLeaf(nodes, p, j, text);
            |r| == |nodes| && r[p].leaves[j] == text &&
            (forall i :: 0 <= i < |nodes| ==> r[i].category == nodes[i].category && |r[i].leaves| == |nodes[i].leaves|) &&
            (forall i, k :: 0 <= i < |nodes| && 0 <= k < |nodes[i].leaves| && (i, k) != (p, j) ==>
               r[i].leaves[k] == nodes[i].leaves[k]) &&
            TotalLeaves(r) == TotalLeaves(nodes)
  {
    TotalLeavesUpdate(nodes, p, Node(nodes[p].category, nodes[p].leaves[j := text]));
  }
}
