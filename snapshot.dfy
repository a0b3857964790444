/** export/exportNode, import/importNode and rebuildLeafLinks of lib/bplus-tree.ts.
 *
 *  A snapshot is the plain nested object export builds. Its fields are untyped in the source, so
 *  each is modelled as possibly missing: None (or Missing for a node) stands for an absent or
 *  falsy field, and a present 0 is falsy as well wherever the source applies `||`.
 */
module BPlusSnapshot {
  import opened BPlusNodes

  /** A serialized node: `{isLeaf, keys, values?, children?}`, or nothing at all. */
  datatype SnapNode =
    | Missing
    | SNode(isLeaf: bool, keys: Option<seq<int>>, values: Option<seq<seq<int>>>, children: SnapChildren)

  /** The `children` field of a serialized node: absent, or the serialized children. */
  datatype SnapChildren = NoChildren | Children(items: seq<SnapNode>)

  /** The object export returns: the order, the node tree and the four counters. */
  datatype Snapshot = Snapshot(order: Option<int>, root: SnapNode, nodeCount: Option<int>,
                               leafCount: Option<int>, dataCount: Option<int>, height: Option<int>)

  /** The fields of a tree: what export reads and import writes. */
  datatype TreeState = TreeState(root: Node, order: int, nodeCount: int, leafCount: int, dataCount: int, height: int)

  // ---------------------------------------------------------------------------------------------
  // Nodes

  /** exportNode: the flag, a copy of the keys, and copies of the value lists (a leaf) or the
   *  exported children (an internal node). */
  function ExportNode(n: Node): (s: SnapNode)
    ensures s.SNode? && s.isLeaf == n.Leaf?
    decreases n
  {
    match n
    case Leaf(ks, vs) => SNode(true, Some(ks), Some(vs), NoChildren)
    case Internal(ks, cs) =>
      SNode(false, Some(ks), None, Children(seq(|cs|, i requires 0 <= i < |cs| => ExportNode(cs[i]))))
  }

  /** importNode: a missing node becomes a fresh empty leaf; otherwise the flag decides the kind,
   *  and missing keys, value lists or children become empty. */
  function ImportNode(s: SnapNode): (n: Node)
    ensures s.Missing? ==> n == Leaf([], [])
    ensures s.SNode? ==> n.Leaf? == s.isLeaf
    decreases s
  {
    match s
    case Missing => Leaf([], [])
    case SNode(isLeaf, keys, values, children) =>
      var ks := if keys.Some? then keys.value else [];
      if isLeaf then
        Leaf(ks, if values.Some? then values.value else [])
      else
        match children
        case NoChildren => Internal(ks, [])
        case Children(kids) => Internal(ks, seq(|kids|, i requires 0 <= i < |kids| => ImportNode(kids[i])))
  }

  /** Importing an exported node gives the node back: keys, value lists and child structure. */
  lemma {:induction false} ImportExportNode(n: Node)
    ensures ImportNode(ExportNode(n)) == n
    decreases n
  {
    match n
    case Leaf(_, _) =>
    case Internal(ks, cs) =>
      var kids := seq(|cs|, i requires 0 <= i < |cs| => ExportNode(cs[i]));
      forall i | 0 <= i < |cs|
        ensures ImportNode(kids[i]) == cs[i]
      {
        ImportExportNode(cs[i]);
      }
  }

  // ---------------------------------------------------------------------------------------------
  // The tree's fields

  /** `x || d` on a numeric field: the default when the field is missing or 0. */
  function OrElse(x: Option<int>, d: int): (r: int)
    ensures r == d || (x.Some? && r == x.value && r != 0)
  {
    if x.Some? && x.value != 0 then x.value else d
  }

  /** export: the order, the exported root and the counters as they are. */
  function ExportTree(t: TreeState): (s: Snapshot)
    ensures s.root.SNode?
  {
    Snapshot(Some(t.order), ExportNode(t.root), Some(t.nodeCount), Some(t.leafCount), Some(t.dataCount), Some(t.height))
  }

  /** import: each field from the snapshot with the source's `||` default (the order falls back to
   *  the current one, nodeCount, leafCount and height to 1, dataCount to 0); the root is replaced
   *  only when the snapshot has one. Nothing is checked: the order is not clamped to 3 and the
   *  counters are not compared with the nodes. */
  function ImportTree(t: TreeState, s: Snapshot): (u: TreeState)
    ensures u.order == OrElse(s.order, t.order) && u.nodeCount == OrElse(s.nodeCount, 1)
    ensures u.leafCount == OrElse(s.leafCount, 1) && u.height == OrElse(s.height, 1)
    ensures u.dataCount == OrElse(s.dataCount, 0)
    ensures u.root == if s.root.SNode? then ImportNode(s.root) else t.root
  {
    TreeState(if s.root.SNode? then ImportNode(s.root) else t.root,
              OrElse(s.order, t.order), OrElse(s.nodeCount, 1), OrElse(s.leafCount, 1),
              OrElse(s.dataCount, 0), OrElse(s.height, 1))
  }

  /** import(export()) restores every field of any tree whose order, nodeCount, leafCount and
   *  height are not 0, whatever tree it is imported into. */
  lemma ImportExport(t: TreeState, into: TreeState)
    requires t.order != 0 && t.nodeCount != 0 && t.leafCount != 0 && t.height != 0
    ensures ImportTree(into, ExportTree(t)) == t
  {
    ImportExportNode(t.root);
  }

  /** import(export()) into a fresh tree of the same order, as clone does: the nodes, the order
   *  and dataCount come back, and each counter that was 0 comes back as its default. */
  lemma ImportExportInto(t: TreeState, into: TreeState)
    requires into.order == if t.order < 3 then 3 else t.order
    ensures var u := ImportTree(into, ExportTree(t));
            u.root == t.root && u.order == (if t.order != 0 then t.order else 3) && u.dataCount == t.dataCount
            && u.nodeCount == OrElse(Some(t.nodeCount), 1) && u.leafCount == OrElse(Some(t.leafCount), 1)
            && u.height == OrElse(Some(t.height), 1)
            && (t.order >= 3 && t.height >= 1 && t.nodeCount != 0 && t.leafCount != 0 ==> u == t)
  {
    ImportExportNode(t.root);
  }

  /** A tree whose nodeCount and leafCount have fallen to 0 (its root leaf emptied) comes back from
   *  import(export()) with both at 1. */
  lemma ImportExportZeroCounts(t: TreeState, into: TreeState)
    requires t.nodeCount == 0 && t.leafCount == 0
    ensures ImportTree(into, ExportTree(t)).nodeCount == 1 && ImportTree(into, ExportTree(t)).leafCount == 1
    ensures ImportTree(into, ExportTree(t)) != t
  {
  }

  // ---------------------------------------------------------------------------------------------
  // The leaf chain

  /** rebuildLeafLinks: the leaves below n, left to right, collected child by child; the source
   *  links each to the next in this order, so the chain it builds is Leaves(n). */
  method RebuildLeafLinks(n: Node) returns (leaves: seq<Node>)
    ensures leaves == Leaves(n)
    ensures ChainKeys(leaves) == Keys(n)
    decreases n
  {
    if n.Leaf? {
      return [n];
    }
    var cs := n.children;
    leaves := [];
    var i := 0;
    while i < |cs|
      invariant i <= |cs|
      invariant leaves == LeavesOf(cs[..i])
    {
      var childLeaves := RebuildLeafLinks(cs[i]);
      assert cs[..i + 1][..i] == cs[..i];
      leaves := leaves + childLeaves;
      i := i + 1;
    }
    assert cs[..i] == cs;
  }
}
