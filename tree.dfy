/** The BPlusTree class of lib/bplus-tree.ts: the root, the order and the four counters the source
 *  keeps in fields, and the leaf chain its `next` links form, updated in place by each public
 *  method.
 *
 *  The recursive work is delegated to the functions and methods of the other modules, each proved
 *  there; the methods here state what each public operation does to the whole object. The
 *  counters are not recounted by the source, so they are specified by how far they move: an
 *  insert keeps nodeCount and leafCount exactly as far from the real numbers of nodes and leaves
 *  as they were, and a remove does too, except when it empties the root leaf, which it counts as
 *  freed although the leaf stays.
 */
module Tree {
  import opened BPlusNodes
  import opened BPlusRegroup
  import opened BPlusInsert
  import opened BPlusRemove
  import opened BPlusSnapshot
  import Q = BPlusQuery
  import V = BPlusValidate

  /** The invariant of a tree's fields: an order of at least 3, a healthy and valid node
   *  structure, the height calculateHeight reports, and the leaf links in left-to-right order. */
  ghost predicate TreeValid(root: Node, order: int, height: int, chain: seq<Node>)
  {
    order >= 3 && Healthy(root) && ValidateNode(root, None, None)
    && height == CalcHeight(root) && chain == Leaves(root)
  }

  /** insert on a whole tree: the new root keeps every invariant, holds the key in its sorted
   *  place, and is taller by at most one; nodeCount and leafCount move with the real counts. */
  lemma InsertTree(root: Node, key: int, order: int)
    requires order >= 3 && Healthy(root) && ValidateNode(root, None, None)
    ensures |Values(root)| == |Keys(root)|
    ensures var r := InsertRec(root, key, order);
            var g := Grow(r);
            TreeValid(g, order, CalcHeight(g), Leaves(g))
            && CalcHeight(root) <= CalcHeight(g) <= CalcHeight(root) + 1
            && Keys(g) == InsertedKeys(Keys(root), key) && Values(g) == InsertedValues(Keys(root), Values(root), key)
            && CountNodes(g) == CountNodes(root) + GrowNodes(r) && LeafCount(g) == LeafCount(root) + r.leaves
            && key in Keys(g) && Ascending(Keys(g))
            && forall k :: k in Keys(g) <==> k in Keys(root) || k == key
  {
    GrowSound(root, key, order);
    GrowEffect(root, key, order);
    ValidKeys(root, None, None);
    InsertedKeysSorted(Keys(root), key);
  }

  /** remove on a whole tree: the key is found exactly when it is stored; the new root keeps every
   *  invariant, has lost the key and its value list, is lower by at most one, and its node and leaf
   *  counts fall by what was freed, less the emptied root leaf, which stays. */
  lemma RemoveTree(root: Node, key: int, order: int)
    requires order >= 3 && Healthy(root) && ValidateNode(root, None, None)
    ensures |Values(root)| == |Keys(root)|
    ensures var r := RemoveFromRoot(root, key, order);
            (r.Absent? <==> key !in Keys(root))
            && (r.Done? ==>
                  TreeValid(r.root, order, r.height, Leaves(r.root))
                  && CalcHeight(root) - 1 <= r.height <= CalcHeight(root)
                  && Keys(r.root) == RemovedKeys(Keys(root), key)
                  && Values(r.root) == RemovedValues(Keys(root), Values(root), key)
                  && var emptied := if r.root.Leaf? && |r.root.keys| == 0 then 1 else 0;
                     CountNodes(r.root) + r.nodesFreed == CountNodes(root) + emptied
                     && LeafCount(r.root) + r.leavesFreed == LeafCount(root) + emptied)
  {
    RemoveFromRootSound(root, key, order);
    RemoveFromRootEffect(root, key, order);
  }

  class BPlusTree {
    var root: Node
    var order: int
    var nodeCount: int
    var leafCount: int
    var dataCount: int
    var height: int
    /** The leaves as the `next` links chain them, first to last. */
    var chain: seq<Node>

    /** The fields export and import exchange. */
    ghost function State(): (t: TreeState)
      reads this
      ensures t.root == root && t.order == order && t.height == height
    {
      TreeState(root, order, nodeCount, leafCount, dataCount, height)
    }

    /** What every public method keeps: TreeValid of the fields. */
    ghost predicate Valid()
      reads this
    {
      TreeValid(root, order, height, chain)
    }

    /** constructor: the order raised to at least 3, an empty root leaf, one node, one leaf, no
     *  data, height 1. */
    constructor(order0: int)
      ensures Valid()
      ensures order == if order0 < 3 then 3 else order0
      ensures root == Leaf([], []) && nodeCount == 1 && leafCount == 1
      ensures dataCount == 0 && height == 1
    {
      order := if order0 < 3 then 3 else order0;
      root := Leaf([], []);
      nodeCount := 1;
      leafCount := 1;
      dataCount := 0;
      height := 1;
      chain := [Leaf([], [])];
      assert ChainKeys([Leaf([], [])]) == [];
    }

    /** insert: the key goes to its sorted place (or its value list grows when it is stored
     *  already), dataCount rises by one either way, nodeCount and leafCount rise by the nodes and
     *  leaves the splits add, and the height grows by at most one (by one exactly when the root
   *  splits, which GrowSound states). */
    method Insert(key: int)
      requires Valid()
      modifies this
      ensures Valid() && order == old(order)
      ensures Keys(root) == InsertedKeys(old(Keys(root)), key)
      ensures |old(Values(root))| == |old(Keys(root))|
      ensures Values(root) == InsertedValues(old(Keys(root)), old(Values(root)), key)
      ensures dataCount == old(dataCount) + 1
      ensures nodeCount - CountNodes(root) == old(nodeCount - CountNodes(root))
      ensures leafCount - LeafCount(root) == old(leafCount - LeafCount(root))
      ensures old(height) <= height <= old(height) + 1
      ensures key in Keys(root) && Ascending(Keys(root))
      ensures forall k :: k in Keys(root) <==> k in old(Keys(root)) || k == key
    {
      var r := InsertRec(root, key, order);
      InsertTree(root, key, order);
      var g := Grow(r);
      root, nodeCount, leafCount, dataCount, height, chain :=
        g, nodeCount + GrowNodes(r), leafCount + r.leaves, dataCount + 1, CalcHeight(g), Leaves(g);
    }

    /** remove: reports whether the key was stored; if so the key and its value list are gone,
     *  dataCount falls by one, nodeCount and leafCount fall by the nodes and leaves merged away
     *  (and by one more each when the root leaf is left empty) and the height falls by at most
     *  one. Otherwise nothing changes. */
    method Remove(key: int) returns (found: bool)
      requires Valid()
      modifies this
      ensures Valid() && order == old(order)
      ensures found <==> key in old(Keys(root))
      ensures !found ==> root == old(root) && nodeCount == old(nodeCount) && leafCount == old(leafCount)
                         && dataCount == old(dataCount) && height == old(height)
      ensures |old(Values(root))| == |old(Keys(root))|
      ensures found ==> Keys(root) == RemovedKeys(old(Keys(root)), key)
                        && Values(root) == RemovedValues(old(Keys(root)), old(Values(root)), key)
                        && dataCount == old(dataCount) - 1
                        && old(height) - 1 <= height <= old(height)
      ensures var emptied := if found && root.Leaf? && |root.keys| == 0 then 1 else 0;
              nodeCount - CountNodes(root) == old(nodeCount - CountNodes(root)) - emptied
              && leafCount - LeafCount(root) == old(leafCount - LeafCount(root)) - emptied
    {
      var r := RemoveFromRoot(root, key, order);
      RemoveTree(root, key, order);
      if r.Absent? {
        return false;
      }
      root := r.root;
      dataCount := dataCount - 1;
      height := r.height;
      nodeCount := nodeCount - r.nodesFreed;
      leafCount := leafCount - r.leavesFreed;
      chain := Leaves(root);
      return true;
    }

    /** search: the value list stored under the key, empty when the key is not stored. */
    method Search(key: int) returns (vs: seq<int>)
      requires Valid()
      ensures |Values(root)| == |Keys(root)|
      ensures vs == Q.Lookup(Keys(root), Values(root), key)
      ensures key !in Keys(root) ==> vs == []
    {
      vs := Q.Search(root, key);
      ValidKeys(root, None, None);
      Q.LookupAt(Keys(root), Values(root), key);
    }

    /** rangeSearch: the stored keys from startKey to endKey, ascending, read along the leaf
     *  links. */
    method RangeSearch(startKey: int, endKey: int) returns (result: seq<int>)
      requires Valid()
      ensures result == Q.InRange(Keys(root), startKey, endKey) && Ascending(result)
      ensures forall k :: k in result <==> k in Keys(root) && startKey <= k <= endKey
    {
      result := Q.RangeSearch(root, chain, startKey, endKey);
    }

    /** validate: leaves all at one depth and validateNode passing from the root. A tree every
     *  method of this class has worked on always passes. */
    method Validate() returns (ok: bool)
      ensures ok == BPlusNodes.Validate(root)
      ensures Valid() ==> ok
    {
      ok := V.ValidateTree(root);
      if Valid() {
        V.ValidateMeans(root);
      }
    }

    /** export: the order, the serialized nodes and the counters; importing the serialized root
     *  gives back this root. */
    function Export(): (s: Snapshot)
      reads this
      ensures s.order == Some(order) && s.dataCount == Some(dataCount) && s.height == Some(height)
      ensures s.nodeCount == Some(nodeCount) && s.leafCount == Some(leafCount)
      ensures s.root.SNode? && ImportNode(s.root) == root
    {
      ImportExportNode(root);
      ExportTree(TreeState(root, order, nodeCount, leafCount, dataCount, height))
    }

    /** import: every field from the snapshot with the source's defaults, nothing checked; when the
     *  snapshot has a root, the leaf links are rebuilt over the new nodes. */
    method Import(data: Snapshot)
      modifies this
      ensures State() == ImportTree(old(State()), data)
      ensures chain == if data.root.SNode? then Leaves(root) else old(chain)
      ensures data.root.SNode? ==> (Valid() <==> TreeValid(root, order, height, Leaves(root)))
      ensures data.root.Missing? && old(Valid()) && order == old(order) && height == old(height) ==> Valid()
    {
      order := OrElse(data.order, order);
      nodeCount := OrElse(data.nodeCount, 1);
      leafCount := OrElse(data.leafCount, 1);
      dataCount := OrElse(data.dataCount, 0);
      height := OrElse(data.height, 1);
      if data.root.SNode? {
        root := ImportNode(data.root);
        chain := RebuildLeafLinks(root);
      }
    }

    /** clone: a new tree given this tree's export. It holds the same nodes, order, dataCount and
     *  height; a nodeCount or leafCount of 0 comes back as 1. */
    method Clone() returns (c: BPlusTree)
      ensures fresh(c)
      ensures c.root == root && c.order == (if order != 0 then order else 3) && c.dataCount == dataCount && c.height == OrElse(Some(height), 1)
      ensures c.nodeCount == OrElse(Some(nodeCount), 1) && c.leafCount == OrElse(Some(leafCount), 1)
      ensures c.chain == Leaves(root)
      ensures Valid() ==> c.Valid() && c.height == height
      ensures nodeCount != 0 && leafCount != 0 && Valid() ==> c.State() == State()
    {
      c := new BPlusTree(order);
      ghost var into := c.State();
      var data := Export();
      c.Import(data);
      ImportExportInto(State(), into);
    }
  }
}
