/** insert, insertRecursive, splitLeafNode and splitInternalNode of lib/bplus-tree.ts.
 *
 *  The descent of insertRecursive is a recursion over the subtree; what a level hands back to its
 *  parent is an `Insertion`: the rewritten node when it still fits, or the two halves of a split
 *  and the separator promoted between them. The parent splices a promoted separator in at
 *  findInsertPosition's index and splits in turn when it reaches `order` keys; a split that
 *  reaches the root makes a new two-child root. The `nodes` and `leaves` fields count the nodes
 *  and leaves the splits created, by which nodeCount and leafCount rise.
 */
module BPlusInsert {
  import opened BPlusNodes
  import opened BPlusRegroup

  datatype Insertion =
    | Fit(node: Node, nodes: nat, leaves: nat)
    | Split(left: Node, sep: int, right: Node, nodes: nat, leaves: nat)

  /** splitLeafNode: the leaf keeps its first floor(len / 2) entries, a new leaf takes the rest and
   *  the new leaf's first key is promoted (it stays in the leaf). One node and one leaf are new. */
  function SplitLeaf(x: Node): (r: Insertion)
    requires x.Leaf? && Shaped(x) && |x.keys| >= 1
    ensures r.Split? && r.left.Leaf? && r.right.Leaf? && |r.right.keys| >= 1
    ensures r.left.keys + r.right.keys == x.keys && r.sep == r.right.keys[0]
    ensures |r.left.keys| == |x.keys| / 2
    ensures r.left.values + r.right.values == x.values && r.nodes == 1 && r.leaves == 1
  {
    var mid := |x.keys| / 2;
    assert x.keys[..mid] + x.keys[mid..] == x.keys;
    assert x.values[..mid] + x.values[mid..] == x.values;
    Split(LeftPart(x, mid), x.keys[mid], RightPart(x, mid), 1, 1)
  }

  /** splitInternalNode: the middle key moves up to the parent (it is not kept below), the node
   *  keeps the keys before it and a new node takes the keys after it, each with one more child
   *  than keys. One node is new. */
  function SplitInternal(y: Node, nodes: nat, leaves: nat): (r: Insertion)
    requires y.Internal? && Shaped(y) && |y.keys| >= 1
    ensures r.Split? && r.left.Internal? && r.right.Internal?
    ensures r.left.keys + [r.sep] + r.right.keys == y.keys
    ensures r.left.children + r.right.children == y.children
    ensures r.nodes == nodes + 1 && r.leaves == leaves
    ensures |r.left.keys| == |y.keys| / 2
  {
    var mid := |y.keys| / 2;
    assert y.keys[..mid] + [y.keys[mid]] + y.keys[mid + 1..] == y.keys;
    assert y.children[..mid + 1] + y.children[mid + 1..] == y.children;
    Split(LeftPart(y, mid), y.keys[mid], RightPart(y, mid), nodes + 1, leaves)
  }

  /** Both parts of an insertion are shaped and of the kind of the node it came from. */
  ghost predicate ShapedInsertion(r: Insertion, leaf: bool)
  {
    match r
    case Fit(x, _, _) => Shaped(x) && x.Leaf? == leaf
    case Split(l, _, rr, _, _) => Shaped(l) && Shaped(rr) && l.Leaf? == leaf && rr.Leaf? == leaf
  }

  /** insertRecursive on a subtree: descend to the child findChildIndex routes to, and let the
   *  node absorb what comes back. */
  function InsertRec(n: Node, key: int, order: int): (r: Insertion)
    requires Shaped(n)
    ensures ShapedInsertion(r, n.Leaf?)
    decreases n
  {
    match n
    case Leaf(_, _) => InsertLeaf(n, key, order)
    case Internal(ks, cs) =>
      var c := ChildIndex(ks, key);
      Absorb(n, c, InsertRec(cs[c], key, order), order)
  }

  /** insertRecursive at a leaf: a key already there gets `key` appended to its value list and
   *  nothing else changes; a new key is spliced in with the value list [key] and the leaf splits
   *  once it holds `order` keys. */
  function InsertLeaf(n: Node, key: int, order: int): (r: Insertion)
    requires n.Leaf? && Shaped(n)
    ensures ShapedInsertion(r, true)
  {
    var ks, vs := n.keys, n.values;
    var p := InsertPosition(ks, key);
    if p < |ks| && ks[p] == key then
      Fit(Leaf(ks, vs[p := vs[p] + [key]]), 0, 0)
    else
      var x := Leaf(ks[..p] + [key] + ks[p..], vs[..p] + [[key]] + vs[p..]);
      if |x.keys| >= order then SplitLeaf(x) else Fit(x, 0, 0)
  }

  /** An internal node takes back what inserting into its child c produced: a rewritten child in
   *  place, or a split child through Promote, after which the node itself splits once it holds
   *  `order` keys. */
  function Absorb(n: Node, c: nat, r: Insertion, order: int): (q: Insertion)
    requires n.Internal? && Shaped(n) && c < |n.children| && ShapedInsertion(r, n.children[c].Leaf?)
    ensures ShapedInsertion(q, false)
  {
    match r
    case Fit(x, dn, dl) =>
      Fit(WithChild(n, c, x), dn, dl)
    case Split(l, s, rr, dn, dl) =>
      var y := Promote(n, c, l, s, rr);
      if |y.keys| >= order then SplitInternal(y, dn, dl) else Fit(y, dn, dl)
  }

  /** The parent step of splitLeafNode and splitInternalNode: the split node (child c) keeps its
   *  place holding the left half, the separator goes in at findInsertPosition's index p and the
   *  new right node at p + 1. */
  function Promote(n: Node, c: nat, l: Node, s: int, rr: Node): (y: Node)
    requires n.Internal? && Shaped(n) && c < |n.children| && Shaped(l) && Shaped(rr)
    ensures y.Internal? && Shaped(y) && |y.keys| == |n.keys| + 1
  {
    var p := InsertPosition(n.keys, s);
    var cs1 := n.children[c := l];
    var y := Internal(n.keys[..p] + [s] + n.keys[p..], cs1[..p + 1] + [rr] + cs1[p + 1..]);
    assert forall i :: 0 <= i < |y.children| ==> y.children[i] in cs1 || y.children[i] == rr;
    y
  }

  /** insert's root step: a split that reaches the root makes a new internal root holding only
   *  the promoted separator. */
  function Grow(r: Insertion): (root: Node)
    ensures r.Fit? ==> root == r.node
    ensures r.Split? ==> root.Internal? && |root.keys| == 1
                         && CalcHeight(root) == CalcHeight(r.left) + 1
  {
    match r
    case Fit(x, _, _) => x
    case Split(l, s, rr, _, _) => Internal([s], [l, rr])
  }

  /** The nodes insert adds to nodeCount: those the splits made, and the new root. */
  function GrowNodes(r: Insertion): (n: nat)
    ensures n >= r.nodes && (n == r.nodes <==> r.Fit?)
  {
    r.nodes + (if r.Split? then 1 else 0)
  }

  // ---------------------------------------------------------------------------------------------
  // The abstract effect: the sorted key sequence with the key spliced in

  /** The keys after inserting `key` into ascending keys: unchanged when present, otherwise with
   *  `key` at its sorted position. */
  function InsertedKeys(ks: seq<int>, key: int): seq<int>
  {
    var p := InsertPosition(ks, key);
    if p < |ks| && ks[p] == key then ks else ks[..p] + [key] + ks[p..]
  }

  /** The value lists after inserting `key`: the list of an existing key gets `key` appended,
   *  a new key gets the list [key] at its position. */
  function InsertedValues(ks: seq<int>, vs: seq<seq<int>>, key: int): seq<seq<int>>
    requires |vs| == |ks|
  {
    var p := InsertPosition(ks, key);
    if p < |ks| && ks[p] == key then vs[p := vs[p] + [key]] else vs[..p] + [[key]] + vs[p..]
  }

  /** Inserting keeps the keys ascending and adds exactly `key` to them. */
  lemma InsertedKeysSorted(ks: seq<int>, key: int)
    requires Ascending(ks)
    ensures Ascending(InsertedKeys(ks, key))
    ensures forall k :: k in InsertedKeys(ks, key) <==> k in ks || k == key
    ensures |InsertedKeys(ks, key)| == |ks| + (if key in ks then 0 else 1)
  {
    var p := InsertPosition(ks, key);
    InsertPositionFinds(ks, key);
    var r := InsertedKeys(ks, key);
    if !(p < |ks| && ks[p] == key) {
      assert forall j :: p <= j < |ks| ==> key < ks[j] by {
        forall j | p <= j < |ks|
          ensures key < ks[j]
        {
          if j > p {
            assert ks[p] < ks[j];
          }
        }
      }
      SpliceAscending(ks, p, key);
      assert ks == ks[..p] + ks[p..];
    }
  }

  /** A key placed after the smaller keys and before the greater ones keeps the keys ascending. */
  lemma SpliceAscending(ks: seq<int>, p: nat, key: int)
    requires Ascending(ks) && p <= |ks|
    requires forall j :: 0 <= j < p ==> ks[j] < key
    requires forall j :: p <= j < |ks| ==> key < ks[j]
    ensures Ascending(ks[..p] + [key] + ks[p..])
  {
    var r := ks[..p] + [key] + ks[p..];
    forall i, j | 0 <= i < j < |r|
      ensures r[i] < r[j]
    {
      if j < p {
        assert r[i] == ks[i] && r[j] == ks[j];
      } else if j == p {
        assert r[i] == ks[i];
      } else if i < p {
        assert r[i] == ks[i] && r[j] == ks[j - 1];
      } else if i == p {
        assert r[j] == ks[j - 1];
      } else {
        assert r[i] == ks[i - 1] && r[j] == ks[j - 1];
      }
    }
  }

  /** Where the surrounding keys are all below and all above `key`, the insert position in the
   *  whole is the one in the middle part, offset, and finds a key exactly when that one does. */
  lemma PositionAround(a: seq<int>, k: seq<int>, b: seq<int>, key: int)
    requires AllBelow(a, key) && AllAbove(b, key)
    ensures InsertPosition(a + k + b, key) == |a| + InsertPosition(k, key)
    ensures var p, q := InsertPosition(a + k + b, key), InsertPosition(k, key);
            (p < |a + k + b| && (a + k + b)[p] == key) <==> (q < |k| && k[q] == key)
  {
    InsertPositionBefore(k, b, key);
    InsertPositionAfter(a, k + b, key);
    assert a + k + b == a + (k + b);
    var q := InsertPosition(k, key);
    if q < |k| {
      assert (a + k + b)[|a| + q] == k[q];
    } else if |b| > 0 {
      assert (a + k + b)[|a| + q] == b[0];
    }
  }

  lemma SlicesAround<T>(a: seq<T>, k: seq<T>, b: seq<T>, q: nat)
    requires q <= |k|
    ensures (a + k + b)[..|a| + q] == a + k[..q]
    ensures (a + k + b)[|a| + q..] == k[q..] + b
  {
  }

  lemma UpdateAround<T>(a: seq<T>, k: seq<T>, b: seq<T>, q: nat, x: T)
    requires q < |k|
    ensures (a + k + b)[|a| + q := x] == a + k[q := x] + b
  {
  }

  lemma Regroup5<T>(a: seq<T>, x: seq<T>, m: seq<T>, y: seq<T>, b: seq<T>)
    ensures (a + x) + m + (y + b) == a + (x + m + y) + b
  {
  }

  /** Inserting into the middle part of keys is inserting into the whole, when the surrounding
   *  keys are all below and all above `key`. */
  lemma InsertedKeysAround(a: seq<int>, k: seq<int>, b: seq<int>, key: int)
    requires AllBelow(a, key) && AllAbove(b, key)
    ensures InsertedKeys(a + k + b, key) == a + InsertedKeys(k, key) + b
  {
    PositionAround(a, k, b, key);
    var q := InsertPosition(k, key);
    var all := a + k + b;
    var p := InsertPosition(all, key);
    if q < |k| && k[q] == key {
      assert InsertedKeys(k, key) == k;
      assert InsertedKeys(all, key) == all;
    } else {
      assert InsertedKeys(k, key) == k[..q] + [key] + k[q..];
      assert InsertedKeys(all, key) == all[..p] + [key] + all[p..];
      SlicesAround(a, k, b, q);
      Regroup5(a, k[..q], [key], k[q..], b);
    }
  }

  lemma InsertedValuesAround(a: seq<int>, k: seq<int>, b: seq<int>, va: seq<seq<int>>, vk: seq<seq<int>>, vb: seq<seq<int>>, key: int)
    requires AllBelow(a, key) && AllAbove(b, key)
    requires |va| == |a| && |vk| == |k| && |vb| == |b|
    ensures InsertedValues(a + k + b, va + vk + vb, key) == va + InsertedValues(k, vk, key) + vb
  {
    PositionAround(a, k, b, key);
    var q := InsertPosition(k, key);
    var vall := va + vk + vb;
    var p := InsertPosition(a + k + b, key);
    if q < |k| && k[q] == key {
      assert InsertedValues(k, vk, key) == vk[q := vk[q] + [key]];
      assert InsertedValues(a + k + b, vall, key) == vall[p := vall[p] + [key]];
      assert vall[|va| + q] == vk[q];
      UpdateAround(va, vk, vb, q, vk[q] + [key]);
    } else {
      assert InsertedValues(k, vk, key) == vk[..q] + [[key]] + vk[q..];
      assert InsertedValues(a + k + b, vall, key) == vall[..p] + [[key]] + vall[p..];
      SlicesAround(va, vk, vb, q);
      Regroup5(va, vk[..q], [[key]], vk[q..], vb);
    }
  }

  // ---------------------------------------------------------------------------------------------
  // Shape, balance and separator bounds

  /** What an insertion keeps: shape, balance, occupancy and validateNode's bounds. A split
   *  hands up a separator strictly inside the subtree's bounds. */
  ghost predicate SoundInsertion(n: Node, r: Insertion, h: nat, lo: Option<int>, hi: Option<int>)
  {
    match r
    case Fit(x, _, _) =>
      Shaped(x) && Balanced(x, h) && ValidateNode(x, lo, hi) && ChildrenPopulated(x)
      && |x.keys| >= |n.keys|
    case Split(l, s, rr, _, _) =>
      Shaped(l) && Shaped(rr) && Balanced(l, h) && Balanced(rr, h) && Populated(l) && Populated(rr)
      && ValidateNode(l, lo, Some(s)) && ValidateNode(rr, Some(s), hi) && Above(s, lo) && Below(s, hi)
  }

  /** A separator strictly between the bounds of child c has findInsertPosition index c. */
  lemma SeparatorPosition(ks: seq<int>, lo: Option<int>, hi: Option<int>, c: nat, s: int)
    requires AdjacentAscending(ks) && c <= |ks|
    requires Above(s, LowerOf(lo, ks, c)) && Below(s, UpperOf(hi, ks, c))
    ensures InsertPosition(ks, s) == c
  {
    forall j | 0 <= j < c
      ensures ks[j] < s
    {
      if j < c - 1 {
        AdjacentChain(ks, j, c - 1);
      }
    }
    InsertPositionUnique(ks, s, c);
  }

  /** Under the separator bounds, findInsertPosition places a promoted separator right after the
   *  child it came from, so the source's splice is SpliceSplit. */
  lemma PromoteIsSplice(n: Node, lo: Option<int>, hi: Option<int>, c: nat, l: Node, s: int, rr: Node)
    requires n.Internal? && Shaped(n) && AdjacentAscending(n.keys) && c < |n.children| && Shaped(l) && Shaped(rr)
    requires Above(s, LowerOf(lo, n.keys, c)) && Below(s, UpperOf(hi, n.keys, c))
    ensures Promote(n, c, l, s, rr) == SpliceSplit(n, c, l, s, rr)
  {
    SeparatorPosition(n.keys, lo, hi, c, s);
    ReplaceThenInsert(n.children, c, l, rr);
  }

  lemma ReplaceThenInsert<T>(cs: seq<T>, c: nat, l: T, r: T)
    requires c < |cs|
    ensures cs[c := l][..c + 1] + [r] + cs[c := l][c + 1..] == cs[..c] + [l, r] + cs[c + 1..]
  {
    var cs1 := cs[c := l];
    assert cs1[..c + 1] == cs[..c] + [l];
    assert cs1[c + 1..] == cs[c + 1..];
  }

  lemma SplitLeafSound(x: Node, order: int, lo: Option<int>, hi: Option<int>)
    requires x.Leaf? && Shaped(x) && |x.keys| >= order >= 3 && ValidateNode(x, lo, hi)
    ensures SoundInsertion(x, SplitLeaf(x), 1, lo, hi)
  {
    var mid := |x.keys| / 2;
    SplitShape(x, mid, 1);
    SplitValid(x, mid, lo, hi);
    SplitSeparator(x, mid, lo, hi);
  }

  lemma SplitInternalSound(n: Node, y: Node, nodes: nat, leaves: nat, order: int, h: nat, lo: Option<int>, hi: Option<int>)
    requires y.Internal? && Shaped(y) && |y.keys| >= order >= 3 && ValidateNode(y, lo, hi)
    requires Balanced(y, h) && ChildrenPopulated(y)
    ensures SoundInsertion(n, SplitInternal(y, nodes, leaves), h, lo, hi)
  {
    var mid := |y.keys| / 2;
    SplitShape(y, mid, h);
    SplitValid(y, mid, lo, hi);
    SplitSeparator(y, mid, lo, hi);
  }

  /** insertRecursive keeps the subtree a valid, balanced B+ subtree between the same bounds, given
   *  that the key lies within them. */
  lemma {:induction false} InsertRecSound(n: Node, key: int, order: int, h: nat, lo: Option<int>, hi: Option<int>)
    requires order >= 3 && Shaped(n) && Balanced(n, h) && ChildrenPopulated(n) && ValidateNode(n, lo, hi)
    requires AtLeast(key, lo) && Below(key, hi)
    ensures SoundInsertion(n, InsertRec(n, key, order), h, lo, hi)
    decreases n
  {
    match n
    case Leaf(ks, vs) =>
      InsertLeafSound(n, key, order, lo, hi);
    case Internal(ks, cs) =>
      var c := ChildIndex(ks, key);
      Route(n, lo, hi, key, c);
      InsertRecSound(cs[c], key, order, h - 1, LowerOf(lo, ks, c), UpperOf(hi, ks, c));
      AbsorbSound(n, c, InsertRec(cs[c], key, order), order, h, lo, hi);
  }

  /** A node absorbing a sound insertion into one of its children is itself a sound insertion. */
  lemma AbsorbSound(n: Node, c: nat, r: Insertion, order: int, h: nat, lo: Option<int>, hi: Option<int>)
    requires order >= 3 && n.Internal? && Shaped(n) && Balanced(n, h) && ChildrenPopulated(n) && ValidateNode(n, lo, hi)
    requires c < |n.children| && ShapedInsertion(r, n.children[c].Leaf?)
    requires SoundInsertion(n.children[c], r, h - 1, LowerOf(lo, n.keys, c), UpperOf(hi, n.keys, c))
    ensures SoundInsertion(n, Absorb(n, c, r, order), h, lo, hi)
  {
    SoundRunOf(n, h - 1);
    match r
    case Fit(x, dn, dl) =>
      AbsorbFitSound(n, c, x, h, lo, hi);
    case Split(l, s, rr, dn, dl) =>
      AbsorbSplitSound(n, c, l, s, rr, dn, dl, order, h, lo, hi);
  }

  /** A child that took the key without splitting leaves its parent sound where it stands. */
  lemma AbsorbFitSound(n: Node, c: nat, x: Node, h: nat, lo: Option<int>, hi: Option<int>)
    requires n.Internal? && Shaped(n) && ValidateNode(n, lo, hi) && h >= 2
    requires c < |n.children| && SoundRun(n.children, h - 1)
    requires Shaped(x) && Balanced(x, h - 1) && ChildrenPopulated(x) && |x.keys| >= |n.children[c].keys|
    requires Populated(n.children[c])
    requires ValidateNode(x, LowerOf(lo, n.keys, c), UpperOf(hi, n.keys, c))
    ensures var y := WithChild(n, c, x);
            Shaped(y) && Balanced(y, h) && ChildrenPopulated(y) && ValidateNode(y, lo, hi) && |y.keys| >= |n.keys|
  {
    WithChildValid(n, c, x, lo, hi);
    WithChildShaped(n, c, x, h);
  }

  /** The structural half of AbsorbFitSound: a populated child of the right height keeps its
   *  parent shaped, balanced and populated below. */
  lemma WithChildShaped(n: Node, c: nat, x: Node, h: nat)
    requires n.Internal? && Shaped(n) && h >= 2
    requires c < |n.children| && SoundRun(n.children, h - 1)
    requires Shaped(x) && Balanced(x, h - 1) && ChildrenPopulated(x) && |x.keys| >= |n.children[c].keys|
    requires Populated(n.children[c])
    ensures var y := WithChild(n, c, x);
            Shaped(y) && Balanced(y, h) && ChildrenPopulated(y)
  {
    var ks, cs := n.keys, n.children;
    assert Populated(x) by {
      assert |x.keys| >= 1;
    }
    assert SoundRun([x], h - 1);
    SoundRunSplice(cs, c, c + 1, [x], h - 1);
    assert cs[..c] + [x] + cs[c + 1..] == cs[c := x];
    SoundParent(ks, cs[c := x], h - 1);
  }

  lemma AbsorbSplitSound(n: Node, c: nat, l: Node, s: int, rr: Node, dn: nat, dl: nat, order: int, h: nat, lo: Option<int>, hi: Option<int>)
    requires order >= 3 && n.Internal? && Shaped(n) && Balanced(n, h) && ChildrenPopulated(n) && ValidateNode(n, lo, hi)
    requires c < |n.children| && SoundRun(n.children, h - 1)
    requires SoundInsertion(n.children[c], Split(l, s, rr, dn, dl), h - 1, LowerOf(lo, n.keys, c), UpperOf(hi, n.keys, c))
    ensures SoundInsertion(n, Absorb(n, c, Split(l, s, rr, dn, dl), order), h, lo, hi)
  {
    var y := Promote(n, c, l, s, rr);
    PromoteSound(n, c, l, s, rr, h, lo, hi);
    if |y.keys| >= order {
      assert Absorb(n, c, Split(l, s, rr, dn, dl), order) == SplitInternal(y, dn, dl);
      SplitInternalSound(n, y, dn, dl, order, h, lo, hi);
    } else {
      assert Absorb(n, c, Split(l, s, rr, dn, dl), order) == Fit(y, dn, dl);
    }
  }

  /** A node taking in a split child's two halves and its separator stays valid, balanced and
   *  populated below, one key longer. */
  lemma PromoteSound(n: Node, c: nat, l: Node, s: int, rr: Node, h: nat, lo: Option<int>, hi: Option<int>)
    requires n.Internal? && Shaped(n) && ValidateNode(n, lo, hi) && h >= 2
    requires c < |n.children| && SoundRun(n.children, h - 1)
    requires Shaped(l) && Shaped(rr) && Balanced(l, h - 1) && Balanced(rr, h - 1) && Populated(l) && Populated(rr)
    requires ValidateNode(l, LowerOf(lo, n.keys, c), Some(s)) && ValidateNode(rr, Some(s), UpperOf(hi, n.keys, c))
    requires Above(s, LowerOf(lo, n.keys, c)) && Below(s, UpperOf(hi, n.keys, c))
    ensures var y := Promote(n, c, l, s, rr);
            Shaped(y) && Balanced(y, h) && ChildrenPopulated(y) && ValidateNode(y, lo, hi)
            && |y.keys| == |n.keys| + 1
  {
    PromoteIsSplice(n, lo, hi, c, l, s, rr);
    SpliceSplitValid(n, c, l, s, rr, lo, hi);
    SpliceSplitShaped(n, c, l, s, rr, h);
  }

  /** The structural half of PromoteSound. */
  lemma SpliceSplitShaped(n: Node, c: nat, l: Node, s: int, rr: Node, h: nat)
    requires n.Internal? && Shaped(n) && h >= 2
    requires c < |n.children| && SoundRun(n.children, h - 1)
    requires Shaped(l) && Shaped(rr) && Balanced(l, h - 1) && Balanced(rr, h - 1) && Populated(l) && Populated(rr)
    ensures var y := SpliceSplit(n, c, l, s, rr);
            Shaped(y) && Balanced(y, h) && ChildrenPopulated(y)
  {
    var y := SpliceSplit(n, c, l, s, rr);
    assert SoundRun([l, rr], h - 1);
    SoundRunSplice(n.children, c, c + 1, [l, rr], h - 1);
    SoundParent(y.keys, y.children, h - 1);
  }

  lemma InsertLeafSound(n: Node, key: int, order: int, lo: Option<int>, hi: Option<int>)
    requires n.Leaf? && order >= 3 && Shaped(n) && ValidateNode(n, lo, hi)
    requires AtLeast(key, lo) && Below(key, hi)
    ensures SoundInsertion(n, InsertLeaf(n, key, order), 1, lo, hi)
  {
    var ks, vs := n.keys, n.values;
    var p := InsertPosition(ks, key);
    if p < |ks| && ks[p] == key {
      assert InsertLeaf(n, key, order) == Fit(Leaf(ks, vs[p := vs[p] + [key]]), 0, 0);
    } else {
      var x := Leaf(ks[..p] + [key] + ks[p..], vs[..p] + [[key]] + vs[p..]);
      NewKeyLeafValid(n, key, lo, hi);
      if |x.keys| >= order {
        assert InsertLeaf(n, key, order) == SplitLeaf(x);
        SplitLeafSound(x, order, lo, hi);
      } else {
        assert InsertLeaf(n, key, order) == Fit(x, 0, 0);
      }
    }
  }

  /** A leaf given a key it does not hold, within its bounds, is still valid between them. */
  lemma NewKeyLeafValid(n: Node, key: int, lo: Option<int>, hi: Option<int>)
    requires n.Leaf? && Shaped(n) && ValidateNode(n, lo, hi) && AtLeast(key, lo) && Below(key, hi)
    requires var p := InsertPosition(n.keys, key); !(p < |n.keys| && n.keys[p] == key)
    ensures var p := InsertPosition(n.keys, key);
            var x := Leaf(n.keys[..p] + [key] + n.keys[p..], n.values[..p] + [[key]] + n.values[p..]);
            Shaped(x) && ValidateNode(x, lo, hi) && |x.keys| == |n.keys| + 1
  {
    var ks := n.keys;
    var p := InsertPosition(ks, key);
    InsertedKeysValid(ks, key, lo, hi);
    assert InsertedKeys(ks, key) == ks[..p] + [key] + ks[p..];
  }

  /** A key within a leaf's bounds, inserted into its keys, keeps them ascending and within the
   *  bounds. */
  lemma InsertedKeysValid(ks: seq<int>, key: int, lo: Option<int>, hi: Option<int>)
    requires AdjacentAscending(ks)
    requires lo.Some? && |ks| > 0 ==> ks[0] >= lo.value
    requires hi.Some? && |ks| > 0 ==> ks[|ks| - 1] < hi.value
    requires AtLeast(key, lo) && Below(key, hi)
    ensures var r := InsertedKeys(ks, key);
            |r| > 0 && AdjacentAscending(r)
            && (lo.Some? ==> r[0] >= lo.value) && (hi.Some? ==> r[|r| - 1] < hi.value)
  {
    AdjacentAscendingIsAscending(ks);
    InsertedKeysSorted(ks, key);
    var r := InsertedKeys(ks, key);
    assert AdjacentAscending(r);
    var p := InsertPosition(ks, key);
    if !(p < |ks| && ks[p] == key) {
      assert r == ks[..p] + [key] + ks[p..];
      if p > 0 {
        assert r[0] == ks[0];
      }
      if p < |ks| {
        assert r[|r| - 1] == ks[|ks| - 1];
      }
    }
  }

  /** insert's root step keeps the tree valid: a new root holds one separator and two populated
   *  children of equal height. */
  lemma GrowSound(root: Node, key: int, order: int)
    requires order >= 3 && Shaped(root) && Balanced(root, CalcHeight(root)) && ChildrenPopulated(root)
    requires ValidateNode(root, None, None) && (root.Internal? ==> |root.keys| >= 1)
    ensures var g := Grow(InsertRec(root, key, order));
            Shaped(g) && Balanced(g, CalcHeight(g)) && ChildrenPopulated(g) && ValidateNode(g, None, None)
            && (g.Internal? ==> |g.keys| >= 1)
            && CalcHeight(g) == CalcHeight(root) + (if InsertRec(root, key, order).Split? then 1 else 0)
  {
    var h := CalcHeight(root);
    InsertRecSound(root, key, order, h, None, None);
    var r := InsertRec(root, key, order);
    var g := Grow(r);
    if r.Split? {
      NewRootSound(r.left, r.sep, r.right, h);
    } else {
      BalancedHeight(g, h);
    }
  }

  /** The new root over the two halves of a split root: one separator, two children, one level
   *  taller. */
  lemma NewRootSound(l: Node, s: int, rr: Node, h: nat)
    requires Shaped(l) && Shaped(rr) && Balanced(l, h) && Balanced(rr, h) && Populated(l) && Populated(rr)
    requires ValidateNode(l, None, Some(s)) && ValidateNode(rr, Some(s), None)
    ensures var g := Internal([s], [l, rr]);
            Shaped(g) && Balanced(g, h + 1) && ChildrenPopulated(g) && ValidateNode(g, None, None)
            && CalcHeight(g) == h + 1
  {
    var g := Internal([s], [l, rr]);
    assert LowerOf(None, [s], 1) == Some(s);
    assert UpperOf(None, [s], 0) == Some(s);
    ValidateInternalIntro([s], [l, rr], None, None);
    BalancedHeight(l, h);
  }

  // ---------------------------------------------------------------------------------------------
  // Contents and counts

  /** What an insertion stores and adds: the keys and value lists of the result (both halves,
   *  after a split) are those of the subtree with `key` inserted, and the node and leaf counts
   *  rise by what the insertion reports. */
  ghost predicate InsertionEffect(n: Node, r: Insertion, key: int)
    requires |Values(n)| == |Keys(n)|
  {
    match r
    case Fit(x, dn, dl) =>
      Keys(x) == InsertedKeys(Keys(n), key) && Values(x) == InsertedValues(Keys(n), Values(n), key)
      && CountNodes(x) == CountNodes(n) + dn && LeafCount(x) == LeafCount(n) + dl
    case Split(l, _, rr, dn, dl) =>
      Keys(l) + Keys(rr) == InsertedKeys(Keys(n), key)
      && Values(l) + Values(rr) == InsertedValues(Keys(n), Values(n), key)
      && CountNodes(l) + CountNodes(rr) == CountNodes(n) + dn && LeafCount(l) + LeafCount(rr) == LeafCount(n) + dl
  }

  /** Every shaped subtree stores one value list per key. */
  lemma {:induction false} ValuesParallel(n: Node)
    requires Shaped(n)
    ensures |Values(n)| == |Keys(n)|
    decreases n, 1
  {
    if n.Leaf? {
      KeysOfLeaf(n);
    } else {
      ValuesParallelOf(n.children);
    }
  }

  lemma {:induction false} ValuesParallelOf(cs: seq<Node>)
    requires forall i :: 0 <= i < |cs| ==> Shaped(cs[i])
    ensures |ValuesOf(cs)| == |KeysOf(cs)|
    decreases cs, 0
  {
    if cs != [] {
      var init, last := cs[..|cs| - 1], cs[|cs| - 1];
      assert cs == init + [last];
      TallyAppend(init, [last]);
      TallyOne(last);
      ValuesParallelOf(init);
      ValuesParallel(last);
    }
  }

  lemma {:induction false} InsertRecEffect(n: Node, key: int, order: int, h: nat, lo: Option<int>, hi: Option<int>)
    requires order >= 3 && Shaped(n) && Balanced(n, h) && ChildrenPopulated(n) && ValidateNode(n, lo, hi)
    requires AtLeast(key, lo) && Below(key, hi)
    ensures |Values(n)| == |Keys(n)|
    ensures InsertionEffect(n, InsertRec(n, key, order), key)
    decreases n
  {
    ValuesParallel(n);
    match n
    case Leaf(ks, vs) =>
      InsertLeafEffect(n, key, order);
    case Internal(ks, cs) =>
      var c := ChildIndex(ks, key);
      Route(n, lo, hi, key, c);
      var lo1, hi1 := LowerOf(lo, ks, c), UpperOf(hi, ks, c);
      InsertRecEffect(cs[c], key, order, h - 1, lo1, hi1);
      InsertRecSound(cs[c], key, order, h - 1, lo1, hi1);
      AbsorbEffect(n, c, InsertRec(cs[c], key, order), key, order, lo, hi);
  }

  /** A node absorbing an insertion into the child `key` routes to stores what the child stores,
   *  with the keys of the children around it unchanged. */
  lemma AbsorbEffect(n: Node, c: nat, r: Insertion, key: int, order: int, lo: Option<int>, hi: Option<int>)
    requires n.Internal? && Shaped(n) && AdjacentAscending(n.keys) && c < |n.children|
    requires ShapedInsertion(r, n.children[c].Leaf?)
    requires AllBelow(KeysOf(n.children[..c]), key) && AllAbove(KeysOf(n.children[c + 1..]), key)
    requires |Values(n.children[c])| == |Keys(n.children[c])| && InsertionEffect(n.children[c], r, key)
    requires r.Split? ==> Above(r.sep, LowerOf(lo, n.keys, c)) && Below(r.sep, UpperOf(hi, n.keys, c))
    ensures |Values(n)| == |Keys(n)|
    ensures InsertionEffect(n, Absorb(n, c, r, order), key)
  {
    var cs := n.children;
    ValuesParallel(n);
    ContentsAround(n, c);
    ShapedSlices(n, c);
    InsertedKeysAround(KeysOf(cs[..c]), Keys(cs[c]), KeysOf(cs[c + 1..]), key);
    InsertedValuesAround(KeysOf(cs[..c]), Keys(cs[c]), KeysOf(cs[c + 1..]),
                         ValuesOf(cs[..c]), Values(cs[c]), ValuesOf(cs[c + 1..]), key);
    match r
    case Fit(x, dn, dl) =>
      WithChildContents(n, c, x);
    case Split(l, s, rr, dn, dl) =>
      PromoteIsSplice(n, lo, hi, c, l, s, rr);
      var y := SpliceSplit(n, c, l, s, rr);
      SpliceSplitContents(n, c, l, s, rr);
      if |y.keys| >= order {
        SplitInternalContents(y, |y.keys| / 2);
      }
  }

  /** The children on either side of child c store one value list per key. */
  lemma ShapedSlices(n: Node, c: nat)
    requires n.Internal? && Shaped(n) && c < |n.children|
    ensures |ValuesOf(n.children[..c])| == |KeysOf(n.children[..c])|
    ensures |ValuesOf(n.children[c + 1..])| == |KeysOf(n.children[c + 1..])|
  {
    var cs := n.children;
    assert forall i :: 0 <= i < |cs[..c]| ==> cs[..c][i] == cs[i];
    var tail := cs[c + 1..];
    assert forall i :: 0 <= i < |tail| ==> tail[i] == cs[c + 1 + i];
    ValuesParallelOf(cs[..c]);
    ValuesParallelOf(cs[c + 1..]);
  }

  lemma InsertLeafEffect(n: Node, key: int, order: int)
    requires n.Leaf? && Shaped(n)
    ensures |Values(n)| == |Keys(n)|
    ensures InsertionEffect(n, InsertLeaf(n, key, order), key)
  {
    KeysOfLeaf(n);
    var ks, vs := n.keys, n.values;
    var r := InsertLeaf(n, key, order);
    match r
    case Fit(x, _, _) =>
      KeysOfLeaf(x);
    case Split(l, _, rr, _, _) =>
      var x := Leaf(InsertedKeys(ks, key), InsertedValues(ks, vs, key));
      SplitLeafContents(x, |x.keys| / 2);
      KeysOfLeaf(x);
  }

  /** insert as a whole stores `key` in its sorted place (or appends it to the value list of the
   *  equal key), and nodeCount and leafCount rise by exactly the nodes and leaves added. */
  lemma GrowEffect(root: Node, key: int, order: int)
    requires order >= 3 && Shaped(root) && Balanced(root, CalcHeight(root)) && ChildrenPopulated(root)
    requires ValidateNode(root, None, None)
    ensures |Values(root)| == |Keys(root)|
    ensures var r := InsertRec(root, key, order);
            var g := Grow(r);
            Keys(g) == InsertedKeys(Keys(root), key) && Values(g) == InsertedValues(Keys(root), Values(root), key)
            && CountNodes(g) == CountNodes(root) + GrowNodes(r) && LeafCount(g) == LeafCount(root) + r.leaves
  {
    InsertRecEffect(root, key, order, CalcHeight(root), None, None);
    var r := InsertRec(root, key, order);
    if r.Split? {
      var g := Grow(r);
      KeysOfInternal(g);
      TallyTwo(r.left, r.right);
    }
  }

  /** A key already stored is only given one more value: no node is split or added, and the
   *  stored keys stay as they were. */
  lemma InsertPresent(n: Node, key: int, order: int, h: nat, lo: Option<int>, hi: Option<int>)
    requires order >= 3 && Shaped(n) && Balanced(n, h) && ChildrenPopulated(n) && ValidateNode(n, lo, hi)
    requires AtLeast(key, lo) && Below(key, hi) && key in Keys(n)
    ensures InsertRec(n, key, order).Fit? && InsertRec(n, key, order).nodes == 0 && InsertRec(n, key, order).leaves == 0
    ensures Keys(InsertRec(n, key, order).node) == Keys(n)
  {
    InsertPresentFits(n, key, order, lo, hi);
    InsertRecEffect(n, key, order, h, lo, hi);
    ValidKeys(n, lo, hi);
    InsertPositionFinds(Keys(n), key);
  }

  lemma {:induction false} InsertPresentFits(n: Node, key: int, order: int, lo: Option<int>, hi: Option<int>)
    requires Shaped(n) && ValidateNode(n, lo, hi) && key in Keys(n)
    ensures InsertRec(n, key, order).Fit? && InsertRec(n, key, order).nodes == 0 && InsertRec(n, key, order).leaves == 0
    decreases n
  {
    match n
    case Leaf(ks, vs) =>
      KeysOfLeaf(n);
      AdjacentAscendingIsAscending(ks);
      InsertPositionFinds(ks, key);
      assert InsertRec(n, key, order) == Fit(Leaf(ks, vs[InsertPosition(ks, key) := vs[InsertPosition(ks, key)] + [key]]), 0, 0);
    case Internal(ks, cs) =>
      var c := ChildIndex(ks, key);
      PresentInChild(n, key, lo, hi);
      InsertPresentFits(cs[c], key, order, LowerOf(lo, ks, c), UpperOf(hi, ks, c));
  }

  /** A stored key is stored in the child it routes to. */
  lemma PresentInChild(n: Node, key: int, lo: Option<int>, hi: Option<int>)
    requires n.Internal? && ValidateNode(n, lo, hi) && key in Keys(n)
    ensures var c := ChildIndex(n.keys, key);
            c < |n.children| && key in Keys(n.children[c])
            && ValidateNode(n.children[c], LowerOf(lo, n.keys, c), UpperOf(hi, n.keys, c))
  {
    var ks, cs := n.keys, n.children;
    var c := ChildIndex(ks, key);
    Route(n, lo, hi, key, c);
    ContentsAround(n, c);
    var a, b := KeysOf(cs[..c]), KeysOf(cs[c + 1..]);
    assert key !in a && key !in b;
  }
}
