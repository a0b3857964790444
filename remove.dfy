/** remove, removeRecursive, handleLeafUnderflow and handleInternalUnderflow of lib/bplus-tree.ts.
 *
 *  The handlers are written as the source writes them: pop/unshift and shift/push between a node
 *  and a sibling, or a concatenation of the two, with the parent's separators and child list
 *  updated in place. Each is then shown to be a regrouping of the two siblings (join them, cut
 *  the result again, or keep the join), which carries validity, contents and counts over from
 *  the lemmas of BPlusRegroup.
 */
module BPlusRemove {
  import opened BPlusNodes
  import opened BPlusRegroup
  import opened BPlusInsert

  /** How an underflowing child was resolved, and the parent afterwards. */
  datatype Handled =
    | BorrowedLeft(parent: Node)
    | BorrowedRight(parent: Node)
    | MergedLeft(parent: Node)
    | MergedRight(parent: Node)

  /** Child c of p has a sibling, and all of p's children are of one kind. */
  ghost predicate Siblings(p: Node, c: nat, leaf: bool)
  {
    p.Internal? && Shaped(p) && c < |p.children| && |p.children| >= 2 && Uniform(p, leaf)
  }

  /** All children of p are leaves, or all are internal. */
  ghost predicate Uniform(p: Node, leaf: bool)
    requires p.Internal?
  {
    forall i :: 0 <= i < |p.children| ==> p.children[i].Leaf? == leaf
  }

  /** handleLeafUnderflow: borrow the left sibling's last entry, else the right sibling's first
   *  entry, when that sibling has more than minKeys keys, resetting the separator to the first key
   *  of the right-hand leaf; otherwise merge into the left sibling, or absorb the right sibling,
   *  and drop the separator between them. */
  function HandleLeafUnderflow(p: Node, c: nat, minKeys: int): (h: Handled)
    requires Siblings(p, c, true) && minKeys >= 1
    ensures h.BorrowedLeft? || h.MergedLeft? ==> c > 0
    ensures h.BorrowedRight? || h.MergedRight? ==> c + 1 < |p.children|
    ensures h.parent.Internal? && Shaped(h.parent) && Uniform(h.parent, true)
    ensures |h.parent.keys| == |p.keys| - (if h.MergedLeft? || h.MergedRight? then 1 else 0)
  {
    var cs := p.children;
    if c > 0 && |cs[c - 1].keys| > minKeys then BorrowedLeft(LeafBorrowLeft(p, c))
    else if c < |cs| - 1 && |cs[c + 1].keys| > minKeys then BorrowedRight(LeafBorrowRight(p, c))
    else if c > 0 then MergedLeft(LeafMergeLeft(p, c))
    else MergedRight(LeafMergeRight(p, c))
  }

  /** The left sibling's last entry moves to the front of leaf c; the separator becomes its key. */
  function LeafBorrowLeft(p: Node, c: nat): (q: Node)
    requires Siblings(p, c, true) && c > 0 && |p.children[c - 1].keys| >= 1
    ensures q.Internal? && Shaped(q) && Uniform(q, true) && |q.keys| == |p.keys|
  {
    var ks, cs := p.keys, p.children;
    var x, l := cs[c], cs[c - 1];
    assert Shaped(x) && Shaped(l);
    var last := |l.keys| - 1;
    var x2 := Leaf([l.keys[last]] + x.keys, [l.values[last]] + x.values);
    var l2 := Leaf(l.keys[..last], l.values[..last]);
    Internal(ks[c - 1 := x2.keys[0]], cs[c - 1 := l2][c := x2])
  }

  /** The right sibling's first entry moves to the end of leaf c; the separator becomes the
   *  sibling's new first key. */
  function LeafBorrowRight(p: Node, c: nat): (q: Node)
    requires Siblings(p, c, true) && c + 1 < |p.children| && |p.children[c + 1].keys| >= 2
    ensures q.Internal? && Shaped(q) && Uniform(q, true) && |q.keys| == |p.keys|
  {
    var ks, cs := p.keys, p.children;
    var x, r := cs[c], cs[c + 1];
    assert Shaped(x) && Shaped(r);
    var x2 := Leaf(x.keys + [r.keys[0]], x.values + [r.values[0]]);
    var r2 := Leaf(r.keys[1..], r.values[1..]);
    Internal(ks[c := r2.keys[0]], cs[c := x2][c + 1 := r2])
  }

  /** Leaf c is appended to its left sibling and dropped with the separator between them. */
  function LeafMergeLeft(p: Node, c: nat): (q: Node)
    requires Siblings(p, c, true) && c > 0
    ensures q.Internal? && Shaped(q) && Uniform(q, true) && |q.keys| == |p.keys| - 1
  {
    var ks, cs := p.keys, p.children;
    var x, l := cs[c], cs[c - 1];
    assert Shaped(x) && Shaped(l);
    var l2 := Leaf(l.keys + x.keys, l.values + x.values);
    var cs2 := cs[..c - 1] + [l2] + cs[c + 1..];
    assert forall i :: 0 <= i < |cs2| ==> cs2[i] == l2 || cs2[i] in cs;
    Internal(ks[..c - 1] + ks[c..], cs2)
  }

  /** The right sibling is appended to leaf c and dropped with the separator between them. */
  function LeafMergeRight(p: Node, c: nat): (q: Node)
    requires Siblings(p, c, true) && c + 1 < |p.children|
    ensures q.Internal? && Shaped(q) && Uniform(q, true) && |q.keys| == |p.keys| - 1
  {
    var ks, cs := p.keys, p.children;
    var x, r := cs[c], cs[c + 1];
    assert Shaped(x) && Shaped(r);
    var x2 := Leaf(x.keys + r.keys, x.values + r.values);
    var cs2 := cs[..c] + [x2] + cs[c + 2..];
    assert forall i :: 0 <= i < |cs2| ==> cs2[i] == x2 || cs2[i] in cs;
    Internal(ks[..c] + ks[c + 1..], cs2)
  }

  /** handleInternalUnderflow: rotate through the parent separator (the separator comes down into
   *  the node, the sibling's edge key goes up, the sibling's edge child moves over) when a sibling
   *  has more than minKeys keys, left first; otherwise merge with the left sibling, or the right
   *  one, pulling the separator down between them. */
  function HandleInternalUnderflow(p: Node, c: nat, minKeys: int): (h: Handled)
    requires Siblings(p, c, false) && minKeys >= 1
    ensures h.BorrowedLeft? || h.MergedLeft? ==> c > 0
    ensures h.BorrowedRight? || h.MergedRight? ==> c + 1 < |p.children|
    ensures h.parent.Internal? && Shaped(h.parent) && Uniform(h.parent, false)
    ensures |h.parent.keys| == |p.keys| - (if h.MergedLeft? || h.MergedRight? then 1 else 0)
  {
    var cs := p.children;
    if c > 0 && |cs[c - 1].keys| > minKeys then BorrowedLeft(InternalBorrowLeft(p, c))
    else if c < |cs| - 1 && |cs[c + 1].keys| > minKeys then BorrowedRight(InternalBorrowRight(p, c))
    else if c > 0 then MergedLeft(InternalMergeLeft(p, c))
    else MergedRight(InternalMergeRight(p, c))
  }

  /** The separator comes down to the front of node c with the left sibling's last child, and
   *  the sibling's last key goes up in its place. */
  function InternalBorrowLeft(p: Node, c: nat): (q: Node)
    requires Siblings(p, c, false) && c > 0 && |p.children[c - 1].keys| >= 1
    ensures q.Internal? && Shaped(q) && Uniform(q, false) && |q.keys| == |p.keys|
  {
    var ks, cs := p.keys, p.children;
    var x, l := cs[c], cs[c - 1];
    assert Shaped(x) && Shaped(l);
    var lk, lc := |l.keys| - 1, |l.children| - 1;
    var x2 := Internal([ks[c - 1]] + x.keys, [l.children[lc]] + x.children);
    var l2 := Internal(l.keys[..lk], l.children[..lc]);
    assert forall i :: 0 <= i < |x2.children| ==> x2.children[i] == l.children[lc] || x2.children[i] in x.children;
    Internal(ks[c - 1 := l.keys[lk]], cs[c - 1 := l2][c := x2])
  }

  /** The separator comes down to the end of node c with the right sibling's first child, and
   *  the sibling's first key goes up in its place. */
  function InternalBorrowRight(p: Node, c: nat): (q: Node)
    requires Siblings(p, c, false) && c + 1 < |p.children| && |p.children[c + 1].keys| >= 1
    ensures q.Internal? && Shaped(q) && Uniform(q, false) && |q.keys| == |p.keys|
  {
    var ks, cs := p.keys, p.children;
    var x, r := cs[c], cs[c + 1];
    assert Shaped(x) && Shaped(r);
    var x2 := Internal(x.keys + [ks[c]], x.children + [r.children[0]]);
    var r2 := Internal(r.keys[1..], r.children[1..]);
    assert forall i :: 0 <= i < |x2.children| ==> x2.children[i] == r.children[0] || x2.children[i] in x.children;
    Internal(ks[c := r.keys[0]], cs[c := x2][c + 1 := r2])
  }

  /** Node c, after the separator, is appended to its left sibling and dropped with that
   *  separator. */
  function InternalMergeLeft(p: Node, c: nat): (q: Node)
    requires Siblings(p, c, false) && c > 0
    ensures q.Internal? && Shaped(q) && Uniform(q, false) && |q.keys| == |p.keys| - 1
  {
    var ks, cs := p.keys, p.children;
    var x, l := cs[c], cs[c - 1];
    assert Shaped(x) && Shaped(l);
    var l2 := Internal(l.keys + [ks[c - 1]] + x.keys, l.children + x.children);
    assert forall i :: 0 <= i < |l2.children| ==> l2.children[i] in l.children || l2.children[i] in x.children;
    var cs2 := cs[..c - 1] + [l2] + cs[c + 1..];
    assert forall i :: 0 <= i < |cs2| ==> cs2[i] == l2 || cs2[i] in cs;
    Internal(ks[..c - 1] + ks[c..], cs2)
  }

  /** The right sibling, after the separator, is appended to node c and dropped with that
   *  separator. */
  function InternalMergeRight(p: Node, c: nat): (q: Node)
    requires Siblings(p, c, false) && c + 1 < |p.children|
    ensures q.Internal? && Shaped(q) && Uniform(q, false) && |q.keys| == |p.keys| - 1
  {
    var ks, cs := p.keys, p.children;
    var x, r := cs[c], cs[c + 1];
    assert Shaped(x) && Shaped(r);
    var x2 := Internal(x.keys + [ks[c]] + r.keys, x.children + r.children);
    assert forall i :: 0 <= i < |x2.children| ==> x2.children[i] in x.children || x2.children[i] in r.children;
    var cs2 := cs[..c] + [x2] + cs[c + 2..];
    assert forall i :: 0 <= i < |cs2| ==> cs2[i] == x2 || cs2[i] in cs;
    Internal(ks[..c] + ks[c + 1..], cs2)
  }

  // ---------------------------------------------------------------------------------------------
  // The handlers as regroupings of two siblings

  /** Children i and i + 1 joined around separator i and cut again at j: a borrow. */
  function Rebalance(p: Node, i: nat, j: nat): (q: Node)
    requires p.Internal? && Shaped(p) && i < |p.keys| && p.children[i].Leaf? == p.children[i + 1].Leaf?
    requires j < |Join(p.children[i], p.keys[i], p.children[i + 1]).keys|
    ensures q.Internal? && |q.keys| == |p.keys| && |q.children| == |p.children|
  {
    var m := Join(p.children[i], p.keys[i], p.children[i + 1]);
    JoinShape(p.children[i], p.keys[i], p.children[i + 1], 0);
    ReplacePair(p, i, LeftPart(m, j), m.keys[j], RightPart(m, j))
  }

  /** Children i and i + 1 joined around separator i: a merge. */
  function MergeAt(p: Node, i: nat): (q: Node)
    requires p.Internal? && Shaped(p) && i < |p.keys| && p.children[i].Leaf? == p.children[i + 1].Leaf?
    ensures q.Internal? && |q.keys| == |p.keys| - 1 && |q.children| == |p.children| - 1
  {
    MergePair(p, i, Join(p.children[i], p.keys[i], p.children[i + 1]))
  }

  lemma CutAfter<T>(a: seq<T>, b: seq<T>, j: nat)
    requires j < |a|
    ensures (a + b)[..j] == a[..j] && (a + b)[j..] == a[j..] + b && (a + b)[j] == a[j]
  {
  }

  lemma CutBefore<T>(a: seq<T>, b: seq<T>, j: nat)
    requires j <= |b|
    ensures (a + b)[..|a| + j] == a + b[..j] && (a + b)[|a| + j..] == b[j..]
  {
  }

  lemma LastOf<T>(a: seq<T>)
    requires |a| > 0
    ensures a[|a| - 1..] == [a[|a| - 1]]
  {
  }

  /** handleLeafUnderflow is a borrow or a merge of the underflowing leaf with a sibling. */
  lemma LeafHandlerRegroups(p: Node, c: nat, minKeys: int)
    requires Siblings(p, c, true) && minKeys >= 1
    ensures var h := HandleLeafUnderflow(p, c, minKeys);
            match h
            case BorrowedLeft(q) => |p.children[c - 1].keys| > minKeys && q == Rebalance(p, c - 1, |p.children[c - 1].keys| - 1)
            case BorrowedRight(q) => |p.children[c + 1].keys| > minKeys && q == Rebalance(p, c, |p.children[c].keys| + 1)
            case MergedLeft(q) => q == MergeAt(p, c - 1)
            case MergedRight(q) => q == MergeAt(p, c)
  {
    match HandleLeafUnderflow(p, c, minKeys)
    case BorrowedLeft(q) => LeafBorrowLeftRegroups(p, c);
    case BorrowedRight(q) => LeafBorrowRightRegroups(p, c);
    case MergedLeft(q) => LeafMergeLeftRegroups(p, c);
    case MergedRight(q) => LeafMergeRightRegroups(p, c);
  }

  lemma LeafBorrowLeftRegroups(p: Node, c: nat)
    requires Siblings(p, c, true) && c > 0 && |p.children[c - 1].keys| >= 1
    ensures LeafBorrowLeft(p, c) == Rebalance(p, c - 1, |p.children[c - 1].keys| - 1)
  {
    var ks, cs := p.keys, p.children;
    var x, l := cs[c], cs[c - 1];
    assert Shaped(x) && Shaped(l);
    var j := |l.keys| - 1;
    var m := Join(l, ks[c - 1], x);
    CutAfter(l.keys, x.keys, j);
    CutAfter(l.values, x.values, j);
    LastOf(l.keys);
    LastOf(l.values);
    assert LeftPart(m, j) == Leaf(l.keys[..j], l.values[..j]);
  }

  lemma LeafBorrowRightRegroups(p: Node, c: nat)
    requires Siblings(p, c, true) && c + 1 < |p.children| && |p.children[c + 1].keys| >= 2
    ensures LeafBorrowRight(p, c) == Rebalance(p, c, |p.children[c].keys| + 1)
  {
    var ks, cs := p.keys, p.children;
    var x, r := cs[c], cs[c + 1];
    assert Shaped(x) && Shaped(r);
    var m := Join(x, ks[c], r);
    CutBefore(x.keys, r.keys, 1);
    CutBefore(x.values, r.values, 1);
    assert r.keys[..1] == [r.keys[0]] && r.values[..1] == [r.values[0]];
  }

  lemma LeafMergeLeftRegroups(p: Node, c: nat)
    requires Siblings(p, c, true) && c > 0
    ensures LeafMergeLeft(p, c) == MergeAt(p, c - 1)
  {
    assert c - 1 + 1 == c;
  }

  lemma LeafMergeRightRegroups(p: Node, c: nat)
    requires Siblings(p, c, true) && c + 1 < |p.children|
    ensures LeafMergeRight(p, c) == MergeAt(p, c)
  {
  }

  /** handleInternalUnderflow is a borrow or a merge of the underflowing node with a sibling. */
  lemma InternalHandlerRegroups(p: Node, c: nat, minKeys: int)
    requires Siblings(p, c, false) && minKeys >= 1
    ensures var h := HandleInternalUnderflow(p, c, minKeys);
            match h
            case BorrowedLeft(q) => |p.children[c - 1].keys| > minKeys && q == Rebalance(p, c - 1, |p.children[c - 1].keys| - 1)
            case BorrowedRight(q) => |p.children[c + 1].keys| > minKeys && q == Rebalance(p, c, |p.children[c].keys| + 1)
            case MergedLeft(q) => q == MergeAt(p, c - 1)
            case MergedRight(q) => q == MergeAt(p, c)
  {
    match HandleInternalUnderflow(p, c, minKeys)
    case BorrowedLeft(q) => InternalBorrowLeftRegroups(p, c);
    case BorrowedRight(q) => InternalBorrowRightRegroups(p, c);
    case MergedLeft(q) => InternalMergeLeftRegroups(p, c);
    case MergedRight(q) => InternalMergeRightRegroups(p, c);
  }

  lemma InternalBorrowLeftRegroups(p: Node, c: nat)
    requires Siblings(p, c, false) && c > 0 && |p.children[c - 1].keys| >= 1
    ensures InternalBorrowLeft(p, c) == Rebalance(p, c - 1, |p.children[c - 1].keys| - 1)
  {
    var ks, cs := p.keys, p.children;
    var x, l := cs[c], cs[c - 1];
    assert Shaped(x) && Shaped(l);
    var j := |l.keys| - 1;
    var m := Join(l, ks[c - 1], x);
    assert m.keys == l.keys + ([ks[c - 1]] + x.keys);
    CutAfter(l.keys, [ks[c - 1]] + x.keys, j);
    CutAfter(l.children, x.children, j + 1);
    LastOf(l.keys);
    LastOf(l.children);
  }

  lemma InternalBorrowRightRegroups(p: Node, c: nat)
    requires Siblings(p, c, false) && c + 1 < |p.children| && |p.children[c + 1].keys| >= 1
    ensures InternalBorrowRight(p, c) == Rebalance(p, c, |p.children[c].keys| + 1)
  {
    var ks, cs := p.keys, p.children;
    var x, r := cs[c], cs[c + 1];
    assert Shaped(x) && Shaped(r);
    var m := Join(x, ks[c], r);
    assert m.keys == (x.keys + [ks[c]]) + r.keys;
    CutBefore(x.keys + [ks[c]], r.keys, 0);
    CutBefore(x.keys + [ks[c]], r.keys, 1);
    CutBefore(x.children, r.children, 1);
    assert r.children[..1] == [r.children[0]];
  }

  lemma InternalMergeLeftRegroups(p: Node, c: nat)
    requires Siblings(p, c, false) && c > 0
    ensures InternalMergeLeft(p, c) == MergeAt(p, c - 1)
  {
    assert c - 1 + 1 == c;
  }

  lemma InternalMergeRightRegroups(p: Node, c: nat)
    requires Siblings(p, c, false) && c + 1 < |p.children|
    ensures InternalMergeRight(p, c) == MergeAt(p, c)
  {
  }

  // ---------------------------------------------------------------------------------------------
  // Validity and occupancy of a regrouped parent

  /** The children of p are shaped, balanced at height h - 1 and have populated children; all but
   *  child c (the one that lost a key) are populated themselves. */
  ghost predicate SoundBut(p: Node, c: nat, h: nat)
  {
    p.Internal? && |p.children| == |p.keys| + 1 && h >= 2
    && forall k :: 0 <= k < |p.children| ==>
         Shaped(p.children[k]) && Balanced(p.children[k], h - 1) && ChildrenPopulated(p.children[k])
         && (k != c ==> Populated(p.children[k]))
  }

  lemma KindsAgree(a: Node, b: Node, h: nat)
    requires Balanced(a, h) && Balanced(b, h)
    ensures a.Leaf? == b.Leaf?
  {
  }

  /** Two neighbouring children joined around their separator are valid between the bounds
   *  around the pair. */
  lemma JoinSiblingsValid(p: Node, i: nat, lo: Option<int>, hi: Option<int>)
    requires p.Internal? && Shaped(p) && ValidateNode(p, lo, hi) && i < |p.keys|
    requires p.children[i].Leaf? == p.children[i + 1].Leaf? && ChildrenPopulated(p.children[i + 1])
    ensures ValidateNode(Join(p.children[i], p.keys[i], p.children[i + 1]), LowerOf(lo, p.keys, i), UpperOf(hi, p.keys, i + 1))
  {
    var ks, cs := p.keys, p.children;
    var a, sep, b := cs[i], ks[i], cs[i + 1];
    assert Shaped(a) && Shaped(b);
    assert ValidateNode(a, LowerOf(lo, ks, i), Some(sep));
    assert ValidateNode(b, Some(sep), UpperOf(hi, ks, i + 1));
    if i > 0 {
      assert ks[i - 1] < ks[i];
    }
    if i + 1 < |ks| {
      assert ks[i] < ks[i + 1];
    }
    if a.Internal? && |b.keys| > 0 {
      assert ValidateNode(b.children[0], Some(sep), Some(b.keys[0]));
      PopulatedGap(b.children[0], Some(sep), Some(b.keys[0]));
    }
    JoinValid(a, sep, b, LowerOf(lo, ks, i), UpperOf(hi, ks, i + 1));
  }

  /** A run whose child c is replaced by sound nodes in place of the pair (i, i + 1) is sound. */
  lemma PairRun(p: Node, c: nat, h: nat, i: nat, a: Node, b: Node)
    requires SoundBut(p, c, h) && i + 1 < |p.children| && (c == i || c == i + 1)
    requires Shaped(a) && Balanced(a, h - 1) && Populated(a)
    requires Shaped(b) && Balanced(b, h - 1) && Populated(b)
    ensures SoundRun(p.children[i := a][i + 1 := b], h - 1)
  {
  }

  lemma MergedRun(p: Node, c: nat, h: nat, i: nat, m: Node)
    requires SoundBut(p, c, h) && i + 1 < |p.children| && (c == i || c == i + 1)
    requires Shaped(m) && Balanced(m, h - 1) && Populated(m)
    ensures SoundRun(p.children[..i] + [m] + p.children[i + 2..], h - 1)
  {
    var cs := p.children;
    var run := cs[..i] + [m] + cs[i + 2..];
    forall k | 0 <= k < |run|
      ensures Shaped(run[k]) && Balanced(run[k], h - 1) && Populated(run[k])
    {
      if k > i {
        assert run[k] == cs[k + 1];
      }
    }
  }

  /** A borrow keeps the parent valid and balanced and leaves both siblings populated. */
  lemma RebalanceSound(p: Node, c: nat, i: nat, j: nat, lo: Option<int>, hi: Option<int>, h: nat)
    requires SoundBut(p, c, h) && i < |p.keys| && (c == i || c == i + 1) && ValidateNode(p, lo, hi)
    requires 1 <= j
    requires j + (if p.children[i].Leaf? then 0 else 1) < |Join(p.children[i], p.keys[i], p.children[i + 1]).keys|
    ensures p.children[i].Leaf? == p.children[i + 1].Leaf?
    ensures var q := Rebalance(p, i, j);
            Shaped(q) && Balanced(q, h) && ChildrenPopulated(q) && ValidateNode(q, lo, hi)
  {
    var ks, cs := p.keys, p.children;
    KindsAgree(cs[i], cs[i + 1], h - 1);
    var lo1, hi1 := LowerOf(lo, ks, i), UpperOf(hi, ks, i + 1);
    var m := Join(cs[i], ks[i], cs[i + 1]);
    JoinShape(cs[i], ks[i], cs[i + 1], h - 1);
    JoinSiblingsValid(p, i, lo, hi);
    var l, r := LeftPart(m, j), RightPart(m, j);
    SplitShape(m, j, h - 1);
    SplitValid(m, j, lo1, hi1);
    SplitSeparator(m, j, lo1, hi1);
    ReplacePairValid(p, i, l, m.keys[j], r, lo, hi);
    PairRun(p, c, h, i, l, r);
    var q := Rebalance(p, i, j);
    SoundParent(q.keys, q.children, h - 1);
  }

  /** A merge keeps the parent valid and balanced; the merged node is populated. */
  lemma MergeAtSound(p: Node, c: nat, i: nat, lo: Option<int>, hi: Option<int>, h: nat)
    requires SoundBut(p, c, h) && i < |p.keys| && (c == i || c == i + 1) && ValidateNode(p, lo, hi)
    ensures p.children[i].Leaf? == p.children[i + 1].Leaf?
    ensures var q := MergeAt(p, i);
            Shaped(q) && Balanced(q, h) && ChildrenPopulated(q) && ValidateNode(q, lo, hi)
  {
    var ks, cs := p.keys, p.children;
    KindsAgree(cs[i], cs[i + 1], h - 1);
    var m := Join(cs[i], ks[i], cs[i + 1]);
    JoinShape(cs[i], ks[i], cs[i + 1], h - 1);
    JoinSiblingsValid(p, i, lo, hi);
    MergePairValid(p, i, m, lo, hi);
    MergedRun(p, c, h, i, m);
    var q := MergeAt(p, i);
    SoundParent(q.keys, q.children, h - 1);
  }

  // ---------------------------------------------------------------------------------------------
  // removeRecursive and remove

  /** removeRecursive's separator update on the way back up, with the guard the source lacks:
   *  when child i is a leaf with keys, the separator before it becomes that leaf's first key. */
  function Resync(x: Node, i: nat): (y: Node)
    requires x.Internal? && |x.children| == |x.keys| + 1
    ensures y.Internal? && y.children == x.children && |y.keys| == |x.keys|
    ensures Shaped(x) ==> Shaped(y)
  {
    if 0 < i < |x.children| && x.children[i].Leaf? && |x.children[i].keys| > 0 then
      Internal(x.keys[i - 1 := x.children[i].keys[0]], x.children)
    else
      x
  }

  /** Where the source's update throws instead: it reads children[i] of a node that has lost it. */
  predicate ResyncThrows(x: Node, i: nat): (b: bool)
    ensures b ==> x.Internal? && (|x.children| == |x.keys| + 1 ==> Resync(x, i) == x)
  {
    x.Internal? && 0 < i && |x.children| <= i
  }

  /** Child c's own separator update, applied to the node that is child c once its underflow has
   *  been handled (the update runs after all handling below and above it; neither reads what the
   *  other writes). */
  function Settle(p: Node, c: nat, i: nat): (q: Node)
    requires p.Internal? && Shaped(p) && c < |p.children|
    ensures q.Internal? && Shaped(q) && q.keys == p.keys && |q.children| == |p.children|
    ensures forall k :: 0 <= k < |p.children| ==> q.children[k].Leaf? == p.children[k].Leaf?
  {
    var x := p.children[c];
    assert Shaped(x);
    if x.Internal? then WithChild(p, c, Resync(x, i)) else p
  }

  /** What removing from a subtree hands back to its parent: the subtree afterwards, whether one of
   *  its children was merged away (so it lost a key), the nodes and leaves freed by merges, and
   *  whether the source would have thrown on the way. */
  datatype Removal =
    | NotFound
    | Removed(node: Node, merged: bool, nodesFreed: nat, leavesFreed: nat, threw: bool)

  /** The structural invariant remove relies on: shaped, balanced, every proper subtree holding a
   *  key, and an internal node holding at least one separator. */
  ghost predicate Healthy(n: Node)
  {
    Shaped(n) && Balanced(n, CalcHeight(n)) && ChildrenPopulated(n) && (n.Internal? ==> |n.keys| >= 1)
  }

  lemma HealthyChild(n: Node, c: nat)
    requires Healthy(n) && n.Internal? && c < |n.children|
    ensures Healthy(n.children[c]) && Populated(n.children[c])
    ensures forall k :: 0 <= k < |n.children| ==> n.children[k].Leaf? == n.children[c].Leaf?
  {
    var cs := n.children;
    BalancedHeight(cs[c], CalcHeight(n) - 1);
    forall k | 0 <= k < |cs|
      ensures cs[k].Leaf? == cs[c].Leaf?
    {
      KindsAgree(cs[k], cs[c], CalcHeight(n) - 1);
    }
  }

  /** The underflow handler removeRecursive and the handlers' cascade call for child c. */
  function Handle(p: Node, c: nat, minKeys: int): (h: Handled)
    requires p.Internal? && c < |p.children| && Siblings(p, c, p.children[c].Leaf?) && minKeys >= 1
    ensures h.parent.Internal? && Shaped(h.parent) && Uniform(h.parent, p.children[c].Leaf?)
    ensures |h.parent.keys| == |p.keys| - (if h.MergedLeft? || h.MergedRight? then 1 else 0)
    ensures h.BorrowedLeft? || h.MergedLeft? ==> c > 0
    ensures h.BorrowedRight? || h.MergedRight? ==> c + 1 < |p.children|
  {
    if p.children[c].Leaf? then HandleLeafUnderflow(p, c, minKeys) else HandleInternalUnderflow(p, c, minKeys)
  }

  /** A removal's node is shaped, of the kind of the node it came from, and one key shorter when
   *  it is a leaf or when one of its children merged away. */
  ghost predicate ShapedRemoval(n: Node, r: Removal)
  {
    r.Removed? ==>
      Shaped(r.node) && r.node.Leaf? == n.Leaf?
      && (r.node.Internal? ==> |r.node.keys| + (if r.merged then 1 else 0) == |n.keys|)
      && (r.node.Leaf? ==> !r.merged && |r.node.keys| + 1 == |n.keys|)
  }

  /** removeRecursive: drop the first occurrence of `key` from its leaf, and repair each internal
   *  node on the way back up. */
  function RemoveRec(n: Node, key: int, order: int): (r: Removal)
    requires order >= 3 && Healthy(n)
    ensures ShapedRemoval(n, r)
    decreases n
  {
    match n
    case Leaf(_, _) => RemoveFromLeaf(n, key)
    case Internal(ks, cs) =>
      var c := ChildIndex(ks, key);
      HealthyChild(n, c);
      Repair(n, c, key, RemoveRec(cs[c], key, order), order)
  }

  /** removeRecursive on a leaf: the first entry holding the key is spliced out of the keys and
   *  the value lists; a missing key is reported as not found. */
  function RemoveFromLeaf(n: Node, key: int): (r: Removal)
    requires n.Leaf? && Shaped(n)
    ensures ShapedRemoval(n, r)
  {
    var ks, vs := n.keys, n.values;
    var i := IndexOf(ks, key);
    if i < 0 then NotFound
    else Removed(Leaf(ks[..i] + ks[i + 1..], vs[..i] + vs[i + 1..]), false, 0, 0, false)
  }

  /** An internal node takes back the removal from child c: a leaf left with fewer than minKeys
   *  keys, or an internal child that lost a key to a merge and is left short, is handled here;
   *  then the child's own separator update runs on the node that is child c now (on the detached
   *  child, when it merged into its left sibling, where it can only throw). */
  function Repair(n: Node, c: nat, key: int, r: Removal, order: int): (q: Removal)
    requires order >= 3 && Healthy(n) && n.Internal? && c < |n.children| && ShapedRemoval(n.children[c], r)
    ensures ShapedRemoval(n, q)
  {
    var cs := n.children;
    var cc := if cs[c].Internal? then ChildIndex(cs[c].keys, key) else 0;
    match r
    case NotFound => NotFound
    case Removed(x, merged, dn, dl, threw) =>
      HealthyChild(n, c);
      var p1 := WithChild(n, c, x);
      var minKeys := MinKeys(order);
      MinKeysPositive(order);
      if |x.keys| < minKeys && (x.Leaf? || merged) then
        var hd := Handle(p1, c, minKeys);
        var m := hd.MergedLeft? || hd.MergedRight?;
        var fl := if m && x.Leaf? then 1 else 0;
        if hd.MergedLeft? then
          Removed(hd.parent, true, dn + 1, dl + fl, threw || ResyncThrows(x, cc))
        else
          Removed(Settle(hd.parent, c, cc), m, dn + (if m then 1 else 0), dl + fl,
                  threw || ResyncThrows(hd.parent.children[c], cc))
      else
        Removed(Settle(p1, c, cc), false, dn, dl, threw || ResyncThrows(x, cc))
  }

  /** What remove leaves: nothing when the key is absent, otherwise the new root, the height it
   *  recorded, the nodes and leaves by which nodeCount and leafCount fall, and whether the source
   *  would have thrown instead. */
  datatype RootRemoval =
    | Absent
    | Done(root: Node, height: nat, nodesFreed: nat, leavesFreed: nat, threw: bool)

  /** remove: removeRecursive from the root. An emptied root leaf stays the root, yet nodeCount and
   *  leafCount are decremented. An internal root whose only child absorbed a merge, and so holds
   *  no separator, is replaced by that child in the handler, before the root's own separator
   *  update (which the source then runs on the detached old root). */
  function RemoveFromRoot(root: Node, key: int, order: int): (r: RootRemoval)
    requires order >= 3 && Healthy(root)
    ensures r.Done? ==> r.height >= 1
    ensures r.Done? && root.Leaf? ==> r.root.Leaf? && r.height == 1 && r.nodesFreed == r.leavesFreed
  {
    match RemoveRec(root, key, order)
    case NotFound => Absent
    case Removed(x, merged, dn, dl, threw) =>
      var cc := ChildIndex(root.keys, key);
      if x.Leaf? then
        var emptied := if |x.keys| == 0 then 1 else 0;
        Finish(x, dn + emptied, dl + emptied, threw)
      else if merged && |x.keys| == 0 then
        Finish(x.children[0], dn + 1, dl, threw || ResyncThrows(x, cc))
      else
        Finish(Resync(x, cc), dn, dl, threw || ResyncThrows(x, cc))
  }

  /** remove's tail: the height is recomputed first, then an internal root with no separator and a
   *  single child is replaced by that child. */
  function Finish(x: Node, nodesFreed: nat, leavesFreed: nat, threw: bool): (r: RootRemoval)
    ensures r.Done? && r.leavesFreed == leavesFreed && r.threw == threw
    ensures r.root == x ==> r.height == CalcHeight(x) && r.nodesFreed == nodesFreed
    ensures r.root != x ==> x.Internal? && |x.children| == 1 && r.root == x.children[0]
                            && r.height == CalcHeight(r.root) + 1 && r.nodesFreed == nodesFreed + 1
  {
    var height := CalcHeight(x);
    if x.Internal? && |x.children| == 1 && |x.keys| == 0 then
      Done(x.children[0], height, nodesFreed + 1, leavesFreed, threw)
    else
      Done(x, height, nodesFreed, leavesFreed, threw)
  }

  /** The outcome of remove as the source is written: it returns whether the key was found, or
   *  throws a TypeError from the separator update. */
  datatype Outcome = Returned(found: bool) | Threw

  function RemoveAsWritten(root: Node, key: int, order: int): (o: Outcome)
    requires order >= 3 && Healthy(root)
  {
    match RemoveFromRoot(root, key, order)
    case Absent => Returned(false)
    case Done(_, _, _, _, threw) => if threw then Threw else Returned(true)
  }

  // ---------------------------------------------------------------------------------------------
  // The separator update that throws

  /** Order 4, the root [15] over the leaves [5] and [15]: removing 15 empties the right leaf,
   *  which cannot borrow from [5] (one key is not above minKeys = 1) and merges into it. The root
   *  is left without separators and is replaced by [5]; the root's update then reads
   *  children[1] of the detached old root, which no longer exists, and the source throws. The
   *  model with the guard removes 15 and leaves the single leaf [5]. */
  lemma RemoveThrowsAfterMergeLeft()
    ensures var root := Internal([15], [Leaf([5], [[5]]), Leaf([15], [[15]])]);
            Healthy(root)
            && RemoveAsWritten(root, 15, 4) == Threw
            && RemoveFromRoot(root, 15, 4) == Done(Leaf([5], [[5]]), 1, 2, 1, true)
  {
    var l, r := Leaf([5], [[5]]), Leaf([15], [[15]]);
    var root := Internal([15], [l, r]);
    MergeLeftExampleRec();
    assert ChildIndex([15], 15) == 1;
    assert ResyncThrows(Internal([], [l]), 1);
  }

  /** The removal below the root on the example: the right leaf empties and merges into the left
   *  one, and the root is left with one child and no separator. Nothing has thrown yet. */
  lemma MergeLeftExampleRec()
    ensures var root := Internal([15], [Leaf([5], [[5]]), Leaf([15], [[15]])]);
            Healthy(root)
            && RemoveRec(root, 15, 4) == Removed(Internal([], [Leaf([5], [[5]])]), true, 1, 1, false)
  {
    var l, r := Leaf([5], [[5]]), Leaf([15], [[15]]);
    var root := Internal([15], [l, r]);
    MergeLeftExampleHealthy();
    assert ChildIndex([15], 15) == 1;
    MergeLeftExampleLeaf();
    var rr := Removed(Leaf([], []), false, 0, 0, false);
    assert RemoveRec(root, 15, 4) == Repair(root, 1, 15, rr, 4);
    MergeLeftExampleRepair();
  }

  lemma MergeLeftExampleHealthy()
    ensures Healthy(Internal([15], [Leaf([5], [[5]]), Leaf([15], [[15]])]))
  {
    var l, r := Leaf([5], [[5]]), Leaf([15], [[15]]);
    assert Populated(l) && Populated(r);
  }

  /** The root takes back the emptied right leaf: the handler merges it into the left one. */
  lemma MergeLeftExampleRepair()
    ensures var root := Internal([15], [Leaf([5], [[5]]), Leaf([15], [[15]])]);
            Healthy(root) && ShapedRemoval(root.children[1], Removed(Leaf([], []), false, 0, 0, false))
            && Repair(root, 1, 15, Removed(Leaf([], []), false, 0, 0, false), 4)
               == Removed(Internal([], [Leaf([5], [[5]])]), true, 1, 1, false)
  {
    var l, r := Leaf([5], [[5]]), Leaf([15], [[15]]);
    var root := Internal([15], [l, r]);
    MergeLeftExampleHealthy();
    var p1 := Internal([15], [l, Leaf([], [])]);
    assert WithChild(root, 1, Leaf([], [])) == p1;
    assert MinKeys(4) == 1;
    MergeLeftExampleHandle();
  }

  /** The right leaf of the example loses its only key. */
  lemma MergeLeftExampleLeaf()
    ensures RemoveRec(Leaf([15], [[15]]), 15, 4) == Removed(Leaf([], []), false, 0, 0, false)
  {
    assert IndexOf([15], 15) == 0;
  }

  /** The emptied leaf cannot borrow from [5] and merges into it. */
  lemma MergeLeftExampleHandle()
    ensures var p1 := Internal([15], [Leaf([5], [[5]]), Leaf([], [])]);
            Siblings(p1, 1, true) && Handle(p1, 1, 1) == MergedLeft(Internal([], [Leaf([5], [[5]])]))
  {
    var l := Leaf([5], [[5]]);
    var p1 := Internal([15], [l, Leaf([], [])]);
    assert l.keys + [] == [5] && l.values + [] == [[5]];
    assert p1.keys[..0] + p1.keys[1..] == [];
    assert p1.children[..0] + [l] + p1.children[2..] == [l];
  }

  // ---------------------------------------------------------------------------------------------
  // Remove keeps the tree valid

  /** Handling an underflowing child leaves the parent valid, balanced and with populated
   *  children, whichever of the four cases applies. */
  lemma HandleSound(p: Node, c: nat, minKeys: int, lo: Option<int>, hi: Option<int>, h: nat)
    requires SoundBut(p, c, h) && c < |p.children| && |p.keys| >= 1 && minKeys >= 1 && ValidateNode(p, lo, hi)
    ensures Siblings(p, c, p.children[c].Leaf?)
    ensures var q := Handle(p, c, minKeys).parent;
            Balanced(q, h) && ChildrenPopulated(q) && ValidateNode(q, lo, hi)
  {
    SoundButSiblings(p, c, h);
    HandleRegroups(p, c, minKeys);
    var hd := Handle(p, c, minKeys);
    var kind := if hd.BorrowedLeft? then 0 else if hd.BorrowedRight? then 1 else if hd.MergedLeft? then 2 else 3;
    RegroupSound(p, c, minKeys, lo, hi, h, kind, hd.parent);
  }

  /** The children of a parent that is sound but for child c are all leaves or all internal. */
  lemma SoundButSiblings(p: Node, c: nat, h: nat)
    requires SoundBut(p, c, h) && c < |p.children| && |p.keys| >= 1
    ensures Siblings(p, c, p.children[c].Leaf?)
  {
    var cs := p.children;
    forall k | 0 <= k < |cs|
      ensures cs[k].Leaf? == cs[c].Leaf?
    {
      KindsAgree(cs[k], cs[c], h - 1);
    }
  }

  /** Each of the four regroupings a handler can make (borrow from the left or the right sibling,
   *  merge into the left sibling or absorb the right one) leaves the parent valid and balanced. */
  lemma RegroupSound(p: Node, c: nat, minKeys: int, lo: Option<int>, hi: Option<int>, h: nat, kind: int, q: Node)
    requires SoundBut(p, c, h) && c < |p.children| && |p.keys| >= 1 && minKeys >= 1 && ValidateNode(p, lo, hi)
    requires Siblings(p, c, p.children[c].Leaf?)
    requires kind == 0 ==> c > 0 && |p.children[c - 1].keys| > minKeys && q == Rebalance(p, c - 1, |p.children[c - 1].keys| - 1)
    requires kind == 1 ==> c + 1 < |p.children| && |p.children[c + 1].keys| > minKeys && q == Rebalance(p, c, |p.children[c].keys| + 1)
    requires kind == 2 ==> c > 0 && q == MergeAt(p, c - 1)
    requires kind != 0 && kind != 1 && kind != 2 ==> c + 1 < |p.children| && q == MergeAt(p, c)
    ensures Balanced(q, h) && ChildrenPopulated(q) && ValidateNode(q, lo, hi)
  {
    if kind == 0 {
      BorrowLeftSound(p, c, minKeys, lo, hi, h);
    } else if kind == 1 {
      BorrowRightSound(p, c, minKeys, lo, hi, h);
    } else if kind == 2 {
      MergeAtSound(p, c, c - 1, lo, hi, h);
    } else {
      MergeAtSound(p, c, c, lo, hi, h);
    }
  }

  /** Borrowing the last entry of the left sibling keeps the parent valid and balanced. */
  lemma BorrowLeftSound(p: Node, c: nat, minKeys: int, lo: Option<int>, hi: Option<int>, h: nat)
    requires SoundBut(p, c, h) && 0 < c < |p.children| && |p.keys| >= 1 && minKeys >= 1 && ValidateNode(p, lo, hi)
    requires Siblings(p, c, p.children[c].Leaf?) && |p.children[c - 1].keys| > minKeys
    ensures var q := Rebalance(p, c - 1, |p.children[c - 1].keys| - 1);
            Balanced(q, h) && ChildrenPopulated(q) && ValidateNode(q, lo, hi)
  {
    var a, b := p.children[c - 1], p.children[c];
    assert a.Leaf? == b.Leaf?;
    assert |Join(a, p.keys[c - 1], b).keys| == |a.keys| + |b.keys| + (if a.Leaf? then 0 else 1);
    RebalanceSound(p, c, c - 1, |a.keys| - 1, lo, hi, h);
  }

  /** Borrowing the first entry of the right sibling keeps the parent valid and balanced. */
  lemma BorrowRightSound(p: Node, c: nat, minKeys: int, lo: Option<int>, hi: Option<int>, h: nat)
    requires SoundBut(p, c, h) && c + 1 < |p.children| && |p.keys| >= 1 && minKeys >= 1 && ValidateNode(p, lo, hi)
    requires Siblings(p, c, p.children[c].Leaf?) && |p.children[c + 1].keys| > minKeys
    ensures var q := Rebalance(p, c, |p.children[c].keys| + 1);
            Balanced(q, h) && ChildrenPopulated(q) && ValidateNode(q, lo, hi)
  {
    var a, b := p.children[c], p.children[c + 1];
    assert a.Leaf? == b.Leaf?;
    assert |Join(a, p.keys[c], b).keys| == |a.keys| + |b.keys| + (if a.Leaf? then 0 else 1);
    RebalanceSound(p, c, c, |a.keys| + 1, lo, hi, h);
  }

  /** Either handler is a borrow or a merge of child c with a sibling. */
  lemma HandleRegroups(p: Node, c: nat, minKeys: int)
    requires p.Internal? && c < |p.children| && Siblings(p, c, p.children[c].Leaf?) && minKeys >= 1
    ensures var h := Handle(p, c, minKeys);
            (h.BorrowedLeft? ==> |p.children[c - 1].keys| > minKeys && h.parent == Rebalance(p, c - 1, |p.children[c - 1].keys| - 1))
            && (h.BorrowedRight? ==> |p.children[c + 1].keys| > minKeys && h.parent == Rebalance(p, c, |p.children[c].keys| + 1))
            && (h.MergedLeft? ==> h.parent == MergeAt(p, c - 1))
            && (h.MergedRight? ==> h.parent == MergeAt(p, c))
  {
    if p.children[c].Leaf? {
      LeafHandlerRegroups(p, c, minKeys);
    } else {
      InternalHandlerRegroups(p, c, minKeys);
    }
  }

  /** The separator update keeps a node valid: the leaf's first key is at least the separator it
   *  replaces and below the next one. */
  lemma ResyncValid(x: Node, i: nat, lo: Option<int>, hi: Option<int>)
    requires x.Internal? && Shaped(x) && ValidateNode(x, lo, hi)
    ensures ValidateNode(Resync(x, i), lo, hi)
  {
    var ks, cs := x.keys, x.children;
    if 0 < i < |cs| && cs[i].Leaf? && |cs[i].keys| > 0 {
      var k2 := cs[i].keys[0];
      var ks2 := ks[i - 1 := k2];
      assert ValidateNode(cs[i], Some(ks[i - 1]), UpperOf(hi, ks, i));
      assert ks[i - 1] <= k2;
      assert Below(k2, UpperOf(hi, ks, i)) by {
        AdjacentAscendingIsAscending(cs[i].keys);
        if |cs[i].keys| > 1 {
          assert k2 < cs[i].keys[|cs[i].keys| - 1];
        }
      }
      assert AdjacentAscending(ks2) by {
        forall j | 0 <= j < |ks2| - 1
          ensures ks2[j] < ks2[j + 1]
        {
          if j == i - 2 {
            assert ks[j] < ks[j + 1];
          } else if j == i - 1 {
            assert UpperOf(hi, ks, i) == Some(ks[i]);
          } else {
            assert ks[j] < ks[j + 1];
          }
        }
      }
      forall j | 0 <= j < |cs|
        ensures ValidateNode(cs[j], LowerOf(lo, ks2, j), UpperOf(hi, ks2, j))
      {
        ResyncChildValid(x, i, lo, hi, j);
      }
      ValidateInternalIntro(ks2, cs, lo, hi);
    }
  }

  lemma ResyncChildValid(x: Node, i: nat, lo: Option<int>, hi: Option<int>, j: nat)
    requires x.Internal? && Shaped(x) && ValidateNode(x, lo, hi)
    requires 0 < i < |x.children| && x.children[i].Leaf? && |x.children[i].keys| > 0
    requires j < |x.children|
    requires x.keys[i - 1] <= x.children[i].keys[0]
    ensures var ks2 := x.keys[i - 1 := x.children[i].keys[0]];
            ValidateNode(x.children[j], LowerOf(lo, ks2, j), UpperOf(hi, ks2, j))
  {
    var ks, cs := x.keys, x.children;
    var k2 := cs[i].keys[0];
    var ks2 := ks[i - 1 := k2];
    assert ValidateNode(cs[j], LowerOf(lo, ks, j), UpperOf(hi, ks, j));
    if j == i - 1 {
      assert UpperOf(hi, ks2, j) == Some(k2) && UpperOf(hi, ks, j) == Some(ks[i - 1]);
      ValidateLoosen(cs[j], LowerOf(lo, ks, j), Some(ks[i - 1]), LowerOf(lo, ks2, j), Some(k2));
    } else if j == i {
      assert LowerOf(lo, ks2, j) == Some(k2);
      assert UpperOf(hi, ks2, j) == UpperOf(hi, ks, j);
    } else {
      assert LowerOf(lo, ks2, j) == LowerOf(lo, ks, j);
      assert UpperOf(hi, ks2, j) == UpperOf(hi, ks, j);
    }
  }

  /** Settling child c keeps the parent valid, balanced and with populated children. */
  lemma SettleSound(q: Node, c: nat, i: nat, lo: Option<int>, hi: Option<int>, h: nat)
    requires q.Internal? && Shaped(q) && Balanced(q, h) && ChildrenPopulated(q) && ValidateNode(q, lo, hi)
    requires c < |q.children|
    ensures var s := Settle(q, c, i);
            Balanced(s, h) && ChildrenPopulated(s) && ValidateNode(s, lo, hi)
  {
    var x := q.children[c];
    if x.Internal? {
      var lo2, hi2 := LowerOf(lo, q.keys, c), UpperOf(hi, q.keys, c);
      assert Shaped(x) && ValidateNode(x, lo2, hi2) && Balanced(x, h - 1) && Populated(x);
      var y := Resync(x, i);
      ResyncValid(x, i, lo2, hi2);
      WithChildValid(q, c, y, lo, hi);
      ResyncBalanced(x, i, h - 1);
      WithChildSound(q, c, y, h - 1);
    }
  }

  /** The separator update leaves the children, and so the balance and occupancy, as they were. */
  lemma ResyncBalanced(x: Node, i: nat, h: nat)
    requires x.Internal? && Shaped(x) && Balanced(x, h) && Populated(x)
    ensures var y := Resync(x, i); Shaped(y) && Balanced(y, h) && Populated(y)
  {
  }

  /** A removal whose node is balanced at height h, has populated children and is valid between
   *  the bounds. */
  ghost predicate SoundRemoval(r: Removal, h: nat, lo: Option<int>, hi: Option<int>)
  {
    r.Removed? ==> Balanced(r.node, h) && ChildrenPopulated(r.node) && ValidateNode(r.node, lo, hi)
  }

  /** Removing from a valid leaf leaves a valid leaf. */
  lemma LeafRemoveSound(n: Node, key: int, lo: Option<int>, hi: Option<int>)
    requires n.Leaf? && Shaped(n) && ValidateNode(n, lo, hi)
    ensures SoundRemoval(RemoveFromLeaf(n, key), 1, lo, hi)
  {
    var i := IndexOf(n.keys, key);
    if i >= 0 {
      LeafRemovedSound(n, key, i, lo, hi);
    }
  }

  lemma LeafRemovedSound(n: Node, key: int, i: nat, lo: Option<int>, hi: Option<int>)
    requires n.Leaf? && Shaped(n) && ValidateNode(n, lo, hi) && i == IndexOf(n.keys, key)
    ensures SoundRemoval(RemoveFromLeaf(n, key), 1, lo, hi)
  {
    LeafRemovedIs(n, key, i);
    LeafRemoveValid(n, i, lo, hi);
  }

  lemma LeafRemovedIs(n: Node, key: int, i: nat)
    requires n.Leaf? && Shaped(n) && i == IndexOf(n.keys, key)
    ensures RemoveFromLeaf(n, key)
            == Removed(Leaf(n.keys[..i] + n.keys[i + 1..], n.values[..i] + n.values[i + 1..]), false, 0, 0, false)
  {
  }

  /** Dropping one key of a valid leaf leaves it valid. */
  lemma LeafRemoveValid(n: Node, i: nat, lo: Option<int>, hi: Option<int>)
    requires n.Leaf? && Shaped(n) && ValidateNode(n, lo, hi) && i < |n.keys|
    ensures ValidateNode(Leaf(n.keys[..i] + n.keys[i + 1..], n.values[..i] + n.values[i + 1..]), lo, hi)
  {
    var ks := n.keys;
    var rest := ks[..i] + ks[i + 1..];
    AdjacentAscendingIsAscending(ks);
    forall j | 0 <= j < |rest| - 1
      ensures rest[j] < rest[j + 1]
    {
      var a := if j < i then j else j + 1;
      var b := if j + 1 < i then j + 1 else j + 2;
      assert rest[j] == ks[a] && rest[j + 1] == ks[b];
    }
    if |rest| > 0 {
      assert rest[0] == ks[0] || rest[0] == ks[1];
      assert rest[|rest| - 1] == ks[|ks| - 1] || rest[|rest| - 1] == ks[|ks| - 2];
    }
  }

  /** Removing from a healthy, valid subtree leaves it balanced at its height, with populated
   *  children, and valid between the same bounds. */
  lemma {:induction false} RemoveRecSound(n: Node, key: int, order: int, lo: Option<int>, hi: Option<int>)
    requires order >= 3 && Healthy(n) && ValidateNode(n, lo, hi)
    ensures SoundRemoval(RemoveRec(n, key, order), CalcHeight(n), lo, hi)
    decreases n
  {
    match n
    case Leaf(_, _) =>
      LeafRemoveSound(n, key, lo, hi);
    case Internal(ks, cs) =>
      var c := ChildIndex(ks, key);
      Route(n, lo, hi, key, c);
      HealthyChild(n, c);
      BalancedHeight(cs[c], CalcHeight(n) - 1);
      RemoveRecSound(cs[c], key, order, LowerOf(lo, ks, c), UpperOf(hi, ks, c));
      RepairSound(n, c, key, RemoveRec(cs[c], key, order), order, lo, hi);
  }

  /** A node taking back a sound removal from child c is itself a sound removal. */
  lemma RepairSound(n: Node, c: nat, key: int, r: Removal, order: int, lo: Option<int>, hi: Option<int>)
    requires order >= 3 && Healthy(n) && n.Internal? && c < |n.children| && ShapedRemoval(n.children[c], r)
    requires ValidateNode(n, lo, hi)
    requires SoundRemoval(r, CalcHeight(n) - 1, LowerOf(lo, n.keys, c), UpperOf(hi, n.keys, c))
    ensures SoundRemoval(Repair(n, c, key, r, order), CalcHeight(n), lo, hi)
  {
    if r.Removed? {
      var cs := n.children;
      var x := r.node;
      var cc := if cs[c].Internal? then ChildIndex(cs[c].keys, key) else 0;
      var minKeys := MinKeys(order);
      MinKeysPositive(order);
      if |x.keys| < minKeys && (x.Leaf? || r.merged) {
        RepairUnderflowSound(n, c, x, minKeys, lo, hi);
        var hd := Handle(WithChild(n, c, x), c, minKeys);
        if !hd.MergedLeft? {
          SettleSound(hd.parent, c, cc, lo, hi, CalcHeight(n));
        }
      } else {
        RepairFitSound(n, c, x, cc, lo, hi);
      }
    }
  }

  /** A child that is still populated after the removal goes back in place, and the separator
   *  update keeps the parent valid. */
  lemma RepairFitSound(n: Node, c: nat, x: Node, cc: nat, lo: Option<int>, hi: Option<int>)
    requires Healthy(n) && n.Internal? && c < |n.children| && ValidateNode(n, lo, hi)
    requires Shaped(x) && x.Leaf? == n.children[c].Leaf? && Populated(x)
    requires Balanced(x, CalcHeight(n) - 1) && ChildrenPopulated(x)
    requires ValidateNode(x, LowerOf(lo, n.keys, c), UpperOf(hi, n.keys, c))
    ensures var s := Settle(WithChild(n, c, x), c, cc);
            Balanced(s, CalcHeight(n)) && ChildrenPopulated(s) && ValidateNode(s, lo, hi)
  {
    var h := CalcHeight(n);
    HealthyChild(n, c);
    WithChildSound(n, c, x, h - 1);
    WithChildValid(n, c, x, lo, hi);
    SettleSound(WithChild(n, c, x), c, cc, lo, hi, h);
  }

  /** Putting a child of the right height in place of child c leaves the parent sound but for
   *  that child. */
  lemma WithChildSoundBut(n: Node, c: nat, x: Node, h: nat)
    requires n.Internal? && Shaped(n) && Balanced(n, h + 1) && ChildrenPopulated(n) && c < |n.children|
    requires Shaped(x) && Balanced(x, h) && ChildrenPopulated(x)
    ensures SoundBut(WithChild(n, c, x), c, h + 1)
  {
  }

  /** Putting a populated child of the right height in place of child c keeps the parent shaped,
   *  balanced and with populated children. */
  lemma WithChildSound(n: Node, c: nat, x: Node, h: nat)
    requires n.Internal? && Shaped(n) && Balanced(n, h + 1) && ChildrenPopulated(n) && c < |n.children|
    requires Shaped(x) && Balanced(x, h) && Populated(x)
    ensures var q := WithChild(n, c, x);
            Shaped(q) && Balanced(q, h + 1) && ChildrenPopulated(q)
  {
    var cs := n.children;
    SoundRunOf(n, h);
    SoundRunSplice(cs, c, c + 1, [x], h);
    assert cs[..c] + [x] + cs[c + 1..] == cs[c := x];
    SoundParent(n.keys, cs[c := x], h);
  }

  /** A child left short is handled by a borrow or a merge, and the parent stays valid. */
  lemma RepairUnderflowSound(n: Node, c: nat, x: Node, minKeys: int, lo: Option<int>, hi: Option<int>)
    requires Healthy(n) && n.Internal? && c < |n.children| && ValidateNode(n, lo, hi) && minKeys >= 1
    requires Shaped(x) && x.Leaf? == n.children[c].Leaf?
    requires Balanced(x, CalcHeight(n) - 1) && ChildrenPopulated(x)
    requires ValidateNode(x, LowerOf(lo, n.keys, c), UpperOf(hi, n.keys, c))
    ensures var p1 := WithChild(n, c, x);
            Siblings(p1, c, x.Leaf?)
            && var hd := Handle(p1, c, minKeys);
            Balanced(hd.parent, CalcHeight(n)) && ChildrenPopulated(hd.parent) && ValidateNode(hd.parent, lo, hi)
  {
    var h := CalcHeight(n);
    HealthyChild(n, c);
    var p1 := WithChild(n, c, x);
    WithChildSoundBut(n, c, x, h - 1);
    WithChildValid(n, c, x, lo, hi);
    HandleSound(p1, c, minKeys, lo, hi, h);
  }

  // ---------------------------------------------------------------------------------------------
  // Contents and counts

  /** The keys after removing `key` from ascending keys: without it when present, unchanged
   *  otherwise. */
  function RemovedKeys(ks: seq<int>, key: int): seq<int>
  {
    var p := InsertPosition(ks, key);
    if p < |ks| && ks[p] == key then ks[..p] + ks[p + 1..] else ks
  }

  /** The value lists after removing `key`: the list of that key goes with it. */
  function RemovedValues(ks: seq<int>, vs: seq<seq<int>>, key: int): seq<seq<int>>
    requires |vs| == |ks|
  {
    var p := InsertPosition(ks, key);
    if p < |ks| && ks[p] == key then vs[..p] + vs[p + 1..] else vs
  }

  /** The entries of a sequence with entry p dropped. */
  lemma DropAt<T>(s: seq<T>, p: nat, r: seq<T>)
    requires p < |s| && r == s[..p] + s[p + 1..]
    ensures |r| == |s| - 1
    ensures forall i :: 0 <= i < |r| ==> r[i] == s[if i < p then i else i + 1]
  {
  }

  lemma DropAscending(ks: seq<int>, p: nat)
    requires p < |ks| && Ascending(ks)
    ensures Ascending(ks[..p] + ks[p + 1..])
    ensures forall k :: k in ks[..p] + ks[p + 1..] <==> k in ks && k != ks[p]
  {
    var r := ks[..p] + ks[p + 1..];
    DropAt(ks, p, r);
    DropOrdered(ks, p, r);
    DropMembers(ks, p, r);
  }

  /** Dropping an entry keeps ascending keys ascending. */
  lemma DropOrdered(ks: seq<int>, p: nat, r: seq<int>)
    requires p < |ks| && Ascending(ks) && |r| == |ks| - 1
    requires forall i :: 0 <= i < |r| ==> r[i] == ks[if i < p then i else i + 1]
    ensures Ascending(r)
  {
    forall i, j | 0 <= i < j < |r|
      ensures r[i] < r[j]
    {
      assert r[i] == ks[if i < p then i else i + 1] && r[j] == ks[if j < p then j else j + 1];
    }
  }

  /** Dropping entry p of keys without repeats loses exactly the key at p. */
  lemma DropMembers(ks: seq<int>, p: nat, r: seq<int>)
    requires p < |ks| && Ascending(ks) && |r| == |ks| - 1
    requires forall i :: 0 <= i < |r| ==> r[i] == ks[if i < p then i else i + 1]
    ensures forall k :: k in r <==> k in ks && k != ks[p]
  {
    forall k
      ensures k in r <==> k in ks && k != ks[p]
    {
      if k in r {
        var i :| 0 <= i < |r| && r[i] == k;
        assert ks[if i < p then i else i + 1] == k;
      }
      if k in ks && k != ks[p] {
        var j :| 0 <= j < |ks| && ks[j] == k;
        assert r[if j < p then j else j - 1] == k;
      }
    }
  }

  /** Removing keeps the keys ascending and takes exactly `key` out of them. */
  lemma RemovedKeysSorted(ks: seq<int>, key: int)
    requires Ascending(ks)
    ensures Ascending(RemovedKeys(ks, key))
    ensures forall k :: k in RemovedKeys(ks, key) <==> k in ks && k != key
    ensures |RemovedKeys(ks, key)| == |ks| - (if key in ks then 1 else 0)
  {
    var p := InsertPosition(ks, key);
    InsertPositionFinds(ks, key);
    if p < |ks| && ks[p] == key {
      DropAscending(ks, p);
    }
  }

  /** Removing a stored key and inserting it again gives the keys back; inserting a new key and
   *  removing it again does too. */
  lemma RemoveInsertRoundTrip(ks: seq<int>, vs: seq<seq<int>>, key: int)
    requires Ascending(ks)
    ensures key in ks ==> InsertedKeys(RemovedKeys(ks, key), key) == ks
    ensures key !in ks ==> RemovedKeys(InsertedKeys(ks, key), key) == ks
    ensures key !in ks && |vs| == |ks| ==>
              RemovedValues(InsertedKeys(ks, key), InsertedValues(ks, vs, key), key) == vs
  {
    if key in ks {
      ReinsertRemoved(ks, key);
    } else {
      RemoveInserted(ks, key);
      if |vs| == |ks| {
        RemoveInsertedValues(ks, vs, key);
      }
    }
  }

  /** Removing a key just inserted as new takes its list [key] back out of the value lists. */
  lemma RemoveInsertedValues(ks: seq<int>, vs: seq<seq<int>>, key: int)
    requires Ascending(ks) && key !in ks && |vs| == |ks|
    ensures RemovedValues(InsertedKeys(ks, key), InsertedValues(ks, vs, key), key) == vs
  {
    var p := InsertPosition(ks, key);
    InsertPositionFinds(ks, key);
    var ik := ks[..p] + [key] + ks[p..];
    assert InsertedKeys(ks, key) == ik;
    assert InsertedValues(ks, vs, key) == vs[..p] + [[key]] + vs[p..];
    SpliceOut(ks, p, key);
    SpliceOut(vs, p, [key]);
    InsertPositionUnique(ik, key, p);
  }

  lemma ReinsertRemoved(ks: seq<int>, key: int)
    requires Ascending(ks) && key in ks
    ensures InsertedKeys(RemovedKeys(ks, key), key) == ks
  {
    var p := InsertPosition(ks, key);
    InsertPositionFinds(ks, key);
    var r := ks[..p] + ks[p + 1..];
    assert RemovedKeys(ks, key) == r;
    DroppedPosition(ks, p, r);
    assert InsertedKeys(r, key) == r[..p] + [key] + r[p..];
    Reassemble(ks, p, r);
  }

  /** With entry p dropped from ascending keys, p is still where that key would go, and it is not
   *  there. */
  lemma DroppedPosition(ks: seq<int>, p: nat, r: seq<int>)
    requires Ascending(ks) && p < |ks| && r == ks[..p] + ks[p + 1..]
    ensures InsertPosition(r, ks[p]) == p && (p < |r| ==> r[p] != ks[p])
  {
    DropAt(ks, p, r);
    assert forall j :: 0 <= j < p ==> r[j] < ks[p] by {
      assert forall j :: 0 <= j < p ==> r[j] == ks[j];
    }
    if p < |r| {
      assert r[p] == ks[p + 1] && ks[p] < ks[p + 1];
    }
    InsertPositionUnique(r, ks[p], p);
  }

  /** Putting entry p back between the two halves of the sequence without it gives the sequence. */
  lemma Reassemble<T>(s: seq<T>, p: nat, r: seq<T>)
    requires p < |s| && r == s[..p] + s[p + 1..]
    ensures r[..p] + [s[p]] + r[p..] == s
  {
    assert r[..p] == s[..p];
    assert r[p..] == s[p + 1..];
    assert s == s[..p] + [s[p]] + s[p + 1..];
  }

  lemma RemoveInserted(ks: seq<int>, key: int)
    requires Ascending(ks) && key !in ks
    ensures RemovedKeys(InsertedKeys(ks, key), key) == ks
  {
    var p := InsertPosition(ks, key);
    InsertPositionFinds(ks, key);
    assert InsertedKeys(ks, key) == ks[..p] + [key] + ks[p..];
    RemoveSpliced(ks, p, key);
  }

  /** A key spliced in after smaller keys only is found at its splice point, so removing it
   *  takes out exactly what was spliced in. */
  lemma RemoveSpliced(ks: seq<int>, p: nat, key: int)
    requires p <= |ks| && forall j :: 0 <= j < p ==> ks[j] < key
    ensures RemovedKeys(ks[..p] + [key] + ks[p..], key) == ks
  {
    SpliceOut(ks, p, key);
    InsertPositionUnique(ks[..p] + [key] + ks[p..], key, p);
  }

  /** Taking out what was spliced in at p gives back the original sequence. */
  lemma SpliceOut<T>(s: seq<T>, p: nat, x: T)
    requires p <= |s|
    ensures var r := s[..p] + [x] + s[p..];
            |r| == |s| + 1 && r[p] == x && (forall j :: 0 <= j < p ==> r[j] == s[j])
            && r[..p] + r[p + 1..] == s
  {
    var r := s[..p] + [x] + s[p..];
    assert r[..p] == s[..p] && r[p + 1..] == s[p..];
    assert s == s[..p] + s[p..];
  }

  lemma Regroup4<T>(a: seq<T>, x: seq<T>, y: seq<T>, b: seq<T>)
    ensures (a + x) + (y + b) == a + (x + y) + b
  {
  }

  /** Removing from the middle part of keys is removing from the whole, when the surrounding keys
   *  are all below and all above `key`. */
  lemma RemovedKeysAround(a: seq<int>, k: seq<int>, b: seq<int>, key: int)
    requires AllBelow(a, key) && AllAbove(b, key)
    ensures RemovedKeys(a + k + b, key) == a + RemovedKeys(k, key) + b
  {
    PositionAround(a, k, b, key);
    var q := InsertPosition(k, key);
    if q < |k| && k[q] == key {
      DropAround(a, k, b, q);
      assert RemovedKeys(a + k + b, key) == (a + k + b)[..|a| + q] + (a + k + b)[|a| + q + 1..];
      assert RemovedKeys(k, key) == k[..q] + k[q + 1..];
    }
  }

  lemma RemovedValuesAround(a: seq<int>, k: seq<int>, b: seq<int>, va: seq<seq<int>>, vk: seq<seq<int>>, vb: seq<seq<int>>, key: int)
    requires AllBelow(a, key) && AllAbove(b, key)
    requires |va| == |a| && |vk| == |k| && |vb| == |b|
    ensures RemovedValues(a + k + b, va + vk + vb, key) == va + RemovedValues(k, vk, key) + vb
  {
    PositionAround(a, k, b, key);
    var q := InsertPosition(k, key);
    if q < |k| && k[q] == key {
      DropAround(va, vk, vb, q);
    }
  }

  /** Dropping entry q of the middle part of a + k + b drops entry |a| + q of the whole. */
  lemma DropAround<T>(a: seq<T>, k: seq<T>, b: seq<T>, q: nat)
    requires q < |k|
    ensures (a + k + b)[..|a| + q] + (a + k + b)[|a| + q + 1..] == a + (k[..q] + k[q + 1..]) + b
  {
    SlicesAround(a, k, b, q);
    SlicesAround(a, k, b, q + 1);
    Regroup4(a, k[..q], k[q + 1..], b);
  }

  /** What a removal takes out: nothing when it reports the key absent, which it is; otherwise
   *  the key and its value list, with the node and leaf counts falling by what it reports. */
  ghost predicate RemovalEffect(n: Node, r: Removal, key: int)
    requires |Values(n)| == |Keys(n)|
  {
    match r
    case NotFound => key !in Keys(n)
    case Removed(x, _, dn, dl, _) =>
      key in Keys(n)
      && Keys(x) == RemovedKeys(Keys(n), key) && Values(x) == RemovedValues(Keys(n), Values(n), key)
      && CountNodes(x) + dn == CountNodes(n) && LeafCount(x) + dl == LeafCount(n)
  }

  /** A borrow moves keys between two siblings: contents and counts stay. */
  lemma RebalanceContents(p: Node, i: nat, j: nat)
    requires p.Internal? && Shaped(p) && i < |p.keys| && p.children[i].Leaf? == p.children[i + 1].Leaf?
    requires j < |Join(p.children[i], p.keys[i], p.children[i + 1]).keys|
    ensures SameMeasures(p, Rebalance(p, i, j), 0, 0)
  {
    var a, b := p.children[i], p.children[i + 1];
    var m := Join(a, p.keys[i], b);
    JoinShape(a, p.keys[i], b, 0);
    var l, r := LeftPart(m, j), RightPart(m, j);
    assert Rebalance(p, i, j) == ReplacePair(p, i, l, m.keys[j], r);
    JoinContents(a, p.keys[i], b);
    SplitContents(m, j);
    assert Keys(l) + Keys(r) == Keys(a) + Keys(b);
    assert Values(l) + Values(r) == Values(a) + Values(b);
    ReplacePairContents(p, i, l, m.keys[j], r);
  }

  /** A merge keeps contents and frees one node, a leaf when the siblings are leaves. */
  lemma MergeAtContents(p: Node, i: nat)
    requires p.Internal? && Shaped(p) && i < |p.keys| && p.children[i].Leaf? == p.children[i + 1].Leaf?
    ensures SameMeasures(p, MergeAt(p, i), -1, if p.children[i].Leaf? then -1 else 0)
  {
    var a, b := p.children[i], p.children[i + 1];
    JoinContents(a, p.keys[i], b);
    MergePairContents(p, i, Join(a, p.keys[i], b));
  }

  /** Handling an underflow keeps the parent's contents; a merge frees one node (and one leaf,
   *  between leaves). */
  lemma HandleContents(p: Node, c: nat, minKeys: int)
    requires p.Internal? && c < |p.children| && Siblings(p, c, p.children[c].Leaf?) && minKeys >= 1
    ensures var h := Handle(p, c, minKeys);
            var m := h.MergedLeft? || h.MergedRight?;
            SameMeasures(p, h.parent, if m then -1 else 0, if m && p.children[c].Leaf? then -1 else 0)
  {
    var cs := p.children;
    assert forall k :: 0 <= k < |cs| ==> Shaped(cs[k]);
    HandleRegroups(p, c, minKeys);
    var hd := Handle(p, c, minKeys);
    if hd.BorrowedLeft? {
      RebalanceContents(p, c - 1, |cs[c - 1].keys| - 1);
    } else if hd.BorrowedRight? {
      RebalanceContents(p, c, |cs[c].keys| + 1);
    } else if hd.MergedLeft? {
      MergeAtContents(p, c - 1);
    } else {
      MergeAtContents(p, c);
    }
  }

  /** The separator update touches no leaf and no node. */
  lemma SettleContents(q: Node, c: nat, i: nat)
    requires q.Internal? && Shaped(q) && c < |q.children|
    ensures SameMeasures(q, Settle(q, c, i), 0, 0)
  {
    var x := q.children[c];
    if x.Internal? {
      assert Shaped(x);
      var y := Resync(x, i);
      KeysOfInternal(x);
      KeysOfInternal(y);
      WithChildContents(q, c, y);
      WithChildContents(q, c, x);
      assert q.children[c := x] == q.children;
    }
  }

  lemma LeafRemoveEffect(n: Node, key: int)
    requires n.Leaf? && Shaped(n) && AdjacentAscending(n.keys)
    ensures |Values(n)| == |Keys(n)|
    ensures RemovalEffect(n, RemoveFromLeaf(n, key), key)
  {
    KeysOfLeaf(n);
    var i := IndexOf(n.keys, key);
    if i >= 0 {
      LeafRemovedEffect(n, key, i);
    }
  }
  lemma LeafRemovedEffect(n: Node, key: int, i: nat)
    requires n.Leaf? && Shaped(n) && AdjacentAscending(n.keys) && i == IndexOf(n.keys, key)
    ensures |Values(n)| == |Keys(n)|
    ensures RemovalEffect(n, RemoveFromLeaf(n, key), key)
  {
    var x := Leaf(n.keys[..i] + n.keys[i + 1..], n.values[..i] + n.values[i + 1..]);
    assert RemoveFromLeaf(n, key) == Removed(x, false, 0, 0, false);
    KeysOfLeaf(n);
    KeysOfLeaf(x);
    RemovedAt(n.keys, n.values, key, i);
  }
  lemma RemovedAt(ks: seq<int>, vs: seq<seq<int>>, key: int, i: nat)
    requires AdjacentAscending(ks) && |vs| == |ks| && i < |ks| && ks[i] == key
    ensures RemovedKeys(ks, key) == ks[..i] + ks[i + 1..]
    ensures RemovedValues(ks, vs, key) == vs[..i] + vs[i + 1..]
  {
    AdjacentAscendingIsAscending(ks);
    assert forall j :: 0 <= j < i ==> ks[j] < ks[i];
    InsertPositionUnique(ks, key, i);
  }

  lemma {:induction false} RemoveRecEffect(n: Node, key: int, order: int, lo: Option<int>, hi: Option<int>)
    requires order >= 3 && Healthy(n) && ValidateNode(n, lo, hi)
    ensures |Values(n)| == |Keys(n)|
    ensures RemovalEffect(n, RemoveRec(n, key, order), key)
    decreases n
  {
    ValuesParallel(n);
    match n
    case Leaf(ks, vs) =>
      LeafRemoveEffect(n, key);
    case Internal(ks, cs) =>
      var c := ChildIndex(ks, key);
      Route(n, lo, hi, key, c);
      HealthyChild(n, c);
      RemoveRecEffect(cs[c], key, order, LowerOf(lo, ks, c), UpperOf(hi, ks, c));
      RepairEffect(n, c, key, RemoveRec(cs[c], key, order), order);
  }

  /** A node taking back a removal from the child `key` routes to loses what the child loses. */
  lemma RepairEffect(n: Node, c: nat, key: int, r: Removal, order: int)
    requires order >= 3 && Healthy(n) && n.Internal? && c < |n.children| && ShapedRemoval(n.children[c], r)
    requires AllBelow(KeysOf(n.children[..c]), key) && AllAbove(KeysOf(n.children[c + 1..]), key)
    requires |Values(n.children[c])| == |Keys(n.children[c])| && RemovalEffect(n.children[c], r, key)
    ensures |Values(n)| == |Keys(n)|
    ensures RemovalEffect(n, Repair(n, c, key, r, order), key)
  {
    var cs := n.children;
    ValuesParallel(n);
    match r
    case NotFound =>
      ContentsAround(n, c);
      var a, b := KeysOf(cs[..c]), KeysOf(cs[c + 1..]);
      assert key !in a && key !in b;
    case Removed(x, merged, dn, dl, threw) =>
      WithChildEffect(n, c, key, x, dn, dl);
      HealthyChild(n, c);
      MinKeysPositive(order);
      if |x.keys| < MinKeys(order) && (x.Leaf? || merged) {
        RepairUnderflowEffect(n, c, key, r, order);
      } else {
        RepairFitEffect(n, c, key, r, order);
      }
  }

  /** The removal from a child that is left short, after the handler has run. */
  lemma RepairUnderflowEffect(n: Node, c: nat, key: int, r: Removal, order: int)
    requires order >= 3 && Healthy(n) && n.Internal? && c < |n.children| && ShapedRemoval(n.children[c], r)
    requires r.Removed? && |r.node.keys| < MinKeys(order) && (r.node.Leaf? || r.merged)
    requires |Values(n)| == |Keys(n)| && key in Keys(n)
    requires var p1 := WithChild(n, c, r.node);
             Keys(p1) == RemovedKeys(Keys(n), key) && Values(p1) == RemovedValues(Keys(n), Values(n), key)
             && CountNodes(p1) + r.nodesFreed == CountNodes(n) && LeafCount(p1) + r.leavesFreed == LeafCount(n)
    ensures RemovalEffect(n, Repair(n, c, key, r, order), key)
  {
    var cs := n.children;
    var x := r.node;
    var p1 := WithChild(n, c, x);
    var cc := if cs[c].Internal? then ChildIndex(cs[c].keys, key) else 0;
    var minKeys := MinKeys(order);
    MinKeysPositive(order);
    HealthyChild(n, c);
    HandleContents(p1, c, minKeys);
    var hd := Handle(p1, c, minKeys);
    var m := hd.MergedLeft? || hd.MergedRight?;
    var fl := if m && x.Leaf? then 1 else 0;
    if hd.MergedLeft? {
      EffectCarries(n, p1, hd.parent, key, r.nodesFreed, r.leavesFreed, 1, fl, true, r.threw || ResyncThrows(x, cc));
    } else {
      SettleContents(hd.parent, c, cc);
      EffectCarries(n, p1, Settle(hd.parent, c, cc), key, r.nodesFreed, r.leavesFreed, if m then 1 else 0, fl, m,
                    r.threw || ResyncThrows(hd.parent.children[c], cc));
    }
  }

  /** The removal from a child that stays populated: the child goes back in place and the
   *  separator update runs. */
  lemma RepairFitEffect(n: Node, c: nat, key: int, r: Removal, order: int)
    requires order >= 3 && Healthy(n) && n.Internal? && c < |n.children| && ShapedRemoval(n.children[c], r)
    requires r.Removed? && !(|r.node.keys| < MinKeys(order) && (r.node.Leaf? || r.merged))
    requires |Values(n)| == |Keys(n)| && key in Keys(n)
    requires var p1 := WithChild(n, c, r.node);
             Keys(p1) == RemovedKeys(Keys(n), key) && Values(p1) == RemovedValues(Keys(n), Values(n), key)
             && CountNodes(p1) + r.nodesFreed == CountNodes(n) && LeafCount(p1) + r.leavesFreed == LeafCount(n)
    ensures RemovalEffect(n, Repair(n, c, key, r, order), key)
  {
    var cs := n.children;
    var x := r.node;
    var p1 := WithChild(n, c, x);
    var cc := if cs[c].Internal? then ChildIndex(cs[c].keys, key) else 0;
    SettleContents(p1, c, cc);
    EffectCarries(n, p1, Settle(p1, c, cc), key, r.nodesFreed, r.leavesFreed, 0, 0, false, r.threw || ResyncThrows(x, cc));
  }

  /** A node with the same contents as the parent after the child's removal, and en nodes and el
   *  leaves fewer, is the parent's removal with those counted as freed as well. */
  lemma EffectCarries(n: Node, p1: Node, q: Node, key: int, dn: nat, dl: nat, en: nat, el: nat, merged: bool, threw: bool)
    requires |Values(n)| == |Keys(n)| && key in Keys(n)
    requires Keys(p1) == RemovedKeys(Keys(n), key) && Values(p1) == RemovedValues(Keys(n), Values(n), key)
    requires CountNodes(p1) + dn == CountNodes(n) && LeafCount(p1) + dl == LeafCount(n)
    requires SameMeasures(p1, q, -(en as int), -(el as int))
    ensures RemovalEffect(n, Removed(q, merged, dn + en, dl + el, threw), key)
  {
  }

  /** Putting the child a removal left back in place removes the key from the parent's keys and
   *  value lists, and frees what the child's removal freed. */
  lemma WithChildEffect(n: Node, c: nat, key: int, x: Node, dn: nat, dl: nat)
    requires Healthy(n) && n.Internal? && c < |n.children|
    requires AllBelow(KeysOf(n.children[..c]), key) && AllAbove(KeysOf(n.children[c + 1..]), key)
    requires |Values(n.children[c])| == |Keys(n.children[c])| && RemovalEffect(n.children[c], Removed(x, false, dn, dl, false), key)
    ensures |Values(n)| == |Keys(n)|
    ensures var p1 := WithChild(n, c, x);
            key in Keys(n)
            && Keys(p1) == RemovedKeys(Keys(n), key) && Values(p1) == RemovedValues(Keys(n), Values(n), key)
            && CountNodes(p1) + dn == CountNodes(n) && LeafCount(p1) + dl == LeafCount(n)
  {
    var cs := n.children;
    ValuesParallel(n);
    ContentsAround(n, c);
    ShapedSlices(n, c);
    var a, b := KeysOf(cs[..c]), KeysOf(cs[c + 1..]);
    RemovedKeysAround(a, Keys(cs[c]), b, key);
    RemovedValuesAround(a, Keys(cs[c]), b, ValuesOf(cs[..c]), Values(cs[c]), ValuesOf(cs[c + 1..]), key);
    WithChildContents(n, c, x);
  }

  // ---------------------------------------------------------------------------------------------
  // remove as a whole

  /** remove leaves a healthy, valid tree whose recorded height is its height. Since the height is
   *  recomputed before the final collapse, the height being right shows that collapse never
   *  fires: a separator-less root is always replaced inside the handler. */
  lemma RemoveFromRootSound(root: Node, key: int, order: int)
    requires order >= 3 && Healthy(root) && ValidateNode(root, None, None)
    ensures var r := RemoveFromRoot(root, key, order);
            r.Done? ==> Healthy(r.root) && ValidateNode(r.root, None, None) && r.height == CalcHeight(r.root)
                        && CalcHeight(root) - 1 <= r.height <= CalcHeight(root)
  {
    var h := CalcHeight(root);
    RemoveRecSound(root, key, order, None, None);
    var rr := RemoveRec(root, key, order);
    if rr.Removed? {
      var x := rr.node;
      var cc := ChildIndex(root.keys, key);
      if x.Internal? {
        assert Shaped(x);
        if rr.merged && |x.keys| == 0 {
          var y := x.children[0];
          assert Shaped(y) && Balanced(y, h - 1) && Populated(y);
          BalancedHeight(y, h - 1);
          assert ValidateNode(y, LowerOf(None, x.keys, 0), UpperOf(None, x.keys, 0));
        } else {
          assert |x.keys| >= 1;
          ResyncValid(x, cc, None, None);
          BalancedHeight(Resync(x, cc), h);
        }
      }
    }
  }

  /** remove finds the key exactly when it is stored, and then takes out the key and its value
   *  list. nodeCount and leafCount fall by the nodes and leaves merged away, and by one more each
   *  when the root is a leaf left empty, which stays in the tree all the same. */
  lemma RemoveFromRootEffect(root: Node, key: int, order: int)
    requires order >= 3 && Healthy(root) && ValidateNode(root, None, None)
    ensures |Values(root)| == |Keys(root)|
    ensures var r := RemoveFromRoot(root, key, order);
            (r.Absent? <==> key !in Keys(root))
            && (r.Done? ==>
                  Keys(r.root) == RemovedKeys(Keys(root), key)
                  && Values(r.root) == RemovedValues(Keys(root), Values(root), key)
                  && var emptied := if r.root.Leaf? && |r.root.keys| == 0 then 1 else 0;
                     CountNodes(r.root) + r.nodesFreed == CountNodes(root) + emptied
                     && LeafCount(r.root) + r.leavesFreed == LeafCount(root) + emptied)
  {
    RemoveRecEffect(root, key, order, None, None);
    RemoveRecSound(root, key, order, None, None);
    var rr := RemoveRec(root, key, order);
    if rr.Removed? {
      var x := rr.node;
      var cc := ChildIndex(root.keys, key);
      if x.Leaf? {
        RootLeafEffect(root, key, order, x, rr.merged, rr.nodesFreed, rr.leavesFreed, rr.threw);
      } else if rr.merged && |x.keys| == 0 {
        RootCollapseEffect(root, key, order, x, rr.nodesFreed, rr.leavesFreed, rr.threw);
      } else {
        RootResyncEffect(root, key, order, x, rr.merged, rr.nodesFreed, rr.leavesFreed, rr.threw);
      }
    }
  }

  /** RemoveFromRootEffect when the root is a leaf. */
  lemma RootLeafEffect(root: Node, key: int, order: int, x: Node, merged: bool, dn: nat, dl: nat, threw: bool)
    requires order >= 3 && Healthy(root) && |Values(root)| == |Keys(root)| && x.Leaf?
    requires RemoveRec(root, key, order) == Removed(x, merged, dn, dl, threw)
    requires Keys(x) == RemovedKeys(Keys(root), key) && Values(x) == RemovedValues(Keys(root), Values(root), key)
    requires CountNodes(x) + dn == CountNodes(root) && LeafCount(x) + dl == LeafCount(root)
    ensures var r := RemoveFromRoot(root, key, order);
            r.Done? && Keys(r.root) == RemovedKeys(Keys(root), key)
            && Values(r.root) == RemovedValues(Keys(root), Values(root), key)
            && var emptied := if r.root.Leaf? && |r.root.keys| == 0 then 1 else 0;
               CountNodes(r.root) + r.nodesFreed == CountNodes(root) + emptied
               && LeafCount(r.root) + r.leavesFreed == LeafCount(root) + emptied
  {
    var e := if |x.keys| == 0 then 1 else 0;
    assert RemoveFromRoot(root, key, order) == Finish(x, dn + e, dl + e, threw);
    FinishKeeps(x, dn + e, dl + e, threw);
  }

  /** RemoveFromRootEffect when a merge left the internal root without a separator. */
  lemma RootCollapseEffect(root: Node, key: int, order: int, x: Node, dn: nat, dl: nat, threw: bool)
    requires order >= 3 && Healthy(root) && |Values(root)| == |Keys(root)| && x.Internal? && |x.keys| == 0
    requires RemoveRec(root, key, order) == Removed(x, true, dn, dl, threw)
    requires ValidateNode(x, None, None) && ChildrenPopulated(x)
    requires Keys(x) == RemovedKeys(Keys(root), key) && Values(x) == RemovedValues(Keys(root), Values(root), key)
    requires CountNodes(x) + dn == CountNodes(root) && LeafCount(x) + dl == LeafCount(root)
    ensures var r := RemoveFromRoot(root, key, order);
            r.Done? && Keys(r.root) == RemovedKeys(Keys(root), key)
            && Values(r.root) == RemovedValues(Keys(root), Values(root), key)
            && var emptied := if r.root.Leaf? && |r.root.keys| == 0 then 1 else 0;
               CountNodes(r.root) + r.nodesFreed == CountNodes(root) + emptied
               && LeafCount(r.root) + r.leavesFreed == LeafCount(root) + emptied
  {
    var cc := ChildIndex(root.keys, key);
    var t := threw || ResyncThrows(x, cc);
    assert RemoveFromRoot(root, key, order) == Finish(x.children[0], dn + 1, dl, t);
    CollapseKeeps(x, dn, dl, t);
  }

  /** A root left with one child and no separator hands its contents and counts to that child,
   *  which holds at least one key. */
  lemma CollapseKeeps(x: Node, dn: nat, dl: nat, t: bool)
    requires x.Internal? && |x.keys| == 0 && ValidateNode(x, None, None) && ChildrenPopulated(x)
    ensures |x.children| >= 1
    ensures var r := Finish(x.children[0], dn + 1, dl, t);
            Keys(r.root) == Keys(x) && Values(r.root) == Values(x)
            && CountNodes(r.root) + r.nodesFreed == CountNodes(x) + dn
            && LeafCount(r.root) + r.leavesFreed == LeafCount(x) + dl
            && |r.root.keys| >= 1
  {
    var y := x.children[0];
    assert x.children == [y];
    KeysOfInternal(x);
    TallyOne(y);
    assert Populated(y);
    FinishKeeps(y, dn + 1, dl, t);
  }

  /** RemoveFromRootEffect when the internal root keeps a separator and gets its keys resynced. */
  lemma RootResyncEffect(root: Node, key: int, order: int, x: Node, merged: bool, dn: nat, dl: nat, threw: bool)
    requires order >= 3 && Healthy(root) && |Values(root)| == |Keys(root)| && x.Internal?
    requires !(merged && |x.keys| == 0)
    requires RemoveRec(root, key, order) == Removed(x, merged, dn, dl, threw)
    requires ValidateNode(x, None, None) && ChildrenPopulated(x)
    requires Keys(x) == RemovedKeys(Keys(root), key) && Values(x) == RemovedValues(Keys(root), Values(root), key)
    requires CountNodes(x) + dn == CountNodes(root) && LeafCount(x) + dl == LeafCount(root)
    ensures var r := RemoveFromRoot(root, key, order);
            r.Done? && r.root.Internal? && Keys(r.root) == RemovedKeys(Keys(root), key)
            && Values(r.root) == RemovedValues(Keys(root), Values(root), key)
            && CountNodes(r.root) + r.nodesFreed == CountNodes(root)
            && LeafCount(r.root) + r.leavesFreed == LeafCount(root)
  {
    var cc := ChildIndex(root.keys, key);
    assert RemoveFromRoot(root, key, order) == Finish(Resync(x, cc), dn, dl, threw || ResyncThrows(x, cc));
    assert Shaped(x) && |x.keys| >= 1;
    KeysOfInternal(x);
    KeysOfInternal(Resync(x, cc));
    FinishKeeps(Resync(x, cc), dn, dl, threw || ResyncThrows(x, cc));
  }

  /** Collapsing a root with one child and no separator keeps the keys, the value lists and
   *  the counts net of what it frees. */
  lemma FinishKeeps(x: Node, nodesFreed: nat, leavesFreed: nat, threw: bool)
    ensures var r := Finish(x, nodesFreed, leavesFreed, threw);
            Keys(r.root) == Keys(x) && Values(r.root) == Values(x)
            && CountNodes(r.root) + r.nodesFreed == CountNodes(x) + nodesFreed
            && LeafCount(r.root) + r.leavesFreed == LeafCount(x) + leavesFreed
            && (x.Leaf? ==> r.root == x)
  {
    if x.Internal? && |x.children| == 1 && |x.keys| == 0 {
      var y := x.children[0];
      assert x.children == [y];
      KeysOfInternal(x);
      TallyOne(y);
    }
  }
}
