/** The regrouping every split, borrow and merge of lib/bplus-tree.ts performs.
 *
 *  Two adjacent siblings with the separator between them form one run of keys (and, for internal
 *  nodes, of children): `Join`. Cutting such a run at key j gives a left node, the separator j and
 *  a right node: `LeftPart`, `RightPart`. A leaf split cuts a leaf; an internal split cuts an
 *  internal node; a borrow joins two siblings and cuts them one key further left or right; a
 *  merge joins them for good. The lemmas here say what joining and cutting keep: shape, balance,
 *  the stored keys and value lists, the node counts and the separator bounds validateNode checks.
 *  The parent-level functions splice the regrouped children back into their parent.
 */
module BPlusRegroup {
  import opened BPlusNodes

  /** Strictly above a lower bound: a separator placed after a child must exceed the child's own
   *  lower bound for the parent's keys to stay strictly ascending. */
  predicate Above(k: int, lo: Option<int>)
  {
    lo.None? || lo.value < k
  }

  /** The keys (and children) of two adjacent siblings as one run: leaves are concatenated, internal
   *  nodes are joined around the separator that stood between them in the parent. */
  function Join(a: Node, sep: int, b: Node): (m: Node)
    requires a.Leaf? == b.Leaf?
    ensures m.Leaf? == a.Leaf?
    ensures |m.keys| == |a.keys| + |b.keys| + (if a.Leaf? then 0 else 1)
  {
    if a.Leaf? then Leaf(a.keys + b.keys, a.values + b.values)
    else Internal(a.keys + [sep] + b.keys, a.children + b.children)
  }

  /** What stays left of a cut at key j: for a leaf the first j entries, for an internal node the
   *  first j keys and the j + 1 children around them. */
  function LeftPart(m: Node, j: nat): (l: Node)
    requires Shaped(m) && j < |m.keys|
    ensures l.Leaf? == m.Leaf? && |l.keys| == j
  {
    if m.Leaf? then Leaf(m.keys[..j], m.values[..j])
    else Internal(m.keys[..j], m.children[..j + 1])
  }

  /** What goes right of a cut at key j: a leaf keeps key j (it is copied up as the separator), an
   *  internal node gives key j up to the parent. */
  function RightPart(m: Node, j: nat): (r: Node)
    requires Shaped(m) && j < |m.keys|
    ensures r.Leaf? == m.Leaf?
    ensures |r.keys| == |m.keys| - j - (if m.Leaf? then 0 else 1)
  {
    if m.Leaf? then Leaf(m.keys[j..], m.values[j..])
    else Internal(m.keys[j + 1..], m.children[j + 1..])
  }

  // ---------------------------------------------------------------------------------------------
  // Shape, balance and occupancy

  lemma JoinShape(a: Node, sep: int, b: Node, h: nat)
    requires a.Leaf? == b.Leaf? && Shaped(a) && Shaped(b)
    ensures Shaped(Join(a, sep, b))
    ensures Balanced(a, h) && Balanced(b, h) ==> Balanced(Join(a, sep, b), h)
    ensures ChildrenPopulated(a) && ChildrenPopulated(b) ==> ChildrenPopulated(Join(a, sep, b))
  {
    if a.Internal? {
      var cs := a.children + b.children;
      assert forall i :: 0 <= i < |cs| ==> cs[i] in a.children || cs[i] in b.children;
    }
  }

  lemma SplitShape(m: Node, j: nat, h: nat)
    requires Shaped(m) && j < |m.keys|
    ensures Shaped(LeftPart(m, j)) && Shaped(RightPart(m, j))
    ensures Balanced(m, h) ==> Balanced(LeftPart(m, j), h) && Balanced(RightPart(m, j), h)
    ensures ChildrenPopulated(m) ==> ChildrenPopulated(LeftPart(m, j)) && ChildrenPopulated(RightPart(m, j))
  {
    if m.Internal? {
      var cs := m.children;
      assert forall i :: 0 <= i < |cs[..j + 1]| ==> cs[..j + 1][i] == cs[i];
      var tail := cs[j + 1..];
      assert forall i :: 0 <= i < |tail| ==> tail[i] == cs[j + 1 + i];
    }
  }

  // ---------------------------------------------------------------------------------------------
  // Contents and counts

  /** The number of leaves below a node, which leafCount tracks. */
  ghost function LeafCount(n: Node): nat
  {
    |Leaves(n)|
  }

  lemma KeysOfLeaf(x: Node)
    requires x.Leaf?
    ensures Keys(x) == x.keys && Values(x) == x.values
    ensures CountNodes(x) == 1 && LeafCount(x) == 1
  {
    ChainOfLeaf(x);
  }

  lemma KeysOfInternal(x: Node)
    requires x.Internal?
    ensures Keys(x) == KeysOf(x.children) && Values(x) == ValuesOf(x.children)
    ensures CountNodes(x) == 1 + CountNodesOf(x.children) && LeafCount(x) == |LeavesOf(x.children)|
  {
  }

  /** Leaves, keys, value lists and node counts of a concatenation of child runs. */
  lemma TallyAppend(a: seq<Node>, b: seq<Node>)
    ensures LeavesOf(a + b) == LeavesOf(a) + LeavesOf(b)
    ensures KeysOf(a + b) == KeysOf(a) + KeysOf(b)
    ensures ValuesOf(a + b) == ValuesOf(a) + ValuesOf(b)
    ensures CountNodesOf(a + b) == CountNodesOf(a) + CountNodesOf(b)
  {
    LeavesOfAppend(a, b);
    ChainKeysAppend(LeavesOf(a), LeavesOf(b));
    ChainValuesAppend(LeavesOf(a), LeavesOf(b));
    CountNodesOfAppend(a, b);
  }

  lemma TallyOne(x: Node)
    ensures LeavesOf([x]) == Leaves(x)
    ensures KeysOf([x]) == Keys(x) && ValuesOf([x]) == Values(x)
    ensures CountNodesOf([x]) == CountNodes(x)
  {
    LeavesOfOne(x);
  }

  /** Joining keeps every key and value list, in order, and loses one node (and one leaf when the
   *  siblings are leaves). */
  lemma JoinContents(a: Node, sep: int, b: Node)
    requires a.Leaf? == b.Leaf?
    ensures Keys(Join(a, sep, b)) == Keys(a) + Keys(b)
    ensures Values(Join(a, sep, b)) == Values(a) + Values(b)
    ensures CountNodes(Join(a, sep, b)) + 1 == CountNodes(a) + CountNodes(b)
    ensures LeafCount(Join(a, sep, b)) + (if a.Leaf? then 1 else 0) == LeafCount(a) + LeafCount(b)
  {
    var m := Join(a, sep, b);
    if a.Leaf? {
      KeysOfLeaf(a);
      KeysOfLeaf(b);
      KeysOfLeaf(m);
    } else {
      KeysOfInternal(a);
      KeysOfInternal(b);
      KeysOfInternal(m);
      TallyAppend(a.children, b.children);
    }
  }

  /** Cutting keeps every key and value list, in order, and adds one node (and one leaf when a
   *  leaf is cut). */
  lemma SplitContents(m: Node, j: nat)
    requires Shaped(m) && j < |m.keys|
    ensures Keys(LeftPart(m, j)) + Keys(RightPart(m, j)) == Keys(m)
    ensures Values(LeftPart(m, j)) + Values(RightPart(m, j)) == Values(m)
    ensures CountNodes(LeftPart(m, j)) + CountNodes(RightPart(m, j)) == CountNodes(m) + 1
    ensures LeafCount(LeftPart(m, j)) + LeafCount(RightPart(m, j)) == LeafCount(m) + (if m.Leaf? then 1 else 0)
  {
    if m.Leaf? {
      SplitLeafContents(m, j);
    } else {
      SplitInternalContents(m, j);
    }
  }

  lemma SliceJoin<T>(s: seq<T>, j: nat)
    requires j <= |s|
    ensures s[..j] + s[j..] == s
  {
  }

  lemma SplitLeafContents(m: Node, j: nat)
    requires m.Leaf? && Shaped(m) && j < |m.keys|
    ensures Keys(LeftPart(m, j)) + Keys(RightPart(m, j)) == Keys(m)
    ensures Values(LeftPart(m, j)) + Values(RightPart(m, j)) == Values(m)
    ensures CountNodes(LeftPart(m, j)) + CountNodes(RightPart(m, j)) == CountNodes(m) + 1
    ensures LeafCount(LeftPart(m, j)) + LeafCount(RightPart(m, j)) == LeafCount(m) + 1
  {
    KeysOfLeaf(LeftPart(m, j));
    KeysOfLeaf(RightPart(m, j));
    KeysOfLeaf(m);
    SliceJoin(m.keys, j);
    SliceJoin(m.values, j);
  }

  lemma SplitInternalContents(m: Node, j: nat)
    requires m.Internal? && Shaped(m) && j < |m.keys|
    ensures Keys(LeftPart(m, j)) + Keys(RightPart(m, j)) == Keys(m)
    ensures Values(LeftPart(m, j)) + Values(RightPart(m, j)) == Values(m)
    ensures CountNodes(LeftPart(m, j)) + CountNodes(RightPart(m, j)) == CountNodes(m) + 1
    ensures LeafCount(LeftPart(m, j)) + LeafCount(RightPart(m, j)) == LeafCount(m)
  {
    var l, r := LeftPart(m, j), RightPart(m, j);
    KeysOfInternal(l);
    KeysOfInternal(r);
    KeysOfInternal(m);
    assert m.children[..j + 1] + m.children[j + 1..] == m.children;
    TallyAppend(m.children[..j + 1], m.children[j + 1..]);
  }

  // ---------------------------------------------------------------------------------------------
  // Separator bounds

  /** A subtree stays valid when its bounds are widened. */
  lemma {:induction false} ValidateLoosen(n: Node, lo: Option<int>, hi: Option<int>, lo2: Option<int>, hi2: Option<int>)
    requires ValidateNode(n, lo, hi) && LooserLower(lo2, lo) && LooserUpper(hi2, hi)
    ensures ValidateNode(n, lo2, hi2)
    decreases n
  {
    if n.Internal? {
      var ks, cs := n.keys, n.children;
      forall i | 0 <= i < |cs|
        ensures ValidateNode(cs[i], LowerOf(lo2, ks, i), UpperOf(hi2, ks, i))
      {
        ValidateLoosen(cs[i], LowerOf(lo, ks, i), UpperOf(hi, ks, i), LowerOf(lo2, ks, i), UpperOf(hi2, ks, i));
      }
    }
  }

  /** A subtree with a key in it has a nonempty key range. */
  lemma {:induction false} PopulatedHasKey(n: Node)
    requires Shaped(n) && Populated(n)
    ensures |Keys(n)| > 0
    decreases n
  {
    if n.Leaf? {
      KeysOfLeaf(n);
    } else {
      PopulatedHasKey(n.children[0]);
      KeysOfInternal(n);
      SuffixStep(n.children, 0);
      assert n.children[0..] == n.children;
    }
  }

  /** The separator after a populated child lies strictly above the child's lower bound. */
  lemma PopulatedGap(n: Node, lo: Option<int>, hi: Option<int>)
    requires Shaped(n) && Populated(n) && ValidateNode(n, lo, hi)
    ensures lo.Some? && hi.Some? ==> lo.value < hi.value
  {
    PopulatedHasKey(n);
    ValidKeys(n, lo, hi);
    var k := Keys(n)[0];
  }

  /** Two ascending runs, the first ending below where the second starts, make one. */
  lemma ConcatAscending(x: seq<int>, y: seq<int>)
    requires AdjacentAscending(x) && AdjacentAscending(y)
    requires |x| > 0 && |y| > 0 ==> x[|x| - 1] < y[0]
    ensures AdjacentAscending(x + y)
  {
    var xy := x + y;
    forall i | 0 < i < |xy|
      ensures xy[i - 1] < xy[i]
    {
      if i < |x| {
        assert xy[i - 1] == x[i - 1] && xy[i] == x[i];
      } else if i == |x| {
        assert xy[i - 1] == x[i - 1] && xy[i] == y[0];
      } else {
        assert xy[i - 1] == y[i - 1 - |x|] && xy[i] == y[i - |x|];
      }
    }
  }

  /** Joining two valid siblings around their separator gives a node valid across both ranges,
   *  provided the separator sits strictly below the right sibling's first key when the siblings
   *  are internal. */
  lemma JoinValid(a: Node, sep: int, b: Node, lo: Option<int>, hi: Option<int>)
    requires a.Leaf? == b.Leaf? && Shaped(a) && Shaped(b)
    requires ValidateNode(a, lo, Some(sep)) && ValidateNode(b, Some(sep), hi)
    requires AtLeast(sep, lo) && Below(sep, hi)
    requires a.Internal? && |b.keys| > 0 ==> sep < b.keys[0]
    ensures ValidateNode(Join(a, sep, b), lo, hi)
  {
    if a.Leaf? {
      JoinLeafValid(a, sep, b, lo, hi);
    } else {
      JoinInternalValid(a, sep, b, lo, hi);
    }
  }

  lemma JoinLeafValid(a: Node, sep: int, b: Node, lo: Option<int>, hi: Option<int>)
    requires a.Leaf? && b.Leaf?
    requires ValidateNode(a, lo, Some(sep)) && ValidateNode(b, Some(sep), hi)
    requires AtLeast(sep, lo) && Below(sep, hi)
    ensures ValidateNode(Join(a, sep, b), lo, hi)
  {
    JoinKeysValid(a.keys, b.keys, sep, lo, hi);
  }

  /** Keys valid below sep followed by keys valid from sep on are valid across both ranges. */
  lemma JoinKeysValid(ak: seq<int>, bk: seq<int>, sep: int, lo: Option<int>, hi: Option<int>)
    requires AdjacentAscending(ak) && AdjacentAscending(bk)
    requires lo.Some? && |ak| > 0 ==> ak[0] >= lo.value
    requires |ak| > 0 ==> ak[|ak| - 1] < sep
    requires |bk| > 0 ==> bk[0] >= sep
    requires hi.Some? && |bk| > 0 ==> bk[|bk| - 1] < hi.value
    requires AtLeast(sep, lo) && Below(sep, hi)
    ensures var ks := ak + bk;
            AdjacentAscending(ks) && (lo.Some? && |ks| > 0 ==> ks[0] >= lo.value)
            && (hi.Some? && |ks| > 0 ==> ks[|ks| - 1] < hi.value)
  {
    ConcatAscending(ak, bk);
    var ks := ak + bk;
    if |ks| > 0 {
      if |ak| > 0 {
        assert ks[0] == ak[0];
      } else {
        assert ks[0] == bk[0];
      }
      if |bk| > 0 {
        assert ks[|ks| - 1] == bk[|bk| - 1];
      } else {
        assert ks[|ks| - 1] == ak[|ak| - 1];
      }
    }
  }

  lemma JoinInternalValid(a: Node, sep: int, b: Node, lo: Option<int>, hi: Option<int>)
    requires a.Internal? && b.Internal? && Shaped(a) && Shaped(b)
    requires ValidateNode(a, lo, Some(sep)) && ValidateNode(b, Some(sep), hi)
    requires AtLeast(sep, lo) && Below(sep, hi)
    requires |b.keys| > 0 ==> sep < b.keys[0]
    ensures ValidateNode(Join(a, sep, b), lo, hi)
  {
    var ak, bk := a.keys, b.keys;
    ConcatAscending(ak, [sep]);
    ConcatAscending(ak + [sep], bk);
    var ks := ak + [sep] + bk;
    if |ak| > 0 {
      assert ks[0] == ak[0];
    } else {
      assert ks[0] == sep;
    }
    if |bk| > 0 {
      assert ks[|ks| - 1] == bk[|bk| - 1];
    } else {
      assert ks[|ks| - 1] == sep;
    }
    JoinChildrenValid(a, sep, b, lo, hi);
  }

  lemma JoinChildrenValid(a: Node, sep: int, b: Node, lo: Option<int>, hi: Option<int>)
    requires a.Internal? && b.Internal? && Shaped(a) && Shaped(b)
    requires ValidateNode(a, lo, Some(sep)) && ValidateNode(b, Some(sep), hi)
    ensures var m := Join(a, sep, b);
            forall i :: 0 <= i < |m.children| ==>
              ValidateNode(m.children[i], LowerOf(lo, m.keys, i), UpperOf(hi, m.keys, i))
  {
    var m := Join(a, sep, b);
    var ks, cs := m.keys, m.children;
    var na := |a.children|;
    forall i | 0 <= i < |cs|
      ensures ValidateNode(cs[i], LowerOf(lo, ks, i), UpperOf(hi, ks, i))
    {
      if i < na {
        assert cs[i] == a.children[i];
        assert LowerOf(lo, ks, i) == LowerOf(lo, a.keys, i);
        assert UpperOf(hi, ks, i) == UpperOf(Some(sep), a.keys, i);
      } else {
        var k := i - na;
        assert cs[i] == b.children[k];
        assert LowerOf(lo, ks, i) == LowerOf(Some(sep), b.keys, k);
        assert UpperOf(hi, ks, i) == UpperOf(hi, b.keys, k);
      }
    }
  }

  /** Cutting a valid node at key j gives two nodes valid on either side of key j. */
  lemma SplitValid(m: Node, j: nat, lo: Option<int>, hi: Option<int>)
    requires Shaped(m) && j < |m.keys| && ValidateNode(m, lo, hi)
    ensures ValidateNode(LeftPart(m, j), lo, Some(m.keys[j]))
    ensures ValidateNode(RightPart(m, j), Some(m.keys[j]), hi)
  {
    if m.Leaf? {
      CutKeysValid(m.keys, j, 0, lo, hi);
    } else {
      SplitInternalValid(m, j, lo, hi);
    }
  }

  lemma SplitInternalValid(m: Node, j: nat, lo: Option<int>, hi: Option<int>)
    requires m.Internal? && Shaped(m) && j < |m.keys| && ValidateNode(m, lo, hi)
    ensures ValidateNode(LeftPart(m, j), lo, Some(m.keys[j]))
    ensures ValidateNode(RightPart(m, j), Some(m.keys[j]), hi)
  {
    SplitLeftValid(m, j, lo, hi);
    SplitRightValid(m, j, lo, hi);
  }

  lemma SplitLeftValid(m: Node, j: nat, lo: Option<int>, hi: Option<int>)
    requires m.Internal? && Shaped(m) && j < |m.keys| && ValidateNode(m, lo, hi)
    ensures ValidateNode(LeftPart(m, j), lo, Some(m.keys[j]))
  {
    CutKeysValid(m.keys, j, 1, lo, hi);
    var l := LeftPart(m, j);
    SplitLeftChildrenValid(m, j, lo, hi);
    ValidateInternalIntro(l.keys, l.children, lo, Some(m.keys[j]));
  }

  lemma SplitRightValid(m: Node, j: nat, lo: Option<int>, hi: Option<int>)
    requires m.Internal? && Shaped(m) && j < |m.keys| && ValidateNode(m, lo, hi)
    ensures ValidateNode(RightPart(m, j), Some(m.keys[j]), hi)
  {
    CutKeysValid(m.keys, j, 1, lo, hi);
    var r := RightPart(m, j);
    SplitRightChildrenValid(m, j, lo, hi);
    ValidateInternalIntro(r.keys, r.children, Some(m.keys[j]), hi);
  }

  /** The key conditions of validateNode hold on either side of a cut at key j, key j itself
   *  bounding both; d keys after the cut (key j for an internal node) are left out on the right. */
  lemma CutKeysValid(ks: seq<int>, j: nat, d: nat, lo: Option<int>, hi: Option<int>)
    requires j < |ks| && d <= 1 && AdjacentAscending(ks)
    requires lo.Some? ==> ks[0] >= lo.value
    requires hi.Some? ==> ks[|ks| - 1] < hi.value
    ensures var l := ks[..j];
            AdjacentAscending(l) && (lo.Some? && |l| > 0 ==> l[0] >= lo.value) && (|l| > 0 ==> l[|l| - 1] < ks[j])
    ensures var r := ks[j + d..];
            AdjacentAscending(r) && (|r| > 0 ==> r[0] >= ks[j]) && (hi.Some? && |r| > 0 ==> r[|r| - 1] < hi.value)
  {
    AdjacentAscendingIsAscending(ks);
    var l, r := ks[..j], ks[j + d..];
    assert forall i :: 0 <= i < |r| ==> r[i] == ks[j + d + i];
    if 0 < j {
      assert l[j - 1] == ks[j - 1];
    }
    if |r| > 0 && d == 1 {
      assert ks[j] < ks[j + 1];
    }
  }

  lemma SplitLeftChildrenValid(m: Node, j: nat, lo: Option<int>, hi: Option<int>)
    requires m.Internal? && Shaped(m) && j < |m.keys| && ValidateNode(m, lo, hi)
    ensures var l := LeftPart(m, j);
            forall i :: 0 <= i < |l.children| ==>
              ValidateNode(l.children[i], LowerOf(lo, l.keys, i), UpperOf(Some(m.keys[j]), l.keys, i))
  {
    var ks, cs := m.keys, m.children;
    var l := LeftPart(m, j);
    forall i | 0 <= i < |l.children|
      ensures ValidateNode(l.children[i], LowerOf(lo, l.keys, i), UpperOf(Some(ks[j]), l.keys, i))
    {
      assert l.children[i] == cs[i];
      assert LowerOf(lo, l.keys, i) == LowerOf(lo, ks, i);
      assert UpperOf(Some(ks[j]), l.keys, i) == UpperOf(hi, ks, i);
    }
  }

  lemma SplitRightChildrenValid(m: Node, j: nat, lo: Option<int>, hi: Option<int>)
    requires m.Internal? && Shaped(m) && j < |m.keys| && ValidateNode(m, lo, hi)
    ensures var r := RightPart(m, j);
            forall i :: 0 <= i < |r.children| ==>
              ValidateNode(r.children[i], LowerOf(Some(m.keys[j]), r.keys, i), UpperOf(hi, r.keys, i))
  {
    var ks, cs := m.keys, m.children;
    var r := RightPart(m, j);
    forall i | 0 <= i < |r.children|
      ensures ValidateNode(r.children[i], LowerOf(Some(ks[j]), r.keys, i), UpperOf(hi, r.keys, i))
    {
      assert r.children[i] == cs[j + 1 + i];
      assert LowerOf(Some(ks[j]), r.keys, i) == LowerOf(lo, ks, j + 1 + i);
      assert UpperOf(hi, r.keys, i) == UpperOf(hi, ks, j + 1 + i);
    }
  }

  /** A cut past the first key yields a separator strictly inside the node's own bounds. */
  lemma SplitSeparator(m: Node, j: nat, lo: Option<int>, hi: Option<int>)
    requires 1 <= j < |m.keys| && ValidateNode(m, lo, hi)
    ensures Above(m.keys[j], lo) && Below(m.keys[j], hi)
  {
    var ks := m.keys;
    AdjacentAscendingIsAscending(ks);
    assert ks[0] < ks[j];
    if j < |ks| - 1 {
      assert ks[j] < ks[|ks| - 1];
    }
  }

  // ---------------------------------------------------------------------------------------------
  // Splicing regrouped children back into their parent

  /** The parent with child c replaced: the node arrays the source mutates in place stay where they
   *  are in their parent. */
  function WithChild(p: Node, c: nat, x: Node): (q: Node)
    requires p.Internal? && c < |p.children|
    ensures q.Internal? && q.keys == p.keys && |q.children| == |p.children|
  {
    Internal(p.keys, p.children[c := x])
  }

  /** The parent after a borrow between children i and i + 1: both are rewritten and the separator
   *  between them is replaced. */
  function ReplacePair(p: Node, i: nat, a: Node, s: int, b: Node): (q: Node)
    requires p.Internal? && i < |p.keys| && i + 1 < |p.children|
    ensures q.Internal? && |q.keys| == |p.keys| && |q.children| == |p.children|
  {
    Internal(p.keys[i := s], p.children[i := a][i + 1 := b])
  }

  /** The parent after a merge of children i and i + 1 into m: key i and child i + 1 are spliced out. */
  function MergePair(p: Node, i: nat, m: Node): (q: Node)
    requires p.Internal? && i < |p.keys| && i + 1 < |p.children|
    ensures q.Internal? && |q.keys| == |p.keys| - 1 && |q.children| == |p.children| - 1
  {
    Internal(p.keys[..i] + p.keys[i + 1..], p.children[..i] + [m] + p.children[i + 2..])
  }

  /** The parent after child c split into a and b around s: s is spliced in as key c, b as child c + 1. */
  function SpliceSplit(p: Node, c: nat, a: Node, s: int, b: Node): (q: Node)
    requires p.Internal? && c <= |p.keys| && c < |p.children|
    ensures q.Internal? && |q.keys| == |p.keys| + 1 && |q.children| == |p.children| + 1
  {
    Internal(p.keys[..c] + [s] + p.keys[c..], p.children[..c] + [a, b] + p.children[c + 1..])
  }

  /** Every node of a children run satisfies the three structural predicates at height h. */
  ghost predicate SoundRun(cs: seq<Node>, h: nat)
  {
    forall i :: 0 <= i < |cs| ==> Shaped(cs[i]) && Balanced(cs[i], h) && Populated(cs[i])
  }

  lemma SoundRunOf(p: Node, h: nat)
    requires p.Internal? && Shaped(p) && Balanced(p, h + 1) && ChildrenPopulated(p)
    ensures SoundRun(p.children, h)
  {
  }

  lemma SoundRunSplice(cs: seq<Node>, lo: nat, hi: nat, mid: seq<Node>, h: nat)
    requires lo <= hi <= |cs| && SoundRun(cs, h) && SoundRun(mid, h)
    ensures SoundRun(cs[..lo] + mid + cs[hi..], h)
  {
    var run := cs[..lo] + mid + cs[hi..];
    forall i | 0 <= i < |run|
      ensures Shaped(run[i]) && Balanced(run[i], h) && Populated(run[i])
    {
      if i < lo {
        assert run[i] == cs[i];
      } else if i < lo + |mid| {
        assert run[i] == mid[i - lo];
      } else {
        assert run[i] == cs[i - lo - |mid| + hi];
      }
    }
  }

  /** A parent whose children form a sound run, one more child than keys, is itself sound. */
  lemma SoundParent(ks: seq<int>, cs: seq<Node>, h: nat)
    requires |cs| == |ks| + 1 && SoundRun(cs, h) && h >= 1
    ensures Shaped(Internal(ks, cs)) && Balanced(Internal(ks, cs), h + 1)
    ensures ChildrenPopulated(Internal(ks, cs))
  {
  }

  /** Leaves, keys, value lists and node counts of a run split into three parts. */
  lemma Tally3(a: seq<Node>, m: seq<Node>, b: seq<Node>)
    ensures LeavesOf(a + m + b) == LeavesOf(a) + LeavesOf(m) + LeavesOf(b)
    ensures KeysOf(a + m + b) == KeysOf(a) + KeysOf(m) + KeysOf(b)
    ensures ValuesOf(a + m + b) == ValuesOf(a) + ValuesOf(m) + ValuesOf(b)
    ensures CountNodesOf(a + m + b) == CountNodesOf(a) + CountNodesOf(m) + CountNodesOf(b)
  {
    TallyAppend(a + m, b);
    TallyAppend(a, m);
  }

  lemma TallyTwo(x: Node, y: Node)
    ensures LeavesOf([x, y]) == Leaves(x) + Leaves(y)
    ensures KeysOf([x, y]) == Keys(x) + Keys(y) && ValuesOf([x, y]) == Values(x) + Values(y)
    ensures CountNodesOf([x, y]) == CountNodes(x) + CountNodes(y)
  {
    assert [x, y] == [x] + [y];
    TallyAppend([x], [y]);
    TallyOne(x);
    TallyOne(y);
    ChainKeysAppend(Leaves(x), Leaves(y));
    ChainValuesAppend(Leaves(x), Leaves(y));
  }

  /** The four measures of a node the operations account for: what it stores and how many nodes
   *  and leaves it is made of. */
  ghost predicate SameMeasures(p: Node, q: Node, dn: int, dl: int)
  {
    Keys(q) == Keys(p) && Values(q) == Values(p)
    && CountNodes(q) == CountNodes(p) + dn && LeafCount(q) == LeafCount(p) + dl
  }

  lemma WithChildContents(p: Node, c: nat, x: Node)
    requires p.Internal? && c < |p.children|
    ensures var cs := p.children;
            var q := WithChild(p, c, x);
            Keys(q) == KeysOf(cs[..c]) + Keys(x) + KeysOf(cs[c + 1..])
            && Values(q) == ValuesOf(cs[..c]) + Values(x) + ValuesOf(cs[c + 1..])
            && Keys(p) == KeysOf(cs[..c]) + Keys(cs[c]) + KeysOf(cs[c + 1..])
            && Values(p) == ValuesOf(cs[..c]) + Values(cs[c]) + ValuesOf(cs[c + 1..])
            && CountNodes(q) + CountNodes(cs[c]) == CountNodes(p) + CountNodes(x)
            && LeafCount(q) + LeafCount(cs[c]) == LeafCount(p) + LeafCount(x)
  {
    var cs := p.children;
    var q := WithChild(p, c, x);
    assert cs[c := x] == cs[..c] + [x] + cs[c + 1..];
    assert cs == cs[..c] + [cs[c]] + cs[c + 1..];
    Tally3(cs[..c], [x], cs[c + 1..]);
    Tally3(cs[..c], [cs[c]], cs[c + 1..]);
    TallyOne(x);
    TallyOne(cs[c]);
  }

  /** Rewriting two neighbouring children into two that store the same keys changes nothing the
   *  parent stores. */
  /** Children i and i + 1 replaced, as the run around them. */
  lemma PairAround<T>(cs: seq<T>, i: nat, a: T, b: T)
    requires i + 1 < |cs|
    ensures cs[i := a][i + 1 := b] == cs[..i] + [a, b] + cs[i + 2..]
    ensures cs == cs[..i] + [cs[i], cs[i + 1]] + cs[i + 2..]
  {
  }

  lemma ReplacePairContents(p: Node, i: nat, a: Node, s: int, b: Node)
    requires p.Internal? && i < |p.keys| && i + 1 < |p.children|
    requires Keys(a) + Keys(b) == Keys(p.children[i]) + Keys(p.children[i + 1])
    requires Values(a) + Values(b) == Values(p.children[i]) + Values(p.children[i + 1])
    ensures SameMeasures(p, ReplacePair(p, i, a, s, b),
                         CountNodes(a) + CountNodes(b) - CountNodes(p.children[i]) - CountNodes(p.children[i + 1]),
                         LeafCount(a) + LeafCount(b) - LeafCount(p.children[i]) - LeafCount(p.children[i + 1]))
  {
    var cs := p.children;
    PairAround(cs, i, a, b);
    Tally3(cs[..i], [a, b], cs[i + 2..]);
    Tally3(cs[..i], [cs[i], cs[i + 1]], cs[i + 2..]);
    TallyTwo(a, b);
    TallyTwo(cs[i], cs[i + 1]);
  }

  /** Merging two neighbouring children into one that stores the same keys changes nothing the
   *  parent stores. */
  lemma MergePairContents(p: Node, i: nat, m: Node)
    requires p.Internal? && i < |p.keys| && i + 1 < |p.children|
    requires Keys(m) == Keys(p.children[i]) + Keys(p.children[i + 1])
    requires Values(m) == Values(p.children[i]) + Values(p.children[i + 1])
    ensures SameMeasures(p, MergePair(p, i, m),
                         CountNodes(m) - CountNodes(p.children[i]) - CountNodes(p.children[i + 1]),
                         LeafCount(m) - LeafCount(p.children[i]) - LeafCount(p.children[i + 1]))
  {
    var cs := p.children;
    assert cs == cs[..i] + [cs[i], cs[i + 1]] + cs[i + 2..];
    Tally3(cs[..i], [m], cs[i + 2..]);
    Tally3(cs[..i], [cs[i], cs[i + 1]], cs[i + 2..]);
    TallyOne(m);
    TallyTwo(cs[i], cs[i + 1]);
  }

  lemma SpliceSplitContents(p: Node, c: nat, a: Node, s: int, b: Node)
    requires p.Internal? && c <= |p.keys| && c < |p.children|
    ensures var cs := p.children;
            var q := SpliceSplit(p, c, a, s, b);
            Keys(q) == KeysOf(cs[..c]) + (Keys(a) + Keys(b)) + KeysOf(cs[c + 1..])
            && Values(q) == ValuesOf(cs[..c]) + (Values(a) + Values(b)) + ValuesOf(cs[c + 1..])
            && CountNodes(q) + CountNodes(cs[c]) == CountNodes(p) + CountNodes(a) + CountNodes(b)
            && LeafCount(q) + LeafCount(cs[c]) == LeafCount(p) + LeafCount(a) + LeafCount(b)
  {
    var cs := p.children;
    assert cs == cs[..c] + [cs[c]] + cs[c + 1..];
    Tally3(cs[..c], [a, b], cs[c + 1..]);
    Tally3(cs[..c], [cs[c]], cs[c + 1..]);
    TallyTwo(a, b);
    TallyOne(cs[c]);
  }

  // ---------------------------------------------------------------------------------------------
  // Separator bounds after splicing

  /** A child replaced by one valid within the same bounds leaves the parent valid. */
  lemma WithChildValid(p: Node, c: nat, x: Node, lo: Option<int>, hi: Option<int>)
    requires p.Internal? && c < |p.children| && ValidateNode(p, lo, hi)
    requires ValidateNode(x, LowerOf(lo, p.keys, c), UpperOf(hi, p.keys, c))
    ensures ValidateNode(WithChild(p, c, x), lo, hi)
  {
  }

  lemma ReplacePairValid(p: Node, i: nat, a: Node, s: int, b: Node, lo: Option<int>, hi: Option<int>)
    requires p.Internal? && i < |p.keys| && ValidateNode(p, lo, hi)
    requires ValidateNode(a, LowerOf(lo, p.keys, i), Some(s))
    requires ValidateNode(b, Some(s), UpperOf(hi, p.keys, i + 1))
    requires Above(s, LowerOf(lo, p.keys, i)) && Below(s, UpperOf(hi, p.keys, i + 1))
    ensures ValidateNode(ReplacePair(p, i, a, s, b), lo, hi)
  {
    var ks, cs := p.keys, p.children;
    var q := ReplacePair(p, i, a, s, b);
    var ks2, cs2 := q.keys, q.children;
    forall j | 0 < j < |ks2|
      ensures ks2[j - 1] < ks2[j]
    {
      if j == i + 1 {
        assert ks2[j] == ks[i + 1];
      }
    }
    forall j | 0 <= j < |cs2|
      ensures ValidateNode(cs2[j], LowerOf(lo, ks2, j), UpperOf(hi, ks2, j))
    {
      if j != i && j != i + 1 {
        assert cs2[j] == cs[j];
        assert LowerOf(lo, ks2, j) == LowerOf(lo, ks, j);
        assert UpperOf(hi, ks2, j) == UpperOf(hi, ks, j);
      } else if j == i + 1 {
        assert UpperOf(hi, ks2, j) == UpperOf(hi, ks, j);
      }
    }
  }

  /** validateNode's conditions on an internal node, gathered. */
  lemma ValidateInternalIntro(ks: seq<int>, cs: seq<Node>, lo: Option<int>, hi: Option<int>)
    requires AdjacentAscending(ks) && |cs| == |ks| + 1
    requires |ks| > 0 ==> AtLeast(ks[0], lo) && Below(ks[|ks| - 1], hi)
    requires forall j :: 0 <= j < |cs| ==> ValidateNode(cs[j], LowerOf(lo, ks, j), UpperOf(hi, ks, j))
    ensures ValidateNode(Internal(ks, cs), lo, hi)
  {
  }

  lemma MergePairValid(p: Node, i: nat, m: Node, lo: Option<int>, hi: Option<int>)
    requires p.Internal? && i < |p.keys| && ValidateNode(p, lo, hi)
    requires ValidateNode(m, LowerOf(lo, p.keys, i), UpperOf(hi, p.keys, i + 1))
    ensures ValidateNode(MergePair(p, i, m), lo, hi)
  {
    var ks := p.keys;
    DropKeyValid(ks, i, lo, hi);
    MergePairChildrenValid(p, i, m, lo, hi);
    ValidateInternalIntro(ks[..i] + ks[i + 1..], MergePair(p, i, m).children, lo, hi);
  }

  /** Dropping one key keeps keys ascending and within their bounds. */
  lemma DropKeyValid(ks: seq<int>, i: nat, lo: Option<int>, hi: Option<int>)
    requires i < |ks| && AdjacentAscending(ks)
    requires lo.Some? ==> ks[0] >= lo.value
    requires hi.Some? ==> ks[|ks| - 1] < hi.value
    ensures var ks2 := ks[..i] + ks[i + 1..];
            AdjacentAscending(ks2) && (|ks2| > 0 ==> AtLeast(ks2[0], lo) && Below(ks2[|ks2| - 1], hi))
  {
    var ks2 := ks[..i] + ks[i + 1..];
    AdjacentAscendingIsAscending(ks);
    assert forall j :: 0 <= j < |ks2| ==> ks2[j] == if j < i then ks[j] else ks[j + 1];
    if |ks2| > 0 {
      assert ks[0] <= ks2[0];
      assert ks2[|ks2| - 1] <= ks[|ks| - 1];
    }
    forall j | 0 < j < |ks2|
      ensures ks2[j - 1] < ks2[j]
    {
      assert ks2[j - 1] == if j - 1 < i then ks[j - 1] else ks[j];
    }
  }

  lemma MergePairChildrenValid(p: Node, i: nat, m: Node, lo: Option<int>, hi: Option<int>)
    requires p.Internal? && i < |p.keys| && ValidateNode(p, lo, hi)
    requires ValidateNode(m, LowerOf(lo, p.keys, i), UpperOf(hi, p.keys, i + 1))
    ensures var q := MergePair(p, i, m);
            forall j :: 0 <= j < |q.children| ==> ValidateNode(q.children[j], LowerOf(lo, q.keys, j), UpperOf(hi, q.keys, j))
  {
    var ks, cs := p.keys, p.children;
    var q := MergePair(p, i, m);
    var ks2, cs2 := q.keys, q.children;
    forall j | 0 <= j < |cs2|
      ensures ValidateNode(cs2[j], LowerOf(lo, ks2, j), UpperOf(hi, ks2, j))
    {
      if j < i {
        assert cs2[j] == cs[j];
        assert LowerOf(lo, ks2, j) == LowerOf(lo, ks, j);
        assert UpperOf(hi, ks2, j) == UpperOf(hi, ks, j);
      } else if j == i {
        assert cs2[j] == m;
        assert LowerOf(lo, ks2, j) == LowerOf(lo, ks, i);
        assert UpperOf(hi, ks2, j) == UpperOf(hi, ks, i + 1);
      } else {
        assert cs2[j] == cs[j + 1];
        assert LowerOf(lo, ks2, j) == LowerOf(lo, ks, j + 1);
        assert UpperOf(hi, ks2, j) == UpperOf(hi, ks, j + 1);
      }
    }
  }

  lemma SpliceSplitValid(p: Node, c: nat, a: Node, s: int, b: Node, lo: Option<int>, hi: Option<int>)
    requires p.Internal? && c < |p.children| && ValidateNode(p, lo, hi)
    requires ValidateNode(a, LowerOf(lo, p.keys, c), Some(s))
    requires ValidateNode(b, Some(s), UpperOf(hi, p.keys, c))
    requires Above(s, LowerOf(lo, p.keys, c)) && Below(s, UpperOf(hi, p.keys, c))
    ensures ValidateNode(SpliceSplit(p, c, a, s, b), lo, hi)
  {
    SpliceKeysValid(p.keys, c, s, lo, hi);
    SpliceSplitChildrenValid(p, c, a, s, b, lo, hi);
    ValidateInternalIntro(p.keys[..c] + [s] + p.keys[c..], SpliceSplit(p, c, a, s, b).children, lo, hi);
  }

  /** A separator strictly between the keys around position c keeps the keys ascending and
   *  within the node's bounds when spliced in there. */
  lemma SpliceKeysValid(ks: seq<int>, c: nat, s: int, lo: Option<int>, hi: Option<int>)
    requires c <= |ks| && AdjacentAscending(ks)
    requires |ks| > 0 ==> AtLeast(ks[0], lo) && Below(ks[|ks| - 1], hi)
    requires Above(s, LowerOf(lo, ks, c)) && Below(s, UpperOf(hi, ks, c))
    ensures var ks2 := ks[..c] + [s] + ks[c..];
            AdjacentAscending(ks2) && AtLeast(ks2[0], lo) && Below(ks2[|ks2| - 1], hi)
  {
    ConcatAscending(ks[..c], [s]);
    ConcatAscending(ks[..c] + [s], ks[c..]);
    var ks2 := ks[..c] + [s] + ks[c..];
    if c > 0 {
      assert ks2[0] == ks[0];
    }
    if c < |ks| {
      assert ks2[|ks2| - 1] == ks[|ks| - 1];
    }
  }

  lemma SpliceSplitChildrenValid(p: Node, c: nat, a: Node, s: int, b: Node, lo: Option<int>, hi: Option<int>)
    requires p.Internal? && c < |p.children| && ValidateNode(p, lo, hi)
    requires ValidateNode(a, LowerOf(lo, p.keys, c), Some(s))
    requires ValidateNode(b, Some(s), UpperOf(hi, p.keys, c))
    ensures var q := SpliceSplit(p, c, a, s, b);
            forall j :: 0 <= j < |q.children| ==> ValidateNode(q.children[j], LowerOf(lo, q.keys, j), UpperOf(hi, q.keys, j))
  {
    var q := SpliceSplit(p, c, a, s, b);
    forall j | 0 <= j < |q.children|
      ensures ValidateNode(q.children[j], LowerOf(lo, q.keys, j), UpperOf(hi, q.keys, j))
    {
      SpliceSplitChildValid(p, c, a, s, b, lo, hi, j);
    }
  }

  lemma SpliceSplitChildValid(p: Node, c: nat, a: Node, s: int, b: Node, lo: Option<int>, hi: Option<int>, j: nat)
    requires p.Internal? && c < |p.children| && ValidateNode(p, lo, hi)
    requires ValidateNode(a, LowerOf(lo, p.keys, c), Some(s))
    requires ValidateNode(b, Some(s), UpperOf(hi, p.keys, c))
    requires j < |p.children| + 1
    ensures var q := SpliceSplit(p, c, a, s, b);
            ValidateNode(q.children[j], LowerOf(lo, q.keys, j), UpperOf(hi, q.keys, j))
  {
    var ks, cs := p.keys, p.children;
    var q := SpliceSplit(p, c, a, s, b);
    var ks2, cs2 := q.keys, q.children;
    if j < c {
      assert cs2[j] == cs[j];
      assert j > 0 ==> ks2[j - 1] == ks[j - 1];
      assert ks2[j] == ks[j];
    } else if j == c {
      assert cs2[j] == a;
      assert j > 0 ==> ks2[j - 1] == ks[j - 1];
      assert ks2[j] == s;
    } else if j == c + 1 {
      assert cs2[j] == b;
      assert ks2[j - 1] == s;
      assert j < |ks2| ==> ks2[j] == ks[j - 1];
    } else {
      assert cs2[j] == cs[j - 1];
      assert ks2[j - 1] == ks[j - 2];
      assert j < |ks2| ==> ks2[j] == ks[j - 1];
    }
  }
}
