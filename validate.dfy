/** validate, getLeafDepths and validateNode of lib/bplus-tree.ts: the tree's self-check, as the
 *  loops the source runs, each proved to compute the function of BPlusNodes that specifies it,
 *  and what a passing check means for a shaped tree.
 */
module BPlusValidate {
  import opened BPlusNodes

  // ---------------------------------------------------------------------------------------------
  // The checks as the source runs them

  /** validateNode: the keys strictly ascending, the first at least `lo`, the last below `hi`; for an
   *  internal node one more child than keys, each checked between the separators around it. */
  method CheckNode(n: Node, lo: Option<int>, hi: Option<int>) returns (ok: bool)
    ensures ok == ValidateNode(n, lo, hi)
    decreases n
  {
    var ks := n.keys;
    var i := 1;
    while i < |ks|
      invariant 1 <= i <= |ks| + 1
      invariant forall j :: 0 < j < i && j < |ks| ==> ks[j - 1] < ks[j]
    {
      if ks[i] <= ks[i - 1] {
        return false;
      }
      i := i + 1;
    }
    if lo.Some? && |ks| > 0 && ks[0] < lo.value {
      return false;
    }
    if hi.Some? && |ks| > 0 && ks[|ks| - 1] >= hi.value {
      return false;
    }
    if n.Leaf? {
      return true;
    }
    var cs := n.children;
    if |cs| != |ks| + 1 {
      return false;
    }
    var c := 0;
    while c < |cs|
      invariant c <= |cs|
      invariant forall j :: 0 <= j < c ==> ValidateNode(cs[j], LowerOf(lo, ks, j), UpperOf(hi, ks, j))
    {
      var childMin := if c == 0 then lo else Some(ks[c - 1]);
      var childMax := if c == |ks| then hi else Some(ks[c]);
      var r := CheckNode(cs[c], childMin, childMax);
      if !r {
        return false;
      }
      c := c + 1;
    }
    return true;
  }

  /** getLeafDepths: the depth of every leaf below n, left to right, n being at `depth`. */
  method GetLeafDepths(n: Node, depth: int) returns (ds: seq<int>)
    ensures ds == LeafDepths(n, depth)
    decreases n
  {
    if n.Leaf? {
      return [depth];
    }
    var cs := n.children;
    ds := [];
    var i := 0;
    while i < |cs|
      invariant i <= |cs|
      invariant ds == DepthsOf(cs[..i], depth + 1)
    {
      var sub := GetLeafDepths(cs[i], depth + 1);
      assert cs[..i + 1][..i] == cs[..i];
      ds := ds + sub;
      i := i + 1;
    }
    assert cs[..i] == cs;
  }

  /** validate: fail when the leaves lie at more than one depth, else run validateNode from the
   *  root with no bounds. */
  method ValidateTree(root: Node) returns (ok: bool)
    ensures ok == Validate(root)
  {
    var ds := GetLeafDepths(root, 1);
    var unique := set d | d in ds;
    DistinctDepths(ds);
    if |unique| > 1 {
      return false;
    }
    ok := CheckNode(root, None, None);
  }

  /** A set of the depths with more than one element is a sequence of depths not all the same. */
  lemma DistinctDepths(ds: seq<int>)
    ensures |set d | d in ds| > 1 <==> !AllSame(ds)
  {
    var unique := set d | d in ds;
    if AllSame(ds) {
      if |ds| > 0 {
        assert unique == {ds[0]};
      } else {
        assert unique == {};
      }
    } else {
      var i :| 0 <= i < |ds| && ds[i] != ds[0];
      var two := {ds[0], ds[i]};
      var rest := unique - two;
      assert unique == two + rest && two !! rest;
      assert |two| == 2;
    }
  }

  // ---------------------------------------------------------------------------------------------
  // What the depth check means

  /** Every element of s is v. */
  ghost predicate AllAt(s: seq<int>, v: int)
  {
    forall i :: 0 <= i < |s| ==> s[i] == v
  }

  lemma AllAtAppend(a: seq<int>, b: seq<int>, v: int)
    ensures AllAt(a + b, v) <==> AllAt(a, v) && AllAt(b, v)
  {
    if AllAt(a, v) && AllAt(b, v) {
      forall i | 0 <= i < |a + b|
        ensures (a + b)[i] == v
      {
        if i >= |a| {
          assert (a + b)[i] == b[i - |a|];
        }
      }
    }
    if AllAt(a + b, v) {
      assert forall i :: 0 <= i < |a| ==> a[i] == (a + b)[i];
      assert forall i :: 0 <= i < |b| ==> b[i] == (a + b)[|a| + i];
    }
  }

  /** The depths of a run of children are all v exactly when each child's are. */
  lemma {:induction false} DepthsOfAt(cs: seq<Node>, d: int, v: int)
    ensures AllAt(DepthsOf(cs, d), v) <==> forall i :: 0 <= i < |cs| ==> AllAt(LeafDepths(cs[i], d), v)
    decreases |cs|
  {
    if cs != [] {
      var init := cs[..|cs| - 1];
      DepthsOfAt(init, d, v);
      AllAtAppend(DepthsOf(init, d), LeafDepths(cs[|cs| - 1], d), v);
      assert forall i :: 0 <= i < |init| ==> init[i] == cs[i];
    }
  }

  /** A shaped subtree at `depth` has at least one leaf, every one of them at least that deep; the
   *  leftmost is as deep as the height along the leftmost path says. */
  lemma {:induction false} FirstDepth(n: Node, d: int)
    requires Shaped(n)
    ensures |LeafDepths(n, d)| >= 1 && LeafDepths(n, d)[0] == d + CalcHeight(n) - 1
    ensures forall i :: 0 <= i < |LeafDepths(n, d)| ==> LeafDepths(n, d)[i] >= d
    decreases n, 1
  {
    if n.Internal? {
      var cs := n.children;
      assert forall i :: 0 <= i < |cs| ==> Shaped(cs[i]);
      FirstDepthOf(cs, d + 1);
      FirstDepth(cs[0], d + 1);
    }
  }

  lemma {:induction false} FirstDepthOf(cs: seq<Node>, d: int)
    requires |cs| >= 1 && forall i :: 0 <= i < |cs| ==> Shaped(cs[i])
    ensures |LeafDepths(cs[0], d)| >= 1 && |DepthsOf(cs, d)| >= 1 && DepthsOf(cs, d)[0] == LeafDepths(cs[0], d)[0]
    ensures forall i :: 0 <= i < |DepthsOf(cs, d)| ==> DepthsOf(cs, d)[i] >= d
    decreases cs, 0
  {
    var init, last := cs[..|cs| - 1], cs[|cs| - 1];
    FirstDepth(last, d);
    FirstDepth(cs[0], d);
    var a, b := DepthsOf(init, d), LeafDepths(last, d);
    assert DepthsOf(cs, d) == a + b;
    if init != [] {
      FirstDepthOf(init, d);
      assert init[0] == cs[0];
    } else {
      assert a == [];
    }
    assert forall i :: 0 <= i < |a + b| ==> (a + b)[i] == if i < |a| then a[i] else b[i - |a|];
  }

  /** The leaves of a shaped subtree at `d` all lie at depth d + h - 1 exactly when it is balanced
   *  at height h. */
  lemma {:induction false} DepthsAt(n: Node, d: int, h: nat)
    requires Shaped(n) && h >= 1
    ensures AllAt(LeafDepths(n, d), d + h - 1) <==> Balanced(n, h)
    decreases n, 1
  {
    if n.Internal? {
      if h == 1 {
        InternalNotAt(n, d);
      } else {
        DepthsBelow(n, d, h);
      }
    } else {
      assert LeafDepths(n, d) == [d] && [d][0] == d;
    }
  }

  /** The step of DepthsAt through an internal node of height at least 2. */
  lemma {:induction false} DepthsBelow(n: Node, d: int, h: nat)
    requires n.Internal? && Shaped(n) && h >= 2
    ensures AllAt(LeafDepths(n, d), d + h - 1) <==> Balanced(n, h)
    decreases n, 0
  {
    var cs := n.children;
    assert forall i :: 0 <= i < |cs| ==> Shaped(cs[i]);
    assert LeafDepths(n, d) == DepthsOf(cs, d + 1);
    DepthsOfAt(cs, d + 1, d + h - 1);
    forall i | 0 <= i < |cs|
      ensures AllAt(LeafDepths(cs[i], d + 1), d + h - 1) <==> Balanced(cs[i], h - 1)
    {
      DepthsAt(cs[i], d + 1, h - 1);
    }
    assert (d + 1) + (h - 1) - 1 == d + h - 1;
    assert Balanced(n, h) <==> forall i :: 0 <= i < |cs| ==> Balanced(cs[i], h - 1);
  }

  /** An internal node has no leaf at its own depth. */
  lemma InternalNotAt(n: Node, d: int)
    requires n.Internal? && Shaped(n)
    ensures !AllAt(LeafDepths(n, d), d)
  {
    var cs := n.children;
    assert LeafDepths(n, d) == DepthsOf(cs, d + 1);
    DepthsOfAt(cs, d + 1, d);
    FirstDepth(cs[0], d + 1);
    assert !AllAt(LeafDepths(cs[0], d + 1), d);
  }

  /** On a shaped tree, validate passes exactly when every leaf is at the depth calculateHeight
   *  reports and validateNode passes; the keys along the leaf chain are then strictly ascending. */
  lemma ValidateMeans(root: Node)
    requires Shaped(root)
    ensures Validate(root) <==> Balanced(root, CalcHeight(root)) && ValidateNode(root, None, None)
    ensures Validate(root) ==> Ascending(Keys(root))
  {
    var ds := LeafDepths(root, 1);
    FirstDepth(root, 1);
    DepthsAt(root, 1, CalcHeight(root));
    assert AllSame(ds) <==> AllAt(ds, ds[0]);
    if ValidateNode(root, None, None) {
      ValidKeys(root, None, None);
    }
  }
}
