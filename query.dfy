/** search and rangeSearch of lib/bplus-tree.ts: a descent from the root to the leaf a key routes
 *  to, then a scan of that leaf (search) or a walk along the leaf chain from it (rangeSearch).
 *  The leaf chain the `next` references form is the sequence Leaves(root); the walk is given that
 *  sequence and moves along it by index.
 */
module BPlusQuery {
  import opened BPlusNodes
  import opened BPlusRegroup
  import opened BPlusInsert
  import opened BPlusRemove

  // ---------------------------------------------------------------------------------------------
  // What search returns

  /** The value list stored under `key` in ascending keys with parallel value lists, or [] when the
   *  key is absent. */
  function Lookup(ks: seq<int>, vs: seq<seq<int>>, key: int): seq<int>
    requires |vs| == |ks|
  {
    var p := InsertPosition(ks, key);
    if p < |ks| && ks[p] == key then vs[p] else []
  }

  /** On ascending keys, the lookup of a stored key is the value list at its index, and that of a
   *  missing key is empty. */
  lemma LookupAt(ks: seq<int>, vs: seq<seq<int>>, key: int)
    requires |vs| == |ks| && Ascending(ks)
    ensures forall i :: 0 <= i < |ks| && ks[i] == key ==> Lookup(ks, vs, key) == vs[i]
    ensures key !in ks ==> Lookup(ks, vs, key) == []
  {
    InsertPositionFinds(ks, key);
    forall i | 0 <= i < |ks| && ks[i] == key
      ensures Lookup(ks, vs, key) == vs[i]
    {
      assert forall j :: 0 <= j < i ==> ks[j] < key;
      InsertPositionUnique(ks, key, i);
    }
  }

  /** Keys all below and all above `key` on either side do not change its lookup. */
  lemma LookupAround(a: seq<int>, k: seq<int>, b: seq<int>, va: seq<seq<int>>, vk: seq<seq<int>>, vb: seq<seq<int>>, key: int)
    requires AllBelow(a, key) && AllAbove(b, key)
    requires |va| == |a| && |vk| == |k| && |vb| == |b|
    ensures Lookup(a + k + b, va + vk + vb, key) == Lookup(k, vk, key)
  {
    PositionAround(a, k, b, key);
    var q := InsertPosition(k, key);
    if q < |k| && k[q] == key {
      assert (va + vk + vb)[|va| + q] == vk[q];
    }
  }

  /** After inserting `key`, its lookup is the old one with `key` appended (a new key gets [key]),
   *  and the lookup of every other key is unchanged. */
  lemma LookupInserted(ks: seq<int>, vs: seq<seq<int>>, key: int, k: int)
    requires |vs| == |ks| && Ascending(ks)
    ensures |InsertedValues(ks, vs, key)| == |InsertedKeys(ks, key)|
    ensures Lookup(InsertedKeys(ks, key), InsertedValues(ks, vs, key), key) == Lookup(ks, vs, key) + [key]
    ensures k != key ==> Lookup(InsertedKeys(ks, key), InsertedValues(ks, vs, key), k) == Lookup(ks, vs, k)
  {
    var p := InsertPosition(ks, key);
    InsertPositionFinds(ks, key);
    InsertedKeysSorted(ks, key);
    if p < |ks| && ks[p] == key {
      LookupAppended(ks, vs, key, p, k);
    } else {
      LookupSpliced(ks, vs, key, p, k);
    }
  }

  lemma LookupAppended(ks: seq<int>, vs: seq<seq<int>>, key: int, p: nat, k: int)
    requires |vs| == |ks| && Ascending(ks) && p < |ks| && ks[p] == key
    ensures Lookup(ks, vs[p := vs[p] + [key]], key) == Lookup(ks, vs, key) + [key]
    ensures k != key ==> Lookup(ks, vs[p := vs[p] + [key]], k) == Lookup(ks, vs, k)
  {
    var vins := vs[p := vs[p] + [key]];
    LookupAt(ks, vs, key);
    LookupAt(ks, vins, key);
    LookupAt(ks, vs, k);
    LookupAt(ks, vins, k);
    if k != key && k in ks {
      var i :| 0 <= i < |ks| && ks[i] == k;
      assert vins[i] == vs[i];
    }
  }

  lemma LookupSpliced(ks: seq<int>, vs: seq<seq<int>>, key: int, p: nat, k: int)
    requires |vs| == |ks| && Ascending(ks) && p <= |ks| && key !in ks
    requires Ascending(ks[..p] + [key] + ks[p..])
    ensures Lookup(ks[..p] + [key] + ks[p..], vs[..p] + [[key]] + vs[p..], key) == [key]
    ensures Lookup(ks, vs, key) == []
    ensures k != key ==> Lookup(ks[..p] + [key] + ks[p..], vs[..p] + [[key]] + vs[p..], k) == Lookup(ks, vs, k)
  {
    var ins, vins := ks[..p] + [key] + ks[p..], vs[..p] + [[key]] + vs[p..];
    LookupAt(ks, vs, key);
    SpliceAt(ks, p, key, ins);
    SpliceAt(vs, p, [key], vins);
    LookupAt(ins, vins, key);
    if k != key {
      SplicedOther(ks, vs, key, p, k, ins, vins);
    }
  }

  /** The entries of a sequence with x spliced in at p. */
  lemma SpliceAt<T>(s: seq<T>, p: nat, x: T, r: seq<T>)
    requires p <= |s| && r == s[..p] + [x] + s[p..]
    ensures |r| == |s| + 1 && r[p] == x
    ensures forall i :: 0 <= i < |s| ==> r[if i < p then i else i + 1] == s[i]
    ensures forall t :: 0 <= t < |r| && t != p ==> r[t] == s[if t < p then t else t - 1]
  {
  }

  lemma SplicedOther(ks: seq<int>, vs: seq<seq<int>>, key: int, p: nat, k: int, ins: seq<int>, vins: seq<seq<int>>)
    requires |vs| == |ks| && Ascending(ks) && p <= |ks| && k != key
    requires ins == ks[..p] + [key] + ks[p..] && vins == vs[..p] + [[key]] + vs[p..] && Ascending(ins)
    ensures Lookup(ins, vins, k) == Lookup(ks, vs, k)
  {
    SpliceAt(ks, p, key, ins);
    SpliceAt(vs, p, [key], vins);
    LookupAt(ks, vs, k);
    LookupAt(ins, vins, k);
    if k in ks {
      var i :| 0 <= i < |ks| && ks[i] == k;
      var t := if i < p then i else i + 1;
      assert ins[t] == k && vins[t] == vs[i];
    }
  }

  /** After removing `key` its lookup is empty, and the lookup of every other key is unchanged. */
  lemma LookupRemoved(ks: seq<int>, vs: seq<seq<int>>, key: int, k: int)
    requires |vs| == |ks| && Ascending(ks)
    ensures |RemovedValues(ks, vs, key)| == |RemovedKeys(ks, key)|
    ensures Lookup(RemovedKeys(ks, key), RemovedValues(ks, vs, key), key) == []
    ensures k != key ==> Lookup(RemovedKeys(ks, key), RemovedValues(ks, vs, key), k) == Lookup(ks, vs, k)
  {
    var p := InsertPosition(ks, key);
    InsertPositionFinds(ks, key);
    RemovedKeysSorted(ks, key);
    var rem, vrem := RemovedKeys(ks, key), RemovedValues(ks, vs, key);
    LookupAt(ks, vs, k);
    LookupAt(rem, vrem, key);
    LookupAt(rem, vrem, k);
    if p < |ks| && ks[p] == key && k != key && k in ks {
      var i :| 0 <= i < |ks| && ks[i] == k;
      DropAt(ks, p, rem);
      DropAt(vs, p, vrem);
      if i < p {
        assert rem[i] == k && vrem[i] == vs[i];
      } else {
        assert rem[i - 1] == k && vrem[i - 1] == vs[i];
      }
    }
  }

  // ---------------------------------------------------------------------------------------------
  // search

  /** search: descend along findChildIndex's routing to a leaf, then scan it for the key. On a
   *  valid tree this returns the value list stored under the key, or [] when it is absent. */
  method Search(root: Node, key: int) returns (vs: seq<int>)
    requires Shaped(root) && ValidateNode(root, None, None)
    ensures |Values(root)| == |Keys(root)|
    ensures vs == Lookup(Keys(root), Values(root), key)
  {
    ValuesParallel(root);
    ghost var target := Lookup(Keys(root), Values(root), key);
    var node := root;
    ghost var lo: Option<int>, hi: Option<int> := None, None;
    while node.Internal?
      invariant Shaped(node) && ValidateNode(node, lo, hi) && |Values(node)| == |Keys(node)|
      invariant Lookup(Keys(node), Values(node), key) == target
      decreases node
    {
      var i := FindChildIndex(node.keys, key);
      SearchStep(node, lo, hi, key);
      lo, hi := LowerOf(lo, node.keys, i), UpperOf(hi, node.keys, i);
      node := node.children[i];
    }
    vs := ScanLeaf(node, key);
  }

  /** The last step of search: scan the leaf's keys in order for the key. */
  method ScanLeaf(node: Node, key: int) returns (vs: seq<int>)
    requires node.Leaf? && Shaped(node) && AdjacentAscending(node.keys)
    ensures |Values(node)| == |Keys(node)|
    ensures vs == Lookup(Keys(node), Values(node), key)
  {
    LeafLookup(node, key);
    var i := 0;
    while i < |node.keys|
      invariant i <= |node.keys|
      invariant forall j :: 0 <= j < i ==> node.keys[j] != key
    {
      if node.keys[i] == key {
        return node.values[i];
      }
      i := i + 1;
    }
    return [];
  }

  lemma LeafLookup(node: Node, key: int)
    requires node.Leaf? && Shaped(node) && AdjacentAscending(node.keys)
    ensures |Values(node)| == |Keys(node)|
    ensures forall i :: 0 <= i < |node.keys| && node.keys[i] == key ==> Lookup(Keys(node), Values(node), key) == node.values[i]
    ensures key !in node.keys ==> Lookup(Keys(node), Values(node), key) == []
  {
    KeysOfLeaf(node);
    AdjacentAscendingIsAscending(node.keys);
    LookupAt(node.keys, node.values, key);
  }

  /** One step down: the child `key` routes to is valid between its bounds and holds the same
   *  lookup of `key` as its parent. */
  lemma SearchStep(node: Node, lo: Option<int>, hi: Option<int>, key: int)
    requires node.Internal? && Shaped(node) && ValidateNode(node, lo, hi)
    ensures var i := ChildIndex(node.keys, key);
            i < |node.children| && Shaped(node.children[i])
            && ValidateNode(node.children[i], LowerOf(lo, node.keys, i), UpperOf(hi, node.keys, i))
            && |Values(node)| == |Keys(node)| && |Values(node.children[i])| == |Keys(node.children[i])|
            && Lookup(Keys(node.children[i]), Values(node.children[i]), key) == Lookup(Keys(node), Values(node), key)
  {
    var i := ChildIndex(node.keys, key);
    Route(node, lo, hi, key, i);
    var cs := node.children;
    ValuesParallel(node);
    ContentsAround(node, i);
    ShapedSlices(node, i);
    assert Shaped(cs[i]);
    ValuesParallel(cs[i]);
    LookupAround(KeysOf(cs[..i]), Keys(cs[i]), KeysOf(cs[i + 1..]),
                 ValuesOf(cs[..i]), Values(cs[i]), ValuesOf(cs[i + 1..]), key);
  }

  // ---------------------------------------------------------------------------------------------
  // rangeSearch

  /** The keys of ks between lo and hi inclusive, in their order. */
  function InRange(ks: seq<int>, lo: int, hi: int): (r: seq<int>)
    ensures forall k :: k in r <==> k in ks && lo <= k <= hi
    ensures |r| <= |ks|
  {
    if ks == [] then []
    else
      var last := ks[|ks| - 1];
      assert ks == ks[..|ks| - 1] + [last];
      InRange(ks[..|ks| - 1], lo, hi) + (if lo <= last <= hi then [last] else [])
  }

  lemma {:induction false} InRangeAppend(a: seq<int>, b: seq<int>, lo: int, hi: int)
    ensures InRange(a + b, lo, hi) == InRange(a, lo, hi) + InRange(b, lo, hi)
    decreases |b|
  {
    if b != [] {
      var init := b[..|b| - 1];
      assert (a + b)[..|a + b| - 1] == a + init;
      InRangeAppend(a, init, lo, hi);
    } else {
      assert a + b == a;
    }
  }

  /** Keys all outside the range contribute nothing. */
  lemma {:induction false} InRangeEmpty(ks: seq<int>, lo: int, hi: int)
    requires AllBelow(ks, lo) || AllAbove(ks, hi)
    ensures InRange(ks, lo, hi) == []
    decreases |ks|
  {
    if ks != [] {
      InRangeEmpty(ks[..|ks| - 1], lo, hi);
    }
  }

  /** The range of ascending keys is ascending. */
  lemma {:induction false} InRangeAscending(ks: seq<int>, lo: int, hi: int)
    requires Ascending(ks)
    ensures Ascending(InRange(ks, lo, hi))
    decreases |ks|
  {
    if ks != [] {
      var init, last := ks[..|ks| - 1], ks[|ks| - 1];
      var r := InRange(init, lo, hi);
      InRangeAscending(init, lo, hi);
      if lo <= last <= hi {
        var r2 := r + [last];
        forall a, b | 0 <= a < b < |r2|
          ensures r2[a] < r2[b]
        {
          if b == |r| {
            assert r[a] in r;
            var j :| 0 <= j < |init| && init[j] == r[a];
            assert ks[j] == r[a];
          }
        }
      }
    }
  }

  /** The keys of a chain are those before leaf j, leaf j's, and those after it. */
  lemma ChainAt(chain: seq<Node>, j: nat)
    requires j < |chain|
    ensures ChainKeys(chain) == ChainKeys(chain[..j]) + chain[j].keys + ChainKeys(chain[j + 1..])
  {
    var a, b := chain[..j + 1], chain[j + 1..];
    assert chain == a + b;
    ChainKeysAppend(a, b);
    ChainNext(chain, j);
  }

  /** Past a key above the range, nothing more is in the range. */
  lemma RangeEnds(w: seq<int>, t: seq<int>, lo: int, hi: int)
    requires Ascending(w + t) && |w| > 0 && w[|w| - 1] > hi
    ensures InRange(w + t, lo, hi) == InRange(w, lo, hi)
  {
    var wt := w + t;
    forall i | 0 <= i < |t|
      ensures hi < t[i]
    {
      assert t[i] == wt[|w| + i] && w[|w| - 1] == wt[|w| - 1];
    }
    InRangeEmpty(t, lo, hi);
    InRangeAppend(w, t, lo, hi);
  }

  /** One step down: the child startKey routes to is valid between the bounds returned, and the
   *  leaves of the children before it join the leaves already passed, all of whose keys are below
   *  startKey. */
  lemma RangeStep(node: Node, lo: Option<int>, hi: Option<int>, key: int, chain: seq<Node>, pre: seq<Node>, post: seq<Node>)
    returns (lo2: Option<int>, hi2: Option<int>, pre2: seq<Node>, post2: seq<Node>)
    requires node.Internal? && Shaped(node) && ValidateNode(node, lo, hi) && AllBelow(ChainKeys(pre), key)
    requires chain == pre + Leaves(node) + post
    ensures var i := ChildIndex(node.keys, key);
            i < |node.children|
            && var c := node.children[i];
            Shaped(c) && ValidateNode(c, lo2, hi2) && chain == pre2 + Leaves(c) + post2
            && |pre2| == |pre| + |LeavesOf(node.children[..i])| && AllBelow(ChainKeys(pre2), key)
  {
    var i := ChildIndex(node.keys, key);
    var cs := node.children;
    Route(node, lo, hi, key, i);
    assert Shaped(cs[i]);
    ChainSplit(pre, cs, i, post, key);
    lo2, hi2 := LowerOf(lo, node.keys, i), UpperOf(hi, node.keys, i);
    pre2, post2 := pre + LeavesOf(cs[..i]), LeavesOf(cs[i + 1..]) + post;
  }

  /** The chain around child i: the leaves before it join those already passed. */
  lemma ChainSplit(pre: seq<Node>, cs: seq<Node>, i: nat, post: seq<Node>, key: int)
    requires i < |cs| && AllBelow(ChainKeys(pre), key) && AllBelow(KeysOf(cs[..i]), key)
    ensures pre + LeavesOf(cs) + post == (pre + LeavesOf(cs[..i])) + Leaves(cs[i]) + (LeavesOf(cs[i + 1..]) + post)
    ensures AllBelow(ChainKeys(pre + LeavesOf(cs[..i])), key)
  {
    SplitAround(cs, i);
    Regroup3(pre, LeavesOf(cs[..i]), Leaves(cs[i]), LeavesOf(cs[i + 1..]), post);
    ChainKeysAppend(pre, LeavesOf(cs[..i]));
    BelowAppend(ChainKeys(pre), KeysOf(cs[..i]), key);
  }

  lemma Regroup3<T>(pre: seq<T>, a: seq<T>, m: seq<T>, b: seq<T>, post: seq<T>)
    ensures pre + (a + m + b) + post == (pre + a) + m + (b + post)
  {
  }

  lemma BelowAppend(a: seq<int>, b: seq<int>, key: int)
    requires AllBelow(a, key) && AllBelow(b, key)
    ensures AllBelow(a + b, key)
  {
    assert forall t :: 0 <= t < |a + b| ==> (a + b)[t] == if t < |a| then a[t] else b[t - |a|];
  }

  /** Scanning one more key of the leaf extends the range by that key when it lies in it. */
  lemma ScanPush(seen: seq<int>, lk: seq<int>, i: nat, lo: int, hi: int)
    requires i < |lk|
    ensures InRange(seen + lk[..i + 1], lo, hi) == InRange(seen + lk[..i], lo, hi) + (if lo <= lk[i] <= hi then [lk[i]] else [])
  {
    var w := seen + lk[..i + 1];
    assert w[..|w| - 1] == seen + lk[..i];
    assert w[|w| - 1] == lk[i];
  }

  /** A scanned key above the range ends the range of the whole chain. */
  lemma ScanStop(chain: seq<Node>, j: nat, i: nat, lo: int, hi: int)
    requires j < |chain| && i < |chain[j].keys| && chain[j].keys[i] > hi && Ascending(ChainKeys(chain))
    ensures InRange(ChainKeys(chain), lo, hi) == InRange(ChainKeys(chain[..j]) + chain[j].keys[..i + 1], lo, hi)
  {
    var lk := chain[j].keys;
    ChainAt(chain, j);
    var w := ChainKeys(chain[..j]) + lk[..i + 1];
    var t := lk[i + 1..] + ChainKeys(chain[j + 1..]);
    assert lk == lk[..i + 1] + lk[i + 1..];
    assert ChainKeys(chain) == w + t;
    assert w[|w| - 1] == lk[i];
    RangeEnds(w, t, lo, hi);
  }

  /** The keys of the first j + 1 leaves are those of the first j and leaf j's. */
  lemma ChainNext(chain: seq<Node>, j: nat)
    requires j < |chain|
    ensures ChainKeys(chain[..j + 1]) == ChainKeys(chain[..j]) + chain[j].keys
  {
    assert chain[..j + 1][..j] == chain[..j];
  }

  /** rangeSearch's descent: from the root along findChildIndex's routing to the leaf startKey
   *  routes to, returned as its index in the leaf chain. Every key in the leaves before it is
   *  below startKey. */
  method DescendToLeaf(root: Node, chain: seq<Node>, startKey: int) returns (li: nat)
    requires Shaped(root) && ValidateNode(root, None, None) && chain == Leaves(root)
    ensures li <= |chain| && AllBelow(ChainKeys(chain[..li]), startKey)
  {
    var node := root;
    li := 0;
    ghost var lo: Option<int>, hi: Option<int> := None, None;
    ghost var pre, post: seq<Node> := [], [];
    while node.Internal?
      invariant Shaped(node) && ValidateNode(node, lo, hi)
      invariant chain == pre + Leaves(node) + post && li == |pre|
      invariant AllBelow(ChainKeys(pre), startKey)
      decreases node
    {
      var i := FindChildIndex(node.keys, startKey);
      var cs := node.children;
      lo, hi, pre, post := RangeStep(node, lo, hi, startKey, chain, pre, post);
      li := li + |LeavesOf(cs[..i])|;
      node := cs[i];
    }
    assert chain[..li] == pre;
  }

  /** rangeSearch: descend to the leaf startKey routes to, then walk the leaf chain collecting the
   *  keys in [startKey, endKey] and stop at the first key above endKey. On a valid tree this is
   *  every stored key in the range, in ascending order. */
  method RangeSearch(root: Node, chain: seq<Node>, startKey: int, endKey: int) returns (result: seq<int>)
    requires Shaped(root) && ValidateNode(root, None, None) && chain == Leaves(root)
    ensures result == InRange(Keys(root), startKey, endKey)
    ensures Ascending(result)
  {
    ValidKeys(root, None, None);
    InRangeAscending(Keys(root), startKey, endKey);
    var li := DescendToLeaf(root, chain, startKey);
    InRangeEmpty(ChainKeys(chain[..li]), startKey, endKey);
    result := CollectFrom(chain, li, startKey, endKey);
  }

  /** rangeSearch's walk: from leaf li along the `next` references, push every key in
   *  [startKey, endKey] and return at the first key above endKey. Starting past leaves with
   *  nothing in the range, this collects the range of the whole chain. */
  method CollectFrom(chain: seq<Node>, li: nat, startKey: int, endKey: int) returns (result: seq<int>)
    requires li <= |chain| && Ascending(ChainKeys(chain))
    requires InRange(ChainKeys(chain[..li]), startKey, endKey) == []
    ensures result == InRange(ChainKeys(chain), startKey, endKey)
  {
    result := [];
    var j := li;
    while j < |chain|
      invariant li <= j <= |chain|
      invariant result == InRange(ChainKeys(chain[..j]), startKey, endKey)
    {
      var leaf := chain[j];
      ghost var seen := ChainKeys(chain[..j]);
      var i := 0;
      assert seen + leaf.keys[..i] == seen;
      while i < |leaf.keys|
        invariant i <= |leaf.keys|
        invariant result == InRange(seen + leaf.keys[..i], startKey, endKey)
      {
        var k := leaf.keys[i];
        ScanPush(seen, leaf.keys, i, startKey, endKey);
        if startKey <= k <= endKey {
          result := result + [k];
        }
        if k > endKey {
          ScanStop(chain, j, i, startKey, endKey);
          return result;
        }
        i := i + 1;
      }
      assert leaf.keys[..i] == leaf.keys;
      ChainNext(chain, j);
      j := j + 1;
    }
    assert chain[..j] == chain;
  }
}
