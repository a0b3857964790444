/** Nodes of the B+ tree index (lib/bplus-tree.ts) and the structural facts every operation relies on.
 *
 *  A node is a value: a leaf holds ascending keys with one value list per key, an internal node
 *  holds separator keys and `keys.length + 1` children. The leaf chain that the source links with
 *  `next` references is the in-order sequence of leaves, `Leaves(n)`.
 */
module BPlusNodes {

  datatype Option<T> = None | Some(value: T)

  datatype Node =
    | Leaf(keys: seq<int>, values: seq<seq<int>>)
    | Internal(keys: seq<int>, children: seq<Node>)

  /** ceil(order / 2) - 1, the fewest keys a non-root node keeps before it underflows. */
  function MinKeys(order: int): int
  {
    (order + 1) / 2 - 1
  }

  lemma MinKeysPositive(order: int)
    requires order >= 3
    ensures 1 <= MinKeys(order) && 2 * MinKeys(order) <= order - 1
  {
  }

  // ---------------------------------------------------------------------------------------------
  // Ascending key sequences and the two positional searches

  ghost predicate Ascending(s: seq<int>)
  {
    forall i, j :: 0 <= i < j < |s| ==> s[i] < s[j]
  }

  /** The check validateNode makes: each key is greater than the one before it. */
  predicate AdjacentAscending(s: seq<int>)
  {
    forall i :: 0 < i < |s| ==> s[i - 1] < s[i]
  }

  lemma {:induction false} AdjacentChain(s: seq<int>, i: int, j: int)
    requires AdjacentAscending(s) && 0 <= i < j < |s|
    ensures s[i] < s[j]
    decreases j - i
  {
    if i + 1 < j {
      AdjacentChain(s, i, j - 1);
    }
  }

  /** Comparing neighbours is enough: the adjacent check holds exactly when all pairs are ordered. */
  lemma AdjacentAscendingIsAscending(s: seq<int>)
    ensures AdjacentAscending(s) <==> Ascending(s)
  {
    if AdjacentAscending(s) {
      forall i, j | 0 <= i < j < |s|
        ensures s[i] < s[j]
      {
        AdjacentChain(s, i, j);
      }
    }
  }

  /** findChildIndex: the number of leading separators <= key, so a key equal to a separator
   *  routes to the child on its right. */
  function ChildIndex(keys: seq<int>, key: int): (i: nat)
    ensures i <= |keys|
    ensures forall j :: 0 <= j < i ==> keys[j] <= key
    ensures i < |keys| ==> key < keys[i]
  {
    if |keys| == 0 || key < keys[0] then 0 else 1 + ChildIndex(keys[1..], key)
  }

  /** The index findInsertPosition reports on ascending keys: that of an equal key if there is one,
   *  otherwise that of the first greater key (|keys| when there is none). */
  function InsertPosition(keys: seq<int>, key: int): (p: nat)
    ensures p <= |keys|
    ensures forall j :: 0 <= j < p ==> keys[j] < key
    ensures p < |keys| ==> key <= keys[p]
  {
    if |keys| == 0 || key <= keys[0] then 0 else 1 + InsertPosition(keys[1..], key)
  }

  /** The position is the only index with smaller keys before it and no smaller key at it. */
  lemma {:induction false} InsertPositionUnique(keys: seq<int>, key: int, p: nat)
    requires p <= |keys|
    requires forall j :: 0 <= j < p ==> keys[j] < key
    requires p < |keys| ==> key <= keys[p]
    ensures p == InsertPosition(keys, key)
  {
    if |keys| > 0 && keys[0] < key {
      InsertPositionUnique(keys[1..], key, p - 1);
    }
  }

  /** Likewise the child index is the only index with no greater key before it and a greater key at it. */
  lemma {:induction false} ChildIndexUnique(keys: seq<int>, key: int, i: nat)
    requires i <= |keys|
    requires forall j :: 0 <= j < i ==> keys[j] <= key
    requires i < |keys| ==> key < keys[i]
    ensures i == ChildIndex(keys, key)
  {
    if |keys| > 0 && keys[0] <= key {
      ChildIndexUnique(keys[1..], key, i - 1);
    }
  }

  /** On ascending keys the position found is where the key sits when it is present. */
  lemma InsertPositionFinds(keys: seq<int>, key: int)
    requires Ascending(keys)
    ensures var p := InsertPosition(keys, key);
            (key in keys <==> p < |keys| && keys[p] == key)
  {
    var p := InsertPosition(keys, key);
    if key in keys {
      var j :| 0 <= j < |keys| && keys[j] == key;
      InsertPositionUnique(keys, key, j);
    }
  }

  /** Keys that are all smaller than `key` shift its position by their number. */
  lemma InsertPositionAfter(a: seq<int>, b: seq<int>, key: int)
    requires AllBelow(a, key)
    ensures InsertPosition(a + b, key) == |a| + InsertPosition(b, key)
  {
    var q := InsertPosition(b, key);
    InsertPositionUnique(a + b, key, |a| + q);
  }

  /** Keys that are all above `key` and come after do not move its position. */
  lemma InsertPositionBefore(a: seq<int>, b: seq<int>, key: int)
    requires AllAbove(b, key)
    ensures InsertPosition(a + b, key) == InsertPosition(a, key)
  {
    var q := InsertPosition(a, key);
    InsertPositionUnique(a + b, key, q);
  }

  /** findChildIndex as the source writes it: a scan that stops at the first separator above the key. */
  method FindChildIndex(keys: seq<int>, key: int) returns (i: nat)
    ensures i == ChildIndex(keys, key)
  {
    if |keys| == 0 {
      return 0;
    }
    i := 0;
    while i < |keys| && key >= keys[i]
      invariant i <= |keys|
      invariant forall j :: 0 <= j < i ==> keys[j] <= key
    {
      i := i + 1;
    }
    ChildIndexUnique(keys, key, i);
  }

  /** findInsertPosition: a binary search that, on ascending keys, lands on InsertPosition. */
  method FindInsertPosition(keys: seq<int>, key: int) returns (p: int)
    ensures 0 <= p <= |keys|
    ensures Ascending(keys) ==> p == InsertPosition(keys, key)
  {
    var left, right := 0, |keys| - 1;
    while left <= right
      invariant 0 <= left <= right + 1 <= |keys|
      invariant Ascending(keys) ==> forall j :: 0 <= j < left ==> keys[j] < key
      invariant Ascending(keys) ==> forall j :: right < j < |keys| ==> key < keys[j]
    {
      var mid := (left + right) / 2;
      if keys[mid] == key {
        if Ascending(keys) {
          InsertPositionUnique(keys, key, mid);
        }
        return mid;
      } else if keys[mid] < key {
        left := mid + 1;
      } else {
        right := mid - 1;
      }
    }
    if Ascending(keys) {
      InsertPositionUnique(keys, key, left);
    }
    return left;
  }

  /** Array.prototype.indexOf: the first index holding x, or -1. */
  function IndexOf(s: seq<int>, x: int): (i: int)
    ensures -1 <= i < |s|
    ensures 0 <= i ==> s[i] == x && forall j :: 0 <= j < i ==> s[j] != x
    ensures i < 0 ==> x !in s
  {
    if |s| == 0 then -1
    else if s[0] == x then 0
    else
      var r := IndexOf(s[1..], x);
      if r < 0 then -1 else r + 1
  }

  // ---------------------------------------------------------------------------------------------
  // Separator bounds and validateNode

  predicate AtLeast(k: int, lo: Option<int>)
  {
    lo.None? || lo.value <= k
  }

  predicate Below(k: int, hi: Option<int>)
  {
    hi.None? || k < hi.value
  }

  /** The bound a child inherits on its left: the parent's own for the first child, else a separator. */
  function LowerOf(lo: Option<int>, ks: seq<int>, i: nat): Option<int>
    requires i <= |ks|
  {
    if i == 0 then lo else Some(ks[i - 1])
  }

  /** The bound a child inherits on its right: the parent's own for the last child, else a separator. */
  function UpperOf(hi: Option<int>, ks: seq<int>, i: nat): Option<int>
    requires i <= |ks|
  {
    if i == |ks| then hi else Some(ks[i])
  }

  /** validateNode(node, min, max): keys strictly ascending, the first at least `lo`, the last
   *  below `hi`, and for an internal node keys.length + 1 children, each valid between the
   *  separators around it. The console.error calls are logging and are left out. */
  function ValidateNode(n: Node, lo: Option<int>, hi: Option<int>): bool
    decreases n
  {
    AdjacentAscending(n.keys)
    && (lo.Some? && |n.keys| > 0 ==> n.keys[0] >= lo.value)
    && (hi.Some? && |n.keys| > 0 ==> n.keys[|n.keys| - 1] < hi.value)
    && match n
       case Leaf(_, _) => true
       case Internal(ks, cs) =>
         |cs| == |ks| + 1
         && forall i :: 0 <= i < |cs| ==> ValidateNode(cs[i], LowerOf(lo, ks, i), UpperOf(hi, ks, i))
  }

  // ---------------------------------------------------------------------------------------------
  // Shape, balance and occupancy

  /** Each leaf has one value list per key; each internal node has keys.length + 1 children. */
  ghost predicate Shaped(n: Node)
  {
    match n
    case Leaf(ks, vs) => |vs| == |ks|
    case Internal(ks, cs) => |cs| == |ks| + 1 && forall i :: 0 <= i < |cs| ==> Shaped(cs[i])
  }

  /** Every leaf lies at depth h counted from n (a leaf itself has height 1). */
  ghost predicate Balanced(n: Node, h: nat)
  {
    match n
    case Leaf(_, _) => h == 1
    case Internal(_, cs) => h > 1 && forall i :: 0 <= i < |cs| ==> Balanced(cs[i], h - 1)
  }

  /** Every node holds at least one key: true of every non-root node of the index. */
  ghost predicate Populated(n: Node)
  {
    |n.keys| >= 1
    && (n.Internal? ==> forall i :: 0 <= i < |n.children| ==> Populated(n.children[i]))
  }

  /** Every proper subtree is populated; n itself may be short (an empty root leaf, a node that
   *  has just lost a key). */
  ghost predicate ChildrenPopulated(n: Node)
  {
    n.Internal? ==> forall i :: 0 <= i < |n.children| ==> Populated(n.children[i])
  }

  /** calculateHeight: one more than the height of the leftmost child. */
  function CalcHeight(n: Node): (h: nat)
    ensures h >= 1 && (n.Leaf? ==> h == 1)
  {
    match n
    case Leaf(_, _) => 1
    case Internal(_, cs) => if |cs| == 0 then 1 else 1 + CalcHeight(cs[0])
  }

  lemma {:induction false} BalancedHeight(n: Node, h: nat)
    requires Shaped(n) && Balanced(n, h)
    ensures CalcHeight(n) == h
  {
    match n
    case Leaf(_, _) =>
    case Internal(_, cs) =>
      BalancedHeight(cs[0], h - 1);
  }

  // ---------------------------------------------------------------------------------------------
  // The leaf chain and what it holds

  /** The leaves from left to right: the order rebuildLeafLinks links them in and the order the
   *  splits and merges keep the `next` references in. */
  function Leaves(n: Node): seq<Node>
    decreases n
  {
    match n
    case Leaf(_, _) => [n]
    case Internal(_, cs) => LeavesOf(cs)
  }

  function LeavesOf(cs: seq<Node>): seq<Node>
    decreases cs
  {
    if cs == [] then [] else LeavesOf(cs[..|cs| - 1]) + Leaves(cs[|cs| - 1])
  }

  /** The keys met walking a chain of leaves. */
  function ChainKeys(ls: seq<Node>): seq<int>
  {
    if ls == [] then [] else ChainKeys(ls[..|ls| - 1]) + ls[|ls| - 1].keys
  }

  /** The value lists met walking a chain of leaves. */
  ghost function ChainValues(ls: seq<Node>): seq<seq<int>>
  {
    if ls == [] then []
    else ChainValues(ls[..|ls| - 1]) + match ls[|ls| - 1] case Leaf(_, vs) => vs case Internal(_, _) => []
  }

  /** All keys stored in the subtree, in chain order. */
  ghost function Keys(n: Node): seq<int>
  {
    ChainKeys(Leaves(n))
  }

  /** All value lists stored in the subtree, in chain order (parallel to Keys). */
  ghost function Values(n: Node): seq<seq<int>>
  {
    ChainValues(Leaves(n))
  }

  ghost function CountNodes(n: Node): nat
    decreases n
  {
    match n
    case Leaf(_, _) => 1
    case Internal(_, cs) => 1 + CountNodesOf(cs)
  }

  ghost function CountNodesOf(cs: seq<Node>): nat
    decreases cs
  {
    if cs == [] then 0 else CountNodesOf(cs[..|cs| - 1]) + CountNodes(cs[|cs| - 1])
  }

  // ---------------------------------------------------------------------------------------------
  // Concatenation laws

  lemma {:induction false} LeavesOfAppend(a: seq<Node>, b: seq<Node>)
    ensures LeavesOf(a + b) == LeavesOf(a) + LeavesOf(b)
    decreases |b|
  {
    if b == [] {
      assert a + b == a;
    } else {
      assert (a + b)[..|a + b| - 1] == a + b[..|b| - 1];
      LeavesOfAppend(a, b[..|b| - 1]);
    }
  }

  lemma {:induction false} ChainKeysAppend(a: seq<Node>, b: seq<Node>)
    ensures ChainKeys(a + b) == ChainKeys(a) + ChainKeys(b)
    decreases |b|
  {
    if b == [] {
      assert a + b == a;
    } else {
      assert (a + b)[..|a + b| - 1] == a + b[..|b| - 1];
      ChainKeysAppend(a, b[..|b| - 1]);
    }
  }

  lemma {:induction false} ChainValuesAppend(a: seq<Node>, b: seq<Node>)
    ensures ChainValues(a + b) == ChainValues(a) + ChainValues(b)
    decreases |b|
  {
    if b == [] {
      assert a + b == a;
    } else {
      assert (a + b)[..|a + b| - 1] == a + b[..|b| - 1];
      ChainValuesAppend(a, b[..|b| - 1]);
    }
  }

  lemma {:induction false} CountNodesOfAppend(a: seq<Node>, b: seq<Node>)
    ensures CountNodesOf(a + b) == CountNodesOf(a) + CountNodesOf(b)
    decreases |b|
  {
    if b == [] {
      assert a + b == a;
    } else {
      assert (a + b)[..|a + b| - 1] == a + b[..|b| - 1];
      CountNodesOfAppend(a, b[..|b| - 1]);
    }
  }

  lemma LeavesOfOne(x: Node)
    ensures LeavesOf([x]) == Leaves(x)
    ensures CountNodesOf([x]) == CountNodes(x)
  {
    assert [x][..0] == [];
  }

  lemma SplitSeq<T>(s: seq<T>, c: nat)
    requires c < |s|
    ensures s == s[..c] + [s[c]] + s[c + 1..]
  {
    assert s[..c + 1] == s[..c] + [s[c]];
    assert s == s[..c + 1] + s[c + 1..];
  }

  /** Keys, value lists, leaves and node count of a children sequence, split around child c. */
  lemma SplitAround(cs: seq<Node>, c: nat)
    requires c < |cs|
    ensures LeavesOf(cs) == LeavesOf(cs[..c]) + Leaves(cs[c]) + LeavesOf(cs[c + 1..])
    ensures CountNodesOf(cs) == CountNodesOf(cs[..c]) + CountNodes(cs[c]) + CountNodesOf(cs[c + 1..])
  {
    var a, x, b := cs[..c], cs[c], cs[c + 1..];
    SplitSeq(cs, c);
    LeavesOfAppend(a + [x], b);
    LeavesOfAppend(a, [x]);
    CountNodesOfAppend(a + [x], b);
    CountNodesOfAppend(a, [x]);
    LeavesOfOne(x);
  }

  /** What a chain of leaves holds, split around one part of it. */
  lemma ChainAround(a: seq<Node>, m: seq<Node>, b: seq<Node>)
    ensures ChainKeys(a + m + b) == ChainKeys(a) + ChainKeys(m) + ChainKeys(b)
    ensures ChainValues(a + m + b) == ChainValues(a) + ChainValues(m) + ChainValues(b)
  {
    ChainKeysAppend(a + m, b);
    ChainKeysAppend(a, m);
    ChainValuesAppend(a + m, b);
    ChainValuesAppend(a, m);
  }

  lemma ChainOfLeaf(x: Node)
    requires x.Leaf?
    ensures ChainKeys([x]) == x.keys && ChainValues([x]) == x.values
  {
    assert [x][..0] == [];
  }

  // ---------------------------------------------------------------------------------------------
  // What validateNode guarantees about the keys of a subtree

  /** The keys along the chains of a run of sibling subtrees, and their value lists. */
  ghost function KeysOf(cs: seq<Node>): seq<int>
  {
    ChainKeys(LeavesOf(cs))
  }

  ghost function ValuesOf(cs: seq<Node>): seq<seq<int>>
  {
    ChainValues(LeavesOf(cs))
  }

  ghost predicate AllWithin(s: seq<int>, lo: Option<int>, hi: Option<int>)
  {
    forall i :: 0 <= i < |s| ==> AtLeast(s[i], lo) && Below(s[i], hi)
  }

  ghost predicate AllBelow(s: seq<int>, key: int)
  {
    forall i :: 0 <= i < |s| ==> s[i] < key
  }

  ghost predicate AllAbove(s: seq<int>, key: int)
  {
    forall i :: 0 <= i < |s| ==> key < s[i]
  }

  /** lo2 admits every key lo admits. */
  predicate LooserLower(lo2: Option<int>, lo: Option<int>)
  {
    lo2.None? || (lo.Some? && lo2.value <= lo.value)
  }

  /** hi2 admits every key hi admits. */
  predicate LooserUpper(hi2: Option<int>, hi: Option<int>)
  {
    hi2.None? || (hi.Some? && hi.value <= hi2.value)
  }

  lemma AllWithinLoosen(s: seq<int>, lo: Option<int>, hi: Option<int>, lo2: Option<int>, hi2: Option<int>)
    requires AllWithin(s, lo, hi) && LooserLower(lo2, lo) && LooserUpper(hi2, hi)
    ensures AllWithin(s, lo2, hi2)
  {
  }

  /** Two ascending runs on either side of m join into one ascending run within the outer bounds. */
  lemma AscendingJoin(a: seq<int>, b: seq<int>, lo: Option<int>, m: int, hi: Option<int>)
    requires Ascending(a) && AllWithin(a, lo, Some(m))
    requires Ascending(b) && AllWithin(b, Some(m), hi)
    requires LooserLower(lo, Some(m)) && LooserUpper(hi, Some(m))
    ensures Ascending(a + b) && AllWithin(a + b, lo, hi)
  {
    var ab := a + b;
    forall i, j | 0 <= i < j < |ab|
      ensures ab[i] < ab[j]
    {
      if j < |a| {
        assert ab[i] == a[i] && ab[j] == a[j];
      } else if i < |a| {
        assert ab[i] == a[i] && ab[j] == b[j - |a|];
      } else {
        assert ab[i] == b[i - |a|] && ab[j] == b[j - |a|];
      }
    }
    forall i | 0 <= i < |ab|
      ensures AtLeast(ab[i], lo) && Below(ab[i], hi)
    {
      if i < |a| {
        assert ab[i] == a[i];
      } else {
        assert ab[i] == b[i - |a|];
      }
    }
  }

  /** The chain of the first j children is that of the first j - 1 followed by child j - 1's. */
  lemma PrefixStep(cs: seq<Node>, j: nat)
    requires 1 <= j <= |cs|
    ensures KeysOf(cs[..j]) == KeysOf(cs[..j - 1]) + Keys(cs[j - 1])
    ensures ValuesOf(cs[..j]) == ValuesOf(cs[..j - 1]) + Values(cs[j - 1])
  {
    assert cs[..j][..j - 1] == cs[..j - 1];
    ChainKeysAppend(LeavesOf(cs[..j - 1]), Leaves(cs[j - 1]));
    ChainValuesAppend(LeavesOf(cs[..j - 1]), Leaves(cs[j - 1]));
  }

  /** The chain of the children from j on is child j's followed by that of the children after it. */
  lemma SuffixStep(cs: seq<Node>, j: nat)
    requires j < |cs|
    ensures KeysOf(cs[j..]) == Keys(cs[j]) + KeysOf(cs[j + 1..])
    ensures ValuesOf(cs[j..]) == Values(cs[j]) + ValuesOf(cs[j + 1..])
  {
    assert cs[j..] == [cs[j]] + cs[j + 1..];
    LeavesOfAppend([cs[j]], cs[j + 1..]);
    LeavesOfOne(cs[j]);
    ChainKeysAppend(Leaves(cs[j]), LeavesOf(cs[j + 1..]));
    ChainValuesAppend(Leaves(cs[j]), LeavesOf(cs[j + 1..]));
  }

  /** A subtree that validates between lo and hi stores, along its leaf chain, strictly ascending
   *  keys that all lie in [lo, hi). */
  lemma {:induction false} ValidKeys(n: Node, lo: Option<int>, hi: Option<int>)
    requires ValidateNode(n, lo, hi)
    ensures Ascending(Keys(n)) && AllWithin(Keys(n), lo, hi)
    decreases n, 1
  {
    match n
    case Leaf(ks, _) =>
      ChainOfLeaf(n);
      ValidLeafKeys(ks, lo, hi);
    case Internal(ks, cs) =>
      ValidKeysPrefix(n, lo, hi, |cs|);
      assert cs[..|cs|] == cs;
  }

  /** Keys ascending step by step, the first at least lo and the last below hi, all lie in
   *  [lo, hi). */
  lemma ValidLeafKeys(ks: seq<int>, lo: Option<int>, hi: Option<int>)
    requires AdjacentAscending(ks)
    requires lo.Some? && |ks| > 0 ==> ks[0] >= lo.value
    requires hi.Some? && |ks| > 0 ==> ks[|ks| - 1] < hi.value
    ensures Ascending(ks) && AllWithin(ks, lo, hi)
  {
    AdjacentAscendingIsAscending(ks);
    forall i | 0 <= i < |ks|
      ensures AtLeast(ks[i], lo) && Below(ks[i], hi)
    {
      if 0 < i {
        assert ks[0] < ks[i];
      }
      if i < |ks| - 1 {
        assert ks[i] < ks[|ks| - 1];
      }
    }
  }

  /** The separators bracket one another: the lower bound of child j is no tighter than that of
   *  any later child, and likewise for upper bounds. */
  lemma SeparatorBounds(n: Node, lo: Option<int>, hi: Option<int>, i: nat, j: nat)
    requires n.Internal? && ValidateNode(n, lo, hi) && i <= j <= |n.keys|
    ensures LooserLower(LowerOf(lo, n.keys, i), LowerOf(lo, n.keys, j))
    ensures LooserUpper(UpperOf(hi, n.keys, j), UpperOf(hi, n.keys, i))
  {
    var ks := n.keys;
    AdjacentAscendingIsAscending(ks);
    if 0 < i < j {
      assert ks[i - 1] < ks[j - 1];
    }
    if 0 == i < j && lo.Some? {
      assert ks[0] <= ks[j - 1];
    }
    if i < j < |ks| {
      assert ks[i] < ks[j];
    }
    if i < j == |ks| && hi.Some? {
      assert ks[i] <= ks[|ks| - 1];
    }
  }

  /** The first j children hold ascending keys within lo and the upper bound of child j - 1. */
  lemma {:induction false} ValidKeysPrefix(n: Node, lo: Option<int>, hi: Option<int>, j: nat)
    requires n.Internal? && ValidateNode(n, lo, hi) && 1 <= j <= |n.children|
    ensures Ascending(KeysOf(n.children[..j]))
    ensures AllWithin(KeysOf(n.children[..j]), lo, UpperOf(hi, n.keys, j - 1))
    decreases n, 0, j
  {
    var ks, cs := n.keys, n.children;
    ValidKeys(cs[j - 1], LowerOf(lo, ks, j - 1), UpperOf(hi, ks, j - 1));
    PrefixStep(cs, j);
    if j == 1 {
      assert cs[..0] == [];
      assert KeysOf(cs[..j]) == Keys(cs[0]);
    } else {
      ValidKeysPrefix(n, lo, hi, j - 1);
      SeparatorBounds(n, lo, hi, 0, j - 1);
      SeparatorBounds(n, lo, hi, j - 2, j - 1);
      AscendingJoin(KeysOf(cs[..j - 1]), Keys(cs[j - 1]), lo, ks[j - 2], UpperOf(hi, ks, j - 1));
    }
  }

  /** The children from j on hold ascending keys within the lower bound of child j and hi. */
  lemma {:induction false} ValidKeysSuffix(n: Node, lo: Option<int>, hi: Option<int>, j: nat)
    requires n.Internal? && ValidateNode(n, lo, hi) && j < |n.children|
    ensures Ascending(KeysOf(n.children[j..]))
    ensures AllWithin(KeysOf(n.children[j..]), LowerOf(lo, n.keys, j), hi)
    decreases n, 0, |n.children| - j
  {
    var ks, cs := n.keys, n.children;
    ValidKeys(cs[j], LowerOf(lo, ks, j), UpperOf(hi, ks, j));
    SuffixStep(cs, j);
    if j == |cs| - 1 {
      assert cs[j + 1..] == [];
      assert KeysOf(cs[j..]) == Keys(cs[j]);
    } else {
      ValidKeysSuffix(n, lo, hi, j + 1);
      SeparatorBounds(n, lo, hi, j, j + 1);
      SeparatorBounds(n, lo, hi, j + 1, |ks|);
      AscendingJoin(Keys(cs[j]), KeysOf(cs[j + 1..]), LowerOf(lo, ks, j), ks[j], hi);
    }
  }

  /** What an internal node holds, split around child c. */
  lemma ContentsAround(n: Node, c: nat)
    requires n.Internal? && c < |n.children|
    ensures Keys(n) == KeysOf(n.children[..c]) + Keys(n.children[c]) + KeysOf(n.children[c + 1..])
    ensures Values(n) == ValuesOf(n.children[..c]) + Values(n.children[c]) + ValuesOf(n.children[c + 1..])
  {
    var cs := n.children;
    SplitAround(cs, c);
    ChainAround(LeavesOf(cs[..c]), Leaves(cs[c]), LeavesOf(cs[c + 1..]));
  }

  /** Where a key descends to: the keys of the children left of child c = ChildIndex(ks, key) are
   *  all below the key, those right of it all above, and the key keeps within child c's bounds. */
  lemma Route(n: Node, lo: Option<int>, hi: Option<int>, key: int, c: nat)
    requires n.Internal? && ValidateNode(n, lo, hi) && c == ChildIndex(n.keys, key)
    ensures c < |n.children|
    ensures AllBelow(KeysOf(n.children[..c]), key) && AllAbove(KeysOf(n.children[c + 1..]), key)
    ensures ValidateNode(n.children[c], LowerOf(lo, n.keys, c), UpperOf(hi, n.keys, c))
    ensures AtLeast(key, lo) ==> AtLeast(key, LowerOf(lo, n.keys, c))
    ensures Below(key, hi) ==> Below(key, UpperOf(hi, n.keys, c))
  {
    RouteLeft(n, lo, hi, key, c);
    RouteRight(n, lo, hi, key, c);
  }

  lemma RouteLeft(n: Node, lo: Option<int>, hi: Option<int>, key: int, c: nat)
    requires n.Internal? && ValidateNode(n, lo, hi) && c == ChildIndex(n.keys, key)
    ensures c < |n.children| && AllBelow(KeysOf(n.children[..c]), key)
  {
    var ks, cs := n.keys, n.children;
    if c > 0 {
      ValidKeysPrefix(n, lo, hi, c);
      WithinBelow(KeysOf(cs[..c]), lo, ks[c - 1], key);
    } else {
      assert cs[..c] == [];
    }
  }

  lemma RouteRight(n: Node, lo: Option<int>, hi: Option<int>, key: int, c: nat)
    requires n.Internal? && ValidateNode(n, lo, hi) && c == ChildIndex(n.keys, key)
    ensures c < |n.children| && AllAbove(KeysOf(n.children[c + 1..]), key)
  {
    var ks, cs := n.keys, n.children;
    if c < |ks| {
      ValidKeysSuffix(n, lo, hi, c + 1);
      WithinAbove(KeysOf(cs[c + 1..]), ks[c], hi, key);
    } else {
      assert cs[c + 1..] == [];
    }
  }

  lemma WithinBelow(s: seq<int>, lo: Option<int>, b: int, key: int)
    requires AllWithin(s, lo, Some(b)) && b <= key
    ensures AllBelow(s, key)
  {
  }

  lemma WithinAbove(s: seq<int>, b: int, hi: Option<int>, key: int)
    requires AllWithin(s, Some(b), hi) && key < b
    ensures AllAbove(s, key)
  {
  }

  // ---------------------------------------------------------------------------------------------
  // getLeafDepths and validate

  /** getLeafDepths: the depth of every leaf, in chain order. */
  function LeafDepths(n: Node, depth: int): seq<int>
    decreases n
  {
    match n
    case Leaf(_, _) => [depth]
    case Internal(_, cs) => DepthsOf(cs, depth + 1)
  }

  function DepthsOf(cs: seq<Node>, depth: int): seq<int>
    decreases cs
  {
    if cs == [] then [] else DepthsOf(cs[..|cs| - 1], depth) + LeafDepths(cs[|cs| - 1], depth)
  }

  /** The set of depths has at most one element. */
  predicate AllSame(s: seq<int>)
  {
    forall i :: 0 <= i < |s| ==> s[i] == s[0]
  }

  /** validate(): all leaves at one depth, then validateNode from the root with no bounds. */
  function Validate(root: Node): bool
  {
    AllSame(LeafDepths(root, 1)) && ValidateNode(root, None, None)
  }
}
