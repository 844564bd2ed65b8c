/** The linked binary search tree: nodes whose key and child links are updated in place,
    and the tree object holding the root link. Every node carries, as ghost state, the set
    of nodes reachable from it and the abstract tree they represent, and each operation is
    proved against the pure specification of module Trees. */
module Bst {
  import opened SortedMerge
  import opened Trees
  import opened Rebuild

  class Node {
    var key: int
    var left: Node?
    var right: Node?
    /** The nodes reachable from this one, itself included. */
    ghost var Repr: set<Node>
    /** The abstract tree rooted at this node. */
    ghost var Model: Tree

    /** The two subtrees are separate trees that do not contain this node, and the ghost
        state is exactly the reachable nodes and the tree they spell. */
    ghost predicate Valid()
      reads this, Repr
      decreases Repr
    {
      this in Repr &&
      (left != null ==>
        left in Repr && left.Repr <= Repr && this !in left.Repr && left.Valid()) &&
      (right != null ==>
        right in Repr && right.Repr <= Repr && this !in right.Repr && right.Valid()) &&
      Footprint(left) !! Footprint(right) &&
      Repr == {this} + Footprint(left) + Footprint(right) &&
      Model == Trees.Node(key, ModelOf(left), ModelOf(right))
    }

    /** A leaf node holding `item`. */
    constructor (item: int)
      ensures Valid() && fresh(Repr)
      ensures Model == Trees.Node(item, Leaf, Leaf)
    {
      key := item;
      left := null;
      right := null;
      Repr := {this};
      Model := Trees.Node(item, Leaf, Leaf);
    }
  }

  /** The nodes of the subtree behind a link; none for the null link. */
  ghost function Footprint(n: Node?): set<Node>
    reads n
  {
    if n == null then {} else n.Repr
  }

  /** The abstract tree behind a link; the empty tree for the null link. */
  ghost function ModelOf(n: Node?): Tree
    reads n
  {
    if n == null then Leaf else n.Model
  }

  ghost predicate ValidLink(n: Node?)
    reads n, Footprint(n)
  {
    n != null ==> n.Valid()
  }

  /** Every node reachable from a valid node is valid, and reaches no further. */
  lemma {:induction false} ReprValid(n: Node, m: Node)
    requires n.Valid() && m in n.Repr
    ensures m.Valid() && m.Repr <= n.Repr
    decreases n.Repr
  {
    if m != n {
      if m in Footprint(n.left) {
        ReprValid(n.left, m);
      } else {
        ReprValid(n.right, m);
      }
    }
  }

  /** Points `n` at the children `l` and `r` (one of which is its current child) and sets
      its ghost state from them. */
  method Relink(n: Node, l: Node?, r: Node?)
    requires ValidLink(l) && ValidLink(r)
    requires n !in Footprint(l) && n !in Footprint(r)
    requires Footprint(l) !! Footprint(r)
    modifies n`left, n`right, n`Repr, n`Model
    ensures n.left == l && n.right == r && n.Valid()
    ensures n.Repr == {n} + old(Footprint(l)) + old(Footprint(r))
    ensures n.Model == Trees.Node(n.key, old(ModelOf(l)), old(ModelOf(r)))
  {
    n.left, n.right := l, r;
    Refresh(n);
  }

  /** Sets the ghost state of `n` from its current links, after a child link changed. */
  method Refresh(n: Node)
    requires ValidLink(n.left) && ValidLink(n.right)
    requires n !in Footprint(n.left) && n !in Footprint(n.right)
    requires Footprint(n.left) !! Footprint(n.right)
    modifies n`Repr, n`Model
    ensures n.Valid()
    ensures n.Repr == {n} + Footprint(n.left) + Footprint(n.right)
    ensures n.Model == Trees.Node(n.key, ModelOf(n.left), ModelOf(n.right))
  {
    n.Repr := {n} + Footprint(n.left) + Footprint(n.right);
    n.Model := Trees.Node(n.key, ModelOf(n.left), ModelOf(n.right));
  }

  /** Insert below `root`: a new leaf at the empty link the key's comparisons lead to. A key
      already on that path is the duplicate-key exception, and then nothing has changed. */
  method InsertNode(root: Node?, key: int) returns (r: Result<Node?>)
    requires ValidLink(root)
    modifies Footprint(root)
    ensures r.Ok? ==> ValidLink(r.value) && Trees.Insert(old(ModelOf(root)), key) == Ok(ModelOf(r.value))
    ensures r.Ok? ==> old(Footprint(root)) <= Footprint(r.value)
    ensures r.Ok? ==> fresh(Footprint(r.value) - old(Footprint(root)))
    ensures r.Err? ==> r.error == DuplicateKey && Trees.Insert(old(ModelOf(root)), key).Err?
    ensures r.Err? ==> unchanged(old(Footprint(root)))
    decreases Footprint(root)
  {
    if root == null {
      var n := new Node(key);
      return Ok(n);
    }
    ghost var leftNodes, rightNodes := Footprint(root.left), Footprint(root.right);
    ghost var leftTree, rightTree := ModelOf(root.left), ModelOf(root.right);
    assert root.Model == Trees.Node(root.key, leftTree, rightTree);
    if key < root.key {
      assert ValidLink(root.right);
      var sub := InsertNode(root.left, key);
      if sub.Err? {
        return sub;
      }
      assert Footprint(root.right) == rightNodes && ModelOf(root.right) == rightTree;
      assert Trees.Insert(old(root.Model), key) == Ok(Trees.Node(root.key, ModelOf(sub.value), rightTree));
      Relink(root, sub.value, root.right);
      assert root.Repr - old(root.Repr) <= Footprint(sub.value) - leftNodes;
      return Ok(root);
    }
    if key > root.key {
      assert ValidLink(root.left);
      var sub := InsertNode(root.right, key);
      if sub.Err? {
        return sub;
      }
      assert Footprint(root.left) == leftNodes && ModelOf(root.left) == leftTree;
      assert Trees.Insert(old(root.Model), key) == Ok(Trees.Node(root.key, leftTree, ModelOf(sub.value)));
      Relink(root, root.left, sub.value);
      assert root.Repr - old(root.Repr) <= Footprint(sub.value) - rightNodes;
      return Ok(root);
    }
    return Err(DuplicateKey);
  }

  /** Delete `key` below `node`; the returned link replaces `node` in its parent. */
  method DeleteNode(node: Node?, key: int) returns (r: Node?)
    requires ValidLink(node)
    modifies Footprint(node)
    ensures ValidLink(r)
    ensures ModelOf(r) == Trees.Delete(old(ModelOf(node)), key)
    ensures Footprint(r) <= old(Footprint(node))
    decreases Footprint(node), 1
  {
    if node == null {
      return null;
    }
    if key < node.key {
      assert ValidLink(node.right);
      var sub := DeleteNode(node.left, key);
      Relink(node, sub, node.right);
      return node;
    }
    if key > node.key {
      assert ValidLink(node.left);
      var sub := DeleteNode(node.right, key);
      Relink(node, node.left, sub);
      return node;
    }
    if node.left == null {
      return node.right;
    }
    if node.right == null {
      return node.left;
    }
    DeleteRootWithBothChildren(node);
    return node;
  }

  /** A node with two children takes the least key of its right subtree, which is then
      deleted from that subtree. */
  method DeleteRootWithBothChildren(root: Node)
    requires root.Valid() && root.left != null && root.right != null
    modifies root.Repr
    ensures root.Valid()
    ensures root.Model == Trees.Delete(old(root.Model), old(root.key))
    ensures root.Repr <= old(root.Repr)
    decreases root.Repr, 0
  {
    var min := GetMinValue(root.right);
    var key := min.value;
    root.key := key;
    assert ValidLink(root.left);
    var sub := DeleteNode(root.right, key);
    Relink(root, root.left, sub);
  }

  /** The key of the leftmost node below `root`, found by following left links; an empty
      subtree is the empty-tree exception. */
  method GetMinValue(root: Node?) returns (r: Result<int>)
    requires ValidLink(root)
    ensures root == null ==> r == Err(EmptyTree)
    ensures root != null ==> r == Ok(Leftmost(root.Model))
  {
    if root == null {
      return Err(EmptyTree);
    }
    var n: Node := root;
    while n.left != null
      invariant n.Valid() && Leftmost(n.Model) == Leftmost(root.Model)
      decreases n.Repr
    {
      n := n.left;
    }
    return Ok(n.key);
  }

  /** Height below `node`: zero for the empty link, else one more than the higher child. */
  function NodeHeight(node: Node?): (h: nat)
    requires ValidLink(node)
    reads node, Footprint(node)
    ensures h == Height(ModelOf(node))
    decreases Footprint(node)
  {
    if node == null then 0
    else
      var leftHeight := NodeHeight(node.left);
      var rightHeight := NodeHeight(node.right);
      var maxChildHeight := if leftHeight > rightHeight then leftHeight else rightHeight;
      1 + maxChildHeight
  }

  /** Search by comparison from `node`. A true answer always names a key of the subtree,
      and on an ordered subtree every key present is found. */
  function FindNode(node: Node?, key: int): (b: bool)
    requires ValidLink(node)
    reads node, Footprint(node)
    ensures b ==> key in Keys(ModelOf(node))
    ensures IsBST(ModelOf(node)) && key in Keys(ModelOf(node)) ==> b
    decreases Footprint(node)
  {
    if node == null then false
    else if node.key == key then true
    else
      assert ModelOf(node) == Trees.Node(node.key, ModelOf(node.left), ModelOf(node.right));
      SearchStep(ModelOf(node), key);
      if key < node.key then FindNode(node.left, key)
      else FindNode(node.right, key)
  }

  /** Appends the in-order keys below `root` to the accumulator `list`. */
  method InOrderListHelper(root: Node?, list: seq<int>) returns (out: seq<int>)
    requires ValidLink(root)
    ensures out == list + InOrder(ModelOf(root))
    decreases Footprint(root)
  {
    if root == null {
      return list;
    }
    out := InOrderListHelper(root.left, list);
    out := out + [root.key];
    out := InOrderListHelper(root.right, out);
  }

  /** Appends the pre-order keys below `root` to the accumulator `list`. */
  method PreOrderListHelper(root: Node?, list: seq<int>) returns (out: seq<int>)
    requires ValidLink(root)
    ensures out == list + PreOrder(ModelOf(root))
    decreases Footprint(root)
  {
    if root == null {
      return list;
    }
    out := list + [root.key];
    out := PreOrderListHelper(root.left, out);
    out := PreOrderListHelper(root.right, out);
  }

  /** Appends the post-order keys below `root` to the accumulator `list`. */
  method PostOrderListHelper(root: Node?, list: seq<int>) returns (out: seq<int>)
    requires ValidLink(root)
    ensures out == list + PostOrder(ModelOf(root))
    decreases Footprint(root)
  {
    if root == null {
      return list;
    }
    out := PostOrderListHelper(root.left, list);
    out := PostOrderListHelper(root.right, out);
    out := out + [root.key];
  }

  /** The two-pointer merge of two ascending key lists, taking the right-hand head on equal keys. */
  method MergeSortedLists(leftSortedValues: seq<int>, rightSortedValues: seq<int>) returns (list: seq<int>)
    ensures list == MergeBy(leftSortedValues, rightSortedValues, Identity)
  {
    var a, b := leftSortedValues, rightSortedValues;
    list := [];
    var leftIndex, rightIndex := 0, 0;
    while leftIndex < |a| && rightIndex < |b|
      invariant 0 <= leftIndex <= |a| && 0 <= rightIndex <= |b|
      invariant list + MergeBy(a[leftIndex..], b[rightIndex..], Identity) == MergeBy(a, b, Identity)
      decreases |a| + |b| - leftIndex - rightIndex
    {
      MergeLoopStep(list, a, b, leftIndex, rightIndex, Identity);
      var leftMin, rightMin := a[leftIndex], b[rightIndex];
      if leftMin < rightMin {
        list := list + [leftMin];
        leftIndex := leftIndex + 1;
      } else {
        list := list + [rightMin];
        rightIndex := rightIndex + 1;
      }
    }
    while leftIndex < |a|
      invariant 0 <= leftIndex <= |a|
      invariant list + MergeBy(a[leftIndex..], b[rightIndex..], Identity) == MergeBy(a, b, Identity)
      invariant leftIndex < |a| ==> rightIndex == |b|
    {
      MergeLoopStep(list, a, b, leftIndex, rightIndex, Identity);
      list := list + [a[leftIndex]];
      leftIndex := leftIndex + 1;
    }
    while rightIndex < |b|
      invariant 0 <= rightIndex <= |b|
      invariant list + MergeBy(a[leftIndex..], b[rightIndex..], Identity) == MergeBy(a, b, Identity)
      invariant leftIndex == |a|
    {
      MergeLoopStep(list, a, b, leftIndex, rightIndex, Identity);
      list := list + [b[rightIndex]];
      rightIndex := rightIndex + 1;
    }
    assert a[leftIndex..] == [] && b[rightIndex..] == [];
  }

  /** The keys the nodes of `ns` currently hold, in list order. */
  ghost function KeysOf(ns: seq<Node>): (r: seq<int>)
    reads ns`key
    ensures |r| == |ns|
  {
    if ns == [] then [] else [ns[0].key] + KeysOf(ns[1..])
  }

  lemma {:induction false} KeysOfAppend(xs: seq<Node>, ys: seq<Node>)
    ensures KeysOf(xs + ys) == KeysOf(xs) + KeysOf(ys)
  {
    if xs != [] {
      KeysOfAppend(xs[1..], ys);
      assert (xs + ys)[0] == xs[0] && (xs + ys)[1..] == xs[1..] + ys;
      calc {
        KeysOf(xs + ys);
        [xs[0].key] + KeysOf(xs[1..] + ys);
        [xs[0].key] + (KeysOf(xs[1..]) + KeysOf(ys));
        ([xs[0].key] + KeysOf(xs[1..])) + KeysOf(ys);
      }
    } else {
      assert xs + ys == ys;
    }
  }

  /** The nodes below `n` in in-order sequence. */
  ghost function NodeSeq(n: Node?): seq<Node>
    requires ValidLink(n)
    reads n, Footprint(n)
    decreases Footprint(n)
  {
    if n == null then [] else NodeSeq(n.left) + [n] + NodeSeq(n.right)
  }

  lemma NodeSeqUnfold(n: Node)
    requires n.Valid()
    ensures ValidLink(n.left) && ValidLink(n.right)
    ensures NodeSeq(n) == NodeSeq(n.left) + [n] + NodeSeq(n.right)
  {
  }

  /** The nodes in the in-order node sequence of a subtree are exactly its nodes. */
  lemma {:induction false} NodeSeqMembers(n: Node?)
    requires ValidLink(n)
    ensures Lists(NodeSeq(n), Footprint(n))
    decreases Footprint(n)
  {
    if n != null {
      assert ValidLink(n.left) && ValidLink(n.right);
      NodeSeqMembers(n.left);
      NodeSeqMembers(n.right);
    }
  }

  /** The in-order node sequence of a subtree lists each of its nodes exactly once. */
  lemma {:induction false} NodeSeqDistinct(n: Node?)
    requires ValidLink(n)
    ensures Distinct(NodeSeq(n))
    decreases Footprint(n)
  {
    if n != null {
      assert ValidLink(n.left) && ValidLink(n.right);
      NodeSeqDistinct(n.left);
      NodeSeqDistinct(n.right);
      NodeSeqMembers(n.left);
      NodeSeqMembers(n.right);
      assert forall m :: m in NodeSeq(n.left) ==> m in Footprint(n.left);
      assert forall m :: m in NodeSeq(n.right) ==> m in Footprint(n.right);
      DistinctJoin<Node>(NodeSeq(n.left), n, NodeSeq(n.right));
    }
  }

  /** The keys of the in-order node sequence are the in-order keys of the subtree. */
  lemma {:induction false} NodeSeqKeys(n: Node?)
    requires ValidLink(n)
    ensures KeysOf(NodeSeq(n)) == InOrder(ModelOf(n))
    decreases Footprint(n)
  {
    if n != null {
      assert ValidLink(n.left) && ValidLink(n.right);
      NodeSeqKeys(n.left);
      NodeSeqKeys(n.right);
      var ls, rs := NodeSeq(n.left), NodeSeq(n.right);
      KeysOfAppend(ls + [n], rs);
      KeysOfAppend(ls, [n]);
      assert KeysOf([n]) == [n.key];
    }
  }

  /** Appends the nodes below `root`, in in-order sequence, to the accumulator `list`. */
  function GetListOfSortedNodes(root: Node?, list: seq<Node>): (out: seq<Node>)
    requires ValidLink(root)
    reads root, Footprint(root)
    ensures out == list + NodeSeq(root)
    decreases Footprint(root)
  {
    if root == null then list
    else
      NodeSeqUnfold(root);
      assert list + (NodeSeq(root.left) + [root] + NodeSeq(root.right)) ==
        list + NodeSeq(root.left) + [root] + NodeSeq(root.right);
      GetListOfSortedNodes(root.right, GetListOfSortedNodes(root.left, list) + [root])
  }

  /** The two-pointer merge of node lists ordered by key, comparing the keys the nodes
      hold and taking the right-hand node on equal keys. */
  ghost function MergeNodes(a: seq<Node>, b: seq<Node>): seq<Node>
    reads a`key, b`key
    decreases |a| + |b|
  {
    if a == [] then b
    else if b == [] then a
    else if a[0].key < b[0].key then [a[0]] + MergeNodes(a[1..], b)
    else [b[0]] + MergeNodes(a, b[1..])
  }

  /** Merging nodes merges their keys exactly as the key-list merge does. */
  lemma {:induction false} MergeNodesKeys(a: seq<Node>, b: seq<Node>)
    ensures KeysOf(MergeNodes(a, b)) == MergeBy(KeysOf(a), KeysOf(b), Identity)
    decreases |a| + |b|
  {
    if a == [] || b == [] {
    } else if a[0].key < b[0].key {
      MergeNodesKeys(a[1..], b);
    } else {
      MergeNodesKeys(a, b[1..]);
    }
  }

  /** Merging nodes keeps every node of both inputs, as often as it occurs there. */
  lemma {:induction false} MergeNodesPermutation(a: seq<Node>, b: seq<Node>)
    ensures multiset(MergeNodes(a, b)) == multiset(a) + multiset(b)
    decreases |a| + |b|
  {
    if a == [] || b == [] {
    } else if a[0].key < b[0].key {
      MergeNodesPermutation(a[1..], b);
      assert a == [a[0]] + a[1..];
    } else {
      MergeNodesPermutation(a, b[1..]);
      assert b == [b[0]] + b[1..];
    }
  }

  /** Each node paired with the key it holds, so that nodes with equal keys stay apart. */
  ghost function Keyed(ns: seq<Node>): (r: seq<(int, Node)>)
    reads ns`key
    ensures |r| == |ns|
  {
    if ns == [] then [] else [(ns[0].key, ns[0])] + Keyed(ns[1..])
  }

  function EntryKey(e: (int, Node)): int { e.0 }

  lemma {:induction false} KeyedIndex(ns: seq<Node>)
    ensures forall i :: 0 <= i < |ns| ==> Keyed(ns)[i] == (ns[i].key, ns[i])
  {
    if ns != [] {
      KeyedIndex(ns[1..]);
    }
  }

  /** A node list is ordered by key exactly when its key list is ascending. */
  lemma KeyedSorted(ns: seq<Node>)
    ensures SortedBy(Keyed(ns), EntryKey) <==> SortedBy(KeysOf(ns), Identity)
  {
    KeyedIndex(ns);
    KeysOfIndex(ns);
  }

  /** The node merge is the generic merge applied to (key, node) entries. */
  lemma {:induction false} MergeNodesByKey(a: seq<Node>, b: seq<Node>)
    ensures Keyed(MergeNodes(a, b)) == MergeBy(Keyed(a), Keyed(b), EntryKey)
    decreases |a| + |b|
  {
    if a == [] || b == [] {
    } else if a[0].key < b[0].key {
      MergeNodesByKey(a[1..], b);
      assert Keyed([a[0]] + MergeNodes(a[1..], b))[1..] == Keyed(MergeNodes(a[1..], b));
    } else {
      MergeNodesByKey(a, b[1..]);
      assert Keyed([b[0]] + MergeNodes(a, b[1..]))[1..] == Keyed(MergeNodes(a, b[1..]));
    }
  }

  /** Merging two node lists ordered by key gives a node list ordered by key. */
  lemma MergeNodesSorted(a: seq<Node>, b: seq<Node>)
    requires SortedBy(KeysOf(a), Identity) && SortedBy(KeysOf(b), Identity)
    ensures SortedBy(KeysOf(MergeNodes(a, b)), Identity)
  {
    KeyedSorted(a);
    KeyedSorted(b);
    MergeSorted(Keyed(a), Keyed(b), EntryKey);
    MergeNodesByKey(a, b);
    KeyedSorted(MergeNodes(a, b));
  }

  /** The tie-break of the node merge: among the nodes holding key `k`, every node of the
      right-hand list comes before every node of the left-hand list, each list's nodes in
      their own order. */
  lemma MergeNodesTieBreak(a: seq<Node>, b: seq<Node>, k: int)
    requires SortedBy(KeysOf(b), Identity)
    ensures KeyFilter(Keyed(MergeNodes(a, b)), EntryKey, k) ==
      KeyFilter(Keyed(b), EntryKey, k) + KeyFilter(Keyed(a), EntryKey, k)
  {
    KeyedSorted(b);
    MergeTieBreak(Keyed(a), Keyed(b), EntryKey, k);
    MergeNodesByKey(a, b);
  }

  /** What is left to merge once `i` nodes of `a` and `j` nodes of `b` are taken: the
      same two-pointer merge, on indices rather than on the slices `a[i..]` and `b[j..]`. */
  ghost function MergeFrom(a: seq<Node>, b: seq<Node>, i: nat, j: nat): seq<Node>
    requires i <= |a| && j <= |b|
    reads a`key, b`key
    decreases |a| - i + |b| - j
  {
    if i == |a| then b[j..]
    else if j == |b| then a[i..]
    else if a[i].key < b[j].key then [a[i]] + MergeFrom(a, b, i + 1, j)
    else [b[j]] + MergeFrom(a, b, i, j + 1)
  }

  lemma {:induction false} MergeFromSlices(a: seq<Node>, b: seq<Node>, i: nat, j: nat)
    requires i <= |a| && j <= |b|
    ensures MergeFrom(a, b, i, j) == MergeNodes(a[i..], b[j..])
    decreases |a| - i + |b| - j
  {
    if i < |a| && j < |b| {
      assert a[i..][0] == a[i] && a[i..][1..] == a[i + 1..];
      assert b[j..][0] == b[j] && b[j..][1..] == b[j + 1..];
      if a[i].key < b[j].key {
        MergeFromSlices(a, b, i + 1, j);
      } else {
        MergeFromSlices(a, b, i, j + 1);
      }
    }
  }

  /** Before the merge loop: nothing taken, everything left. */
  lemma MergeStart(a: seq<Node>, b: seq<Node>)
    ensures [] + MergeFrom(a, b, 0, 0) == MergeNodes(a, b)
  {
    MergeFromSlices(a, b, 0, 0);
    assert a[0..] == a && b[0..] == b;
  }

  /** After the merge loops: nothing left, so what was taken is the whole merge. */
  lemma MergeEnd(taken: seq<Node>, a: seq<Node>, b: seq<Node>, whole: seq<Node>)
    requires taken + MergeFrom(a, b, |a|, |b|) == whole
    ensures taken == whole
  {
    assert taken + [] == taken;
  }

  /** Taking the head of `a` keeps `taken` followed by what is left equal to the whole merge. */
  lemma MergeStepLeft(taken: seq<Node>, a: seq<Node>, b: seq<Node>, i: nat, j: nat, whole: seq<Node>)
    requires i < |a| && j <= |b| && (j == |b| || a[i].key < b[j].key)
    requires taken + MergeFrom(a, b, i, j) == whole
    ensures (taken + [a[i]]) + MergeFrom(a, b, i + 1, j) == whole
  {
    AppendAssoc(taken, [a[i]], MergeFrom(a, b, i + 1, j));
  }

  /** Taking the head of `b` keeps `taken` followed by what is left equal to the whole merge. */
  lemma MergeStepRight(taken: seq<Node>, a: seq<Node>, b: seq<Node>, i: nat, j: nat, whole: seq<Node>)
    requires i <= |a| && j < |b| && (i == |a| || b[j].key <= a[i].key)
    requires taken + MergeFrom(a, b, i, j) == whole
    ensures (taken + [b[j]]) + MergeFrom(a, b, i, j + 1) == whole
  {
    AppendAssoc(taken, [b[j]], MergeFrom(a, b, i, j + 1));
  }

  /** The two-pointer merge of two node lists ordered by key; relinks nothing. */
  method MergeListsOfSortedNodes(leftSortedNodes: seq<Node>, rightSortedNodes: seq<Node>) returns (fullList: seq<Node>)
    ensures fullList == old(MergeNodes(leftSortedNodes, rightSortedNodes))
  {
    var a, b := leftSortedNodes, rightSortedNodes;
    // The merge as the keys stand on entry; each loop's invariant is stated against it.
    ghost var whole := MergeNodes(a, b);
    MergeStart(a, b);
    fullList := [];
    var leftIndex, rightIndex := 0, 0;
    while leftIndex < |a| && rightIndex < |b|
      invariant 0 <= leftIndex <= |a| && 0 <= rightIndex <= |b|
      invariant fullList + MergeFrom(a, b, leftIndex, rightIndex) == whole
      decreases |a| + |b| - leftIndex - rightIndex
    {
      var leftValue, rightValue := a[leftIndex].key, b[rightIndex].key;
      if leftValue < rightValue {
        MergeStepLeft(fullList, a, b, leftIndex, rightIndex, whole);
        fullList := fullList + [a[leftIndex]];
        leftIndex := leftIndex + 1;
      } else {
        MergeStepRight(fullList, a, b, leftIndex, rightIndex, whole);
        fullList := fullList + [b[rightIndex]];
        rightIndex := rightIndex + 1;
      }
    }
    while leftIndex < |a|
      invariant 0 <= leftIndex <= |a| && 0 <= rightIndex <= |b|
      invariant leftIndex < |a| ==> rightIndex == |b|
      invariant fullList + MergeFrom(a, b, leftIndex, rightIndex) == whole
    {
      MergeStepLeft(fullList, a, b, leftIndex, rightIndex, whole);
      fullList := fullList + [a[leftIndex]];
      leftIndex := leftIndex + 1;
    }
    while rightIndex < |b|
      invariant leftIndex == |a| && 0 <= rightIndex <= |b|
      invariant fullList + MergeFrom(a, b, leftIndex, rightIndex) == whole
    {
      MergeStepRight(fullList, a, b, leftIndex, rightIndex, whole);
      fullList := fullList + [b[rightIndex]];
      rightIndex := rightIndex + 1;
    }
    MergeEnd(fullList, a, b, whole);
  }

  /** Builds fresh nodes for the keys of `sortedList` at indices left..right: the node for
      the midpoint key first, then the two halves below it. */
  method GetBalancedBSTFromSortedList(sortedList: seq<int>, left: int, right: int) returns (root: Node?)
    requires 0 <= left && right < |sortedList|
    ensures ValidLink(root) && fresh(Footprint(root))
    ensures ModelOf(root) == Build(sortedList, left, right)
    decreases right - left + 1
  {
    if left > right {
      return null;
    }
    var midIndex := left + (right - left) / 2;
    root := new Node(sortedList[midIndex]);
    root.left := GetBalancedBSTFromSortedList(sortedList, left, midIndex - 1);
    root.right := GetBalancedBSTFromSortedList(sortedList, midIndex + 1, right);
    Refresh(root);
  }

  /** The position of each node in a list where no node repeats. */
  ghost predicate Indexed(ns: seq<Node>, pos: map<Node, int>)
  {
    (forall i :: 0 <= i < |ns| ==> ns[i] in pos && pos[ns[i]] == i) &&
    (forall n :: n in pos ==> 0 <= pos[n] < |ns| && ns[pos[n]] == n)
  }

  ghost function Positions(ns: seq<Node>): (pos: map<Node, int>)
    requires Distinct(ns)
    ensures Indexed(ns, pos)
  {
    DistinctIndex(ns);
    map i | 0 <= i < |ns| :: ns[i] := i
  }

  /** The nodes whose position is in lo..hi. */
  ghost function Range(pos: map<Node, int>, lo: int, hi: int): set<Node>
  {
    set n | n in pos && lo <= pos[n] <= hi
  }

  /** A range of positions is its midpoint node and the two ranges on either side, and
      these three parts are separate. */
  lemma RangeSplit(ns: seq<Node>, lo: int, mid: int, hi: int)
    requires Distinct(ns) && lo <= mid <= hi && 0 <= mid < |ns|
    ensures Range(Positions(ns), lo, hi) ==
      {ns[mid]} + Range(Positions(ns), lo, mid - 1) + Range(Positions(ns), mid + 1, hi)
    ensures ns[mid] !in Range(Positions(ns), lo, mid - 1) && ns[mid] !in Range(Positions(ns), mid + 1, hi)
    ensures Range(Positions(ns), lo, mid - 1) !! Range(Positions(ns), mid + 1, hi)
  {
    var pos := Positions(ns);
    forall n | n in Range(pos, lo, hi)
      ensures n in {ns[mid]} + Range(pos, lo, mid - 1) + Range(pos, mid + 1, hi)
    {
      if pos[n] == mid {
        assert n == ns[mid];
      }
    }
  }

  /** The nodes at positions lo..hi are linked into the balanced shape below `root`: the
      node at the midpoint position is the root, the positions on either side are linked
      below it the same way, and every node's ghost state names the nodes below it and the
      tree their keys spell. */
  ghost predicate Wired(pos: map<Node, int>, lo: int, hi: int, root: Node?)
    reads Range(pos, lo, hi)
    decreases hi - lo + 1
  {
    if lo > hi then root == null
    else
      var mid := lo + (hi - lo) / 2;
      root != null && root in pos && pos[root] == mid &&
      Wired(pos, lo, mid - 1, root.left) && Wired(pos, mid + 1, hi, root.right) &&
      root.Repr == Range(pos, lo, hi) &&
      root.Model == Trees.Node(root.key, ModelOf(root.left), ModelOf(root.right))
  }

  /** A wired range is a valid tree over exactly the nodes of the range. */
  lemma {:induction false} WiredValid(ns: seq<Node>, lo: int, hi: int, root: Node?)
    requires Distinct(ns) && Wired(Positions(ns), lo, hi, root)
    ensures ValidLink(root) && Footprint(root) == Range(Positions(ns), lo, hi)
    decreases hi - lo + 1
  {
    if lo <= hi {
      var mid := lo + (hi - lo) / 2;
      WiredValid(ns, lo, mid - 1, root.left);
      WiredValid(ns, mid + 1, hi, root.right);
      assert root == ns[mid];
      RangeSplit(ns, lo, mid, hi);
    }
  }

  /** The tree a wired range spells is the midpoint rebuild of the keys its nodes hold. */
  lemma {:induction false} WiredModel(ns: seq<Node>, lo: int, hi: int, root: Node?)
    requires 0 <= lo && hi < |ns|
    requires Distinct(ns) && Wired(Positions(ns), lo, hi, root)
    ensures ModelOf(root) == Build(KeysOf(ns), lo, hi)
    decreases hi - lo + 1
  {
    if lo <= hi {
      var mid := lo + (hi - lo) / 2;
      var keys := KeysOf(ns);
      WiredModel(ns, lo, mid - 1, root.left);
      WiredModel(ns, mid + 1, hi, root.right);
      KeysOfIndex(ns);
      assert root == ns[mid] && root.key == keys[mid];
    }
  }

  /** Hangs the wired halves `l` and `r` below the midpoint node `n` of lo..hi. */
  method LinkChildren(n: Node, l: Node?, r: Node?, ghost pos: map<Node, int>, ghost lo: int, ghost mid: int, ghost hi: int)
    requires lo <= mid <= hi && mid == lo + (hi - lo) / 2
    requires n in pos && pos[n] == mid
    requires Wired(pos, lo, mid - 1, l) && Wired(pos, mid + 1, hi, r)
    modifies n`left, n`right, n`Repr, n`Model
    ensures Wired(pos, lo, hi, n)
  {
    n.left, n.right := l, r;
    n.Repr, n.Model := Range(pos, lo, hi), Trees.Node(n.key, ModelOf(l), ModelOf(r));
  }

  /** Relinks the nodes of `sortedNodes` at indices left..right into a balanced tree: the
      midpoint node becomes the root and the two halves are relinked below it. Only child
      links change, and only those of the nodes in the range. */
  method GetBalancedBSTFromSortedNodeList(sortedNodes: seq<Node>, left: int, right: int) returns (root: Node?)
    requires 0 <= left && right < |sortedNodes|
    requires Distinct(sortedNodes)
    modifies Range(Positions(sortedNodes), left, right)`left, Range(Positions(sortedNodes), left, right)`right
    modifies Range(Positions(sortedNodes), left, right)`Repr, Range(Positions(sortedNodes), left, right)`Model
    ensures Wired(Positions(sortedNodes), left, right, root)
    ensures ValidLink(root) && Footprint(root) == Range(Positions(sortedNodes), left, right)
    ensures ModelOf(root) == Build(KeysOf(sortedNodes), left, right)
    ensures KeysOf(sortedNodes) == old(KeysOf(sortedNodes))
    decreases right - left + 1
  {
    if left > right {
      return null;
    }
    var midIndex := left + (right - left) / 2;
    RangeSplit(sortedNodes, left, midIndex, right);
    root := sortedNodes[midIndex];
    var l := GetBalancedBSTFromSortedNodeList(sortedNodes, left, midIndex - 1);
    var r := GetBalancedBSTFromSortedNodeList(sortedNodes, midIndex + 1, right);
    assert Wired(Positions(sortedNodes), left, midIndex - 1, l);
    LinkChildren(root, l, r, Positions(sortedNodes), left, midIndex, right);
    WiredValid(sortedNodes, left, right, root);
    WiredModel(sortedNodes, left, right, root);
  }

  lemma {:induction false} KeysOfIndex(ns: seq<Node>)
    ensures |KeysOf(ns)| == |ns|
    ensures forall i :: 0 <= i < |ns| ==> KeysOf(ns)[i] == ns[i].key
  {
    if ns != [] {
      KeysOfIndex(ns[1..]);
    }
  }

  /** Merging a one-node tree with itself lists its node twice. Relinking indices 0..1 of
      that list would make the midpoint node, at index 0, the root, and the node at index 1,
      the same node, its right child: a node that is its own child. */
  lemma SelfMergeRepeats(n: Node)
    requires n.Valid() && n.left == null && n.right == null
    ensures MergeNodes(NodeSeq(n), NodeSeq(n)) == [n, n]
    ensures !Distinct(MergeNodes(NodeSeq(n), NodeSeq(n)))
    ensures var s := MergeNodes(NodeSeq(n), NodeSeq(n)); s[0 + (1 - 0) / 2] == s[1 + (1 - 1) / 2] == n
  {
    NodeSeqUnfold(n);
    assert NodeSeq(n) == [n];
    assert MergeNodes([n], [n]) == [n] + MergeNodes([n], []);
    assert [n, n][1..] == [n];
  }

  /** The merged node list of two separate trees lists every node of both exactly once, so
      its positions cover both footprints, and its keys are the merge of the two in-order
      key lists. */
  lemma MergedNodeList(l: Node?, r: Node?, all: seq<Node>)
    requires ValidLink(l) && ValidLink(r) && Footprint(l) !! Footprint(r)
    requires all == MergeNodes(NodeSeq(l), NodeSeq(r))
    ensures Distinct(all)
    ensures Range(Positions(all), 0, |all| - 1) == Footprint(l) + Footprint(r)
    ensures KeysOf(all) == MergedKeys(ModelOf(l), ModelOf(r))
  {
    MergeNodesPermutation(NodeSeq(l), NodeSeq(r));
    MergedNodesDistinct(l, r, all);
    RangeCoversAll(all, Footprint(l) + Footprint(r));
    NodeSeqKeys(l);
    NodeSeqKeys(r);
    MergeNodesKeys(NodeSeq(l), NodeSeq(r));
  }

  lemma MergedNodesDistinct(l: Node?, r: Node?, all: seq<Node>)
    requires ValidLink(l) && ValidLink(r) && Footprint(l) !! Footprint(r)
    requires multiset(all) == multiset(NodeSeq(l)) + multiset(NodeSeq(r))
    ensures Distinct(all) && Lists(all, Footprint(l) + Footprint(r))
  {
    var a, b := NodeSeq(l), NodeSeq(r);
    NodeSeqDistinct(l);
    NodeSeqDistinct(r);
    NodeSeqMembers(l);
    NodeSeqMembers(r);
    DisjointPermutation(a, b, all, Footprint(l), Footprint(r));
  }

  /** The positions 0..|ns| - 1 of a list without repeats hold exactly its nodes. */
  lemma RangeCoversAll(ns: seq<Node>, nodes: set<Node>)
    requires Distinct(ns)
    requires Lists(ns, nodes)
    ensures Range(Positions(ns), 0, |ns| - 1) == nodes
  {
    var pos := Positions(ns);
    forall n ensures n in Range(pos, 0, |ns| - 1) <==> n in nodes {
      if n in ns {
        var i :| 0 <= i < |ns| && ns[i] == n;
        assert pos[n] == i;
      }
    }
  }
}
