/** The tree object: a root link to a linked binary search tree, and its public operations,
    each delegating to the node-level operation of module Bst and specified by the tree the
    nodes represent. */
module SearchTree {
  import opened Trees
  import opened Rebuild
  import opened SortedMerge
  import opened Bst

  /** The abstract trees of a queue of nodes, in queue order. */
  ghost function ModelsOf(q: seq<Bst.Node>): (ts: seq<Tree>)
    reads q
    ensures |ts| == |q|
  {
    if q == [] then [] else [q[0].Model] + ModelsOf(q[1..])
  }

  lemma {:induction false} ModelsOfAppend(a: seq<Bst.Node>, b: seq<Bst.Node>)
    ensures ModelsOf(a + b) == ModelsOf(a) + ModelsOf(b)
  {
    if a == [] {
      assert a + b == b;
    } else {
      assert (a + b)[0] == a[0] && (a + b)[1..] == a[1..] + b;
      ModelsOfAppend(a[1..], b);
    }
  }

  /** What the breadth-first loop enqueues for a child link: nothing for the null link. */
  function EnqueueLink(n: Bst.Node?): seq<Bst.Node>
  {
    if n == null then [] else [n]
  }

  /** The queue after one step of the breadth-first loop: the head node is taken off and
      its non-null children are enqueued, left first. */
  function NextNodes(q: seq<Bst.Node>): seq<Bst.Node>
    requires q != []
    reads q[0]
  {
    q[1..] + EnqueueLink(q[0].left) + EnqueueLink(q[0].right)
  }

  /** One step of the breadth-first loop over nodes of a valid tree is one step of the
      level-order traversal of the trees they represent: the head's key comes first, the
      rest is the traversal of the next queue, which holds nodes of the same tree and fewer
      keys. */
  lemma BfsStep(root: Bst.Node, q: seq<Bst.Node>)
    requires root.Valid() && q != [] && forall i :: 0 <= i < |q| ==> q[i] in root.Repr
    ensures forall i :: 0 <= i < |NextNodes(q)| ==> NextNodes(q)[i] in root.Repr
    ensures ForestSize(ModelsOf(NextNodes(q))) < ForestSize(ModelsOf(q))
    ensures LevelOrder(ModelsOf(q)) == [q[0].key] + LevelOrder(ModelsOf(NextNodes(q)))
  {
    var n, next := q[0], NextNodes(q);
    ReprValid(root, n);
    NextNodesModels(q);
    LevelOrderHead(ModelsOf(q));
    forall i | 0 <= i < |next| ensures next[i] in root.Repr {
      if i < |q| - 1 {
        assert next[i] == q[i + 1];
      } else {
        assert next[i] in n.Repr;
      }
    }
  }

  /** The trees of the next queue are the next queue of the trees. */
  lemma NextNodesModels(q: seq<Bst.Node>)
    requires q != [] && q[0].Valid()
    ensures ModelsOf(q)[0] == Trees.Node(q[0].key, ModelOf(q[0].left), ModelOf(q[0].right))
    ensures ModelsOf(NextNodes(q)) == NextQueue(ModelsOf(q))
  {
    var n := q[0];
    assert ValidLink(n.left) && ValidLink(n.right);
    var models := ModelsOf(q);
    assert models[1..] == ModelsOf(q[1..]);
    ModelsOfAppend(q[1..], EnqueueLink(n.left));
    ModelsOfAppend(q[1..] + EnqueueLink(n.left), EnqueueLink(n.right));
    assert ModelsOf(EnqueueLink(n.left)) == Enqueue(ModelOf(n.left));
    assert ModelsOf(EnqueueLink(n.right)) == Enqueue(ModelOf(n.right));
  }

  class BinarySearchTree {
    var root: Bst.Node?

    /** The nodes of the tree. */
    ghost function Nodes(): set<Bst.Node>
      reads this, root
    {
      Footprint(root)
    }

    ghost predicate Valid()
      reads this, root, Nodes()
    {
      ValidLink(root)
    }

    /** The abstract tree the nodes represent. */
    ghost function Model(): Tree
      reads this, root
    {
      ModelOf(root)
    }

    /** The empty tree. */
    constructor ()
      ensures Valid() && Model() == Leaf && Nodes() == {}
    {
      root := null;
    }

    /** A tree object over an existing root link. */
    constructor FromRoot(root: Bst.Node?)
      requires ValidLink(root)
      ensures this.root == root && Valid()
      ensures Model() == old(ModelOf(root)) && Nodes() == old(Footprint(root))
    {
      this.root := root;
    }

    function GetHeight(): (h: nat)
      requires Valid()
      reads this, root, Nodes()
      ensures h == Height(Model())
    {
      NodeHeight(root)
    }

    /** Insert `key`; a key already present is the duplicate-key exception, and then the
        tree is left as it was. */
    method Insert(key: int) returns (r: Result<()>)
      requires Valid()
      modifies this, Nodes()
      ensures Valid()
      ensures r.Ok? ==> Trees.Insert(old(Model()), key) == Ok(Model())
      ensures r.Ok? ==> old(Nodes()) <= Nodes() && fresh(Nodes() - old(Nodes()))
      ensures r.Err? ==> r.error == DuplicateKey && Trees.Insert(old(Model()), key).Err?
      ensures r.Err? ==> root == old(root) && unchanged(old(Nodes()))
    {
      var res := InsertNode(root, key);
      if res.Err? {
        return Err(res.error);
      }
      root := res.value;
      return Ok(());
    }

    function Find(key: int): (b: bool)
      requires Valid()
      reads this, root, Nodes()
      ensures b ==> key in Keys(Model())
      ensures IsBST(Model()) && key in Keys(Model()) ==> b
    {
      FindNode(root, key)
    }

    /** Delete `key` if present; an absent key leaves the keys as they were. */
    method Delete(key: int)
      requires Valid()
      modifies this, Nodes()
      ensures Valid()
      ensures Model() == Trees.Delete(old(Model()), key)
      ensures Nodes() <= old(Nodes())
    {
      root := DeleteNode(root, key);
    }

    method InOrderList() returns (list: seq<int>)
      requires Valid()
      ensures list == InOrder(Model())
    {
      list := InOrderListHelper(root, []);
    }

    method PreOrderList() returns (list: seq<int>)
      requires Valid()
      ensures list == PreOrder(Model())
    {
      list := PreOrderListHelper(root, []);
    }

    method PostOrderList() returns (list: seq<int>)
      requires Valid()
      ensures list == PostOrder(Model())
    {
      list := PostOrderListHelper(root, []);
    }

    /** Breadth-first keys: a FIFO queue of nodes starting with the root; each node taken
        off the queue has its key listed and its non-null children enqueued, left first. */
    method BfsList() returns (list: seq<int>)
      requires Valid()
      ensures list == LevelOrder([Model()])
    {
      list := [];
      if root == null {
        return list;
      }
      var nodeQueue: seq<Bst.Node> := [root];
      while nodeQueue != []
        invariant forall i :: 0 <= i < |nodeQueue| ==> nodeQueue[i] in root.Repr
        invariant list + LevelOrder(ModelsOf(nodeQueue)) == LevelOrder([Model()])
        decreases ForestSize(ModelsOf(nodeQueue))
      {
        BfsStep(root, nodeQueue);
        ghost var queue, listed := nodeQueue, list;
        var node := nodeQueue[0];
        nodeQueue := nodeQueue[1..];
        list := list + [node.key];
        if node.left != null {
          nodeQueue := nodeQueue + [node.left];
        }
        if node.right != null {
          nodeQueue := nodeQueue + [node.right];
        }
        assert nodeQueue == NextNodes(queue);
        ghost var rest := LevelOrder(ModelsOf(nodeQueue));
        AppendAssoc(listed, [node.key], rest);
      }
    }

    /** The copying merge: the keys of both trees, in order, rebuilt into a balanced tree of
        fresh nodes; the input trees are not changed. */
    static method MergeTreesIntoBalancedBST(left: BinarySearchTree, right: BinarySearchTree) returns (tree: BinarySearchTree)
      requires left.Valid() && right.Valid()
      ensures fresh(tree) && fresh(tree.Nodes())
      ensures tree.Valid() && tree.Model() == MergeTrees(left.Model(), right.Model())
    {
      var leftSortedValues := left.InOrderList();
      var rightSortedValues := right.InOrderList();
      var allSortedValues := MergeSortedLists(leftSortedValues, rightSortedValues);
      var newRoot := GetBalancedBSTFromSortedList(allSortedValues, 0, |allSortedValues| - 1);
      tree := new BinarySearchTree.FromRoot(newRoot);
    }

    /** The in-place merge: the nodes of both trees, in key order, relinked into a balanced
        tree; no node is created, and the input trees' nodes are reused. */
    static method InplaceMergeBSTsIntoBalancedBST(left: BinarySearchTree, right: BinarySearchTree) returns (tree: BinarySearchTree)
      requires left.Valid() && right.Valid()
      requires left.Nodes() !! right.Nodes()
      modifies left.Nodes(), right.Nodes()
      ensures fresh(tree) && tree.Nodes() == old(left.Nodes() + right.Nodes())
      ensures tree.Valid() && tree.Model() == MergeTrees(old(left.Model()), old(right.Model()))
    {
      ghost var l, r := left.root, right.root;
      ghost var leftTree, rightTree := ModelOf(l), ModelOf(r);
      ghost var nodes := Footprint(l) + Footprint(r);
      var leftSortedNodes := GetListOfSortedNodes(left.root, []);
      var rightSortedNodes := GetListOfSortedNodes(right.root, []);
      assert leftSortedNodes == NodeSeq(l) && rightSortedNodes == NodeSeq(r);
      ghost var merged := MergeNodes(leftSortedNodes, rightSortedNodes);
      MergedNodeList(l, r, merged);
      ghost var keys := KeysOf(merged);
      MergeTreesOfKeys(leftTree, rightTree, keys);
      var allSortedNodes := MergeListsOfSortedNodes(leftSortedNodes, rightSortedNodes);
      assert KeysOf(allSortedNodes) == keys;
      var newRoot := GetBalancedBSTFromSortedNodeList(allSortedNodes, 0, |allSortedNodes| - 1);
      assert KeysOf(allSortedNodes) == keys;
      assert |keys| == |allSortedNodes|;
      assert ModelOf(newRoot) == Build(keys, 0, |keys| - 1);
      tree := new BinarySearchTree.FromRoot(newRoot);
    }
  }
}
