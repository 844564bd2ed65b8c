/** The abstract value of a binary search tree and the pure specification of the
    single-tree operations: insert, delete, minimum lookup, height and the traversals. */
module Trees {
  import opened SortedMerge

  datatype Tree = Leaf | Node(key: int, left: Tree, right: Tree)

  /** The two exceptions of the tree: a duplicate insert, and a minimum asked of an empty subtree. */
  datatype Error = DuplicateKey | EmptyTree

  datatype Result<T> = Ok(value: T) | Err(error: Error)

  function Keys(t: Tree): set<int>
  {
    match t
    case Leaf => {}
    case Node(k, l, r) => Keys(l) + {k} + Keys(r)
  }

  function Size(t: Tree): nat
  {
    match t
    case Leaf => 0
    case Node(_, l, r) => Size(l) + 1 + Size(r)
  }

  /** The ordering invariant: every key of a left subtree is below its node's key and
      every key of a right subtree above it. */
  predicate IsBST(t: Tree)
  {
    match t
    case Leaf => true
    case Node(k, l, r) =>
      IsBST(l) && IsBST(r) &&
      (forall x :: x in Keys(l) ==> x < k) &&
      (forall x :: x in Keys(r) ==> k < x)
  }

  function Height(t: Tree): nat
  {
    match t
    case Leaf => 0
    case Node(_, l, r) =>
      var hl := Height(l);
      var hr := Height(r);
      1 + (if hl > hr then hl else hr)
  }

  function InOrder(t: Tree): seq<int>
  {
    match t
    case Leaf => []
    case Node(k, l, r) => InOrder(l) + [k] + InOrder(r)
  }

  function PreOrder(t: Tree): seq<int>
  {
    match t
    case Leaf => []
    case Node(k, l, r) => [k] + PreOrder(l) + PreOrder(r)
  }

  function PostOrder(t: Tree): seq<int>
  {
    match t
    case Leaf => []
    case Node(k, l, r) => PostOrder(l) + PostOrder(r) + [k]
  }

  /** Descends by comparison and adds a leaf at the empty link; an equal key on the
      search path is a DuplicateKey error and leaves the tree as it was. */
  function Insert(t: Tree, key: int): Result<Tree>
  {
    match t
    case Leaf => Ok(Node(key, Leaf, Leaf))
    case Node(k, l, r) =>
      if key < k then
        match Insert(l, key)
        case Ok(l') => Ok(Node(k, l', r))
        case Err(e) => Err(e)
      else if key > k then
        match Insert(r, key)
        case Ok(r') => Ok(Node(k, l, r'))
        case Err(e) => Err(e)
      else
        Err(DuplicateKey)
  }

  /** The key of the leftmost node, reached by following left links. */
  function Leftmost(t: Tree): int
    requires t.Node?
  {
    if t.left.Leaf? then t.key else Leftmost(t.left)
  }

  /** Deletion: an absent key changes nothing; a node with at most one child is replaced by
      that child; a node with two children takes the key of the leftmost node of its right
      subtree, which is then deleted from the right subtree. */
  function Delete(t: Tree, key: int): Tree
  {
    match t
    case Leaf => Leaf
    case Node(k, l, r) =>
      if key < k then Node(k, Delete(l, key), r)
      else if key > k then Node(k, l, Delete(r, key))
      else if l.Leaf? then r
      else if r.Leaf? then l
      else
        var m := Leftmost(r);
        Node(m, l, Delete(r, m))
  }

  lemma {:induction false} InOrderSize(t: Tree)
    ensures |InOrder(t)| == Size(t)
  {
    match t
    case Leaf =>
    case Node(k, l, r) =>
      InOrderSize(l);
      InOrderSize(r);
  }

  lemma {:induction false} InOrderKeys(t: Tree)
    ensures forall x :: x in InOrder(t) <==> x in Keys(t)
  {
    match t
    case Leaf =>
    case Node(k, l, r) =>
      InOrderKeys(l);
      InOrderKeys(r);
  }

  lemma AscendingSplit(a: seq<int>, k: int, b: seq<int>)
    ensures StrictlyAscending(a + [k] + b) <==>
      StrictlyAscending(a) && StrictlyAscending(b) &&
      (forall x :: x in a ==> x < k) && (forall x :: x in b ==> k < x)
  {
    var s := a + [k] + b;
    if StrictlyAscending(s) {
      forall i, j | 0 <= i < j < |a| ensures a[i] < a[j] { assert s[i] == a[i] && s[j] == a[j]; }
      forall i, j | 0 <= i < j < |b| ensures b[i] < b[j] {
        assert s[|a| + 1 + i] == b[i] && s[|a| + 1 + j] == b[j];
      }
      forall x | x in a ensures x < k {
        var i :| 0 <= i < |a| && a[i] == x;
        assert s[i] == x && s[|a|] == k;
      }
      forall x | x in b ensures k < x {
        var i :| 0 <= i < |b| && b[i] == x;
        assert s[|a| + 1 + i] == x && s[|a|] == k;
      }
    }
    if StrictlyAscending(a) && StrictlyAscending(b) &&
       (forall x :: x in a ==> x < k) && (forall x :: x in b ==> k < x) {
      forall i, j | 0 <= i < j < |s| ensures s[i] < s[j] {
        if j < |a| {
          assert s[i] == a[i] && s[j] == a[j];
        } else if i > |a| {
          assert s[i] == b[i - |a| - 1] && s[j] == b[j - |a| - 1];
        } else if i < |a| {
          assert s[i] in a;
          if j > |a| { assert s[j] in b; }
        } else {
          assert s[j] in b;
        }
      }
    }
  }

  /** The ordering invariant holds exactly when the in-order list is strictly ascending. */
  lemma {:induction false} InOrderAscendingIffBST(t: Tree)
    ensures IsBST(t) <==> StrictlyAscending(InOrder(t))
  {
    match t
    case Leaf =>
    case Node(k, l, r) =>
      InOrderAscendingIffBST(l);
      InOrderAscendingIffBST(r);
      InOrderKeys(l);
      InOrderKeys(r);
      AscendingSplit(InOrder(l), k, InOrder(r));
  }

  /** Pre-order lists the same keys as in-order, root first. */
  lemma {:induction false} PreOrderPermutation(t: Tree)
    ensures multiset(PreOrder(t)) == multiset(InOrder(t))
    ensures t.Node? ==> PreOrder(t)[0] == t.key
  {
    match t
    case Leaf =>
    case Node(k, l, r) =>
      PreOrderPermutation(l);
      PreOrderPermutation(r);
  }

  /** Post-order lists the same keys as in-order, root last. */
  lemma {:induction false} PostOrderPermutation(t: Tree)
    ensures multiset(PostOrder(t)) == multiset(InOrder(t))
    ensures t.Node? ==> PostOrder(t)[|PostOrder(t)| - 1] == t.key
  {
    match t
    case Leaf =>
    case Node(k, l, r) =>
      PostOrderPermutation(l);
      PostOrderPermutation(r);
      assert PostOrder(t) == PostOrder(l) + PostOrder(r) + [k];
      assert InOrder(t) == InOrder(l) + [k] + InOrder(r);
  }

  /** On an ordered tree an insert fails exactly when the key is present; otherwise the
      result is ordered and holds one key more. */
  lemma {:induction false} InsertCorrect(t: Tree, key: int)
    requires IsBST(t)
    ensures Insert(t, key).Err? <==> key in Keys(t)
    ensures Insert(t, key).Err? ==> Insert(t, key).error == DuplicateKey
    ensures Insert(t, key).Ok? ==>
      IsBST(Insert(t, key).value) && Keys(Insert(t, key).value) == Keys(t) + {key}
  {
    match t
    case Leaf =>
    case Node(k, l, r) =>
      if key < k {
        InsertCorrect(l, key);
      } else if key > k {
        InsertCorrect(r, key);
      }
  }

  /** One comparison step of a search: in an ordered tree a key other than the root's
      can only be in the subtree on its side of the root key, which is ordered too. */
  lemma SearchStep(t: Tree, key: int)
    requires t.Node?
    ensures IsBST(t) && key < t.key ==> IsBST(t.left) && (key in Keys(t) <==> key in Keys(t.left))
    ensures IsBST(t) && key > t.key ==> IsBST(t.right) && (key in Keys(t) <==> key in Keys(t.right))
  {
  }

  /** The leftmost key is a key of the tree and, in an ordered tree, the least one. */
  lemma {:induction false} LeftmostIsMinimum(t: Tree)
    requires t.Node?
    ensures Leftmost(t) in Keys(t)
    ensures IsBST(t) ==> forall x :: x in Keys(t) ==> Leftmost(t) <= x
  {
    if t.left.Node? {
      LeftmostIsMinimum(t.left);
    }
  }

  /** Deleting from an ordered tree keeps it ordered and removes exactly the key. */
  lemma {:induction false} DeleteCorrect(t: Tree, key: int)
    requires IsBST(t)
    ensures IsBST(Delete(t, key))
    ensures Keys(Delete(t, key)) == Keys(t) - {key}
  {
    match t
    case Leaf =>
    case Node(k, l, r) =>
      if key < k {
        DeleteCorrect(l, key);
      } else if key > k {
        DeleteCorrect(r, key);
      } else if l.Leaf? || r.Leaf? {
      } else {
        var m := Leftmost(r);
        LeftmostIsMinimum(r);
        DeleteCorrect(r, m);
      }
  }

  /** Deleting a key that is absent returns the tree unchanged. */
  lemma {:induction false} DeleteAbsent(t: Tree, key: int)
    requires key !in Keys(t)
    ensures Delete(t, key) == t
  {
    match t
    case Leaf =>
    case Node(k, l, r) =>
      DeleteAbsent(l, key);
      DeleteAbsent(r, key);
  }

  // Breadth-first traversal: a FIFO queue of non-empty subtrees.

  /** What is put on the queue for a child link: nothing for an empty one. */
  function Enqueue(t: Tree): seq<Tree>
  {
    if t.Leaf? then [] else [t]
  }

  function ForestSize(q: seq<Tree>): nat
  {
    if q == [] then 0 else Size(q[0]) + ForestSize(q[1..])
  }

  function ForestKeys(q: seq<Tree>): multiset<int>
  {
    if q == [] then multiset{} else multiset(InOrder(q[0])) + ForestKeys(q[1..])
  }

  lemma {:induction false} ForestAppend(a: seq<Tree>, b: seq<Tree>)
    ensures ForestSize(a + b) == ForestSize(a) + ForestSize(b)
    ensures ForestKeys(a + b) == ForestKeys(a) + ForestKeys(b)
  {
    if a == [] {
      assert a + b == b;
    } else {
      assert (a + b)[0] == a[0] && (a + b)[1..] == a[1..] + b;
      ForestAppend(a[1..], b);
    }
  }

  /** The queue after one step of the traversal: the head is replaced by its non-empty children. */
  function NextQueue(q: seq<Tree>): seq<Tree>
    requires q != [] && q[0].Node?
  {
    q[1..] + Enqueue(q[0].left) + Enqueue(q[0].right)
  }

  lemma NextQueueShrinks(q: seq<Tree>)
    requires q != [] && q[0].Node?
    ensures ForestSize(NextQueue(q)) == ForestSize(q) - 1
    ensures ForestKeys(q) == multiset{q[0].key} + ForestKeys(NextQueue(q))
  {
    var l, r := q[0].left, q[0].right;
    ForestAppend(q[1..], Enqueue(l));
    ForestAppend(q[1..] + Enqueue(l), Enqueue(r));
    EnqueueForest(l);
    EnqueueForest(r);
  }

  lemma EnqueueForest(t: Tree)
    ensures ForestSize(Enqueue(t)) == Size(t)
    ensures ForestKeys(Enqueue(t)) == multiset(InOrder(t))
  {
    if t.Node? {
      assert Enqueue(t)[1..] == [];
    }
  }

  /** Level-order keys of the subtrees in queue `q`: the head's key is emitted and its
      non-empty children are enqueued left then right. */
  function LevelOrder(q: seq<Tree>): seq<int>
    decreases ForestSize(q), |q|
  {
    if q == [] then []
    else
      match q[0]
      case Leaf => LevelOrder(q[1..])
      case Node(k, _, _) =>
        NextQueueShrinks(q);
        [k] + LevelOrder(NextQueue(q))
  }

  /** A queue headed by a node: its key is emitted, then the traversal of the next queue,
      which holds one key fewer. */
  lemma LevelOrderHead(q: seq<Tree>)
    requires q != [] && q[0].Node?
    ensures LevelOrder(q) == [q[0].key] + LevelOrder(NextQueue(q))
    ensures ForestSize(NextQueue(q)) < ForestSize(q)
  {
    NextQueueShrinks(q);
  }

  lemma {:induction false} LevelOrderKeys(q: seq<Tree>)
    ensures multiset(LevelOrder(q)) == ForestKeys(q)
    decreases ForestSize(q), |q|
  {
    if q != [] {
      match q[0]
      case Leaf =>
        LevelOrderKeys(q[1..]);
      case Node(_, _, _) =>
        NextQueueShrinks(q);
        LevelOrderKeys(NextQueue(q));
    }
  }

  /** The breadth-first list of a tree is empty exactly for the empty tree, starts with
      the root key, and lists the tree's keys, each as often as it occurs in the tree. */
  lemma LevelOrderOfTree(t: Tree)
    ensures LevelOrder([t]) == [] <==> t.Leaf?
    ensures t.Node? ==> LevelOrder([t])[0] == t.key
    ensures multiset(LevelOrder([t])) == multiset(InOrder(t))
  {
    LevelOrderKeys([t]);
    assert [t][1..] == [];
  }
}
