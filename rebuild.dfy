/** Rebuilding a balanced tree from an ascending sequence by recursive midpoint choice,
    and the copying merge of two trees built on it. */
module Rebuild {
  import opened SortedMerge
  import opened Trees

  /** The tree over the closed index range [lo, hi] of `s`: empty when lo > hi, otherwise
      rooted at the left-biased midpoint lo + (hi - lo) / 2 with the two sides below it. */
  function Build(s: seq<int>, lo: int, hi: int): Tree
    requires 0 <= lo && hi < |s|
    decreases hi - lo + 1
  {
    if lo > hi then Leaf
    else
      var mid := lo + (hi - lo) / 2;
      Node(s[mid], Build(s, lo, mid - 1), Build(s, mid + 1, hi))
  }

  function Pow2(h: nat): nat
  {
    if h == 0 then 1 else 2 * Pow2(h - 1)
  }

  /** ceil(log2(n)): the least h with n <= 2^h. */
  function CeilLog2(n: nat): nat
  {
    if n <= 1 then 0 else 1 + CeilLog2((n + 1) / 2)
  }

  lemma {:induction false} CeilLog2Bounds(n: nat)
    ensures n <= Pow2(CeilLog2(n))
    ensures forall h: nat :: n <= Pow2(h) ==> CeilLog2(n) <= h
  {
    if n > 1 {
      CeilLog2Bounds((n + 1) / 2);
      forall h: nat | n <= Pow2(h) ensures CeilLog2(n) <= h {
        assert h > 0;
        assert (n + 1) / 2 <= Pow2(h - 1);
      }
    }
  }

  lemma CeilLog2Monotone(m: nat, n: nat)
    requires m <= n
    ensures CeilLog2(m) <= CeilLog2(n)
  {
    CeilLog2Bounds(m);
    CeilLog2Bounds(n);
  }

  lemma {:induction false} SizeBelowPow2(t: Tree)
    ensures Size(t) + 1 <= Pow2(Height(t))
  {
    match t
    case Leaf =>
    case Node(_, l, r) =>
      SizeBelowPow2(l);
      SizeBelowPow2(r);
      var h := Height(t);
      assert Pow2(Height(l)) <= Pow2(h - 1) by { Pow2Monotone(Height(l), h - 1); }
      assert Pow2(Height(r)) <= Pow2(h - 1) by { Pow2Monotone(Height(r), h - 1); }
  }

  lemma Pow2Monotone(a: nat, b: nat)
    requires a <= b
    ensures Pow2(a) <= Pow2(b)
  {
    if a < b { Pow2Monotone(a, b - 1); }
  }

  /** No tree holding n keys is lower than ceil(log2(n + 1)). */
  lemma MinimumHeight(t: Tree)
    ensures CeilLog2(Size(t) + 1) <= Height(t)
  {
    SizeBelowPow2(t);
    CeilLog2Bounds(Size(t) + 1);
  }

  /** The in-order list of the rebuilt tree is the range it was built from. */
  lemma {:induction false} BuildInOrder(s: seq<int>, lo: int, hi: int)
    requires 0 <= lo <= hi + 1 <= |s|
    ensures InOrder(Build(s, lo, hi)) == s[lo..hi + 1]
    decreases hi - lo + 1
  {
    if lo <= hi {
      var mid := lo + (hi - lo) / 2;
      BuildInOrder(s, lo, mid - 1);
      BuildInOrder(s, mid + 1, hi);
      BuildInOrderStep(s, lo, mid, hi);
    }
  }

  /** The induction step of BuildInOrder: the root's key sits between the two sides. */
  lemma BuildInOrderStep(s: seq<int>, lo: int, mid: int, hi: int)
    requires 0 <= lo <= hi < |s| && mid == lo + (hi - lo) / 2
    requires InOrder(Build(s, lo, mid - 1)) == s[lo..mid]
    requires InOrder(Build(s, mid + 1, hi)) == s[mid + 1..hi + 1]
    ensures InOrder(Build(s, lo, hi)) == s[lo..hi + 1]
  {
    BuildStep(s, lo, mid, hi);
    InOrderAround(Build(s, lo, hi), s, lo, mid, hi + 1);
  }

  /** A node whose left subtree lists s[lo..mid], whose key is s[mid] and whose right
      subtree lists the rest up to hi lists s[lo..hi] in order. */
  lemma InOrderAround(t: Tree, s: seq<int>, lo: int, mid: int, hi: int)
    requires 0 <= lo <= mid < hi <= |s| && t.Node? && t.key == s[mid]
    requires InOrder(t.left) == s[lo..mid] && InOrder(t.right) == s[mid + 1..hi]
    ensures InOrder(t) == s[lo..hi]
  {
    assert s[lo..hi] == s[lo..mid] + [s[mid]] + s[mid + 1..hi];
  }

  /** The rebuilt tree over n elements has height ceil(log2(n + 1)), the least possible. */
  lemma {:induction false} BuildHeight(s: seq<int>, lo: int, hi: int)
    requires 0 <= lo <= hi + 1 <= |s|
    ensures Height(Build(s, lo, hi)) == CeilLog2(hi - lo + 2)
    decreases hi - lo + 1
  {
    if lo <= hi {
      var mid := lo + (hi - lo) / 2;
      var l, r := Build(s, lo, mid - 1), Build(s, mid + 1, hi);
      BuildHeight(s, lo, mid - 1);
      BuildHeight(s, mid + 1, hi);
      assert Build(s, lo, hi) == Node(s[mid], l, r);
      MidpointHeight(hi - lo + 2, (mid - 1) - lo + 2, hi - (mid + 1) + 2);
    }
  }

  /** Splitting n >= 1 elements around the left-biased midpoint leaves (n - 1) / 2 on the
      left and n / 2 on the right; with each count plus one as argument, the larger side
      decides the height. */
  lemma MidpointHeight(total: nat, small: nat, large: nat)
    requires total >= 2 && small == (total - 2) / 2 + 1 && large == (total - 1) / 2 + 1
    ensures CeilLog2(small) <= CeilLog2(large)
    ensures CeilLog2(total) == 1 + CeilLog2(large)
  {
    assert large == (total + 1) / 2;
    CeilLog2Monotone(small, large);
  }

  lemma BuildSize(s: seq<int>, lo: int, hi: int)
    requires 0 <= lo <= hi + 1 <= |s|
    ensures Size(Build(s, lo, hi)) == hi - lo + 1
  {
    BuildInOrder(s, lo, hi);
    InOrderSize(Build(s, lo, hi));
  }

  /** Rebuilding a strictly ascending sequence gives an ordered tree of exactly its elements. */
  lemma BuildOrdered(s: seq<int>)
    requires StrictlyAscending(s)
    ensures IsBST(Build(s, 0, |s| - 1))
    ensures forall x :: x in Keys(Build(s, 0, |s| - 1)) <==> x in s
  {
    var t := Build(s, 0, |s| - 1);
    BuildInOrder(s, 0, |s| - 1);
    assert s[0..|s|] == s;
    InOrderAscendingIffBST(t);
    InOrderKeys(t);
  }

  /** The ascending merge of the two trees' in-order lists. */
  function MergedKeys(t1: Tree, t2: Tree): seq<int>
  {
    MergeBy(InOrder(t1), InOrder(t2), Identity)
  }

  /** The result of the copying merge: the balanced rebuild of the merged in-order lists. */
  function MergeTrees(t1: Tree, t2: Tree): Tree
  {
    Build(MergedKeys(t1, t2), 0, |MergedKeys(t1, t2)| - 1)
  }

  /** The merged tree is the rebuild of any list equal to the merged keys. */
  lemma MergeTreesOfKeys(t1: Tree, t2: Tree, keys: seq<int>)
    requires keys == MergedKeys(t1, t2)
    ensures MergeTrees(t1, t2) == Build(keys, 0, |keys| - 1)
  {
  }

  lemma AscendingSortedBy(s: seq<int>)
    requires StrictlyAscending(s)
    ensures SortedBy(s, Identity)
  {
    forall i, j | 0 <= i < j < |s| ensures Identity(s[i]) <= Identity(s[j]) { }
  }

  /** The merged tree lists, in order, the merge of both inputs' in-order lists: every
      key of both inputs (a key present in both, twice), ascending. It holds as many keys
      as both inputs together and its height is the least possible for that many. */
  lemma MergeTreesCorrect(t1: Tree, t2: Tree)
    requires IsBST(t1) && IsBST(t2)
    ensures InOrder(MergeTrees(t1, t2)) == MergedKeys(t1, t2)
    ensures multiset(InOrder(MergeTrees(t1, t2))) == multiset(InOrder(t1)) + multiset(InOrder(t2))
    ensures SortedBy(InOrder(MergeTrees(t1, t2)), Identity)
    ensures Size(MergeTrees(t1, t2)) == Size(t1) + Size(t2)
    ensures Height(MergeTrees(t1, t2)) == CeilLog2(Size(MergeTrees(t1, t2)) + 1)
  {
    MergePermutation(InOrder(t1), InOrder(t2), Identity);
    MergeTreesInOrder(t1, t2);
    MergedKeysSorted(t1, t2);
    MergeTreesShape(t1, t2);
  }

  lemma MergeTreesShape(t1: Tree, t2: Tree)
    ensures Size(MergeTrees(t1, t2)) == Size(t1) + Size(t2)
    ensures Height(MergeTrees(t1, t2)) == CeilLog2(Size(MergeTrees(t1, t2)) + 1)
  {
    BuildShape(MergedKeys(t1, t2));
    MergedKeysSize(t1, t2);
  }

  lemma BuildShape(s: seq<int>)
    ensures Size(Build(s, 0, |s| - 1)) == |s|
    ensures Height(Build(s, 0, |s| - 1)) == CeilLog2(|s| + 1)
  {
    BuildHeight(s, 0, |s| - 1);
    BuildSize(s, 0, |s| - 1);
  }

  lemma MergedKeysSize(t1: Tree, t2: Tree)
    ensures |MergedKeys(t1, t2)| == Size(t1) + Size(t2)
  {
    MergePermutation(InOrder(t1), InOrder(t2), Identity);
    InOrderSize(t1);
    InOrderSize(t2);
  }

  lemma MergeTreesInOrder(t1: Tree, t2: Tree)
    ensures InOrder(MergeTrees(t1, t2)) == MergedKeys(t1, t2)
  {
    var s := MergedKeys(t1, t2);
    BuildInOrder(s, 0, |s| - 1);
    assert s[0..|s|] == s;
  }

  lemma MergedKeysSorted(t1: Tree, t2: Tree)
    requires IsBST(t1) && IsBST(t2)
    ensures SortedBy(MergedKeys(t1, t2), Identity)
  {
    var a, b := InOrder(t1), InOrder(t2);
    InOrderAscendingIffBST(t1);
    InOrderAscendingIffBST(t2);
    AscendingSortedBy(a);
    AscendingSortedBy(b);
    MergeSorted(a, b, Identity);
  }

  /** When the inputs share no key the merged tree is an ordered tree of the union of their keys. */
  lemma MergeTreesOrdered(t1: Tree, t2: Tree)
    requires IsBST(t1) && IsBST(t2)
    requires Keys(t1) !! Keys(t2)
    ensures IsBST(MergeTrees(t1, t2))
    ensures Keys(MergeTrees(t1, t2)) == Keys(t1) + Keys(t2)
  {
    var s := MergedKeys(t1, t2);
    MergedKeysAscending(t1, t2);
    BuildOrdered(s);
    MergedKeysMembers(t1, t2);
    var t := MergeTrees(t1, t2);
    assert t == Build(s, 0, |s| - 1);
    forall x ensures x in Keys(t) <==> x in Keys(t1) + Keys(t2) {
      assert x in Keys(t) <==> x in s;
    }
  }

  lemma MergedKeysAscending(t1: Tree, t2: Tree)
    requires IsBST(t1) && IsBST(t2)
    requires Keys(t1) !! Keys(t2)
    ensures StrictlyAscending(MergedKeys(t1, t2))
  {
    var a, b := InOrder(t1), InOrder(t2);
    InOrderKeys(t1);
    InOrderKeys(t2);
    InOrderAscendingIffBST(t1);
    InOrderAscendingIffBST(t2);
    MergeStrictlyAscending(a, b);
  }

  lemma MergedKeysMembers(t1: Tree, t2: Tree)
    ensures forall x :: x in MergedKeys(t1, t2) <==> x in Keys(t1) + Keys(t2)
  {
    var a, b := InOrder(t1), InOrder(t2);
    var s := MergeBy(a, b, Identity);
    MergePermutation(a, b, Identity);
    assert multiset(s) == multiset(a) + multiset(b);
    InOrderKeys(t1);
    InOrderKeys(t2);
    forall x ensures x in s <==> x in Keys(t1) + Keys(t2) {
      calc {
        x in s;
        x in multiset(s);
        x in multiset(a) || x in multiset(b);
        x in a || x in b;
      }
    }
  }

  /** The sequence of insert calls that builds a tree from the empty one. */
  function InsertAll(t: Tree, keys: seq<int>): Result<Tree>
    decreases |keys|
  {
    if keys == [] then Ok(t)
    else
      match Insert(t, keys[0])
      case Ok(t') => InsertAll(t', keys[1..])
      case Err(e) => Err(e)
  }

  function Tree1(): Tree
  {
    Node(50, Node(30, Node(20, Leaf, Leaf), Node(40, Leaf, Leaf)),
             Node(70, Node(60, Leaf, Leaf), Node(80, Leaf, Leaf)))
  }

  function Tree2(): Tree
  {
    Node(75, Node(25, Leaf, Leaf),
             Node(81, Node(76, Leaf, Leaf),
                      Node(86, Leaf, Node(100, Node(90, Leaf, Leaf), Leaf))))
  }

  function MergedTree(): Tree
  {
    Node(70, MergedLeft(), MergedRight())
  }

  function MergedLeft(): Tree
  {
    Node(30, Node(20, Leaf, Node(25, Leaf, Leaf)), Node(50, Node(40, Leaf, Leaf), Node(60, Leaf, Leaf)))
  }

  function MergedRight(): Tree
  {
    Node(81, Node(76, Node(75, Leaf, Leaf), Node(80, Leaf, Leaf)), Node(90, Node(86, Leaf, Leaf), Node(100, Leaf, Leaf)))
  }

  /** The demonstration scenario, first tree: its insert calls build the tree drawn beside them. */
  lemma InsertExample1()
    ensures InsertAll(Leaf, [50, 30, 20, 40, 70, 60, 80]) == Ok(Tree1())
  {
    var l30 := Node(30, Node(20, Leaf, Leaf), Node(40, Leaf, Leaf));
    assert InsertAll(Node(50, l30, Node(70, Node(60, Leaf, Leaf), Leaf)), [80]) == Ok(Tree1());
    assert InsertAll(Node(50, l30, Node(70, Leaf, Leaf)), [60, 80]) == Ok(Tree1());
    assert InsertAll(Node(50, l30, Leaf), [70, 60, 80]) == Ok(Tree1());
    assert InsertAll(Node(50, Node(30, Node(20, Leaf, Leaf), Leaf), Leaf), [40, 70, 60, 80]) == Ok(Tree1());
    assert InsertAll(Node(50, Node(30, Leaf, Leaf), Leaf), [20, 40, 70, 60, 80]) == Ok(Tree1());
    assert InsertAll(Node(50, Leaf, Leaf), [30, 20, 40, 70, 60, 80]) == Ok(Tree1());
  }

  /** The demonstration scenario, second tree. */
  lemma InsertExample2()
    ensures InsertAll(Leaf, [75, 25, 81, 76, 86, 100, 90]) == Ok(Tree2())
  {
    var l25 := Node(25, Leaf, Leaf);
    var r81 := Node(81, Node(76, Leaf, Leaf), Node(86, Leaf, Node(100, Leaf, Leaf)));
    assert InsertAll(Node(75, l25, r81), [90]) == Ok(Tree2());
    assert InsertAll(Node(75, l25, Node(81, Node(76, Leaf, Leaf), Node(86, Leaf, Leaf))), [100, 90]) == Ok(Tree2());
    assert InsertAll(Node(75, l25, Node(81, Node(76, Leaf, Leaf), Leaf)), [86, 100, 90]) == Ok(Tree2());
    assert InsertAll(Node(75, l25, Node(81, Leaf, Leaf)), [76, 86, 100, 90]) == Ok(Tree2());
    assert InsertAll(Node(75, l25, Leaf), [81, 76, 86, 100, 90]) == Ok(Tree2());
    assert InsertAll(Node(75, Leaf, Leaf), [25, 81, 76, 86, 100, 90]) == Ok(Tree2());
  }

  /** The copying merge of the two demonstration trees is the balanced tree drawn below them. */
  lemma MergeExample()
    ensures MergeTrees(Tree1(), Tree2()) == MergedTree()
  {
    MergedKeysExample();
    BuildExample(MergedKeys(Tree1(), Tree2()));
  }

  /** The merged key list of the demonstration scenario, one index at a time. */
  predicate ExampleKeys(s: seq<int>)
  {
    |s| == 14 &&
    s[0] == 20 && s[1] == 25 && s[2] == 30 && s[3] == 40 && s[4] == 50 && s[5] == 60 &&
    s[6] == 70 && s[7] == 75 && s[8] == 76 && s[9] == 80 && s[10] == 81 && s[11] == 86 &&
    s[12] == 90 && s[13] == 100
  }

  /** One level of the rebuild, with the midpoint written out. */
  lemma BuildStep(s: seq<int>, lo: int, mid: int, hi: int)
    requires 0 <= lo <= hi < |s| && mid == lo + (hi - lo) / 2
    ensures Build(s, lo, hi) == Node(s[mid], Build(s, lo, mid - 1), Build(s, mid + 1, hi))
  {
  }

  /** A rebuild of one key is a single node. */
  lemma BuildSingle(s: seq<int>, i: int)
    requires 0 <= i < |s|
    ensures Build(s, i, i) == Node(s[i], Leaf, Leaf)
  {
    BuildStep(s, i, i, i);
  }

  lemma BuildExample(s: seq<int>)
    requires ExampleKeys(s)
    ensures Build(s, 0, 13) == MergedTree()
  {
    BuildExampleLeft(s);
    BuildExampleRight(s);
    BuildStep(s, 0, 6, 13);
  }

  lemma BuildExampleLeft(s: seq<int>)
    requires ExampleKeys(s)
    ensures Build(s, 0, 5) == MergedLeft()
  {
    BuildSingle(s, 1);
    BuildStep(s, 0, 0, 1);
    BuildSingle(s, 3);
    BuildSingle(s, 5);
    BuildStep(s, 3, 4, 5);
    BuildStep(s, 0, 2, 5);
  }

  lemma BuildExampleRight(s: seq<int>)
    requires ExampleKeys(s)
    ensures Build(s, 7, 13) == MergedRight()
  {
    BuildSingle(s, 7);
    BuildSingle(s, 9);
    BuildStep(s, 7, 8, 9);
    BuildSingle(s, 11);
    BuildSingle(s, 13);
    BuildStep(s, 11, 12, 13);
    BuildStep(s, 7, 10, 13);
  }

  lemma MergedKeysExample()
    ensures ExampleKeys(MergedKeys(Tree1(), Tree2()))
  {
    InOrderExample();
    var merged := [20, 25, 30, 40, 50, 60, 70, 75, 76, 80, 81, 86, 90, 100];
    MergeLiteralExample(InOrder(Tree1()), InOrder(Tree2()), merged);
  }

  /** The in-order key lists of the two demonstration trees, one index at a time. */
  predicate ExampleLeftKeys(a: seq<int>)
  {
    |a| == 7 && a[0] == 20 && a[1] == 30 && a[2] == 40 && a[3] == 50 && a[4] == 60 &&
    a[5] == 70 && a[6] == 80
  }

  predicate ExampleRightKeys(b: seq<int>)
  {
    |b| == 7 && b[0] == 25 && b[1] == 75 && b[2] == 76 && b[3] == 81 && b[4] == 86 &&
    b[5] == 90 && b[6] == 100
  }

  /** One step of the two-pointer merge, read against the expected output `k`: the element
      taken is the next one of `k`, and the rest of the merge is the rest of `k`. */
  lemma MergeTraceStep(a: seq<int>, b: seq<int>, k: seq<int>, i: int, j: int)
    requires 0 <= i < |a| && 0 <= j < |b| && i + j < |k|
    requires a[i] < b[j] ==> a[i] == k[i + j] && MergeBy(a[i + 1..], b[j..], Identity) == k[i + j + 1..]
    requires a[i] >= b[j] ==> b[j] == k[i + j] && MergeBy(a[i..], b[j + 1..], Identity) == k[i + j + 1..]
    ensures MergeBy(a[i..], b[j..], Identity) == k[i + j..]
  {
    MergeStepAt(a, b, i, j, Identity);
    assert k[i + j..] == [k[i + j]] + k[i + j + 1..];
  }

  lemma MergeLiteralExample(a: seq<int>, b: seq<int>, k: seq<int>)
    requires ExampleLeftKeys(a) && ExampleRightKeys(b) && ExampleKeys(k)
    ensures MergeBy(a, b, Identity) == k
  {
    assert MergeBy(a[7..], b[3..], Identity) == k[10..];
    MergeTraceStep(a, b, k, 6, 3);
    MergeTraceStep(a, b, k, 6, 2);
    MergeTraceStep(a, b, k, 6, 1);
    MergeTraceStep(a, b, k, 5, 1);
    MergeTraceStep(a, b, k, 4, 1);
    MergeTraceStep(a, b, k, 3, 1);
    MergeTraceStep(a, b, k, 2, 1);
    MergeTraceStep(a, b, k, 1, 1);
    MergeTraceStep(a, b, k, 1, 0);
    MergeTraceStep(a, b, k, 0, 0);
    assert a[0..] == a && b[0..] == b && k[0..] == k;
  }

  lemma InOrderExample()
    ensures InOrder(Tree1()) == [20, 30, 40, 50, 60, 70, 80]
    ensures InOrder(Tree2()) == [25, 75, 76, 81, 86, 90, 100]
  {
    InOrderExample1();
    InOrderExample2();
  }

  lemma InOrderExample1()
    ensures InOrder(Tree1()) == [20, 30, 40, 50, 60, 70, 80]
  {
  }

  lemma InOrderExample2()
    ensures InOrder(Tree2()) == [25, 75, 76, 81, 86, 90, 100]
  {
  }

  /** One step of the breadth-first traversal on a queue whose head is a node. */
  lemma LevelOrderStep(k: int, l: Tree, r: Tree, rest: seq<Tree>, next: seq<Tree>)
    requires next == rest + Enqueue(l) + Enqueue(r)
    ensures LevelOrder([Node(k, l, r)] + rest) == [k] + LevelOrder(next)
  {
    var q := [Node(k, l, r)] + rest;
    assert q[0] == Node(k, l, r) && q[1..] == rest;
  }

  lemma LevelOrderExample3()
    ensures LevelOrder([Node(86, Leaf, Leaf)] + [Node(100, Leaf, Leaf)]) ==
      [86, 100]
  {
    LevelOrderStep(86, Leaf, Leaf, [Node(100, Leaf, Leaf)],
      [Node(100, Leaf, Leaf)] + []);
    LevelOrderStep(100, Leaf, Leaf, [],
      []);
  }

  lemma LevelOrderExample2()
    ensures LevelOrder([Node(40, Leaf, Leaf)] + [Node(60, Leaf, Leaf), Node(75, Leaf, Leaf), Node(80, Leaf, Leaf), Node(86, Leaf, Leaf), Node(100, Leaf, Leaf)]) ==
      [40, 60, 75, 80, 86, 100]
  {
    LevelOrderExample3();
    LevelOrderStep(40, Leaf, Leaf, [Node(60, Leaf, Leaf), Node(75, Leaf, Leaf), Node(80, Leaf, Leaf), Node(86, Leaf, Leaf), Node(100, Leaf, Leaf)],
      [Node(60, Leaf, Leaf)] + [Node(75, Leaf, Leaf), Node(80, Leaf, Leaf), Node(86, Leaf, Leaf), Node(100, Leaf, Leaf)]);
    LevelOrderStep(60, Leaf, Leaf, [Node(75, Leaf, Leaf), Node(80, Leaf, Leaf), Node(86, Leaf, Leaf), Node(100, Leaf, Leaf)],
      [Node(75, Leaf, Leaf)] + [Node(80, Leaf, Leaf), Node(86, Leaf, Leaf), Node(100, Leaf, Leaf)]);
    LevelOrderStep(75, Leaf, Leaf, [Node(80, Leaf, Leaf), Node(86, Leaf, Leaf), Node(100, Leaf, Leaf)],
      [Node(80, Leaf, Leaf)] + [Node(86, Leaf, Leaf), Node(100, Leaf, Leaf)]);
    LevelOrderStep(80, Leaf, Leaf, [Node(86, Leaf, Leaf), Node(100, Leaf, Leaf)],
      [Node(86, Leaf, Leaf)] + [Node(100, Leaf, Leaf)]);
  }

  lemma LevelOrderExample1()
    ensures LevelOrder([Node(50, Node(40, Leaf, Leaf), Node(60, Leaf, Leaf))] + [Node(76, Node(75, Leaf, Leaf), Node(80, Leaf, Leaf)), Node(90, Node(86, Leaf, Leaf), Node(100, Leaf, Leaf)), Node(25, Leaf, Leaf)]) ==
      [50, 76, 90, 25, 40, 60, 75, 80, 86, 100]
  {
    LevelOrderExample2();
    LevelOrderStep(50, Node(40, Leaf, Leaf), Node(60, Leaf, Leaf), [Node(76, Node(75, Leaf, Leaf), Node(80, Leaf, Leaf)), Node(90, Node(86, Leaf, Leaf), Node(100, Leaf, Leaf)), Node(25, Leaf, Leaf)],
      [Node(76, Node(75, Leaf, Leaf), Node(80, Leaf, Leaf))] + [Node(90, Node(86, Leaf, Leaf), Node(100, Leaf, Leaf)), Node(25, Leaf, Leaf), Node(40, Leaf, Leaf), Node(60, Leaf, Leaf)]);
    LevelOrderStep(76, Node(75, Leaf, Leaf), Node(80, Leaf, Leaf), [Node(90, Node(86, Leaf, Leaf), Node(100, Leaf, Leaf)), Node(25, Leaf, Leaf), Node(40, Leaf, Leaf), Node(60, Leaf, Leaf)],
      [Node(90, Node(86, Leaf, Leaf), Node(100, Leaf, Leaf))] + [Node(25, Leaf, Leaf), Node(40, Leaf, Leaf), Node(60, Leaf, Leaf), Node(75, Leaf, Leaf), Node(80, Leaf, Leaf)]);
    LevelOrderStep(90, Node(86, Leaf, Leaf), Node(100, Leaf, Leaf), [Node(25, Leaf, Leaf), Node(40, Leaf, Leaf), Node(60, Leaf, Leaf), Node(75, Leaf, Leaf), Node(80, Leaf, Leaf)],
      [Node(25, Leaf, Leaf)] + [Node(40, Leaf, Leaf), Node(60, Leaf, Leaf), Node(75, Leaf, Leaf), Node(80, Leaf, Leaf), Node(86, Leaf, Leaf), Node(100, Leaf, Leaf)]);
    LevelOrderStep(25, Leaf, Leaf, [Node(40, Leaf, Leaf), Node(60, Leaf, Leaf), Node(75, Leaf, Leaf), Node(80, Leaf, Leaf), Node(86, Leaf, Leaf), Node(100, Leaf, Leaf)],
      [Node(40, Leaf, Leaf)] + [Node(60, Leaf, Leaf), Node(75, Leaf, Leaf), Node(80, Leaf, Leaf), Node(86, Leaf, Leaf), Node(100, Leaf, Leaf)]);
  }

  lemma LevelOrderExample0()
    ensures LevelOrder([MergedLeft()] + [MergedRight()]) ==
      [30, 81, 20, 50, 76, 90, 25, 40, 60, 75, 80, 86, 100]
  {
    assert MergedLeft() == Node(30, Node(20, Leaf, Node(25, Leaf, Leaf)), Node(50, Node(40, Leaf, Leaf), Node(60, Leaf, Leaf))) && MergedRight() == Node(81, Node(76, Node(75, Leaf, Leaf), Node(80, Leaf, Leaf)), Node(90, Node(86, Leaf, Leaf), Node(100, Leaf, Leaf)));
    LevelOrderExample1();
    LevelOrderStep(30, Node(20, Leaf, Node(25, Leaf, Leaf)), Node(50, Node(40, Leaf, Leaf), Node(60, Leaf, Leaf)), [Node(81, Node(76, Node(75, Leaf, Leaf), Node(80, Leaf, Leaf)), Node(90, Node(86, Leaf, Leaf), Node(100, Leaf, Leaf)))],
      [Node(81, Node(76, Node(75, Leaf, Leaf), Node(80, Leaf, Leaf)), Node(90, Node(86, Leaf, Leaf), Node(100, Leaf, Leaf)))] + [Node(20, Leaf, Node(25, Leaf, Leaf)), Node(50, Node(40, Leaf, Leaf), Node(60, Leaf, Leaf))]);
    LevelOrderStep(81, Node(76, Node(75, Leaf, Leaf), Node(80, Leaf, Leaf)), Node(90, Node(86, Leaf, Leaf), Node(100, Leaf, Leaf)), [Node(20, Leaf, Node(25, Leaf, Leaf)), Node(50, Node(40, Leaf, Leaf), Node(60, Leaf, Leaf))],
      [Node(20, Leaf, Node(25, Leaf, Leaf))] + [Node(50, Node(40, Leaf, Leaf), Node(60, Leaf, Leaf)), Node(76, Node(75, Leaf, Leaf), Node(80, Leaf, Leaf)), Node(90, Node(86, Leaf, Leaf), Node(100, Leaf, Leaf))]);
    LevelOrderStep(20, Leaf, Node(25, Leaf, Leaf), [Node(50, Node(40, Leaf, Leaf), Node(60, Leaf, Leaf)), Node(76, Node(75, Leaf, Leaf), Node(80, Leaf, Leaf)), Node(90, Node(86, Leaf, Leaf), Node(100, Leaf, Leaf))],
      [Node(50, Node(40, Leaf, Leaf), Node(60, Leaf, Leaf))] + [Node(76, Node(75, Leaf, Leaf), Node(80, Leaf, Leaf)), Node(90, Node(86, Leaf, Leaf), Node(100, Leaf, Leaf)), Node(25, Leaf, Leaf)]);
  }

  lemma LevelOrderExample()
    ensures LevelOrder([MergedTree()]) ==
      [70, 30, 81, 20, 50, 76, 90, 25, 40, 60, 75, 80, 86, 100]
  {
    LevelOrderExample0();
    LevelOrderStep(70, MergedLeft(), MergedRight(), [], [MergedLeft()] + [MergedRight()]);
    assert [MergedTree()] == [Node(70, MergedLeft(), MergedRight())] + [];
  }
}
