# Binary search tree with balanced merging

This project models `BinarySearchTree`, an unbalanced binary search tree over `int`
keys, in Dafny. The tree supports insert (which rejects a duplicate key), find, delete
(two-child nodes take their in-order successor's key), height, the in-order, pre-order and
post-order lists, and a breadth-first list. It also has two ways to merge two trees into
one tree of minimum height:

- a copying merge: it reads both trees' in-order key lists, merges them and rebuilds a
  tree of fresh nodes, always splitting at the left-biased midpoint;
- an in-place merge: it collects the two trees' nodes in order, merges those node lists
  by key and relinks the same nodes into the balanced shape.

The project has five modules:

- `SortedMerge` (`merge.dfy`) specifies the two-cursor merge of ascending sequences,
  `MergeBy`, generic over the element type and the key each element is compared by. It
  takes the right-hand element on equal keys, as the source does. The key-list merge is
  `MergeBy` with the keys themselves. The node merge has its own definition,
  `Bst.MergeNodes`, because a node's key lives in the heap; `Bst.MergeNodesByKey` proves
  it equal to `MergeBy` over (key, node) entries, so the generic order and tie-break
  lemmas carry over to nodes.
- `Trees` (`trees.dfy`) defines the abstract value `Tree` and the pure meaning of every
  single-tree operation: `Insert` returns `Err(DuplicateKey)` on a duplicate, and
  `Leftmost` gives the minimum. It also defines the traversals and the queue-driven
  `LevelOrder`.
- `Rebuild` (`rebuild.dfy`) defines the midpoint rebuild `Build`, the merged key list
  and the copying merge `MergeTrees`. It proves their order, content and height
  (`CeilLog2(n + 1)`, the minimum for `n` keys). It also replays the demonstration
  scenario of `main` on values.
- `Bst` (`bst.dfy`) is the heap structure: class `Node` with mutable `key`, `left`
  and `right`. Its ghost `Repr` and `Model` tie each node to the `Tree` value below it.
  The module holds the static helpers of the source. Those that change nodes or loop are
  methods; `NodeHeight`, `FindNode` and `GetListOfSortedNodes` only read the heap and are
  functions. The key-level helpers are proved against the `Trees` or `Rebuild` function
  they implement, `GetListOfSortedNodes` against the in-order node list `Bst.NodeSeq`, and
  `MergeListsOfSortedNodes` against the node merge `Bst.MergeNodes`.
- `SearchTree` (`search_tree.dfy`) is class `BinarySearchTree`. It holds the `root`
  field, the public operations, and the two merges as static methods.

## Model

| member | source | states |
|---|---|---|
| Trees.Height | src/BinarySearchTree.java:30-38 | the height of a tree value: 0 for the empty tree, one more than the higher subtree otherwise |
| Trees.InOrder | src/BinarySearchTree.java:169-176 | the in-order key list: left subtree, key, right subtree |
| Trees.PreOrder | src/BinarySearchTree.java:185-192 | the pre-order key list: key, left subtree, right subtree |
| Trees.PostOrder | src/BinarySearchTree.java:200-207 | the post-order key list: left subtree, right subtree, key |
| Trees.Insert | src/BinarySearchTree.java:44-57 | the pure insert: a new leaf where the comparisons lead, the duplicate-key error on an equal key |
| Trees.Leftmost | src/BinarySearchTree.java:111-119 | the key reached by following left links from a non-empty tree |
| Trees.Delete | src/BinarySearchTree.java:82-109 | the pure delete: a node with at most one child is replaced by that child, a node with two takes its right subtree's leftmost key, which is deleted there |
| Trees.LevelOrder | src/BinarySearchTree.java:209-230 | the breadth-first key list of a queue of subtrees: pop the head, emit its key, enqueue its non-empty children |
| Trees.InOrderAscendingIffBST | src/BinarySearchTree.java:169-176 | a tree is a search tree (left keys smaller, right keys larger at every node) if and only if its in-order list is strictly ascending |
| Trees.InOrderKeys | src/BinarySearchTree.java:169-176 | a value occurs in the in-order list exactly when it is a key of the tree |
| Trees.InOrderSize | src/BinarySearchTree.java:169-176 | the in-order list has one entry per node |
| Trees.PreOrderPermutation | src/BinarySearchTree.java:185-192 | the pre-order list is a permutation of the in-order list and starts with the root key |
| Trees.PostOrderPermutation | src/BinarySearchTree.java:200-207 | the post-order list is a permutation of the in-order list and ends with the root key |
| Trees.InsertCorrect | src/BinarySearchTree.java:44-57 | on a search tree, insert fails exactly when the key is present, and the error is the duplicate-key error; on success the result is a search tree whose keys are the old keys plus the new one |
| Trees.SearchStep | src/BinarySearchTree.java:70-75 | in a search tree, a key below (above) the root key can only be in the left (right) subtree, which is a search tree itself |
| Trees.LeftmostIsMinimum | src/BinarySearchTree.java:111-119 | the key reached by following left links is a key of the subtree, and in a search tree it is the smallest one |
| Trees.DeleteCorrect | src/BinarySearchTree.java:82-109 | deleting from a search tree leaves a search tree whose keys are the old keys minus the deleted one |
| Trees.DeleteAbsent | src/BinarySearchTree.java:82-93 | deleting a key that is not in the tree returns the tree unchanged |
| Trees.NextQueueShrinks | src/BinarySearchTree.java:219-226 | one step of the breadth-first loop removes one node from the queue's subtrees and moves the head's key out of their key multiset |
| Trees.EnqueueForest | src/BinarySearchTree.java:215-216 | the starting queue holds the tree's nodes and keys (none for an empty tree) |
| Trees.LevelOrderHead | src/BinarySearchTree.java:218-227 | the breadth-first list of a queue is the head's key followed by the list of the next queue, and the queue's subtrees shrink |
| Trees.LevelOrderKeys | src/BinarySearchTree.java:218-227 | the breadth-first list of a queue is a permutation of the keys of the queued subtrees |
| Trees.LevelOrderOfTree | src/BinarySearchTree.java:209-230 | the breadth-first list of a tree is empty exactly for the empty tree, starts with the root key and is a permutation of the in-order list |
| Bst.Node.constructor | src/BinarySearchTree.java:9-13 | a new node is a valid leaf node holding the given key |
| Bst.NodeHeight | src/BinarySearchTree.java:30-38 | the computed height is the height of the subtree's value |
| Bst.InsertNode | src/BinarySearchTree.java:44-57 | on success the returned subtree's value is the pure insert of the key into the old value, old nodes are kept and any new node is fresh; on a duplicate it returns the duplicate-key error and changes no node |
| Bst.FindNode | src/BinarySearchTree.java:63-76 | a true answer means the key is in the subtree; in a search tree every key present is found |
| Bst.DeleteNode | src/BinarySearchTree.java:82-103 | the returned subtree's value is the pure delete of the key from the old value, and it uses only old nodes |
| Bst.DeleteRootWithBothChildren | src/BinarySearchTree.java:105-109 | on a node with two children, the node's new value is the pure delete of its old key from its old value, using only old nodes |
| Bst.GetMinValue | src/BinarySearchTree.java:111-119 | an empty subtree gives the empty-tree error; otherwise the loop returns the leftmost key of the subtree |
| Bst.InOrderListHelper | src/BinarySearchTree.java:169-176 | the output is the input list followed by the subtree's in-order list |
| Bst.PreOrderListHelper | src/BinarySearchTree.java:185-192 | the output is the input list followed by the subtree's pre-order list |
| Bst.PostOrderListHelper | src/BinarySearchTree.java:200-207 | the output is the input list followed by the subtree's post-order list |
| Bst.MergeSortedLists | src/BinarySearchTree.java:255-281 | the three loops produce exactly the merge of the two lists, right-hand element first on equal keys |
| Bst.GetBalancedBSTFromSortedList | src/BinarySearchTree.java:243-253 | the result is made of fresh nodes only, and its value is the midpoint rebuild of the index range |
| Bst.NodeSeq | src/BinarySearchTree.java:296-303 | the nodes of a subtree in in-order sequence |
| Bst.NodeSeqKeys | src/BinarySearchTree.java:296-303 | the keys of the in-order node list are the subtree's in-order key list |
| Bst.NodeSeqDistinct | src/BinarySearchTree.java:296-303 | the in-order node list holds no node twice |
| Bst.NodeSeqMembers | src/BinarySearchTree.java:296-303 | the in-order node list holds exactly the nodes of the subtree |
| Bst.GetListOfSortedNodes | src/BinarySearchTree.java:296-303 | the output is the input list followed by the subtree's nodes in in-order sequence |
| Bst.MergeNodes | src/BinarySearchTree.java:305-330 | the two-pointer merge of node lists by the keys the nodes hold, right-hand node first on equal keys |
| Bst.MergeNodesKeys | src/BinarySearchTree.java:305-330 | the keys of the merged node list are the merge of the two key lists |
| Bst.MergeNodesPermutation | src/BinarySearchTree.java:305-330 | the merged node list is a permutation of the two input node lists together |
| Bst.MergeListsOfSortedNodes | src/BinarySearchTree.java:305-330 | the three loops produce exactly the merged node list; its order, permutation and tie-break are the lemmas below |
| Bst.MergeNodesByKey | src/BinarySearchTree.java:305-330 | the node merge, read as (key, node) entries, is the generic merge of the two entry lists compared by key |
| Bst.KeyedSorted | src/BinarySearchTree.java:305-330 | a node list is ordered by its (key, node) entries exactly when its key list is ascending |
| Bst.MergeNodesSorted | src/BinarySearchTree.java:305-330 | merging two node lists with ascending keys gives a node list with ascending keys |
| Bst.MergeNodesTieBreak | src/BinarySearchTree.java:313-318 | among the nodes holding one key, the merged list has every node of the right-hand list before every node of the left-hand list, each in its own order |
| Bst.SelfMergeRepeats | src/BinarySearchTree.java:285-294 | merging a one-node tree with itself lists its node twice, and the midpoint relinking of that list would make the node its own right child |
| Bst.LinkChildren | src/BinarySearchTree.java:338-339 | linking the midpoint node to the two relinked halves gives the midpoint shape over the whole range |
| Bst.WiredValid | src/BinarySearchTree.java:332-341 | nodes linked in the midpoint shape over an index range form a valid subtree made of exactly the nodes in that range |
| Bst.WiredModel | src/BinarySearchTree.java:332-341 | nodes linked in the midpoint shape carry the value of the midpoint rebuild of their keys |
| Bst.GetBalancedBSTFromSortedNodeList | src/BinarySearchTree.java:332-341 | the index range's nodes are relinked in the midpoint shape; the result is valid, made of exactly those nodes, its value is the midpoint rebuild of their keys, and no key changes |
| Bst.MergedNodeList | src/BinarySearchTree.java:285-294 | merging the in-order node lists of two disjoint trees gives a list without repeats that covers both trees' nodes and whose keys are the merged key list |
| SearchTree.BfsStep | src/BinarySearchTree.java:218-227 | one step of the node queue stays inside the tree, shrinks the queued subtrees and emits the head key before the rest of the breadth-first list |
| SearchTree.NextNodesModels | src/BinarySearchTree.java:219-226 | the node queue after one step has the values of the value queue after one step |
| SearchTree.BinarySearchTree.constructor | src/BinarySearchTree.java:18-20 | a new tree is valid and empty |
| SearchTree.BinarySearchTree.FromRoot | src/BinarySearchTree.java:22-24 | a tree over a valid root has that root's value and nodes |
| SearchTree.BinarySearchTree.GetHeight | src/BinarySearchTree.java:26-28 | the tree's height is the height of its value |
| SearchTree.BinarySearchTree.Insert | src/BinarySearchTree.java:40-42 | on success the tree's value is the pure insert of the key; on a duplicate it reports the duplicate-key error and the tree is unchanged |
| SearchTree.BinarySearchTree.Find | src/BinarySearchTree.java:59-61 | true only for keys of the tree, and for every key of a search tree |
| SearchTree.BinarySearchTree.Delete | src/BinarySearchTree.java:78-80 | the tree's value is the pure delete of the key, and no new node appears |
| SearchTree.BinarySearchTree.InOrderList | src/BinarySearchTree.java:163-167 | returns the in-order list of the tree's value |
| SearchTree.BinarySearchTree.PreOrderList | src/BinarySearchTree.java:179-183 | returns the pre-order list of the tree's value |
| SearchTree.BinarySearchTree.PostOrderList | src/BinarySearchTree.java:194-198 | returns the post-order list of the tree's value |
| SearchTree.BinarySearchTree.BfsList | src/BinarySearchTree.java:209-230 | the queue loop returns the breadth-first list of the tree's value, and an empty list for an empty tree |
| SearchTree.BinarySearchTree.MergeTreesIntoBalancedBST | src/BinarySearchTree.java:234-241 | the result is a new tree of fresh nodes whose value is the copying merge of the two input values; it modifies nothing, so the input trees stay intact |
| SearchTree.BinarySearchTree.InplaceMergeBSTsIntoBalancedBST | src/BinarySearchTree.java:285-294 | the result owns exactly the nodes of both inputs and its value is the same as the copying merge's |
| Rebuild.Build | src/BinarySearchTree.java:243-253 | the midpoint rebuild of an index range: the left-biased midpoint key at the root, the two halves rebuilt below it |
| Rebuild.MergeTrees | src/BinarySearchTree.java:234-241 | the copying merge: the midpoint rebuild of the merge of the two in-order key lists |
| Rebuild.BuildInOrder | src/BinarySearchTree.java:243-253 | the in-order list of the midpoint rebuild of an index range is that slice of the list |
| Rebuild.BuildSize | src/BinarySearchTree.java:243-253 | the rebuild of an index range has one node per index |
| Rebuild.BuildHeight | src/BinarySearchTree.java:243-253 | the rebuild of n entries has height ceil(log2(n + 1)) |
| Rebuild.MinimumHeight | src/BinarySearchTree.java:232-233 | no tree with n keys is lower than ceil(log2(n + 1)), so the rebuild's height is the minimum |
| Rebuild.BuildOrdered | src/BinarySearchTree.java:243-253 | the rebuild of a strictly ascending list is a search tree whose keys are the list's entries |
| Rebuild.MergeTreesCorrect | src/BinarySearchTree.java:232-241 | for two search trees, the merged tree's in-order list is the merged key list, a permutation of both in-order lists together, ascending; it has as many nodes as both trees together and minimum height |
| Rebuild.MergeTreesOrdered | src/BinarySearchTree.java:232-241 | for two search trees with disjoint keys, the merged tree is a search tree holding the union of the keys |
| Rebuild.MergedKeysAscending | src/BinarySearchTree.java:235-237 | the merge of two search trees' in-order lists with disjoint keys is strictly ascending |
| Rebuild.InsertExample1 | src/BinarySearchTree.java:344-358 | the first insert sequence of the demonstration builds the first tree drawn beside it |
| Rebuild.InsertExample2 | src/BinarySearchTree.java:360-377 | the second insert sequence builds the second tree drawn beside it |
| Rebuild.InOrderExample | src/BinarySearchTree.java:353-377 | the in-order lists of the two demonstration trees |
| Rebuild.MergeLiteralExample | src/BinarySearchTree.java:255-281 | merging the two demonstration in-order lists gives the fourteen keys in ascending order |
| Rebuild.MergeExample | src/BinarySearchTree.java:395-403 | the copying merge of the two demonstration trees is the merged tree drawn at the end of the demonstration |
| Rebuild.LevelOrderExample | src/BinarySearchTree.java:379-381 | the breadth-first list of the merged demonstration tree, level by level |
| SortedMerge.MergeBy | src/BinarySearchTree.java:255-281 | the two-pointer merge: the smaller head first, the right-hand head on equal keys, then the rest of either list |
| SortedMerge.MergePermutation | src/BinarySearchTree.java:255-281 | the merge has the length of both inputs together and is a permutation of them |
| SortedMerge.MergeSorted | src/BinarySearchTree.java:255-281 | the merge of two sorted lists is sorted |
| SortedMerge.MergeTieBreak | src/BinarySearchTree.java:262-268 | among elements with equal keys, the merge puts those of the right-hand list first, each list keeping its own order |
| SortedMerge.MergeStrictlyAscending | src/BinarySearchTree.java:255-281 | the merge of two strictly ascending lists with no common value is strictly ascending |

## Left out

- The print methods (`printInOrder`, `printPreOrder`, `printPostOrder` and their helpers) only write to standard output. Their output order is the same as the list traversals, which are modelled.
- `main` is not modelled as code. Its scenario is stated as lemmas in `Rebuild` about values: the two insert sequences, the merge result and the breadth-first list. Its second "in place" merge calls the copying merge again, so the in-place merge's agreement with it is stated by `InplaceMergeBSTsIntoBalancedBST`'s contract instead.
- Keys are unbounded integers. The source's 32-bit `int` cannot overflow in any operation here, because keys are only compared and copied. The index arithmetic `left + (right - left) / 2` stays in range for list sizes a Java list can have.
- Java `List`, `ArrayList` and `Deque` are modelled as Dafny sequences. Appending to a list is `list + [x]`, and popping the queue's head is `q[1..]`.
- The helpers that fill a caller's list (`inOrderListHelper` and the others) return the extended list instead of mutating a shared list object. `getListOfSortedNodes` is a function that threads the list the same way: it changes nothing in the heap.
- InplaceMergeBSTsIntoBalancedBST: requires the two input trees to share no node. The source assumes two separately built trees but does not check it. The state of the two input trees after the merge is not described; the source notes only that the merge does not conserve them. Merging a tree with itself is a finding (below).
- GetBalancedBSTFromSortedNodeList: requires the node list to hold no node twice. The only caller passes the merge of two disjoint trees' node lists, which satisfies this (see `Bst.MergedNodeList`).
- GetMinValue: the source throws `IllegalArgumentException("Empty tree!")`, modelled as `Err(EmptyTree)`. The only caller, the two-child delete, never reaches it.
- InsertNode: the source throws `IllegalArgumentException` on a duplicate key, modelled as `Err(DuplicateKey)`. An exception thrown deep in the recursion leaves the tree as it was, because no assignment has happened yet, and the contract states this.
- Neither merge checks for a key that is in both inputs. `Rebuild.MergeTreesCorrect` covers that case too: the result then holds the key twice, and the search-tree order is proved only for disjoint key sets (`Rebuild.MergeTreesOrdered`).

## Findings

| source | as written | input that shows it | evidently intended | confidence | as-written member | corrected member |
|---|---|---|---|---|---|---|
| src/BinarySearchTree.java:285-294 | the in-place merge does not check that its two trees are separate; given the same tree twice it lists every node twice and relinks a node below itself | `inplaceMergeBSTsIntoBalancedBST(t, t)` with `t` a one-node tree `n`: the merged list is `[n, n]`, and relinking indices 0..1 sets `n.right = n`, a cycle on which `bfsList` never ends | the two trees share no node | medium; not executed | Bst.SelfMergeRepeats | SearchTree.BinarySearchTree.InplaceMergeBSTsIntoBalancedBST |
