/** Two-pointer merge of two ascending sequences, as used by both merge entry points,
    and the facts about sortedness and repetition the merges rely on. The merge is generic
    over the element type and a key function. */
module SortedMerge {

  /** Appending to an accumulator in two steps is appending once. */
  lemma AppendAssoc<T>(a: seq<T>, b: seq<T>, c: seq<T>)
    ensures (a + b) + c == a + (b + c)
  {
  }

  /** Key function for sequences whose elements are themselves the keys. */
  function Identity(x: int): int { x }

  predicate SortedBy<T>(s: seq<T>, key: T -> int)
  {
    forall i, j :: 0 <= i < j < |s| ==> key(s[i]) <= key(s[j])
  }

  predicate StrictlyAscending(s: seq<int>)
  {
    forall i, j :: 0 <= i < j < |s| ==> s[i] < s[j]
  }

  /** No element occurs twice: the head is not in the tail, and the tail has no repeats. */
  predicate Distinct<T(==)>(s: seq<T>)
  {
    s == [] || (s[0] !in s[1..] && Distinct(s[1..]))
  }

  lemma {:induction false} DistinctIndex<T>(s: seq<T>)
    ensures Distinct(s) <==> forall i, j :: 0 <= i < j < |s| ==> s[i] != s[j]
  {
    if s != [] {
      DistinctIndex(s[1..]);
      if Distinct(s) {
        forall i, j | 0 <= i < j < |s| ensures s[i] != s[j] {
          if i == 0 {
            assert s[j] == s[1..][j - 1];
          } else {
            assert s[i] == s[1..][i - 1] && s[j] == s[1..][j - 1];
          }
        }
      }
      if forall i, j :: 0 <= i < j < |s| ==> s[i] != s[j] {
        forall i, j | 0 <= i < j < |s[1..]| ensures s[1..][i] != s[1..][j] {
          assert s[1..][i] == s[i + 1] && s[1..][j] == s[j + 1];
        }
        forall k | 0 <= k < |s[1..]| ensures s[1..][k] != s[0] {
          assert s[1..][k] == s[k + 1];
        }
      }
    }
  }

  /** The merge loop: while both inputs have elements, the smaller head is taken, and on
      equal keys the head of the right-hand input `b`; then the rest of `a`, then the rest of `b`. */
  function MergeBy<T>(a: seq<T>, b: seq<T>, key: T -> int): seq<T>
    decreases |a| + |b|
  {
    if a == [] then b
    else if b == [] then a
    else if key(a[0]) < key(b[0]) then [a[0]] + MergeBy(a[1..], b, key)
    else [b[0]] + MergeBy(a, b[1..], key)
  }

  /** The merge output is as long as both inputs together and holds exactly their elements. */
  lemma {:induction false} MergePermutation<T>(a: seq<T>, b: seq<T>, key: T -> int)
    ensures |MergeBy(a, b, key)| == |a| + |b|
    ensures multiset(MergeBy(a, b, key)) == multiset(a) + multiset(b)
    decreases |a| + |b|
  {
    if a == [] || b == [] {
    } else if key(a[0]) < key(b[0]) {
      MergePermutation(a[1..], b, key);
      PermutationHead(a[0], a, MergeBy(a[1..], b, key), multiset(b), MergeBy(a, b, key));
    } else {
      MergePermutation(a, b[1..], key);
      PermutationHead(b[0], b, MergeBy(a, b[1..], key), multiset(a), MergeBy(a, b, key));
    }
  }

  /** Taking the head `x` of `s` in front of a permutation of the rest of `s` and some `m`
      gives a permutation of `s` and `m`. */
  lemma PermutationHead<T>(x: T, s: seq<T>, rest: seq<T>, m: multiset<T>, merged: seq<T>)
    requires s != [] && x == s[0] && merged == [x] + rest
    requires |rest| == |s| - 1 + |m| && multiset(rest) == multiset(s[1..]) + m
    ensures |merged| == |s| + |m| && multiset(merged) == multiset(s) + m
  {
    assert s == [x] + s[1..];
  }

  /** One step of the merge loop at positions i of `a` and j of `b`. */
  lemma MergeStepAt<T>(a: seq<T>, b: seq<T>, i: int, j: int, key: T -> int)
    requires 0 <= i <= |a| && 0 <= j <= |b| && (i < |a| || j < |b|)
    ensures MergeBy(a[i..], b[j..], key) ==
      if j == |b| || (i < |a| && key(a[i]) < key(b[j])) then [a[i]] + MergeBy(a[i + 1..], b[j..], key)
      else [b[j]] + MergeBy(a[i..], b[j + 1..], key)
  {
    assert a[i..] != [] ==> a[i..][0] == a[i] && a[i..][1..] == a[i + 1..];
    assert b[j..] != [] ==> b[j..][0] == b[j] && b[j..][1..] == b[j + 1..];
  }

  /** The merge loop's invariant `acc + MergeBy(a[i..], b[j..], key)` is kept when the element
      the merge takes next is appended to `acc`. */
  lemma MergeLoopStep<T>(acc: seq<T>, a: seq<T>, b: seq<T>, i: int, j: int, key: T -> int)
    requires 0 <= i <= |a| && 0 <= j <= |b| && (i < |a| || j < |b|)
    ensures j == |b| || (i < |a| && key(a[i]) < key(b[j])) ==>
      acc + MergeBy(a[i..], b[j..], key) == (acc + [a[i]]) + MergeBy(a[i + 1..], b[j..], key)
    ensures !(j == |b| || (i < |a| && key(a[i]) < key(b[j]))) ==>
      acc + MergeBy(a[i..], b[j..], key) == (acc + [b[j]]) + MergeBy(a[i..], b[j + 1..], key)
  {
    MergeStepAt(a, b, i, j, key);
    if j == |b| || (i < |a| && key(a[i]) < key(b[j])) {
      assert (acc + [a[i]]) + MergeBy(a[i + 1..], b[j..], key) == acc + ([a[i]] + MergeBy(a[i + 1..], b[j..], key));
    } else {
      assert (acc + [b[j]]) + MergeBy(a[i..], b[j + 1..], key) == acc + ([b[j]] + MergeBy(a[i..], b[j + 1..], key));
    }
  }

  /** The elements of `s` whose key is `k`, in their order in `s`. */
  function KeyFilter<T>(s: seq<T>, key: T -> int, k: int): seq<T>
  {
    if s == [] then []
    else if key(s[0]) == k then [s[0]] + KeyFilter(s[1..], key, k)
    else KeyFilter(s[1..], key, k)
  }

  lemma HeadIsLeast<T>(s: seq<T>, key: T -> int)
    requires SortedBy(s, key) && s != []
    ensures forall x :: x in s ==> key(s[0]) <= key(x)
  {
    forall x | x in s ensures key(s[0]) <= key(x) {
      var i :| 0 <= i < |s| && s[i] == x;
      if i > 0 { assert key(s[0]) <= key(s[i]); }
    }
  }

  lemma PrependSorted<T>(x: T, s: seq<T>, key: T -> int)
    requires SortedBy(s, key)
    requires forall y :: y in s ==> key(x) <= key(y)
    ensures SortedBy([x] + s, key)
  {
    var r := [x] + s;
    forall i, j | 0 <= i < j < |r| ensures key(r[i]) <= key(r[j]) {
      assert r[j] == s[j - 1];
      if i > 0 { assert r[i] == s[i - 1]; }
      else { assert r[j] in s; }
    }
  }

  /** Merging two ascending inputs yields an ascending output. */
  lemma {:induction false} MergeSorted<T>(a: seq<T>, b: seq<T>, key: T -> int)
    requires SortedBy(a, key) && SortedBy(b, key)
    ensures SortedBy(MergeBy(a, b, key), key)
    decreases |a| + |b|
  {
    if a == [] || b == [] {
    } else if key(a[0]) < key(b[0]) {
      var rest := MergeBy(a[1..], b, key);
      MergePermutation(a[1..], b, key);
      MergeSorted(a[1..], b, key);
      HeadIsLeast(a, key);
      HeadIsLeast(b, key);
      forall y | y in rest ensures key(a[0]) <= key(y) {
        assert y in multiset(rest);
        if y in a[1..] { assert y in a; }
      }
      PrependSorted(a[0], rest, key);
    } else {
      var rest := MergeBy(a, b[1..], key);
      MergePermutation(a, b[1..], key);
      MergeSorted(a, b[1..], key);
      HeadIsLeast(a, key);
      HeadIsLeast(b, key);
      forall y | y in rest ensures key(b[0]) <= key(y) {
        assert y in multiset(rest);
        if y in b[1..] { assert y in b; }
      }
      PrependSorted(b[0], rest, key);
    }
  }

  lemma KeyFilterAllAbove<T>(s: seq<T>, key: T -> int, k: int)
    requires forall x :: x in s ==> k < key(x)
    ensures KeyFilter(s, key, k) == []
  {
    if s != [] {
      assert s[0] in s;
      forall x | x in s[1..] ensures k < key(x) { assert x in s; }
      KeyFilterAllAbove(s[1..], key, k);
    }
  }

  /** KeyFilter of a sequence with a known head. */
  lemma KeyFilterCons<T>(x: T, s: seq<T>, key: T -> int, k: int)
    ensures KeyFilter([x] + s, key, k) == (if key(x) == k then [x] else []) + KeyFilter(s, key, k)
  {
    assert ([x] + s)[0] == x && ([x] + s)[1..] == s;
  }

  /** The tie-break: among the elements of one key, the merge lists every element of the
      right-hand input before any element of the left-hand input, each in its own order. */
  lemma {:induction false} MergeTieBreak<T>(a: seq<T>, b: seq<T>, key: T -> int, k: int)
    requires SortedBy(b, key)
    ensures KeyFilter(MergeBy(a, b, key), key, k) == KeyFilter(b, key, k) + KeyFilter(a, key, k)
    decreases |a| + |b|
  {
    if a == [] {
      assert KeyFilter(b, key, k) + KeyFilter(a, key, k) == KeyFilter(b, key, k);
    } else if b == [] {
      assert KeyFilter(b, key, k) == [];
    } else if key(a[0]) < key(b[0]) {
      MergeTieBreak(a[1..], b, key, k);
      TieBreakLeft(a, b, key, k);
    } else {
      assert SortedBy(b[1..], key);
      MergeTieBreak(a, b[1..], key, k);
      TieBreakRight(a, b, key, k);
    }
  }

  /** The tie-break step when the merge takes the head of `a`: that head has a key below
      every key of `b`, so it cannot tie with an element of `b`. */
  lemma TieBreakLeft<T>(a: seq<T>, b: seq<T>, key: T -> int, k: int)
    requires a != [] && b != [] && key(a[0]) < key(b[0]) && SortedBy(b, key)
    requires KeyFilter(MergeBy(a[1..], b, key), key, k) == KeyFilter(b, key, k) + KeyFilter(a[1..], key, k)
    ensures KeyFilter(MergeBy(a, b, key), key, k) == KeyFilter(b, key, k) + KeyFilter(a, key, k)
  {
    var rest := MergeBy(a[1..], b, key);
    assert MergeBy(a, b, key) == [a[0]] + rest;
    KeyFilterCons(a[0], rest, key, k);
    assert a == [a[0]] + a[1..];
    KeyFilterCons(a[0], a[1..], key, k);
    if key(a[0]) == k {
      HeadIsLeast(b, key);
      KeyFilterAllAbove(b, key, k);
      calc {
        KeyFilter(MergeBy(a, b, key), key, k);
        [a[0]] + KeyFilter(rest, key, k);
        [a[0]] + ([] + KeyFilter(a[1..], key, k));
        { assert [] + KeyFilter(a[1..], key, k) == KeyFilter(a[1..], key, k); }
        KeyFilter(a, key, k);
        { assert KeyFilter(b, key, k) == []; }
        KeyFilter(b, key, k) + KeyFilter(a, key, k);
      }
    } else {
      calc {
        KeyFilter(MergeBy(a, b, key), key, k);
        [] + KeyFilter(rest, key, k);
        KeyFilter(rest, key, k);
        KeyFilter(b, key, k) + KeyFilter(a[1..], key, k);
        { assert KeyFilter(a, key, k) == [] + KeyFilter(a[1..], key, k); }
        KeyFilter(b, key, k) + KeyFilter(a, key, k);
      }
    }
  }

  /** The tie-break step when the merge takes the head of `b`. */
  lemma TieBreakRight<T>(a: seq<T>, b: seq<T>, key: T -> int, k: int)
    requires a != [] && b != [] && key(b[0]) <= key(a[0])
    requires KeyFilter(MergeBy(a, b[1..], key), key, k) == KeyFilter(b[1..], key, k) + KeyFilter(a, key, k)
    ensures KeyFilter(MergeBy(a, b, key), key, k) == KeyFilter(b, key, k) + KeyFilter(a, key, k)
  {
    var rest := MergeBy(a, b[1..], key);
    var h := if key(b[0]) == k then [b[0]] else [];
    calc {
      KeyFilter(MergeBy(a, b, key), key, k);
      { assert MergeBy(a, b, key) == [b[0]] + rest; }
      KeyFilter([b[0]] + rest, key, k);
      { KeyFilterCons(b[0], rest, key, k); }
      h + (KeyFilter(b[1..], key, k) + KeyFilter(a, key, k));
      (h + KeyFilter(b[1..], key, k)) + KeyFilter(a, key, k);
      { assert b == [b[0]] + b[1..]; KeyFilterCons(b[0], b[1..], key, k); }
      KeyFilter(b, key, k) + KeyFilter(a, key, k);
    }
  }

  lemma DistinctCount<T>(s: seq<T>, x: T)
    requires Distinct(s)
    ensures multiset(s)[x] <= 1
  {
    if s != [] {
      assert s == [s[0]] + s[1..];
      DistinctCount(s[1..], x);
      if s[0] == x {
        assert x !in s[1..];
      }
    }
  }

  lemma RepeatedCount<T>(s: seq<T>, i: int, j: int)
    requires 0 <= i < j < |s|
    ensures s[i] == s[j] ==> multiset(s)[s[i]] >= 2
  {
    assert s == s[..i] + [s[i]] + s[i + 1..j] + [s[j]] + s[j + 1..];
  }

  /** A permutation of two duplicate-free, disjoint sequences is duplicate-free. */
  lemma DistinctPermutation<T>(a: seq<T>, b: seq<T>, c: seq<T>)
    requires Distinct(a) && Distinct(b)
    requires forall x :: x in a ==> x !in b
    requires multiset(c) == multiset(a) + multiset(b)
    ensures Distinct(c)
    ensures forall x :: x in c <==> x in a || x in b
  {
    forall x ensures x in c <==> x in a || x in b {
      assert x in c <==> x in multiset(c);
      assert x in a <==> x in multiset(a);
      assert x in b <==> x in multiset(b);
    }
    forall i, j | 0 <= i < j < |c| ensures c[i] != c[j] {
      var x := c[i];
      DistinctCount(a, x);
      DistinctCount(b, x);
      if x in a {
        assert x !in multiset(b);
      } else {
        assert x !in multiset(a);
      }
      RepeatedCount(c, i, j);
    }
    DistinctIndex(c);
  }

  /** The elements of `s` are exactly those of `xs`. */
  predicate Lists<T>(s: seq<T>, xs: set<T>)
  {
    (forall x :: x in s ==> x in xs) && (forall x :: x in xs ==> x in s)
  }

  /** A permutation of two duplicate-free sequences that list two disjoint sets is
      duplicate-free and lists their union. */
  lemma DisjointPermutation<T>(a: seq<T>, b: seq<T>, c: seq<T>, sa: set<T>, sb: set<T>)
    requires Distinct(a) && Distinct(b) && sa !! sb
    requires Lists(a, sa) && Lists(b, sb)
    requires multiset(c) == multiset(a) + multiset(b)
    ensures Distinct(c) && Lists(c, sa + sb)
  {
    forall x | x in a ensures x !in b {
      assert x in sa;
    }
    DistinctPermutation(a, b, c);
  }

  /** Merging two strictly ascending key sequences with no key in common yields a
      strictly ascending sequence. */
  lemma MergeStrictlyAscending(a: seq<int>, b: seq<int>)
    requires StrictlyAscending(a) && StrictlyAscending(b)
    requires forall x :: x in a ==> x !in b
    ensures StrictlyAscending(MergeBy(a, b, Identity))
  {
    var c := MergeBy(a, b, Identity);
    MergePermutation(a, b, Identity);
    MergeSorted(a, b, Identity);
    DistinctIndex(a);
    DistinctIndex(b);
    DistinctPermutation(a, b, c);
    DistinctIndex(c);
    forall i, j | 0 <= i < j < |c| ensures c[i] < c[j] {
      assert c[i] != c[j];
      assert Identity(c[i]) <= Identity(c[j]);
    }
  }

  /** Two duplicate-free sequences with no element in common, joined around an element
      found in neither, form a duplicate-free sequence. */
  lemma DistinctJoin<T>(a: seq<T>, x: T, b: seq<T>)
    requires Distinct(a) && Distinct(b)
    requires x !in a && x !in b
    requires forall y :: y in a ==> y !in b
    ensures Distinct(a + [x] + b)
  {
    var s := a + [x] + b;
    DistinctIndex(a);
    DistinctIndex(b);
    forall i, j | 0 <= i < j < |s| ensures s[i] != s[j] {
      if j < |a| {
      } else if i < |a| {
        assert s[i] in a;
      } else if i == |a| {
        assert s[j] in b;
      } else {
        assert s[i] == b[i - |a| - 1] && s[j] == b[j - |a| - 1];
      }
    }
    DistinctIndex(s);
  }
}
