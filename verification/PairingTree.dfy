/** The pairing heap on values: what src/heap.c does to a child/sibling forest, and why
    the result is a heap with the same elements.

    A C pointer to a heap_node_t, with everything reachable from it through the `child`
    and `sibling` fields, is read as one Tree: Null for NULL, and Node for a node whose
    first child and next sibling are trees again.  A heap is a tree whose root has no
    sibling; the `child` of a node is the list of its subtrees. */
module PairingTree {

  datatype Tree<T> = Null | Node(data: T, child: Tree<T>, sibling: Tree<T>)

  /** What a heap_compare_t has to be: `cmp(a, b) <= 0` is a total preorder. */
  ghost predicate TotalPreorder<T(!new)>(cmp: (T, T) -> int)
  {
    && (forall a, b :: cmp(a, b) <= 0 || cmp(b, a) <= 0)
    && (forall a, b, c :: cmp(a, b) <= 0 && cmp(b, c) <= 0 ==> cmp(a, c) <= 0)
  }

  ghost function Elems<T>(t: Tree<T>): multiset<T>
  {
    match t
    case Null => multiset{}
    case Node(x, c, s) => multiset{x} + Elems(c) + Elems(s)
  }

  function Size<T>(t: Tree<T>): nat
  {
    match t
    case Null => 0
    case Node(_, c, s) => 1 + Size(c) + Size(s)
  }

  /** Number of trees in a sibling list. */
  function Trees<T>(t: Tree<T>): nat
  {
    match t
    case Null => 0
    case Node(_, _, s) => 1 + Trees(s)
  }

  ghost predicate Below<T>(cmp: (T, T) -> int, x: T, t: Tree<T>)
  {
    forall y :: y in Elems(t) ==> cmp(x, y) <= 0
  }

  /** Heap order: no node's data is greater than anything below its `child` pointer. */
  ghost predicate Ordered<T>(cmp: (T, T) -> int, t: Tree<T>)
  {
    match t
    case Null => true
    case Node(x, c, s) => Below(cmp, x, c) && Ordered(cmp, c) && Ordered(cmp, s)
  }

  predicate IsRoot<T>(t: Tree<T>)
  {
    t.Node? ==> t.sibling.Null?
  }

  ghost predicate IsHeap<T>(cmp: (T, T) -> int, t: Tree<T>)
  {
    IsRoot(t) && Ordered(cmp, t)
  }

  // ---------- the two algorithms ----------

  /** merge_nodes: the root that compares greater becomes the first child of the other. */
  function MergedNodes<T>(cmp: (T, T) -> int, a: Tree<T>, b: Tree<T>): Tree<T>
  {
    if a.Null? then b
    else if b.Null? then a
    else if cmp(a.data, b.data) <= 0 then a.(child := b.(sibling := a.child))
    else b.(child := a.(sibling := b.child))
  }

  function MergeNodesCost<T>(a: Tree<T>, b: Tree<T>): nat
  {
    if a.Null? || b.Null? then 0 else 1
  }

  /** merge_pairs: pair up the list from the left, then merge the pairs from the right. */
  function MergedPairs<T>(cmp: (T, T) -> int, first: Tree<T>): Tree<T>
  {
    if first.Null? || first.sibling.Null? then first
    else
      var second := first.sibling;
      MergedNodes(cmp, MergedNodes(cmp, first.(sibling := Null), second.(sibling := Null)),
                 MergedPairs(cmp, second.sibling))
  }

  /** The number of calls of `cmp` that merge_pairs makes. */
  function MergePairsCost<T>(cmp: (T, T) -> int, first: Tree<T>): nat
  {
    if first.Null? || first.sibling.Null? then 0
    else
      var second := first.sibling;
      var a, b := first.(sibling := Null), second.(sibling := Null);
      MergeNodesCost(a, b) + MergePairsCost(cmp, second.sibling) +
      MergeNodesCost(MergedNodes(cmp, a, b), MergedPairs(cmp, second.sibling))
  }

  // ---------- shape, order and contents ----------

  lemma {:induction false} MergeNodesShape<T>(cmp: (T, T) -> int, a: Tree<T>, b: Tree<T>)
    requires IsRoot(a) && IsRoot(b)
    ensures IsRoot(MergedNodes(cmp, a, b))
    ensures Size(MergedNodes(cmp, a, b)) == Size(a) + Size(b)
  {
  }

  lemma {:induction false} MergeNodesElems<T>(cmp: (T, T) -> int, a: Tree<T>, b: Tree<T>)
    requires IsRoot(a) && IsRoot(b)
    ensures Elems(MergedNodes(cmp, a, b)) == Elems(a) + Elems(b)
  {
    if a.Node? && b.Node? {
      assert Elems(a) == multiset{a.data} + Elems(a.child) && Elems(b) == multiset{b.data} + Elems(b.child);
      if cmp(a.data, b.data) <= 0 {
        assert Elems(b.(sibling := a.child)) == multiset{b.data} + Elems(b.child) + Elems(a.child);
      } else {
        assert Elems(a.(sibling := b.child)) == multiset{a.data} + Elems(a.child) + Elems(b.child);
      }
    }
  }

  lemma {:induction false} MergeNodesOrdered<T(!new)>(cmp: (T, T) -> int, a: Tree<T>, b: Tree<T>)
    requires TotalPreorder(cmp) && IsHeap(cmp, a) && IsHeap(cmp, b)
    ensures IsHeap(cmp, MergedNodes(cmp, a, b))
  {
    if a.Node? && b.Node? {
      MergeNodesShape(cmp, a, b);
      if cmp(a.data, b.data) <= 0 {
        assert Elems(b.(sibling := a.child)) == multiset{b.data} + Elems(b.child) + Elems(a.child);
      } else {
        assert cmp(b.data, a.data) <= 0;
        assert Elems(a.(sibling := b.child)) == multiset{a.data} + Elems(a.child) + Elems(b.child);
      }
    }
  }

  /** merge_pairs returns one root, keeps every node, and compares once for each tree of the
      list but one: for every list and every `cmp`. */
  lemma {:induction false} MergePairsShape<T>(cmp: (T, T) -> int, first: Tree<T>)
    ensures IsRoot(MergedPairs(cmp, first))
    ensures Size(MergedPairs(cmp, first)) == Size(first)
    ensures first.Node? ==> MergePairsCost(cmp, first) == Trees(first) - 1
  {
    if first.Node? && first.sibling.Node? {
      var second := first.sibling;
      var a, b := first.(sibling := Null), second.(sibling := Null);
      var rest := MergedPairs(cmp, second.sibling);
      MergePairsShape(cmp, second.sibling);
      MergeNodesShape(cmp, a, b);
      MergeNodesShape(cmp, MergedNodes(cmp, a, b), rest);
      assert MergedNodes(cmp, a, b).Node?;
      assert rest.Null? <==> second.sibling.Null?;
      assert Trees(first) == 2 + Trees(second.sibling);
    }
  }

  lemma {:induction false} MergePairsElems<T>(cmp: (T, T) -> int, first: Tree<T>)
    ensures Elems(MergedPairs(cmp, first)) == Elems(first)
  {
    if first.Node? && first.sibling.Node? {
      var second := first.sibling;
      var a, b := first.(sibling := Null), second.(sibling := Null);
      MergePairsElems(cmp, second.sibling);
      MergePairsShape(cmp, second.sibling);
      MergeNodesShape(cmp, a, b);
      MergeNodesElems(cmp, a, b);
      MergeNodesElems(cmp, MergedNodes(cmp, a, b), MergedPairs(cmp, second.sibling));
    }
  }

  lemma {:induction false} MergePairsOrdered<T(!new)>(cmp: (T, T) -> int, first: Tree<T>)
    requires TotalPreorder(cmp) && Ordered(cmp, first)
    ensures IsHeap(cmp, MergedPairs(cmp, first))
  {
    if first.Node? && first.sibling.Node? {
      var second := first.sibling;
      var a, b := first.(sibling := Null), second.(sibling := Null);
      MergePairsOrdered(cmp, second.sibling);
      MergeNodesOrdered(cmp, a, b);
      MergeNodesOrdered(cmp, MergedNodes(cmp, a, b), MergedPairs(cmp, second.sibling));
    }
  }

  /** The root of a heap is a minimum of its contents. */
  lemma {:induction false} RootIsMinimum<T(!new)>(cmp: (T, T) -> int, t: Tree<T>)
    requires TotalPreorder(cmp) && IsHeap(cmp, t) && t.Node?
    ensures t.data in Elems(t) && Below(cmp, t.data, t)
  {
    assert cmp(t.data, t.data) <= 0;
    assert Elems(t) == multiset{t.data} + Elems(t.child);
  }

  ghost predicate InOrder<T(!new)>(cmp: (T, T) -> int, t: Tree<T>)
  {
    TotalPreorder(cmp) ==> Ordered(cmp, t)
  }

  lemma {:induction false} MergedPartOrdered<T>(cmp: (T, T) -> int, t1: Tree<T>, t2: Tree<T>)
    requires IsRoot(t2) && Ordered(cmp, MergedNodes(cmp, t1, t2))
    ensures Ordered(cmp, t2)
  {
    if t1.Node? && t2.Node? {
      if cmp(t1.data, t2.data) <= 0 {
        assert Ordered(cmp, t2.(sibling := t1.child));
      } else {
        var below := t1.(sibling := t2.child);
        assert Ordered(cmp, below) && Below(cmp, t2.data, below);
        assert Elems(below) == multiset{t1.data} + Elems(t1.child) + Elems(t2.child);
      }
    }
  }

  /** Merging a tree into a heap leaves a heap exactly if the tree was in the order of the heap. */
  lemma {:induction false} MergeNodesInOrder<T(!new)>(cmp: (T, T) -> int, t1: Tree<T>, t2: Tree<T>)
    requires IsRoot(t1) && IsRoot(t2) && InOrder(cmp, t1)
    ensures InOrder(cmp, MergedNodes(cmp, t1, t2)) <==> InOrder(cmp, t2)
  {
    if TotalPreorder(cmp) && Ordered(cmp, t2) {
      MergeNodesOrdered(cmp, t1, t2);
    }
    if TotalPreorder(cmp) && Ordered(cmp, MergedNodes(cmp, t1, t2)) {
      MergedPartOrdered(cmp, t1, t2);
    }
  }

  // ---------- which of equal items comes first ----------

  /** Of two minima the one of the first heap stays at the root, unless that of the second is less. */
  lemma {:induction false} MergeNodesRoot<T>(cmp: (T, T) -> int, a: Tree<T>, b: Tree<T>)
    ensures a.Null? ==> MergedNodes(cmp, a, b) == b
    ensures b.Null? ==> MergedNodes(cmp, a, b) == a
    ensures a.Node? && b.Node? ==>
              && MergedNodes(cmp, a, b).Node?
              && MergedNodes(cmp, a, b).data == if cmp(a.data, b.data) <= 0 then a.data else b.data
  {
  }

  /** The data of the roots of a list of trees. */
  function Roots<T>(t: Tree<T>): seq<T>
  {
    if t.Null? then [] else [t.data] + Roots(t.sibling)
  }

  /** x is the first among the least of xs: at most all of them, and strictly below the earlier ones. */
  ghost predicate FirstLeast<T>(cmp: (T, T) -> int, xs: seq<T>, x: T)
  {
    exists k :: 0 <= k < |xs| && xs[k] == x && LeastAt(cmp, xs, k)
  }

  ghost predicate LeastAt<T>(cmp: (T, T) -> int, xs: seq<T>, k: nat)
    requires k < |xs|
  {
    (forall i :: 0 <= i < |xs| ==> cmp(xs[k], xs[i]) <= 0) && (forall i :: 0 <= i < k ==> cmp(xs[i], xs[k]) > 0)
  }

  lemma {:induction false} LeastInBoth<T(!new)>(cmp: (T, T) -> int, xs: seq<T>, k: nat, ys: seq<T>, l: nat)
    requires TotalPreorder(cmp) && k < |xs| && l < |ys| && LeastAt(cmp, xs, k) && LeastAt(cmp, ys, l)
    ensures LeastAt(cmp, xs + ys, if cmp(xs[k], ys[l]) <= 0 then k else |xs| + l)
  {
    var zs := xs + ys;
    forall i | 0 <= i < |xs| ensures zs[i] == xs[i] && cmp(xs[k], zs[i]) <= 0 {
    }
    forall i | |xs| <= i < |zs| ensures zs[i] == ys[i - |xs|] && cmp(ys[l], zs[i]) <= 0 {
      assert cmp(ys[l], ys[i - |xs|]) <= 0;
    }
    if cmp(xs[k], ys[l]) > 0 {
      assert cmp(ys[l], xs[k]) <= 0;
      forall i | |xs| <= i < |xs| + l ensures cmp(zs[i], ys[l]) > 0 {
        assert cmp(ys[i - |xs|], ys[l]) > 0;
      }
    }
  }

  lemma {:induction false} LeastOfTwo<T(!new)>(cmp: (T, T) -> int, xs: seq<T>, x: T, ys: seq<T>, y: T)
    requires TotalPreorder(cmp) && FirstLeast(cmp, xs, x) && FirstLeast(cmp, ys, y)
    ensures FirstLeast(cmp, xs + ys, if cmp(x, y) <= 0 then x else y)
  {
    var k :| 0 <= k < |xs| && xs[k] == x && LeastAt(cmp, xs, k);
    var l :| 0 <= l < |ys| && ys[l] == y && LeastAt(cmp, ys, l);
    LeastInBoth(cmp, xs, k, ys, l);
    var m := if cmp(x, y) <= 0 then k else |xs| + l;
    assert (xs + ys)[m] == if cmp(x, y) <= 0 then x else y;
  }

  lemma {:induction false} LeastOfOne<T(!new)>(cmp: (T, T) -> int, x: T)
    requires TotalPreorder(cmp)
    ensures FirstLeast(cmp, [x], x)
  {
    assert [x][0] == x && LeastAt(cmp, [x], 0);
  }

  /** merge_pairs brings up the first least root of the list, for every list. */
  lemma {:induction false} MergePairsTop<T(!new)>(cmp: (T, T) -> int, first: Tree<T>)
    requires TotalPreorder(cmp) && first.Node?
    ensures MergedPairs(cmp, first).Node? && FirstLeast(cmp, Roots(first), MergedPairs(cmp, first).data)
    decreases first
  {
    LeastOfOne(cmp, first.data);
    if first.sibling.Null? {
      assert Roots(first) == [first.data];
    } else {
      var second := first.sibling;
      var a, b := first.(sibling := Null), second.(sibling := Null);
      var pair := MergedNodes(cmp, a, b);
      LeastOfOne(cmp, second.data);
      LeastOfTwo(cmp, [first.data], first.data, [second.data], second.data);
      MergeNodesRoot(cmp, a, b);
      var two := [first.data] + [second.data];
      assert Roots(first) == two + Roots(second.sibling);
      if second.sibling.Node? {
        var rest := MergedPairs(cmp, second.sibling);
        MergePairsTop(cmp, second.sibling);
        MergeNodesRoot(cmp, pair, rest);
        LeastOfTwo(cmp, two, pair.data, Roots(second.sibling), rest.data);
      } else {
        assert two + [] == two;
      }
    }
  }

  // ---------- draining ----------

  /** Everything heap_pop returns when it is called until the heap is empty. */
  ghost function Drain<T>(cmp: (T, T) -> int, t: Tree<T>): seq<T>
    decreases Size(t)
  {
    if t.Null? then [] else
      MergePairsShape(cmp, t.child);
      [t.data] + Drain(cmp, MergedPairs(cmp, t.child))
  }

  lemma {:induction false} DrainPermutes<T>(cmp: (T, T) -> int, t: Tree<T>)
    requires IsRoot(t)
    ensures multiset(Drain(cmp, t)) == Elems(t)
    decreases Size(t)
  {
    if t.Node? {
      MergePairsShape(cmp, t.child);
      MergePairsElems(cmp, t.child);
      DrainPermutes(cmp, MergedPairs(cmp, t.child));
    }
  }

  ghost predicate Sorted<T>(cmp: (T, T) -> int, s: seq<T>)
  {
    forall i, j :: 0 <= i < j < |s| ==> cmp(s[i], s[j]) <= 0
  }

  /** Draining sorts: the popped sequence is a permutation of the contents in `cmp` order,
      so each item is a minimum of what was left when it was popped. */
  lemma {:induction false} DrainSorts<T(!new)>(cmp: (T, T) -> int, t: Tree<T>)
    requires TotalPreorder(cmp) && IsHeap(cmp, t)
    ensures multiset(Drain(cmp, t)) == Elems(t)
    ensures Sorted(cmp, Drain(cmp, t))
    decreases Size(t)
  {
    DrainPermutes(cmp, t);
    if t.Node? {
      var rest := MergedPairs(cmp, t.child);
      MergePairsShape(cmp, t.child);
      MergePairsElems(cmp, t.child);
      MergePairsOrdered(cmp, t.child);
      DrainSorts(cmp, rest);
      SortedCons(cmp, t.data, Drain(cmp, rest), t.child);
    }
  }

  lemma {:induction false} SortedCons<T>(cmp: (T, T) -> int, x: T, s: seq<T>, t: Tree<T>)
    requires Below(cmp, x, t) && multiset(s) == Elems(t) && Sorted(cmp, s)
    ensures Sorted(cmp, [x] + s)
  {
    forall j | 0 <= j < |s| ensures cmp(x, s[j]) <= 0 {
      assert s[j] in multiset(s);
    }
  }
}
