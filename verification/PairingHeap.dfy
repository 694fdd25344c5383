/** src/heap.c as it runs: nodes linked in place through `child` and `sibling`, each method
    proved against the value model of module PairingTree. */
module PairingHeap {
  import opened Prelude
  import opened PairingTree

  class HeapNode<T> {
    const data: T
    var child: HeapNode?<T>
    var sibling: HeapNode?<T>

    constructor (data: T)
      ensures this.data == data && child == null && sibling == null
    {
      this.data := data;
      child, sibling := null, null;
    }
  }

  /** The node objects of a forest, in their tree order. */
  datatype Shape<T> = Nil | At(node: HeapNode<T>, child: Shape<T>, sibling: Shape<T>)

  ghost function Nodes<T>(s: Shape<T>): set<HeapNode<T>>
  {
    match s
    case Nil => {}
    case At(n, c, b) => {n} + Nodes(c) + Nodes(b)
  }

  /** The forest with each object replaced by its data. */
  ghost function Value<T>(s: Shape<T>): Tree<T>
  {
    match s
    case Nil => Null
    case At(n, c, b) => Node(n.data, Value(c), Value(b))
  }

  /** The pointers below n make up exactly the forest s: a finite tree of `child` and
      `sibling` links in which no object occurs twice, so nothing is shared or cyclic. */
  ghost predicate Rep<T>(n: HeapNode?<T>, s: Shape<T>)
    reads Nodes(s)
  {
    match s
    case Nil => n == null
    case At(m, c, b) =>
      && n == m && m !in Nodes(c) && m !in Nodes(b) && Nodes(c) !! Nodes(b)
      && Rep(m.child, c) && Rep(m.sibling, b)
  }

  /** One tree at most: the root has no sibling. */
  ghost predicate Single<T>(s: Shape<T>)
  {
    s.At? ==> s.sibling.Nil?
  }

  /** One call of cmp, which is counted.  No other code in this module calls cmp. */
  method Compare<T>(cmp: (T, T) -> int, a: T, b: T, ghost calls: nat) returns (r: int, ghost after: nat)
    ensures r == cmp(a, b) && after == calls + 1
  {
    r, after := cmp(a, b), calls + 1;
  }

  /** merge_nodes; `calls` is the number of calls of cmp. */
  method MergeNodes<T>(n1: HeapNode?<T>, n2: HeapNode?<T>, cmp: (T, T) -> int,
                       ghost s1: Shape<T>, ghost s2: Shape<T>)
    returns (r: HeapNode?<T>, ghost s: Shape<T>, ghost calls: nat)
    requires Rep(n1, s1) && Rep(n2, s2) && Nodes(s1) !! Nodes(s2)
    requires Single(s1) && Single(s2)
    modifies Nodes(s1) + Nodes(s2)
    ensures Rep(r, s) && Single(s) && Nodes(s) == Nodes(s1) + Nodes(s2)
    ensures Value(s) == MergedNodes(cmp, Value(s1), Value(s2))
    ensures calls == MergeNodesCost(Value(s1), Value(s2))
  {
    calls := 0;
    if n1 == null {
      return n2, s2, calls;
    }
    if n2 == null {
      return n1, s1, calls;
    }
    assert allocated(Nodes(s1)) && allocated(Nodes(s2));
    var order;
    order, calls := Compare(cmp, n1.data, n2.data, calls);
    assert Rep(n1.child, s1.child) && Rep(n2.child, s2.child);
    if order <= 0 {
      n2.sibling := n1.child;
      n1.child := n2;
      s := s1.(child := s2.(sibling := s1.child));
      assert Nodes(s1) == {n1} + Nodes(s1.child) && Nodes(s2) == {n2} + Nodes(s2.child);
      assert Nodes(s.child) == {n2} + Nodes(s2.child) + Nodes(s1.child);
      return n1, s, calls;
    }
    n1.sibling := n2.child;
    n2.child := n1;
    s := s2.(child := s1.(sibling := s2.child));
    assert Nodes(s.child) == {n1} + Nodes(s1.child) + Nodes(s2.child);
    return n2, s, calls;
  }

  /** A list of two trees or more, taken apart. */
  lemma {:induction false} FirstTwo<T>(first: HeapNode<T>, l: Shape<T>)
    requires Rep(first, l) && first.sibling != null
    ensures l.At? && l.sibling.At? && l.node == first && l.sibling.node == first.sibling
    ensures Nodes(l.(sibling := Nil)) == {first} + Nodes(l.child)
    ensures Nodes(l.sibling.(sibling := Nil)) == {first.sibling} + Nodes(l.sibling.child)
    ensures Nodes(l) == {first} + Nodes(l.child) + {first.sibling} + Nodes(l.sibling.child) + Nodes(l.sibling.sibling)
    ensures {first} !! Nodes(l.child) !! {first.sibling} !! Nodes(l.sibling.child) !! Nodes(l.sibling.sibling)
    ensures Rep(first.child, l.child) && Rep(first.sibling.child, l.sibling.child)
    ensures Rep(first.sibling.sibling, l.sibling.sibling)
  {
    assert Nodes(l.sibling) == {first.sibling} + Nodes(l.sibling.child) + Nodes(l.sibling.sibling);
  }

  lemma {:induction false} FirstTwoValue<T>(cmp: (T, T) -> int, l: Shape<T>, a: Tree<T>, b: Tree<T>, rest: Tree<T>)
    requires l.At? && l.sibling.At?
    requires a == Value(l.(sibling := Nil)) && b == Value(l.sibling.(sibling := Nil))
    requires rest == Value(l.sibling.sibling)
    ensures MergedPairs(cmp, Value(l)) ==
            MergedNodes(cmp, MergedNodes(cmp, a, b), MergedPairs(cmp, rest))
    ensures MergePairsCost(cmp, Value(l)) ==
            MergeNodesCost(a, b) + MergePairsCost(cmp, rest) +
            MergeNodesCost(MergedNodes(cmp, a, b), MergedPairs(cmp, rest))
  {
    assert a == Node(l.node.data, Value(l.child), Null);
    assert b == Node(l.sibling.node.data, Value(l.sibling.child), Null);
    assert Value(l.sibling) == b.(sibling := rest) && Value(l) == a.(sibling := Value(l.sibling));
  }

  /** The first two trees of a list are cut off and merged. */
  method MergeFirstTwo<T>(first: HeapNode<T>, second: HeapNode<T>, cmp: (T, T) -> int, ghost l: Shape<T>)
    returns (result: HeapNode?<T>, ghost s: Shape<T>, ghost calls: nat)
    requires Rep(first, l) && first.sibling == second && l.At? && l.sibling.At?
    modifies {first, second} + Nodes(l.child) + Nodes(l.sibling.child)
    ensures Rep(result, s) && Single(s)
    ensures Nodes(s) == {first, second} + Nodes(l.child) + Nodes(l.sibling.child)
    ensures Value(s) == MergedNodes(cmp, Value(l.(sibling := Nil)), Value(l.sibling.(sibling := Nil)))
    ensures calls == MergeNodesCost(Value(l.(sibling := Nil)), Value(l.sibling.(sibling := Nil)))
  {
    FirstTwo(first, l);
    first.sibling := null;
    second.sibling := null;
    assert Rep(first.child, l.child) && Rep(second.child, l.sibling.child);
    result, s, calls := MergeNodes(first, second, cmp, l.(sibling := Nil), l.sibling.(sibling := Nil));
  }

  /** merge_pairs, for every list of trees. */
  method MergePairs<T>(first: HeapNode?<T>, cmp: (T, T) -> int, ghost l: Shape<T>)
    returns (result: HeapNode?<T>, ghost s: Shape<T>, ghost calls: nat)
    requires Rep(first, l)
    modifies Nodes(l)
    ensures Rep(result, s) && Single(s) && Nodes(s) == Nodes(l)
    ensures Value(s) == MergedPairs(cmp, Value(l))
    ensures calls == MergePairsCost(cmp, Value(l))
    decreases l
  {
    result, s, calls := null, Nil, 0;
    if first == null || first.sibling == null {
      return first, l, 0;
    }
    FirstTwo(first, l);
    FirstTwoValue(cmp, l, Value(l.(sibling := Nil)), Value(l.sibling.(sibling := Nil)), Value(l.sibling.sibling));
    assert allocated(Nodes(l));
    ghost var rest := l.sibling.sibling;
    var second := first.sibling;
    var remaining := second.sibling;

    ghost var pair, pairCalls;
    result, pair, pairCalls := MergeFirstTwo(first, second, cmp, l);
    assert Nodes(pair) !! Nodes(rest) && Nodes(pair) + Nodes(rest) == Nodes(l) && Rep(remaining, rest);
    var merged;
    ghost var restCalls, lastCalls;
    merged, s, restCalls := MergePairs(remaining, cmp, rest);
    assert Rep(result, pair);
    result, s, lastCalls := MergeNodes(result, merged, cmp, pair, s);
    calls := pairCalls + restCalls + lastCalls;
  }

  // ---------- heap_t ----------

  /** A node as heap_push allocates it. */
  method Allocate<T>(data: T) returns (node: HeapNode<T>, ghost s: Shape<T>)
    ensures fresh(node) && Rep(node, s) && Single(s)
    ensures Nodes(s) == {node} && Value(s) == Node(data, Null, Null)
  {
    node := new HeapNode(data);
    s := At(node, Nil, Nil);
  }

  class Heap<T(!new)> {
    const cmp: (T, T) -> int
    var root: HeapNode?<T>
    ghost var shape: Shape<T>

    /** The node graph is one tree without sharing or cycles. */
    ghost predicate Linked()
      reads this, Nodes(shape)
    {
      Rep(root, shape) && Single(shape)
    }

    /** Linked, and in heap order whenever `cmp` is a total preorder. */
    ghost predicate Valid()
      reads this, Nodes(shape)
    {
      Linked() && InOrder(cmp, Value(shape))
    }

    ghost function View(): (t: Tree<T>)
      reads this
    {
      Value(shape)
    }

    /** heap_new */
    constructor (cmp: (T, T) -> int)
      ensures Valid() && View() == Null && this.cmp == cmp && Nodes(shape) == {}
    {
      this.cmp := cmp;
      root, shape := null, Nil;
    }

    /** `heap->root = merge_nodes(heap->root, node, heap->cmp)`, the step of heap_push and heap_merge. */
    method Absorb(node: HeapNode?<T>, ghost s: Shape<T>) returns (ghost calls: nat)
      requires Valid() && Rep(node, s) && Single(s) && Nodes(shape) !! Nodes(s)
      modifies this, Nodes(shape), Nodes(s)
      ensures Linked() && Nodes(shape) == old(Nodes(shape)) + Nodes(s)
      ensures Valid() <==> InOrder(cmp, Value(s))
      ensures View() == MergedNodes(cmp, old(View()), Value(s))
      ensures Elems(View()) == old(Elems(View())) + Elems(Value(s))
      ensures Value(s).Null? ==> View() == old(View())
      ensures Value(s).Node? ==>
                && View().Node?
                && View().data ==
                   if old(View()).Node? && cmp(old(View()).data, Value(s).data) <= 0
                   then old(View()).data else Value(s).data
      ensures calls == MergeNodesCost(old(View()), Value(s))
    {
      MergeNodesRoot(cmp, View(), Value(s));
      SingleRoot(shape);
      SingleRoot(s);
      MergeNodesElems(cmp, View(), Value(s));
      MergeNodesInOrder(cmp, View(), Value(s));
      root, shape, calls := MergeNodes(root, node, cmp, shape, s);
    }

    /** heap_push */
    method Push(data: T, ghost live: Live) returns (ret: int, ghost calls: nat, ghost after: Live)
      requires Valid()
      modifies this, Nodes(shape)
      ensures Valid() && ret == 0
      ensures View() == MergedNodes(cmp, old(View()), Node(data, Null, Null))
      ensures Elems(View()) == old(Elems(View())) + multiset{data}
      ensures View().Node? && View().data ==
              if old(View()).Node? && cmp(old(View()).data, data) <= 0 then old(View()).data else data
      ensures calls == MergeNodesCost(old(View()), Node(data, Null, Null))
      ensures old(Nodes(shape)) <= Nodes(shape) && fresh(Nodes(shape) - old(Nodes(shape)))
      ensures after == live + (Nodes(shape) - old(Nodes(shape)))
    {
      assert allocated(Nodes(shape));
      var node;
      ghost var single;
      node, single := Allocate(data);
      after := live + {node};
      calls := Absorb(node, single);
      ret := 0;
    }

    /** heap_poll: None stands for NULL, the answer for an empty heap. */
    method Poll() returns (r: Option<T>)
      requires Valid()
      ensures r == if View().Null? then None else Some(View().data)
      ensures r.Some? ==> r.value in Elems(View()) && (TotalPreorder(cmp) ==> Below(cmp, r.value, View()))
      ensures r.None? <==> Elems(View()) == multiset{}
    {
      if root == null {
        return None;
      }
      SingleRoot(shape);
      if TotalPreorder(cmp) {
        RootIsMinimum(cmp, View());
      }
      r := Some(root.data);
      assert r.value in Elems(View());
    }

    /** heap_pop: takes out a minimum and frees exactly its node. */
    method Pop(ghost live: Live) returns (r: Option<T>, ghost calls: nat, ghost after: Live)
      requires Valid() && Nodes(shape) <= live
      modifies this, Nodes(shape)
      ensures Valid()
      ensures old(View()).Null? ==> r.None? && View() == Null && calls == 0 && Nodes(shape) == {} && after == live
      ensures old(View()).Node? ==>
                && r == Some(old(View()).data)
                && View() == MergedPairs(cmp, old(View()).child)
                && calls == MergePairsCost(cmp, old(View()).child)
                && Elems(View()) + multiset{r.value} == old(Elems(View()))
                && (TotalPreorder(cmp) ==> Below(cmp, r.value, old(View())))
                && (TotalPreorder(cmp) && View().Node? ==> FirstLeast(cmp, Roots(old(View()).child), View().data))
                && Nodes(shape) == old(Nodes(shape)) - {old(root)} && after == live - {old(root)}
    {
      calls := 0;
      if root == null {
        return None, 0, live;
      }
      PopValue(cmp, shape);
      var oldRoot := root;
      r := Some(oldRoot.data);
      root, shape, calls := MergePairs(oldRoot.child, cmp, shape.child);
      after := Free(live, oldRoot);
    }

    /** heap_merge; NULL handles are passed through, and h2 is freed.  The heaps should have the same
        `cmp`: the result is a heap exactly if h2 is in the order of h1. */
    static method Merge(h1: Heap?<T>, h2: Heap?<T>, ghost live: Live)
      returns (h: Heap?<T>, ghost calls: nat, ghost after: Live)
      requires h1 != null ==> h1.Valid()
      requires h2 != null ==> h2.Valid()
      requires h1 != null && h2 != null ==> h1 != h2 && Nodes(h1.shape) !! Nodes(h2.shape)
      requires h1 != null && h2 != null ==> h2 in live
      modifies if h1 != null && h2 != null then {h1} else {}
      modifies if h1 != null && h2 != null then Nodes(h1.shape) + Nodes(h2.shape) else {}
      ensures h == if h1 == null then h2 else h1
      ensures h != null ==> h.Linked() && (h1 == null || h2 == null ==> h.Valid())
      ensures after == if h1 != null && h2 != null then live - {h2} else live
      ensures h1 == null || h2 == null ==> calls == 0
      ensures h1 != null && h2 != null ==>
                && h1.View() == MergedNodes(h1.cmp, old(h1.View()), old(h2.View()))
                && (h1.Valid() <==> InOrder(h1.cmp, old(h2.View())))
                && (old(h2.View()).Null? ==> h1.View() == old(h1.View()))
                && (old(h2.View()).Node? ==>
                      && h1.View().Node?
                      && h1.View().data ==
                         if old(h1.View()).Node? && h1.cmp(old(h1.View()).data, old(h2.View()).data) <= 0
                         then old(h1.View()).data else old(h2.View()).data)
                && Elems(h1.View()) == old(Elems(h1.View())) + old(Elems(h2.View()))
                && calls == MergeNodesCost(old(h1.View()), old(h2.View()))
                && Nodes(h1.shape) == old(Nodes(h1.shape)) + old(Nodes(h2.shape))
    {
      calls := 0;
      if h1 == null {
        return h2, 0, live;
      }
      if h2 == null {
        return h1, 0, live;
      }
      calls := h1.Absorb(h2.root, h2.shape);
      after := Free(live, h2);
      h := h1;
    }

    /** heap_destroy: every node of the heap is freed, then the heap itself, and nothing else. */
    method Destroy(ghost m: Memory) returns (ghost after: Memory)
      requires Valid() && Nodes(shape) <= m.live && this in m.live
      modifies this, Nodes(shape)
      ensures after.live == m.live - old(Nodes(shape)) - {this}
      ensures after.freed == m.freed + PostOrder(old(shape)) + [this]
    {
      after := DestroyNode(root, m, shape);
      assert this in after.live;
      root := null;
      after := Release(after, this);
    }
  }

  lemma {:induction false} SingleRoot<T>(s: Shape<T>)
    requires Single(s)
    ensures IsRoot(Value(s))
    ensures s.At? ==> Nodes(s) == {s.node} + Nodes(s.child)
  {
  }

  lemma {:induction false} PopValue<T(!new)>(cmp: (T, T) -> int, s: Shape<T>)
    requires s.At? && Single(s) && InOrder(cmp, Value(s))
    ensures var t := MergedPairs(cmp, Value(s.child));
            && Elems(t) + multiset{s.node.data} == Elems(Value(s)) && InOrder(cmp, t)
            && (TotalPreorder(cmp) ==> Below(cmp, s.node.data, Value(s)))
            && (TotalPreorder(cmp) && t.Node? ==> FirstLeast(cmp, Roots(Value(s.child)), t.data))
    ensures Value(s) == Node(s.node.data, Value(s.child), Null)
    ensures Nodes(s) == {s.node} + Nodes(s.child)
  {
    SingleRoot(s);
    MergePairsElems(cmp, Value(s.child));
    if TotalPreorder(cmp) {
      RootIsMinimum(cmp, Value(s));
      MergePairsOrdered(cmp, Value(s.child));
      if s.child.At? {
        MergePairsTop(cmp, Value(s.child));
      }
    }
  }

  // ---------- teardown ----------

  /** The nodes of a forest in the order in which destroy_node frees them. */
  ghost function PostOrder<T>(s: Shape<T>): seq<HeapNode<T>>
  {
    match s
    case Nil => []
    case At(n, c, b) => PostOrder(c) + PostOrder(b) + [n]
  }

  lemma {:induction false} PostOrderNodes<T>(s: Shape<T>, n: HeapNode<T>)
    ensures n in PostOrder(s) <==> n in Nodes(s)
  {
    if s.At? {
      PostOrderNodes(s.child, n);
      PostOrderNodes(s.sibling, n);
    }
  }

  lemma {:induction false} PostOrderOnce<T>(n: HeapNode?<T>, s: Shape<T>)
    requires Rep(n, s)
    ensures forall i, j :: 0 <= i < j < |PostOrder(s)| ==> PostOrder(s)[i] != PostOrder(s)[j]
  {
    if s.At? {
      var c, b := PostOrder(s.child), PostOrder(s.sibling);
      PostOrderOnce(s.node.child, s.child);
      PostOrderOnce(s.node.sibling, s.sibling);
      forall x | x in PostOrder(s.child) ensures x in Nodes(s.child) {
        PostOrderNodes(s.child, x);
      }
      forall x | x in PostOrder(s.sibling) ensures x in Nodes(s.sibling) {
        PostOrderNodes(s.sibling, x);
      }
      Apart(c, b, s.node);
    }
  }

  lemma {:induction false} Apart<N>(c: seq<N>, b: seq<N>, n: N)
    requires forall i, j :: 0 <= i < j < |c| ==> c[i] != c[j]
    requires forall i, j :: 0 <= i < j < |b| ==> b[i] != b[j]
    requires (forall x :: x in c ==> x !in b && x != n) && forall x :: x in b ==> x != n
    ensures forall i, j :: 0 <= i < j < |c + b + [n]| ==> (c + b + [n])[i] != (c + b + [n])[j]
  {
    var all := c + b + [n];
    forall i, j | 0 <= i < j < |all| ensures all[i] != all[j] {
      assert all[i] == if i < |c| then c[i] else b[i - |c|];
      if j < |all| - 1 {
        assert all[j] == if j < |c| then c[j] else b[j - |c|];
        assert i < |c| <= j ==> all[i] in c && all[j] in b;
      } else {
        assert all[i] in c || all[i] in b;
      }
    }
  }

  ghost predicate PartOf<T>(x: Shape<T>, s: Shape<T>)
  {
    x == s || (s.At? && (PartOf(x, s.child) || PartOf(x, s.sibling)))
  }

  /** Teardown in the right order: each node is freed once, and after all nodes below its child and its
      sibling, so that none is read or written later. */
  lemma {:induction false} FreedAfterBelow<T>(n: HeapNode?<T>, s: Shape<T>, x: Shape<T>, m: HeapNode<T>)
    requires Rep(n, s) && x.At? && PartOf(x, s) && m in Nodes(x.child) + Nodes(x.sibling)
    ensures exists i, j :: 0 <= i < j < |PostOrder(s)| && PostOrder(s)[i] == m && PostOrder(s)[j] == x.node
    decreases s
  {
    var c, b := PostOrder(s.child), PostOrder(s.sibling);
    assert PostOrder(s) == c + b + [s.node];
    if x == s {
      PostOrderNodes(s.child, m);
      PostOrderNodes(s.sibling, m);
      assert m in c + b;
      var i :| 0 <= i < |c + b| && (c + b)[i] == m;
      assert PostOrder(s)[i] == m && PostOrder(s)[|c + b|] == x.node;
    } else if PartOf(x, s.child) {
      FreedAfterBelow(s.node.child, s.child, x, m);
      var i, j :| 0 <= i < j < |c| && c[i] == m && c[j] == x.node;
      assert PostOrder(s)[i] == m && PostOrder(s)[j] == x.node;
    } else {
      FreedAfterBelow(s.node.sibling, s.sibling, x, m);
      var i, j :| 0 <= i < j < |b| && b[i] == m && b[j] == x.node;
      assert PostOrder(s)[|c| + i] == m && PostOrder(s)[|c| + j] == x.node;
    }
  }

  /** destroy_node: frees each node of the forest once, in post-order. */
  method DestroyNode<T>(node: HeapNode?<T>, ghost m: Memory, ghost s: Shape<T>) returns (ghost after: Memory)
    requires Rep(node, s) && Nodes(s) <= m.live
    modifies Nodes(s)
    ensures after.live == m.live - Nodes(s) && after.freed == m.freed + PostOrder(s)
    decreases s
  {
    after := m;
    if node == null {
      return;
    }
    assert Nodes(s) == {node} + Nodes(s.child) + Nodes(s.sibling) && allocated(Nodes(s));
    assert node in after.live;
    after := DestroyNode(node.child, after, s.child);
    assert node in after.live;
    node.child := null;

    assert Rep(node.sibling, s.sibling) && Nodes(s.sibling) <= after.live;
    after := DestroyNode(node.sibling, after, s.sibling);
    assert node in after.live;
    node.sibling := null;

    after := Release(after, node);
  }
}
