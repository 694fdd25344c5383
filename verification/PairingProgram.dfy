/** Whole programs over heap objects: what module PairingRuns proves about runs of values holds of
    the pointers, and of the calls of cmp that they make. */
module PairingProgram {
  import opened Prelude
  import opened PairingTree
  import opened PairingHeap
  import Runs = PairingRuns
  import Products

  /** A heap with its nodes fills a part of memory, and stands for t. */
  ghost predicate Fills<T(!new)>(h: Heap<T>, t: Tree<T>, space: Live, cmp: (T, T) -> int)
    reads space
  {
    h in space && Nodes(h.shape) <= space && h.cmp == cmp && h.Valid() && h.View() == t
  }

  /** Parts of the allocated memory that do not overlap. */
  ghost predicate Disjoint(spaces: seq<Live>, live: Live)
  {
    && (forall i :: 0 <= i < |spaces| ==> spaces[i] <= live)
    && (forall i, j :: 0 <= i < |spaces| && 0 <= j < |spaces| && i != j ==> spaces[i] !! spaces[j])
  }

  ghost predicate Apart<T(!new)>(heaps: seq<Heap<T>>, trees: seq<Tree<T>>, spaces: seq<Live>, cmp: (T, T) -> int,
                                 live: Live)
    reads live
  {
    && |heaps| == |trees| == |spaces| && Disjoint(spaces, live)
    && (forall i :: 0 <= i < |heaps| ==> Fills(heaps[i], trees[i], spaces[i], cmp))
  }

  method Push<T(!new)>(h: Heap<T>, x: T, ghost t: Tree<T>, ghost space: Live, ghost cmp: (T, T) -> int,
                       ghost live: Live)
    returns (ghost space': Live, ghost calls: nat, ghost after: Live)
    requires Fills(h, t, space, cmp) && space <= live
    modifies space
    ensures Fills(h, MergedNodes(cmp, t, Node(x, Null, Null)), space', cmp)
    ensures space <= space' && fresh(space' - space) && after == live + space'
    ensures calls == MergeNodesCost(t, Node(x, Null, Null))
  {
    var ret;
    ret, calls, after := h.Push(x, live);
    space' := space + Nodes(h.shape);
  }

  method Pop<T(!new)>(h: Heap<T>, ghost t: Tree<T>, ghost space: Live, ghost cmp: (T, T) -> int, ghost live: Live)
    returns (r: Option<T>, ghost space': Live, ghost calls: nat, ghost after: Live)
    requires Fills(h, t, space, cmp) && space <= live
    modifies space
    ensures space' <= space && after == live - (space - space')
    ensures t.Null? ==> Fills(h, t, space', cmp) && calls == 0 && r == None
    ensures t.Node? ==>
              && Fills(h, MergedPairs(cmp, t.child), space', cmp)
              && calls == MergePairsCost(cmp, t.child) && r == Some(t.data)
  {
    ghost var gone: Live := if t.Null? then {} else {h.root};
    r, calls, after := h.Pop(live);
    space' := space - gone;
  }

  method Merge<T(!new)>(h1: Heap<T>, h2: Heap<T>, ghost t1: Tree<T>, ghost t2: Tree<T>, ghost space1: Live,
                        ghost space2: Live, ghost cmp: (T, T) -> int, ghost live: Live)
    returns (ghost space': Live, ghost calls: nat, ghost after: Live)
    requires Fills(h1, t1, space1, cmp) && Fills(h2, t2, space2, cmp) && space1 !! space2 && space2 <= live
    modifies space1 + space2
    ensures Fills(h1, MergedNodes(cmp, t1, t2), space', cmp)
    ensures space' == space1 + (space2 - {h2}) && after == live - {h2}
    ensures calls == MergeNodesCost(t1, t2)
  {
    var merged;
    merged, calls, after := Heap.Merge(h1, h2, live);
    space' := space1 + (space2 - {h2});
  }

  method Create<T(!new)>(cmp: (T, T) -> int) returns (h: Heap<T>)
    ensures fresh(h) && Fills(h, Null, {h}, cmp)
  {
    h := new Heap(cmp);
  }

  /** One operation.  After heap_merge the place of the freed heap is taken by a new one. */
  method Perform<T(!new)>(heaps: seq<Heap<T>>, op: Runs.Op<T>, cmp: (T, T) -> int, ghost s: Runs.State<T>,
                          ghost spaces: seq<Live>, ghost live: Live)
    returns (heaps': seq<Heap<T>>, popped: Option<T>, ghost s': Runs.State<T>, ghost spaces': seq<Live>,
             ghost calls: nat, ghost after: Live)
    requires Apart(heaps, s.heaps, spaces, cmp, live) && Runs.Enabled(s, op)
    modifies live
    ensures s' == Runs.Step(cmp, s, op) && Apart(heaps', s'.heaps, spaces', cmp, after) && fresh(after - live)
    ensures calls == s'.comparisons - s.comparisons
    ensures s'.popped == if popped.Some? then s.popped + [popped.value] else s.popped
  {
    s', heaps', popped := Runs.Step(cmp, s, op), heaps, None;
    var i := op.heap;
    ghost var space;
    match op {
      case Push(_, x) =>
        space, calls, after := Push(heaps[i], x, s.heaps[i], spaces[i], cmp, live);
        spaces' := spaces[i := space];
      case Pop(_) =>
        popped, space, calls, after := Pop(heaps[i], s.heaps[i], spaces[i], cmp, live);
        spaces' := spaces[i := space];
      case Merge(_, j) =>
        space, calls, after := Merge(heaps[i], heaps[j], s.heaps[i], s.heaps[j], spaces[i], spaces[j], cmp, live);
        var h := Create(cmp);
        heaps' := heaps[j := h];
        spaces' := spaces[i := space][j := {h}];
        after := after + {h};
    }
  }

  /** A program: the heaps end as the trees of the run, and what was popped and how often cmp was
      called are as in the run. */
  method Execute<T(!new)>(start: seq<Heap<T>>, ops: seq<Runs.Op<T>>, cmp: (T, T) -> int, ghost trees: seq<Tree<T>>,
                          ghost parts: seq<Live>, ghost live: Live)
    returns (heaps: seq<Heap<T>>, popped: seq<T>, ghost trees': seq<Tree<T>>, ghost spaces: seq<Live>,
             ghost calls: nat, ghost after: Live)
    requires Apart(start, trees, parts, cmp, live) && Runs.CanRun(cmp, Runs.State(trees, [], 0), ops)
    modifies live
    ensures Runs.Run(cmp, Runs.State(trees, [], 0), ops) == Runs.State(trees', popped, calls)
    ensures Apart(heaps, trees', spaces, cmp, after) && fresh(after - live)
  {
    heaps, popped, spaces, calls, after := start, [], parts, 0, live;
    ghost var s := Runs.State(trees, [], 0);
    var k := 0;
    while k < |ops|
      invariant k <= |ops| && Apart(heaps, s.heaps, spaces, cmp, after) && fresh(after - live)
      invariant Runs.CanRun(cmp, s, ops[k..])
      invariant Runs.Run(cmp, s, ops[k..]) == Runs.Run(cmp, Runs.State(trees, [], 0), ops)
      invariant s.popped == popped && s.comparisons == calls
    {
      assert ops[k..][0] == ops[k] && ops[k..][1..] == ops[k + 1..];
      var r;
      ghost var more;
      heaps, r, s, spaces, more, after := Perform(heaps, ops[k], cmp, s, spaces, after);
      popped := if r.Some? then popped + [r.value] else popped;
      calls := calls + more;
      k := k + 1;
    }
    trees' := s.heaps;
  }

  method CreateAll<T(!new)>(count: nat, cmp: (T, T) -> int)
    returns (heaps: seq<Heap<T>>, ghost spaces: seq<Live>, ghost live: Live)
    ensures Apart(heaps, Runs.Start<T>(count).heaps, spaces, cmp, live) && fresh(live)
  {
    heaps, spaces, live := [], [], {};
    while |heaps| < count
      invariant |heaps| <= count && fresh(live)
      invariant Apart(heaps, Runs.Start<T>(|heaps|).heaps, spaces, cmp, live)
    {
      var h := Create(cmp);
      assert h !in live;
      heaps, spaces, live := heaps + [h], spaces + [{h}], live + {h};
    }
  }

  /** The amortised bound for the pointers: m operations on heaps fresh from heap_new, with never more
      than n nodes in all, call cmp C times with 2^C <= (2 n^2)^m. */
  method ExecuteFromNew<T(!new)>(count: nat, ops: seq<Runs.Op<T>>, cmp: (T, T) -> int)
    returns (heaps: seq<Heap<T>>, popped: seq<T>, ghost calls: nat)
    requires Runs.CanRun(cmp, Runs.Start(count), ops)
    ensures var last := Runs.Run(cmp, Runs.Start(count), ops).heaps;
            |heaps| == |last| && forall i :: 0 <= i < |heaps| ==> heaps[i].Valid() && heaps[i].View() == last[i]
    ensures Runs.Run(cmp, Runs.Start(count), ops).popped == popped
    ensures Runs.Run(cmp, Runs.Start(count), ops).comparisons == calls
    ensures forall n: nat :: n >= 1 && Runs.Within(cmp, Runs.Start(count), ops, n) ==>
              Products.Pow(2, calls) <= Products.Pow(2 * (n * n), |ops|)
  {
    ghost var spaces, live, trees, after;
    heaps, spaces, live := CreateAll(count, cmp);
    heaps, popped, trees, spaces, calls, after := Execute(heaps, ops, cmp, Runs.Start<T>(count).heaps, spaces, live);
    forall n: nat | n >= 1 && Runs.Within(cmp, Runs.Start(count), ops, n)
      ensures Products.Pow(2, calls) <= Products.Pow(2 * (n * n), |ops|)
    {
      Runs.ComparisonBound(cmp, count, ops, n);
    }
  }

  /** Sorting n items with a heap: a permutation in `cmp` order, with C calls of cmp where
      2^C <= (2 n^2)^(2 n). */
  method Sort<T(!new)>(xs: seq<T>, cmp: (T, T) -> int) returns (sorted: seq<T>, ghost calls: nat)
    ensures multiset(sorted) == multiset(xs)
    ensures TotalPreorder(cmp) ==> Sorted(cmp, sorted)
    ensures xs != [] ==> Products.Pow(2, calls) <= Products.Pow(2 * (|xs| * |xs|), 2 * |xs|)
  {
    var heaps;
    Runs.HeapSorts(cmp, xs);
    heaps, sorted, calls := ExecuteFromNew(1, Runs.Pushes(0, xs) + Runs.Pops(0, |xs|), cmp);
  }
}
