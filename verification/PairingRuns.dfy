/** Whole runs of heap_push, heap_pop and heap_merge over any number of pairing heaps:
    contents and order are kept at every step, and comparisons are O(log N) amortised. */
module PairingRuns {
  import opened PairingTree
  import opened PairingPotential
  import opened Products

  /** The operations; heaps are named by their place in the state.  heap_merge frees its second
      argument, so a run may use that place again only as a new, empty heap. */
  datatype Op<T> = Push(heap: nat, data: T) | Pop(heap: nat) | Merge(heap: nat, other: nat)

  datatype State<T> = State(heaps: seq<Tree<T>>, popped: seq<T>, comparisons: nat)

  predicate Enabled<T>(s: State<T>, op: Op<T>)
  {
    && op.heap < |s.heaps|
    && (op.Merge? ==> op.other < |s.heaps| && op.other != op.heap)
  }

  function Step<T>(cmp: (T, T) -> int, s: State<T>, op: Op<T>): State<T>
    requires Enabled(s, op)
  {
    var t := s.heaps[op.heap];
    match op
    case Push(i, x) =>
      var node := Node(x, Null, Null);
      State(s.heaps[i := MergedNodes(cmp, t, node)], s.popped, s.comparisons + MergeNodesCost(t, node))
    case Pop(i) =>
      if t.Null? then s else
        State(s.heaps[i := MergedPairs(cmp, t.child)], s.popped + [t.data],
              s.comparisons + MergePairsCost(cmp, t.child))
    case Merge(i, j) =>
      var u := s.heaps[j];
      State(s.heaps[i := MergedNodes(cmp, t, u)][j := Null], s.popped, s.comparisons + MergeNodesCost(t, u))
  }

  predicate CanRun<T>(cmp: (T, T) -> int, s: State<T>, ops: seq<Op<T>>)
    decreases |ops|
  {
    ops == [] || (Enabled(s, ops[0]) && CanRun(cmp, Step(cmp, s, ops[0]), ops[1..]))
  }

  function Run<T>(cmp: (T, T) -> int, s: State<T>, ops: seq<Op<T>>): State<T>
    requires CanRun(cmp, s, ops)
    decreases |ops|
  {
    if ops == [] then s else Run(cmp, Step(cmp, s, ops[0]), ops[1..])
  }

  ghost function Pushed<T>(ops: seq<Op<T>>): multiset<T>
  {
    if ops == [] then multiset{}
    else (if ops[0].Push? then multiset{ops[0].data} else multiset{}) + Pushed(ops[1..])
  }

  /** `count` heaps fresh from heap_new. */
  function Start<T>(count: nat): State<T>
  {
    State(seq(count, _ => Null), [], 0)
  }

  // ---------- totals over all heaps ----------

  ghost function AllElems<T>(heaps: seq<Tree<T>>): multiset<T>
  {
    if heaps == [] then multiset{} else Elems(heaps[0]) + AllElems(heaps[1..])
  }

  function AllNodes<T>(heaps: seq<Tree<T>>): nat
  {
    if heaps == [] then 0 else Size(heaps[0]) + AllNodes(heaps[1..])
  }

  function AllPotential<T>(heaps: seq<Tree<T>>): nat
  {
    if heaps == [] then 1 else Potential(heaps[0]) * AllPotential(heaps[1..])
  }

  ghost predicate AllHeaps<T>(cmp: (T, T) -> int, heaps: seq<Tree<T>>)
  {
    forall i :: 0 <= i < |heaps| ==> IsHeap(cmp, heaps[i])
  }

  predicate AllRoots<T>(heaps: seq<Tree<T>>)
  {
    forall i :: 0 <= i < |heaps| ==> IsRoot(heaps[i])
  }

  /** Each total is what the other heaps contribute, combined with heap i. */
  lemma {:induction false} Split<T>(heaps: seq<Tree<T>>, i: nat, t: Tree<T>)
    requires i < |heaps|
    ensures AllElems(heaps[i := t]) == AllElems(heaps[i := Null]) + Elems(t)
  {
    if i > 0 {
      assert heaps[i := t][1..] == heaps[1..][i - 1 := t];
      assert heaps[i := Null][1..] == heaps[1..][i - 1 := Null];
      Split(heaps[1..], i - 1, t);
      SumAssoc(Elems(heaps[0]), AllElems(heaps[1..][i - 1 := Null]), Elems(t));
    } else {
      assert heaps[0 := t][1..] == heaps[1..] && heaps[0 := Null][1..] == heaps[1..];
      SumAssoc(Elems(t), AllElems(heaps[1..]), multiset{});
    }
  }

  lemma {:induction false} SumAssoc<T>(a: multiset<T>, b: multiset<T>, c: multiset<T>)
    ensures a + (b + c) == (a + b) + c && a + b == b + a && b + multiset{} == b
  {
  }

  lemma {:induction false} SplitNodes<T>(heaps: seq<Tree<T>>, i: nat, t: Tree<T>)
    requires i < |heaps|
    ensures AllNodes(heaps[i := t]) == AllNodes(heaps[i := Null]) + Size(t)
  {
    if i > 0 {
      assert heaps[i := t][1..] == heaps[1..][i - 1 := t];
      assert heaps[i := Null][1..] == heaps[1..][i - 1 := Null];
      SplitNodes(heaps[1..], i - 1, t);
    }
  }

  lemma {:induction false} SplitPotential<T>(heaps: seq<Tree<T>>, i: nat, t: Tree<T>)
    requires i < |heaps|
    ensures AllPotential(heaps[i := t]) == AllPotential(heaps[i := Null]) * Potential(t)
  {
    if i > 0 {
      assert heaps[i := t][1..] == heaps[1..][i - 1 := t];
      assert heaps[i := Null][1..] == heaps[1..][i - 1 := Null];
      SplitPotential(heaps[1..], i - 1, t);
      Assoc(Potential(heaps[0]), AllPotential(heaps[1..][i - 1 := Null]), Potential(t));
    } else {
      Commute(Potential(t), AllPotential(heaps[1..]));
      assert AllPotential(heaps[0 := Null]) == 1 * AllPotential(heaps[1..]);
    }
  }

  lemma {:induction false} StartTotals<T>(count: nat)
    ensures var heaps := Start<T>(count).heaps;
            AllElems(heaps) == multiset{} && AllNodes(heaps) == 0 && AllPotential(heaps) == 1
  {
    if count > 0 {
      assert Start<T>(count).heaps[1..] == Start<T>(count - 1).heaps;
      StartTotals<T>(count - 1);
    }
  }

  // ---------- safety ----------

  /** Replacing heap i by t moves the total by the difference of the two heaps. */
  lemma {:induction false} Swapped<T>(heaps: seq<Tree<T>>, i: nat, t: Tree<T>)
    requires i < |heaps|
    ensures AllElems(heaps[i := t]) + Elems(heaps[i]) == AllElems(heaps) + Elems(t)
  {
    Split(heaps, i, t);
    Split(heaps, i, heaps[i]);
    assert heaps[i := heaps[i]] == heaps;
  }

  lemma {:induction false} CancelElems<T>(a: multiset<T>, b: multiset<T>, c: multiset<T>)
    requires a + c == b + c
    ensures a == b
  {
    assert (a + c) - c == a && (b + c) - c == b;
  }

  lemma {:induction false} PushContents<T>(cmp: (T, T) -> int, heaps: seq<Tree<T>>, i: nat, x: T)
    requires AllRoots(heaps) && i < |heaps|
    ensures AllElems(heaps[i := MergedNodes(cmp, heaps[i], Node(x, Null, Null))]) == AllElems(heaps) + multiset{x}
  {
    var t := MergedNodes(cmp, heaps[i], Node(x, Null, Null));
    MergeNodesElems(cmp, heaps[i], Node(x, Null, Null));
    Swapped(heaps, i, t);
    CancelElems(AllElems(heaps[i := t]), AllElems(heaps) + multiset{x}, Elems(heaps[i]));
  }

  lemma {:induction false} PopContents<T>(cmp: (T, T) -> int, heaps: seq<Tree<T>>, i: nat)
    requires AllRoots(heaps) && i < |heaps| && heaps[i].Node?
    ensures AllElems(heaps[i := MergedPairs(cmp, heaps[i].child)]) + multiset{heaps[i].data} == AllElems(heaps)
  {
    var t := MergedPairs(cmp, heaps[i].child);
    MergePairsElems(cmp, heaps[i].child);
    Swapped(heaps, i, t);
    assert Elems(heaps[i]) == multiset{heaps[i].data} + Elems(t);
    CancelElems(AllElems(heaps[i := t]) + multiset{heaps[i].data}, AllElems(heaps), Elems(t));
  }

  lemma {:induction false} MergeContents<T>(cmp: (T, T) -> int, heaps: seq<Tree<T>>, i: nat, j: nat)
    requires AllRoots(heaps) && i < |heaps| && j < |heaps| && i != j
    ensures AllElems(heaps[i := MergedNodes(cmp, heaps[i], heaps[j])][j := Null]) == AllElems(heaps)
  {
    var t := MergedNodes(cmp, heaps[i], heaps[j]);
    MergeNodesElems(cmp, heaps[i], heaps[j]);
    Swapped(heaps, i, t);
    Swapped(heaps[i := t], j, Null);
    CancelElems(AllElems(heaps[i := t]), AllElems(heaps) + Elems(heaps[j]), Elems(heaps[i]));
    CancelElems(AllElems(heaps[i := t][j := Null]), AllElems(heaps), Elems(heaps[j]));
  }

  /** One operation moves data only as it should. */
  lemma {:induction false} StepContents<T>(cmp: (T, T) -> int, s: State<T>, op: Op<T>)
    requires AllRoots(s.heaps) && Enabled(s, op)
    ensures AllElems(Step(cmp, s, op).heaps) + multiset(Step(cmp, s, op).popped) ==
            AllElems(s.heaps) + multiset(s.popped) + (if op.Push? then multiset{op.data} else multiset{})
  {
    match op
    case Push(i, x) => PushContents(cmp, s.heaps, i, x);
    case Pop(i) => if s.heaps[i].Node? { PopContents(cmp, s.heaps, i); }
    case Merge(i, j) => MergeContents(cmp, s.heaps, i, j);
  }

  lemma {:induction false} StepRoots<T>(cmp: (T, T) -> int, s: State<T>, op: Op<T>)
    requires AllRoots(s.heaps) && Enabled(s, op)
    ensures AllRoots(Step(cmp, s, op).heaps)
  {
    var t := s.heaps[op.heap];
    match op
    case Push(_, x) => MergeNodesShape(cmp, t, Node(x, Null, Null));
    case Pop(_) => if t.Node? { MergePairsShape(cmp, t.child); }
    case Merge(_, j) => MergeNodesShape(cmp, t, s.heaps[j]);
  }

  lemma {:induction false} StepOrdered<T(!new)>(cmp: (T, T) -> int, s: State<T>, op: Op<T>)
    requires TotalPreorder(cmp) && AllHeaps(cmp, s.heaps) && Enabled(s, op)
    ensures AllHeaps(cmp, Step(cmp, s, op).heaps)
  {
    var t := s.heaps[op.heap];
    match op
    case Push(_, x) => MergeNodesOrdered(cmp, t, Node(x, Null, Null));
    case Pop(_) => if t.Node? { MergePairsOrdered(cmp, t.child); }
    case Merge(_, j) => MergeNodesOrdered(cmp, t, s.heaps[j]);
  }

  /** Conservation over every run, for any `cmp`: what is in the heaps and what has been
      popped is what was there before and what has been pushed. */
  lemma {:induction false} RunContents<T>(cmp: (T, T) -> int, s: State<T>, ops: seq<Op<T>>)
    requires AllRoots(s.heaps) && CanRun(cmp, s, ops)
    ensures AllElems(Run(cmp, s, ops).heaps) + multiset(Run(cmp, s, ops).popped) ==
            AllElems(s.heaps) + multiset(s.popped) + Pushed(ops)
    decreases |ops|
  {
    if ops != [] {
      StepContents(cmp, s, ops[0]);
      StepRoots(cmp, s, ops[0]);
      RunContents(cmp, Step(cmp, s, ops[0]), ops[1..]);
    }
  }

  /** Order over every run: each heap keeps a minimum of its contents at its root, and that is
      what the next heap_pop returns. */
  lemma {:induction false} RunOrdered<T(!new)>(cmp: (T, T) -> int, s: State<T>, ops: seq<Op<T>>)
    requires TotalPreorder(cmp) && AllHeaps(cmp, s.heaps) && CanRun(cmp, s, ops)
    ensures AllHeaps(cmp, Run(cmp, s, ops).heaps)
    ensures forall t :: t in Run(cmp, s, ops).heaps && t.Node? ==> t.data in Elems(t) && Below(cmp, t.data, t)
    decreases |ops|
  {
    if ops == [] {
      forall t | t in s.heaps && t.Node? ensures t.data in Elems(t) && Below(cmp, t.data, t) {
        RootIsMinimum(cmp, t);
      }
    } else {
      StepOrdered(cmp, s, ops[0]);
      RunOrdered(cmp, Step(cmp, s, ops[0]), ops[1..]);
    }
  }

  // ---------- amortised cost ----------

  /** No more than n nodes in all heaps together, at every moment of the run. */
  predicate Within<T>(cmp: (T, T) -> int, s: State<T>, ops: seq<Op<T>>, n: nat)
    requires CanRun(cmp, s, ops)
    decreases |ops|
  {
    AllNodes(s.heaps) <= n && (ops == [] || Within(cmp, Step(cmp, s, ops[0]), ops[1..], n))
  }

  lemma {:induction false} StepAmortised<T>(cmp: (T, T) -> int, s: State<T>, op: Op<T>, n: nat)
    requires AllRoots(s.heaps) && Enabled(s, op) && n >= 1
    requires AllNodes(s.heaps) <= n && AllNodes(Step(cmp, s, op).heaps) <= n
    ensures var s' := Step(cmp, s, op);
            && s'.comparisons >= s.comparisons
            && Pow(2, s'.comparisons - s.comparisons) * AllPotential(s'.heaps) <= 2 * (n * n) * AllPotential(s.heaps)
  {
    var i, t := op.heap, s.heaps[op.heap];
    match op
    case Push(_, x) =>
      var node := Node(x, Null, Null);
      assert Potential(node) == 1;
      SizeOfOne(s.heaps, i, MergedNodes(cmp, t, node));
      MergeNodesShape(cmp, t, node);
      MergeAmortised(cmp, t, node, n);
      Replace(s.heaps, i, MergedNodes(cmp, t, node), Pow(2, MergeNodesCost(t, node)), 2 * n);
      Weaken(n, AllPotential(s.heaps));
    case Pop(_) =>
      if t.Node? {
        SizeOfOne(s.heaps, i, t);
        assert s.heaps[i := t] == s.heaps;
        PopAmortised(cmp, t, n);
        Replace(s.heaps, i, MergedPairs(cmp, t.child), Pow(2, MergePairsCost(cmp, t.child)), 2 * (n * n));
      } else {
        MulMono(1, n, 1, n);
        MulMono(1, 2 * (n * n), AllPotential(s.heaps), AllPotential(s.heaps));
        assert Pow(2, 0) == 1;
      }
    case Merge(_, j) =>
      MergeStep(cmp, s.heaps, i, j, n);
      Weaken(n, AllPotential(s.heaps));
  }

  lemma {:induction false} SizeOfOne<T>(heaps: seq<Tree<T>>, i: nat, t: Tree<T>)
    requires i < |heaps|
    ensures Size(t) <= AllNodes(heaps[i := t])
  {
    SplitNodes(heaps, i, t);
  }

  lemma {:induction false} Weaken(n: nat, p: nat)
    requires n >= 1
    ensures 2 * n * p <= 2 * (n * n) * p
  {
    MulMono(1, n, n, n);
    MulMono(2 * n, 2 * (n * n), p, p);
  }

  /** An operation on one heap carries its bound over to the whole state. */
  lemma {:induction false} Replace<T>(heaps: seq<Tree<T>>, i: nat, t: Tree<T>, k: nat, f: nat)
    requires i < |heaps|
    requires k * Potential(t) <= f * Potential(heaps[i])
    ensures k * AllPotential(heaps[i := t]) <= f * AllPotential(heaps)
  {
    var rest := AllPotential(heaps[i := Null]);
    SplitPotential(heaps, i, t);
    SplitPotential(heaps, i, heaps[i]);
    assert heaps[i := heaps[i]] == heaps;
    Frame(k, f, rest, Potential(t), Potential(heaps[i]));
  }

  lemma {:induction false} MergeStep<T>(cmp: (T, T) -> int, heaps: seq<Tree<T>>, i: nat, j: nat, n: nat)
    requires i < |heaps| && j < |heaps| && i != j
    requires IsRoot(heaps[i]) && IsRoot(heaps[j]) && n >= 1 && AllNodes(heaps) <= n
    ensures var t := MergedNodes(cmp, heaps[i], heaps[j]);
            Pow(2, MergeNodesCost(heaps[i], heaps[j])) * AllPotential(heaps[i := t][j := Null]) <=
            2 * n * AllPotential(heaps)
  {
    var t := MergedNodes(cmp, heaps[i], heaps[j]);
    TwoSizes(heaps, i, j);
    MergeAmortised(cmp, heaps[i], heaps[j], n);
    TwoPotentials(heaps, i, j, t);
    MergeFrame(Pow(2, MergeNodesCost(heaps[i], heaps[j])), 2 * n, AllPotential(heaps[i := Null][j := Null]),
               Potential(t), Potential(heaps[i]), Potential(heaps[j]));
  }

  lemma {:induction false} TwoSizes<T>(heaps: seq<Tree<T>>, i: nat, j: nat)
    requires i < |heaps| && j < |heaps| && i != j
    ensures Size(heaps[i]) + Size(heaps[j]) <= AllNodes(heaps)
  {
    assert heaps[i := heaps[i]] == heaps && heaps[i := Null][j := heaps[j]] == heaps[i := Null];
    SplitNodes(heaps, i, heaps[i]);
    SplitNodes(heaps[i := Null], j, heaps[j]);
  }

  lemma {:induction false} TwoPotentials<T>(heaps: seq<Tree<T>>, i: nat, j: nat, t: Tree<T>)
    requires i < |heaps| && j < |heaps| && i != j
    ensures var rest := AllPotential(heaps[i := Null][j := Null]);
            && AllPotential(heaps[i := t][j := Null]) == rest * Potential(t)
            && AllPotential(heaps) == rest * Potential(heaps[j]) * Potential(heaps[i])
  {
    var rest := heaps[i := Null][j := Null];
    assert rest[i := t] == heaps[i := t][j := Null] && rest[i := Null] == rest;
    SplitPotential(rest, i, t);
    assert heaps[i := heaps[i]] == heaps && heaps[i := Null][j := heaps[j]] == heaps[i := Null];
    SplitPotential(heaps, i, heaps[i]);
    SplitPotential(heaps[i := Null], j, heaps[j]);
  }

  /** Amortisation over a run: 2^(comparisons) times the final potential is at most (2 N^2)^m
      times the initial one. */
  lemma {:induction false} RunAmortised<T>(cmp: (T, T) -> int, s: State<T>, ops: seq<Op<T>>, n: nat, f: nat)
    requires AllRoots(s.heaps) && CanRun(cmp, s, ops) && Within(cmp, s, ops, n)
    requires n >= 1 && f == 2 * (n * n)
    ensures Run(cmp, s, ops).comparisons >= s.comparisons
    ensures Pow(2, Run(cmp, s, ops).comparisons - s.comparisons) * AllPotential(Run(cmp, s, ops).heaps) <=
            Pow(f, |ops|) * AllPotential(s.heaps)
    decreases |ops|
  {
    if ops == [] {
      assert Pow(2, 0) == 1 && Pow(f, 0) == 1;
    } else {
      var mid := Step(cmp, s, ops[0]);
      StepAmortised(cmp, s, ops[0], n);
      StepRoots(cmp, s, ops[0]);
      RunAmortised(cmp, mid, ops[1..], n, f);
      var last := Run(cmp, s, ops);
      Chain(mid.comparisons - s.comparisons, last.comparisons - mid.comparisons, |ops| - 1,
            AllPotential(last.heaps), f, AllPotential(mid.heaps), AllPotential(s.heaps));
    }
  }

  lemma {:induction false} AllPotentialPositive<T>(heaps: seq<Tree<T>>)
    ensures AllPotential(heaps) >= 1
  {
    if heaps != [] {
      PotentialPositive(heaps[0]);
      AllPotentialPositive(heaps[1..]);
      PositiveProduct(Potential(heaps[0]), AllPotential(heaps[1..]));
    }
  }

  /** The amortised bound: any m operations on heaps that start empty, with never more than
      N >= 1 nodes in all, make C comparisons with 2^C <= (2 N^2)^m. */
  lemma {:induction false} ComparisonBound<T>(cmp: (T, T) -> int, count: nat, ops: seq<Op<T>>, n: nat)
    requires CanRun(cmp, Start(count), ops) && n >= 1 && Within(cmp, Start(count), ops, n)
    ensures Pow(2, Run(cmp, Start(count), ops).comparisons) <= Pow(2 * (n * n), |ops|)
  {
    StartTotals<T>(count);
    RunAmortised(cmp, Start(count), ops, n, 2 * (n * n));
    var last := Run(cmp, Start(count), ops);
    AllPotentialPositive(last.heaps);
    MulMono(Pow(2, last.comparisons), Pow(2, last.comparisons), 1, AllPotential(last.heaps));
  }

  /** The same bound as a logarithm: with N <= 2^e nodes, at most (2e + 1) m comparisons. */
  lemma {:induction false} ComparisonsLogarithmic<T>(cmp: (T, T) -> int, count: nat, ops: seq<Op<T>>, e: nat)
    requires CanRun(cmp, Start(count), ops) && Within(cmp, Start(count), ops, Pow(2, e))
    ensures Run(cmp, Start(count), ops).comparisons <= (2 * e + 1) * |ops|
  {
    PowPositive(2, e);
    ComparisonBound(cmp, count, ops, Pow(2, e));
    PowSum(2, e, e);
    assert Pow(2, 2 * e + 1) == 2 * Pow(2, 2 * e);
    PowPower(2, 2 * e + 1, |ops|);
    PowMonotone(Run(cmp, Start(count), ops).comparisons, (2 * e + 1) * |ops|);
  }

  // ---------- sorting ----------

  function Pushes<T>(i: nat, xs: seq<T>): (ops: seq<Op<T>>)
    ensures |ops| == |xs|
  {
    if xs == [] then [] else [Op.Push(i, xs[0])] + Pushes(i, xs[1..])
  }

  function Pops<T>(i: nat, n: nat): (ops: seq<Op<T>>)
    ensures |ops| == n
  {
    if n == 0 then [] else [Op.Pop(i)] + Pops(i, n - 1)
  }

  /** Between s and r the heap i has taken in the elements of a bag, and nothing was popped. */
  ghost predicate TookIn<T(!new)>(cmp: (T, T) -> int, s: State<T>, r: State<T>, i: nat, bag: multiset<T>)
  {
    && |r.heaps| == |s.heaps| && r.popped == s.popped && i < |s.heaps|
    && IsRoot(r.heaps[i]) && InOrder(cmp, r.heaps[i])
    && AllNodes(r.heaps) == AllNodes(s.heaps) + |bag| && Size(r.heaps[i]) == Size(s.heaps[i]) + |bag|
    && Elems(r.heaps[i]) == Elems(s.heaps[i]) + bag
  }

  lemma {:induction false} PushOne<T(!new)>(cmp: (T, T) -> int, s: State<T>, i: nat, x: T)
    requires i < |s.heaps| && IsRoot(s.heaps[i]) && InOrder(cmp, s.heaps[i])
    ensures TookIn(cmp, s, Step(cmp, s, Op.Push(i, x)), i, multiset{x})
  {
    var node := Node(x, Null, Null);
    MergeNodesShape(cmp, s.heaps[i], node);
    MergeNodesElems(cmp, s.heaps[i], node);
    MergeNodesInOrder(cmp, s.heaps[i], node);
    NodesMoved(s.heaps, i, MergedNodes(cmp, s.heaps[i], node));
  }

  lemma {:induction false} NodesMoved<T>(heaps: seq<Tree<T>>, i: nat, t: Tree<T>)
    requires i < |heaps|
    ensures AllNodes(heaps[i := t]) + Size(heaps[i]) == AllNodes(heaps) + Size(t)
  {
    SplitNodes(heaps, i, t);
    SplitNodes(heaps, i, heaps[i]);
    assert heaps[i := heaps[i]] == heaps;
  }

  lemma {:induction false} TookInBoth<T(!new)>(cmp: (T, T) -> int, s: State<T>, mid: State<T>, r: State<T>, i: nat,
                                               xs: seq<T>)
    requires xs != [] && TookIn(cmp, s, mid, i, multiset{xs[0]}) && TookIn(cmp, mid, r, i, multiset(xs[1..]))
    ensures TookIn(cmp, s, r, i, multiset(xs))
  {
    assert xs == [xs[0]] + xs[1..];
  }

  /** Pushing a sequence on a heap puts exactly its elements into the heap. */
  lemma {:induction false} PushAll<T(!new)>(cmp: (T, T) -> int, s: State<T>, i: nat, xs: seq<T>, n: nat)
    requires i < |s.heaps| && IsRoot(s.heaps[i]) && InOrder(cmp, s.heaps[i]) && AllNodes(s.heaps) + |xs| <= n
    ensures CanRun(cmp, s, Pushes(i, xs)) && Within(cmp, s, Pushes(i, xs), n)
    ensures TookIn(cmp, s, Run(cmp, s, Pushes(i, xs)), i, multiset(xs))
    decreases |xs|
  {
    if xs != [] {
      var mid := Step(cmp, s, Op.Push(i, xs[0]));
      PushOne(cmp, s, i, xs[0]);
      PushAll(cmp, mid, i, xs[1..], n);
      assert Pushes(i, xs)[0] == Op.Push(i, xs[0]) && Pushes(i, xs)[1..] == Pushes(i, xs[1..]);
      TookInBoth(cmp, s, mid, Run(cmp, mid, Pushes(i, xs[1..])), i, xs);
    }
  }

  lemma {:induction false} Joined<T>(a: seq<T>, x: T, b: seq<T>)
    ensures (a + [x]) + b == a + ([x] + b)
  {
  }

  /** Popping a heap as often as it has nodes pops what draining it gives, and leaves it empty. */
  lemma {:induction false} PopAll<T>(cmp: (T, T) -> int, s: State<T>, i: nat, n: nat)
    requires i < |s.heaps| && IsRoot(s.heaps[i]) && AllNodes(s.heaps) <= n
    ensures var ops := Pops(i, Size(s.heaps[i]));
            && CanRun(cmp, s, ops) && Within(cmp, s, ops, n)
            && Run(cmp, s, ops).heaps == s.heaps[i := Null]
            && Run(cmp, s, ops).popped == s.popped + Drain(cmp, s.heaps[i])
    decreases Size(s.heaps[i])
  {
    var t := s.heaps[i];
    if t.Null? {
      assert s.popped + Drain(cmp, t) == s.popped && s.heaps[i := Null] == s.heaps;
    } else {
      var s' := Step(cmp, s, Op.Pop(i));
      MergePairsShape(cmp, t.child);
      NodesMoved(s.heaps, i, s'.heaps[i]);
      PopAll(cmp, s', i, n);
      assert Pops<T>(i, Size(t))[0] == Op.Pop(i) && Pops<T>(i, Size(t))[1..] == Pops(i, Size(t) - 1);
      Joined(s.popped, t.data, Drain(cmp, s'.heaps[i]));
      assert s'.heaps[i := Null] == s.heaps[i := Null];
    }
  }

  lemma {:induction false} RunAppend<T>(cmp: (T, T) -> int, s: State<T>, a: seq<Op<T>>, b: seq<Op<T>>, n: nat)
    requires CanRun(cmp, s, a) && CanRun(cmp, Run(cmp, s, a), b)
    requires Within(cmp, s, a, n) && Within(cmp, Run(cmp, s, a), b, n)
    ensures CanRun(cmp, s, a + b) && Within(cmp, s, a + b, n)
    ensures Run(cmp, s, a + b) == Run(cmp, Run(cmp, s, a), b)
    decreases |a|
  {
    if a == [] {
      assert a + b == b;
    } else {
      RunAppend(cmp, Step(cmp, s, a[0]), a[1..], b, n);
      assert (a + b)[0] == a[0] && (a + b)[1..] == a[1..] + b;
    }
  }

  /** Pushing a sequence on a new heap and popping as often sorts the sequence. */
  lemma {:induction false} HeapSorts<T(!new)>(cmp: (T, T) -> int, xs: seq<T>)
    ensures var ops := Pushes(0, xs) + Pops(0, |xs|);
            && CanRun(cmp, Start(1), ops) && Within(cmp, Start(1), ops, |xs|)
            && var r := Run(cmp, Start(1), ops);
               && r.heaps == [Null] && multiset(r.popped) == multiset(xs)
               && (TotalPreorder(cmp) ==> Sorted(cmp, r.popped))
  {
    var s := Start<T>(1);
    StartTotals<T>(1);
    PushAll(cmp, s, 0, xs, |xs|);
    var full := Run(cmp, s, Pushes(0, xs));
    PopAll(cmp, full, 0, |xs|);
    RunAppend(cmp, s, Pushes(0, xs), Pops(0, |xs|), |xs|);
    DrainAll(cmp, full.heaps[0]);
    assert [] + Drain(cmp, full.heaps[0]) == Drain(cmp, full.heaps[0]);
  }

  lemma {:induction false} DrainAll<T(!new)>(cmp: (T, T) -> int, t: Tree<T>)
    requires IsRoot(t) && InOrder(cmp, t)
    ensures multiset(Drain(cmp, t)) == Elems(t) && (TotalPreorder(cmp) ==> Sorted(cmp, Drain(cmp, t)))
  {
    DrainPermutes(cmp, t);
    if TotalPreorder(cmp) {
      DrainSorts(cmp, t);
    }
  }
}
