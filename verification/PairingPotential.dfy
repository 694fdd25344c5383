/** The potential of a pairing heap and its change in each operation: the amortised
    analysis of Fredman, Sedgewick, Sleator and Tarjan, in integers.

    Potential is the product of the subtree sizes, so its logarithm is the usual sum of
    logarithms, and 2^(comparisons) * Potential is the exponential of amortised cost. */
module PairingPotential {
  import opened PairingTree
  import opened Products

  function Potential<T>(t: Tree<T>): nat
  {
    match t
    case Null => 1
    case Node(_, c, s) => Size(t) * (Potential(c) * Potential(s))
  }

  lemma {:induction false} PotentialPositive<T>(t: Tree<T>)
    ensures Potential(t) >= 1
  {
    if t.Node? {
      PotentialPositive(t.child);
      PotentialPositive(t.sibling);
      PositiveProduct(Potential(t.child), Potential(t.sibling));
      PositiveProduct(Size(t), Potential(t.child) * Potential(t.sibling));
    }
  }

  lemma {:induction false} RootPotential<T>(t: Tree<T>)
    requires t.Node? && IsRoot(t)
    ensures Potential(t) == Size(t) * Potential(t.child)
  {
    assert Potential(t.sibling) == 1;
  }

  /** Linking `b` under `a`, s = u + 1 nodes in all: the loser keeps its child list and
      heads the winner's. */
  lemma {:induction false} LinkPotential<T>(a: Tree<T>, b: Tree<T>, s: nat, u: nat)
    requires IsRoot(a) && IsRoot(b) && a.Node? && b.Node?
    requires s == u + 1 == Size(a) + Size(b)
    ensures Potential(a.(child := b.(sibling := a.child))) == s * (u * (Potential(b.child) * Potential(a.child)))
  {
    ChildPotential(a, b, u);
    RootPotential(a.(child := b.(sibling := a.child)));
  }

  lemma {:induction false} ChildPotential<T>(a: Tree<T>, b: Tree<T>, u: nat)
    requires IsRoot(a) && IsRoot(b) && a.Node? && b.Node?
    requires u + 1 == Size(a) + Size(b)
    ensures var c := b.(sibling := a.child);
            Size(c) == u && Potential(c) == u * (Potential(b.child) * Potential(a.child))
  {
    var c := b.(sibling := a.child);
    assert Size(c) == u;
  }

  /** Whichever root wins, the new potential depends on the two child lists in the same way. */
  lemma {:induction false} MergedPotential<T>(cmp: (T, T) -> int, a: Tree<T>, b: Tree<T>, s: nat, u: nat)
    requires IsRoot(a) && IsRoot(b) && a.Node? && b.Node?
    requires s == u + 1 == Size(a) + Size(b)
    ensures Potential(MergedNodes(cmp, a, b)) == s * (u * (Potential(b.child) * Potential(a.child)))
  {
    if cmp(a.data, b.data) <= 0 {
      LinkPotential(a, b, s, u);
    } else {
      LinkPotential(b, a, s, u);
      Commute(Potential(b.child), Potential(a.child));
    }
  }

  /** Merging two non-empty heaps of m and n nodes changes the potential by exactly
      (m + n)(m + n - 1) / (m n), whichever root wins. */
  lemma {:induction false} MergeNodesPotential<T>(cmp: (T, T) -> int, a: Tree<T>, b: Tree<T>, s: nat, u: nat)
    requires IsRoot(a) && IsRoot(b) && a.Node? && b.Node?
    requires s == u + 1 == Size(a) + Size(b)
    ensures Potential(MergedNodes(cmp, a, b)) * (Size(a) * Size(b)) == s * u * (Potential(a) * Potential(b))
  {
    MergedPotential(cmp, a, b, s, u);
    RootPotential(a);
    RootPotential(b);
    Regroup(s, u, Size(a), Size(b), Potential(a.child), Potential(b.child));
  }

  // ---------- merge_pairs ----------

  /** The potential of a list, seen from its first two trees. */
  lemma {:induction false} ListPotential<T>(list: Tree<T>)
    requires list.Node? && list.sibling.Node?
    ensures var x := Potential(list.sibling.child) * Potential(list.child);
            Potential(list) == Size(list) * (x * (Size(list.sibling) * Potential(list.sibling.sibling)))
  {
    var second := list.sibling;
    ListRegroup(Potential(list.child), Potential(second.child), Size(second), Potential(second.sibling));
  }

  lemma {:induction false} ListRegroup(a: nat, b: nat, q: nat, l: nat)
    ensures a * (q * (b * l)) == (b * a) * (q * l)
  {
    assert q * (b * l) == b * (q * l);
  }

  lemma {:induction false} TwoTrees<T>(cmp: (T, T) -> int, list: Tree<T>, s: nat, u: nat, k: nat)
    requires list.Node? && list.sibling.Node? && list.sibling.sibling.Null?
    requires s == u + 1 == Size(list) && k == 4
    ensures Potential(MergedPairs(cmp, list)) * k <= 4 * (s * s * s) * Potential(list)
  {
    var a, b := list.(sibling := Null), list.sibling.(sibling := Null);
    MergedPotential(cmp, a, b, s, u);
    assert MergedPairs(cmp, list) == MergedNodes(cmp, a, b);
    ListPotential(list);
    TwoTreesBound(s, u, Size(list.sibling), Potential(b.child) * Potential(a.child), Potential(list.sibling.sibling),
                  Potential(MergedPairs(cmp, list)), Potential(list), k);
  }

  /** The last merge of merge_pairs: the first pair (m nodes) with the merged rest (r nodes). */
  lemma {:induction false} LastMerge<T>(cmp: (T, T) -> int, list: Tree<T>, pair: Tree<T>, merged: Tree<T>,
                                        s: nat, w: nat, m: nat, r: nat)
    requires list.Node? && list.sibling.Node? && list.sibling.sibling.Node?
    requires pair == MergedNodes(cmp, list.(sibling := Null), list.sibling.(sibling := Null))
    requires merged == MergedPairs(cmp, list.sibling.sibling)
    requires m == Size(list.child) + Size(list.sibling.child) + 2 && r == Size(list.sibling.sibling)
    requires s == w + 1 == m + r
    ensures Potential(MergedPairs(cmp, list)) * (m * r) == s * w * (Potential(pair) * Potential(merged))
  {
    assert IsRoot(pair) && Size(pair) == m && IsRoot(merged) && Size(merged) == r by {
      MergePairsShape(cmp, list.sibling.sibling);
      MergeNodesShape(cmp, list.(sibling := Null), list.sibling.(sibling := Null));
    }
    MergeNodesPotential(cmp, pair, merged, s, w);
  }

  lemma {:induction false} ManyTrees<T>(cmp: (T, T) -> int, list: Tree<T>, s: nat, r: nat, m: nat, k: nat, k4: nat)
    requires list.Node? && list.sibling.Node? && list.sibling.sibling.Node?
    requires s == Size(list) && r == Size(list.sibling.sibling) && k4 == 4 * k
    requires m == Size(list.child) + Size(list.sibling.child) + 2
    requires Potential(MergedPairs(cmp, list.sibling.sibling)) * k <= 4 * (r * r * r) * Potential(list.sibling.sibling)
    ensures Potential(MergedPairs(cmp, list)) * k4 <= 4 * (s * s * s) * Potential(list)
  {
    var a, b, rest := list.(sibling := Null), list.sibling.(sibling := Null), list.sibling.sibling;
    LastMerge(cmp, list, MergedNodes(cmp, a, b), MergedPairs(cmp, rest), s, s - 1, m, r);
    MergedPotential(cmp, a, b, m, m - 1);
    ListPotential(list);
    PairStep(s, s - 1, m - 1, m, r, Size(list.sibling), Potential(b.child) * Potential(a.child), Potential(rest),
             Potential(MergedNodes(cmp, a, b)), Potential(MergedPairs(cmp, rest)),
             Potential(MergedPairs(cmp, list)), Potential(list), k, k4);
  }

  /** The two-pass merge of a list of k trees and s nodes raises potential by at most
      4 s^3 / 2^k. */
  lemma {:induction false} MergePairsPotential<T>(cmp: (T, T) -> int, list: Tree<T>, s: nat)
    requires list.Node? && s == Size(list)
    ensures Potential(MergedPairs(cmp, list)) * Pow(2, Trees(list)) <= 4 * (s * s * s) * Potential(list)
  {
    var k := Pow(2, Trees(list));
    if list.sibling.Null? {
      assert Trees(list) == 1 && Pow(2, 1) == 2 * Pow(2, 0);
      SingleTree(s, Potential(list), k);
    } else {
      var rest := list.sibling.sibling;
      assert Trees(list) == Trees(rest) + 2;
      PowFour(Trees(rest));
      if rest.Null? {
        assert Trees(rest) == 0 && Pow(2, 0) == 1;
        TwoTrees(cmp, list, s, s - 1, k);
      } else {
        MergePairsPotential(cmp, rest, Size(rest));
        ManyTrees(cmp, list, s, Size(rest), Size(list.child) + Size(list.sibling.child) + 2, Pow(2, Trees(rest)), k);
      }
    }
  }

  // ---------- amortised cost of the operations ----------

  /** heap_push and heap_merge: 2^comparisons times the new potential is at most 2N times
      the old one, N bounding the number of nodes afterwards. */
  lemma {:induction false} MergeAmortised<T>(cmp: (T, T) -> int, a: Tree<T>, b: Tree<T>, n: nat)
    requires IsRoot(a) && IsRoot(b) && n >= 1 && n >= Size(a) + Size(b)
    ensures Pow(2, MergeNodesCost(a, b)) * Potential(MergedNodes(cmp, a, b)) <= 2 * n * (Potential(a) * Potential(b))
  {
    if a.Null? || b.Null? {
      assert Potential(a) * Potential(b) == Potential(MergedNodes(cmp, a, b));
      MulMono(1, 2 * n, Potential(MergedNodes(cmp, a, b)), Potential(a) * Potential(b));
      assert Pow(2, 0) == 1;
    } else {
      MergeNodesPotential(cmp, a, b, Size(a) + Size(b), Size(a) + Size(b) - 1);
      MergeBound(Size(a), Size(b), Size(a) + Size(b), Size(a) + Size(b) - 1, n, Potential(MergedNodes(cmp, a, b)),
                 Potential(a) * Potential(b));
      assert Pow(2, 1) == 2 * Pow(2, 0);
    }
  }

  /** heap_pop: 2^comparisons times the new potential is at most 2N^2 times the old one. */
  lemma {:induction false} PopAmortised<T>(cmp: (T, T) -> int, t: Tree<T>, n: nat)
    requires IsRoot(t) && t.Node? && n >= Size(t)
    ensures Pow(2, MergePairsCost(cmp, t.child)) * Potential(MergedPairs(cmp, t.child)) <= 2 * (n * n) * Potential(t)
  {
    RootPotential(t);
    PotentialPositive(t);
    if t.child.Null? {
      MulMono(1, n, 1, n);
      MulMono(1, 2 * (n * n), 1, Potential(t));
      assert Pow(2, 0) == 1;
    } else {
      MergePairsPotential(cmp, t.child, Size(t.child));
      MergePairsShape(cmp, t.child);
      PopBound(Size(t.child), n, Potential(MergedPairs(cmp, t.child)), Potential(t.child), Pow(2, Trees(t.child) - 1));
    }
  }
}
