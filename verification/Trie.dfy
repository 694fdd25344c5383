/** src/trie.c: a trie of nodes with 255 child pointers, against a finite set of words. */
module Trie {
  import opened Prelude

  const NUM_CHILDREN: nat := 255

  type Word = seq<byte>

  /** The C string that starts at key: everything before the first NUL. */
  function StringAt(key: Bytes): (w: Word)
    ensures |w| <= |key| && w == key[..|w|]
    ensures 0 !in w && (0 in key ==> |w| < |key| && key[|w|] == 0)
  {
    if key == [] || key[0] == 0 then [] else [key[0]] + StringAt(key[1..])
  }

  lemma {:induction false} TakeNext(key: Bytes, k: nat)
    requires k <= |StringAt(key)| && k < |key| && key[k] != 0 && 0 in key
    ensures k < |StringAt(key)| && StringAt(key)[k] == key[k]
    ensures StringAt(key)[..k + 1] == StringAt(key)[..k] + [key[k]]
  {
  }

  class TrieNode {
    var eow: bool
    const children: array<TrieNode?>

    /** trie_node_new */
    constructor ()
      ensures !eow && fresh(children) && children.Length == NUM_CHILDREN
      ensures forall i :: 0 <= i < NUM_CHILDREN ==> children[i] == null
    {
      eow := false;
      children := new TrieNode?[NUM_CHILDREN](_ => null);
    }
  }

  /** repr holds the nodes that a path map names, and their child arrays. */
  ghost predicate Covered(nodes: map<Word, TrieNode>, repr: set<object>)
  {
    forall p :: p in nodes ==> nodes[p] in repr && nodes[p].children in repr
  }

  /** The earlier nodes at their paths, and new ones only on the way to w. */
  ghost predicate Extends(before: map<Word, TrieNode>, nodes: map<Word, TrieNode>, w: Word)
  {
    && (forall p :: p in before ==> p in nodes && nodes[p] == before[p])
    && (forall p :: p in nodes <==> p in before || p <= w)
  }

  lemma {:induction false} ExtendsNext(before: map<Word, TrieNode>, nodes: map<Word, TrieNode>, p: Word, c: byte,
                                       child: TrieNode)
    requires Extends(before, nodes, p) && (p + [c] in nodes ==> nodes[p + [c]] == child)
    ensures Extends(before, nodes[p + [c] := child], p + [c])
  {
    forall q ensures q in nodes[p + [c] := child] <==> q in before || q <= p + [c] {
      NextPrefix(q, p, c);
    }
  }

  lemma {:induction false} NextPrefix(q: Word, p: Word, c: byte)
    ensures q <= p + [c] <==> q <= p || q == p + [c]
  {
    if q <= p + [c] && |q| <= |p| {
      assert q == (p + [c])[..|q|] == p[..|q|];
    }
  }

  /** Different paths lead to different nodes, with different child arrays, and a path is made
      of indices into these arrays. */
  ghost predicate Unshared(nodes: map<Word, TrieNode>)
  {
    && (forall p :: p in nodes ==> nodes[p].children.Length == NUM_CHILDREN)
    && (forall p, i :: p in nodes && 0 <= i < |p| ==> p[i] < NUM_CHILDREN)
    && (forall p, q :: p in nodes && q in nodes && p != q ==>
          nodes[p] != nodes[q] && nodes[p].children != nodes[q].children)
  }

  /** Child c of the node at p is the node at p + [c], if there is one, and NULL otherwise. */
  ghost predicate Linked(nodes: map<Word, TrieNode>, p: Word)
    requires p in nodes && nodes[p].children.Length == NUM_CHILDREN
    reads nodes[p].children
  {
    forall c: byte :: c < NUM_CHILDREN ==>
      nodes[p].children[c] == if p + [c] in nodes then nodes[p + [c]] else null
  }

  ghost predicate PrefixClosed(nodes: map<Word, TrieNode>)
  {
    forall p, i :: p in nodes && 0 <= i <= |p| ==> p[..i] in nodes
  }

  /** The node graph is a tree: every node is reached by one path, prefixes of paths are paths,
      and the child pointers are the steps between them. */
  ghost predicate IsTree(nodes: map<Word, TrieNode>, root: TrieNode, repr: set<object>)
    reads repr
  {
    && [] in nodes && nodes[[]] == root && Covered(nodes, repr) && Unshared(nodes) && PrefixClosed(nodes)
    && (forall p :: p in nodes ==> Linked(nodes, p))
  }

  /** Adding a new node at the end of a path keeps paths closed under prefixes, and unshared. */
  lemma {:induction false} Grown(nodes: map<Word, TrieNode>, p: Word, c: byte, added: TrieNode, repr: set<object>)
    requires p in nodes && PrefixClosed(nodes) && Unshared(nodes) && Covered(nodes, repr)
    requires c < NUM_CHILDREN && added.children.Length == NUM_CHILDREN
    requires added !in repr && added.children !in repr
    ensures PrefixClosed(nodes[p + [c] := added]) && Unshared(nodes[p + [c] := added])
    ensures Covered(nodes[p + [c] := added], repr + {added, added.children})
  {
    forall i | 0 <= i <= |p| ensures (p + [c])[..i] in nodes {
      assert (p + [c])[..i] == p[..i];
    }
    assert (p + [c])[..|p| + 1] == p + [c];
  }

  /** Which paths are new after one has been added. */
  lemma {:induction false} LinkedPaths(nodes: map<Word, TrieNode>, q: Word, p: Word, index: byte)
    requires PrefixClosed(nodes)
    ensures forall c: byte :: q + [c] == p + [index] <==> q == p && c == index
    ensures q == p + [index] && q !in nodes ==> forall c: byte :: q + [c] !in nodes
  {
    forall c: byte | q + [c] == p + [index] ensures q == p && c == index {
      assert q == (q + [c])[..|q|] && p == (p + [index])[..|p|];
      assert c == (q + [c])[|q|] && index == (p + [index])[|p|];
    }
    forall c: byte | q + [c] in nodes ensures q in nodes {
      assert (q + [c])[..|q|] == q;
    }
  }

  /** A new node without children becomes child `index` of the node at p. */
  method SetChild(ghost nodes: map<Word, TrieNode>, node: TrieNode, index: byte, added: TrieNode, ghost p: Word)
    requires p in nodes && node == nodes[p] && index < NUM_CHILDREN && p + [index] !in nodes
    requires PrefixClosed(nodes) && Unshared(nodes) && forall q :: q in nodes ==> Linked(nodes, q)
    requires added.children.Length == NUM_CHILDREN && forall q :: q in nodes ==> nodes[q].children != added.children
    requires forall c: byte :: c < NUM_CHILDREN ==> added.children[c] == null
    modifies node.children
    ensures var nodes' := nodes[p + [index] := added];
            forall q :: q in nodes' ==> nodes'[q].children.Length == NUM_CHILDREN && Linked(nodes', q)
  {
    node.children[index] := added;
    ghost var nodes' := nodes[p + [index] := added];
    forall q | q in nodes' ensures Linked(nodes', q) {
      LinkedPaths(nodes, q, p, index);
      assert q != p + [index] ==> old(Linked(nodes, q));
    }
  }

  class Trie {
    const root: TrieNode
    ghost var nodes: map<Word, TrieNode>
    ghost var Repr: set<object>

    ghost predicate Valid()
      reads this, Repr
    {
      this !in Repr && IsTree(nodes, root, Repr)
    }

    /** The words of the trie: the paths to nodes with `eow` set. */
    ghost function Words(): set<Word>
      requires Valid()
      reads this, Repr
    {
      set w | w in nodes && nodes[w].eow
    }

    /** trie_new */
    constructor ()
      ensures Valid() && Words() == {} && fresh(Repr)
    {
      var node := new TrieNode();
      root := node;
      nodes := map[[] := node];
      Repr := {node, node.children};
    }

    /** Makes the child that trie_insert finds missing. */
    method AddChild(node: TrieNode, index: byte, ghost p: Word)
      requires Valid() && p in nodes && node == nodes[p] && index < NUM_CHILDREN && p + [index] !in nodes
      modifies this`nodes, this`Repr, node.children
      ensures Valid() && Words() == old(Words()) && fresh(Repr - old(Repr))
      ensures p + [index] in nodes && nodes == old(nodes)[p + [index] := nodes[p + [index]]]
    {
      ghost var path := p + [index];
      var added := new TrieNode();
      Grown(nodes, p, index, added, Repr);
      SetChild(nodes, node, index, added, p);
      Adopt(path, added);
    }

    /** Notes a node that has been linked at a new path. */
    ghost method Adopt(path: Word, added: TrieNode)
      requires path !in nodes && !added.eow && this !in Repr && added.children.Length == NUM_CHILDREN
      requires IsTree(nodes[path := added], root, Repr + {added, added.children})
      modifies this`nodes, this`Repr
      ensures Valid() && Words() == set w | w in old(nodes) && old(nodes)[w].eow
      ensures nodes == old(nodes)[path := added] && Repr == old(Repr) + {added, added.children}
    {
      nodes := nodes[path := added];
      Repr := Repr + {added, added.children};
    }

    /** The child with that index, made if it is missing. */
    method Child(node: TrieNode, index: byte, ghost p: Word) returns (child: TrieNode)
      requires Valid() && p in nodes && node == nodes[p] && index < NUM_CHILDREN
      modifies this`nodes, this`Repr, node.children
      ensures Valid() && Words() == old(Words()) && fresh(Repr - old(Repr))
      ensures p + [index] in old(nodes) ==> old(nodes)[p + [index]] == child
      ensures nodes == old(nodes)[p + [index] := child]
    {
      assert Linked(nodes, p);
      if node.children[index] == null {
        AddChild(node, index, p);
      }
      assert Linked(nodes, p);
      child := node.children[index];
    }

    /** The body of trie_insert's loop. */
    method Advance(node: TrieNode, index: byte, ghost before: map<Word, TrieNode>, ghost p: Word)
      returns (child: TrieNode)
      requires Valid() && index < NUM_CHILDREN && Extends(before, nodes, p) && node == nodes[p]
      modifies this`nodes, this`Repr, node.children
      ensures Valid() && Words() == old(Words()) && fresh(Repr - old(Repr))
      ensures Extends(before, nodes, p + [index]) && child == nodes[p + [index]]
    {
      ghost var was := nodes;
      child := Child(node, index, p);
      ExtendsNext(before, was, p, index, child);
    }

    /** The loop of trie_insert: the node at the end of the word, made if it is missing. */
    method Reach(key: Bytes, ghost word: Word) returns (node: TrieNode)
      requires Valid() && |word| < |key| && word <= key && key[|word|] == 0
      requires forall i :: 0 <= i < |word| ==> 0 < word[i] < NUM_CHILDREN
      modifies this`nodes, this`Repr, Repr
      ensures Valid() && Words() == old(Words()) && fresh(Repr - old(Repr))
      ensures Extends(old(nodes), nodes, word) && node == nodes[word]
    {
      node := root;
      var k := 0;
      while key[k] != 0
        invariant 0 <= k <= |word|
        invariant Extends(old(nodes), nodes, word[..k]) && node == nodes[word[..k]]
        invariant Valid() && Words() == old(Words())
        invariant fresh(Repr - old(Repr))
        decreases |word| - k
      {
        assert word[..k + 1] == word[..k] + [key[k]];
        node := Advance(node, key[k], old(nodes), word[..k]);
        k := k + 1;
      }
      assert word[..k] == word;
    }

    /** The last assignment of trie_insert. */
    method Mark(node: TrieNode, ghost word: Word)
      requires Valid() && word in nodes && node == nodes[word]
      modifies node`eow
      ensures Valid() && Words() == old(Words()) + {word}
    {
      ghost var before := Words();
      node.eow := true;
      assert forall w :: w in nodes ==> (nodes[w].eow <==> w in before || w == word);
    }

    /** trie_insert */
    method Insert(key: Bytes)
      requires Valid() && 0 in key
      requires forall i :: 0 <= i < |StringAt(key)| ==> StringAt(key)[i] <= 254
      modifies this, Repr
      ensures Valid() && fresh(Repr - old(Repr))
      ensures Words() == old(Words()) + {StringAt(key)}
      ensures Extends(old(nodes), nodes, StringAt(key))
    {
      var node := Reach(key, StringAt(key));
      Mark(node, StringAt(key));
    }

    /** trie_search; a byte is used as an index only when the node before it exists. */
    method Search(key: Bytes) returns (found: bool)
      requires Valid() && 0 in key
      requires forall i :: 0 <= i < |StringAt(key)| && StringAt(key)[..i] in nodes ==> StringAt(key)[i] <= 254
      ensures found <==> StringAt(key) in Words()
    {
      var node := root;
      var k := 0;
      ghost var word := StringAt(key);
      while key[k] != 0
        invariant 0 <= k <= |word| && word[..k] in nodes && node == nodes[word[..k]]
        decreases |word| - k
      {
        var index := key[k];
        TakeNext(key, k);
        assert Linked(nodes, word[..k]);
        if node.children[index] == null {
          return false;
        }
        node := node.children[index];
        k := k + 1;
      }
      assert word[..k] == word;
      return node.eow;
    }

    /** trie_destroy: frees every node of the trie, and nothing else; the root goes with the
        trie_t that contains it. */
    method Destroy(ghost m: Memory) returns (ghost after: Memory)
      requires Valid() && Below(nodes, nodes.Keys) <= m.live
      modifies Repr
      ensures after.live == m.live - Below(nodes, nodes.Keys)
      ensures after.freed == m.freed + PostOrder(nodes, [])
    {
      assert Through(nodes, []) == nodes.Keys;
      after := DestroyChildren(root, m, nodes, []);
      after := Release(after, root);
    }
  }

  // ---------- teardown ----------

  /** The paths that go through p, and the nodes they lead to. */
  ghost function Through(nodes: map<Word, TrieNode>, p: Word): set<Word>
  {
    set q | q in nodes && p <= q
  }

  ghost function Below(nodes: map<Word, TrieNode>, paths: set<Word>): set<TrieNode>
    requires paths <= nodes.Keys
  {
    set q | q in paths :: nodes[q]
  }

  /** Those among them that continue with a child numbered below i. */
  ghost function Before(nodes: map<Word, TrieNode>, p: Word, i: nat): set<Word>
  {
    set q | q in nodes && p < q && q[|p|] < i
  }

  lemma {:induction false} NextChild(nodes: map<Word, TrieNode>, p: Word, i: byte)
    requires PrefixClosed(nodes)
    ensures Before(nodes, p, i + 1) == Before(nodes, p, i) + Through(nodes, p + [i])
    ensures p + [i] !in nodes ==> Through(nodes, p + [i]) == {}
  {
    forall q | q in nodes && p < q && q[|p|] == i ensures p + [i] <= q && p + [i] in nodes {
      assert q[..|p| + 1] == p + [i];
    }
    forall q | q in Through(nodes, p + [i]) ensures p + [i] in nodes {
      assert q[..|p| + 1] == p + [i];
    }
  }

  lemma {:induction false} AllBefore(nodes: map<Word, TrieNode>, p: Word)
    requires Unshared(nodes)
    ensures Before(nodes, p, NUM_CHILDREN) == Through(nodes, p) - {p}
  {
    forall q | q in nodes && p <= q && q != p ensures q[|p|] < NUM_CHILDREN && p < q {
      assert |p| < |q|;
    }
  }

  lemma {:induction false} ThroughChild(nodes: map<Word, TrieNode>, p: Word, c: byte)
    requires p in nodes
    ensures Through(nodes, p + [c]) < Through(nodes, p)
  {
    assert p in Through(nodes, p) && p !in Through(nodes, p + [c]);
    forall q | q in Through(nodes, p + [c]) ensures p <= q {
      assert p <= p + [c] <= q;
    }
  }

  /** The nodes of the subtree at p in the order in which trie_node_destroy frees them. */
  ghost function PostOrder(nodes: map<Word, TrieNode>, p: Word): seq<TrieNode>
    requires p in nodes
    decreases Through(nodes, p), NUM_CHILDREN + 1
  {
    PostOrderBefore(nodes, p, NUM_CHILDREN) + [nodes[p]]
  }

  ghost function PostOrderBefore(nodes: map<Word, TrieNode>, p: Word, i: nat): seq<TrieNode>
    requires p in nodes && i <= NUM_CHILDREN
    decreases Through(nodes, p), i
  {
    if i == 0 then []
    else
      ThroughChild(nodes, p, i - 1);
      PostOrderBefore(nodes, p, i - 1) + (if p + [i - 1] in nodes then PostOrder(nodes, p + [i - 1]) else [])
  }

  /** The freed nodes are those of the subtree, and as many as there are paths: each is freed once. */
  lemma {:induction false} PostOrderNodes(nodes: map<Word, TrieNode>, p: Word)
    requires Unshared(nodes) && PrefixClosed(nodes) && p in nodes
    ensures forall q :: q in Through(nodes, p) ==> nodes[q] in PostOrder(nodes, p)
    ensures |PostOrder(nodes, p)| == |Through(nodes, p)|
    decreases Through(nodes, p), NUM_CHILDREN + 1
  {
    PostOrderBeforeNodes(nodes, p, NUM_CHILDREN);
    AllBefore(nodes, p);
    assert Through(nodes, p) == Before(nodes, p, NUM_CHILDREN) + {p};
  }

  lemma {:induction false} NextPostOrder(nodes: map<Word, TrieNode>, p: Word, i: byte, c: Word)
    requires p in nodes && i < NUM_CHILDREN && c == p + [i]
    ensures PostOrderBefore(nodes, p, i + 1) ==
            PostOrderBefore(nodes, p, i) + (if c in nodes then PostOrder(nodes, c) else [])
  {
  }

  /** Going on from child i - 1 to child i, with c for the path to child i - 1. */
  lemma {:induction false} NextFreed(nodes: map<Word, TrieNode>, p: Word, i: nat, c: Word)
    requires Unshared(nodes) && PrefixClosed(nodes) && p in nodes && 0 < i <= NUM_CHILDREN && c == p + [i - 1]
    ensures Through(nodes, c) < Through(nodes, p) && (c !in nodes ==> Through(nodes, c) == {})
    ensures Before(nodes, p, i) == Before(nodes, p, i - 1) + Through(nodes, c)
    ensures |Before(nodes, p, i)| == |Before(nodes, p, i - 1)| + |Through(nodes, c)|
    ensures PostOrderBefore(nodes, p, i) ==
            PostOrderBefore(nodes, p, i - 1) + (if c in nodes then PostOrder(nodes, c) else [])
  {
    NextChild(nodes, p, i - 1);
    ThroughChild(nodes, p, i - 1);
    NextPostOrder(nodes, p, i - 1, c);
    forall q | q in Through(nodes, c) ensures q !in Before(nodes, p, i - 1) {
      assert q[|p|] == i - 1;
    }
    assert Before(nodes, p, i - 1) * Through(nodes, c) == {};
  }

  lemma {:induction false} PostOrderBeforeNodes(nodes: map<Word, TrieNode>, p: Word, i: nat)
    requires Unshared(nodes) && PrefixClosed(nodes) && p in nodes && i <= NUM_CHILDREN
    ensures forall q :: q in Before(nodes, p, i) ==> nodes[q] in PostOrderBefore(nodes, p, i)
    ensures |PostOrderBefore(nodes, p, i)| == |Before(nodes, p, i)|
    decreases Through(nodes, p), i
  {
    if i == 0 {
      assert Before(nodes, p, 0) == {};
    } else {
      var c: Word := p + [i - 1];
      NextFreed(nodes, p, i, c);
      PostOrderBeforeNodes(nodes, p, i - 1);
      if c in nodes {
        PostOrderNodes(nodes, c);
      }
    }
  }

  /** The sequence u occurs in v without a gap. */
  ghost predicate Within<N>(u: seq<N>, v: seq<N>)
  {
    exists k: nat :: WithinAt(u, v, k)
  }

  ghost predicate WithinAt<N>(u: seq<N>, v: seq<N>, k: nat)
  {
    k <= |v| - |u| && v[k..k + |u|] == u
  }

  lemma {:induction false} WithinMore<N>(u: seq<N>, v: seq<N>, w: seq<N>)
    requires Within(u, v) || Within(u, w)
    ensures Within(u, v + w)
  {
    if Within(u, v) {
      var k: nat :| WithinAt(u, v, k);
      assert (v + w)[k..k + |u|] == v[k..k + |u|];
      assert WithinAt(u, v + w, k);
    } else {
      var k: nat :| WithinAt(u, w, k);
      assert (v + w)[|v| + k..|v| + k + |u|] == w[k..k + |u|];
      assert WithinAt(u, v + w, |v| + k);
    }
  }

  /** Teardown in the right order: the nodes of the subtree at q are freed one behind the other, the node
      at q itself last, so that none is read or written later. */
  lemma {:induction false} FreedAfterBelow(nodes: map<Word, TrieNode>, p: Word, q: Word)
    requires Unshared(nodes) && PrefixClosed(nodes) && p in nodes && q in nodes && p <= q
    ensures PostOrder(nodes, q)[|PostOrder(nodes, q)| - 1] == nodes[q]
    ensures Within(PostOrder(nodes, q), PostOrder(nodes, p))
    decreases Through(nodes, p), NUM_CHILDREN + 1
  {
    var u, v := PostOrder(nodes, q), PostOrderBefore(nodes, p, NUM_CHILDREN);
    if p == q {
      assert WithinAt(u, u, 0);
    } else {
      AllBefore(nodes, p);
      assert q in Before(nodes, p, NUM_CHILDREN);
      FreedBefore(nodes, p, NUM_CHILDREN, q);
      WithinMore(u, v, [nodes[p]]);
    }
  }

  lemma {:induction false} FreedBefore(nodes: map<Word, TrieNode>, p: Word, i: nat, q: Word)
    requires Unshared(nodes) && PrefixClosed(nodes) && p in nodes && i <= NUM_CHILDREN
    requires q in nodes && q in Before(nodes, p, i)
    ensures Within(PostOrder(nodes, q), PostOrderBefore(nodes, p, i))
    decreases Through(nodes, p), i
  {
    var c: Word := p + [i - 1];
    NextChild(nodes, p, i - 1);
    ThroughChild(nodes, p, i - 1);
    if q in Before(nodes, p, i - 1) {
      FreedBefore(nodes, p, i - 1, q);
    } else {
      FreedAfterBelow(nodes, c, q);
    }
    WithinNext(PostOrder(nodes, q), nodes, p, i, c);
  }

  lemma {:induction false} WithinNext(u: seq<TrieNode>, nodes: map<Word, TrieNode>, p: Word, i: nat, c: Word)
    requires p in nodes && 0 < i <= NUM_CHILDREN && c == p + [i - 1]
    requires Within(u, PostOrderBefore(nodes, p, i - 1)) || (c in nodes && Within(u, PostOrder(nodes, c)))
    ensures Within(u, PostOrderBefore(nodes, p, i))
  {
    NextPostOrder(nodes, p, i - 1, c);
    WithinMore(u, PostOrderBefore(nodes, p, i - 1), if c in nodes then PostOrder(nodes, c) else []);
  }

  /** trie_node_destroy: frees each node of the subtree at p once, those below before it. */
  method TrieNodeDestroy(node: TrieNode, ghost m: Memory, ghost nodes: map<Word, TrieNode>, ghost p: Word)
    returns (ghost after: Memory)
    requires Unshared(nodes) && PrefixClosed(nodes) && p in nodes && node == nodes[p]
    requires forall q :: q in nodes && p <= q ==> Linked(nodes, q)
    requires Below(nodes, Through(nodes, p)) <= m.live
    modifies set q | q in nodes && p <= q :: nodes[q].children
    ensures after.live == m.live - Below(nodes, Through(nodes, p))
    ensures after.freed == m.freed + PostOrder(nodes, p)
    decreases Through(nodes, p), 2
  {
    after := DestroyChildren(node, m, nodes, p);
    after := Release(after, node);
  }

  /** The body of the loop of trie_node_destroy, and of trie_destroy for the root. */
  method DestroyChild(node: TrieNode, i: byte, ghost m: Memory, ghost nodes: map<Word, TrieNode>, ghost p: Word,
                      ghost c: Word, ghost before: seq<object>)
    returns (ghost after: Memory)
    requires Unshared(nodes) && PrefixClosed(nodes) && p in nodes && node == nodes[p]
    requires i < NUM_CHILDREN && c == p + [i]
    requires forall q :: q in nodes && c <= q ==> Linked(nodes, q)
    requires node.children[i] == if c in nodes then nodes[c] else null
    requires Below(nodes, Through(nodes, c)) <= m.live && m.freed == before + PostOrderBefore(nodes, p, i)
    modifies node.children, set q | q in nodes && c <= q :: nodes[q].children
    ensures forall k: byte :: k < NUM_CHILDREN && k != i ==> node.children[k] == old(node.children[k])
    ensures after.live == m.live - Below(nodes, Through(nodes, c))
    ensures after.freed == before + PostOrderBefore(nodes, p, i + 1)
    decreases Through(nodes, p), 0
  {
    after := m;
    NextChild(nodes, p, i);
    ThroughChild(nodes, p, i);
    NextPostOrder(nodes, p, i, c);
    if node.children[i] != null {
      after := TrieNodeDestroy(node.children[i], after, nodes, c);
      node.children[i] := null;
    }
  }

  /** The loop of trie_node_destroy, and of trie_destroy for the root. */
  method DestroyChildren(node: TrieNode, ghost m: Memory, ghost nodes: map<Word, TrieNode>, ghost p: Word)
    returns (ghost after: Memory)
    requires Unshared(nodes) && PrefixClosed(nodes) && p in nodes && node == nodes[p]
    requires forall q :: q in nodes && p <= q ==> Linked(nodes, q)
    requires Below(nodes, Through(nodes, p)) <= m.live
    modifies set q | q in nodes && p <= q :: nodes[q].children
    ensures after.live == m.live - Below(nodes, Through(nodes, p) - {p}) && node in after.live
    ensures after.freed == m.freed + PostOrderBefore(nodes, p, NUM_CHILDREN)
    decreases Through(nodes, p), 1
  {
    after := m;
    var i := 0;
    while i < NUM_CHILDREN
      invariant 0 <= i <= NUM_CHILDREN
      invariant after.live == m.live - Below(nodes, Before(nodes, p, i))
      invariant after.freed == m.freed + PostOrderBefore(nodes, p, i)
      invariant forall q :: q in nodes && p < q && q[|p|] >= i ==> Linked(nodes, q)
      invariant forall c: byte :: i <= c < NUM_CHILDREN ==>
                  node.children[c] == if p + [c] in nodes then nodes[p + [c]] else null
    {
      ghost var c: Word := p + [i];
      NextChild(nodes, p, i);
      assert node in after.live;
      after := DestroyChild(node, i, after, nodes, p, c, m.freed);
      i := i + 1;
    }
    AllBefore(nodes, p);
  }
}
