/** Pruning (`_prune_node`, `prune_tree`): every branch none of whose nodes
    has a non-zero quantity is removed; the root is always kept. Pruning is a
    filter on children only: no other field of any node changes. */
module Prune {
  import opened Tree

  /** The reference notion of a branch worth keeping: the node's own quantity
      is non-zero, or some child's branch is worth keeping. */
  predicate HasSignal(n: Node)
    decreases n
  {
    n.quantity != 0.0 || exists i :: 0 <= i < |n.children| && HasSignal(n.children[i])
  }

  /** `_prune_node`: whether the node is kept (`tiene_cantidad`), and the
      node with its children pruned. */
  function PruneNode(n: Node): (r: (bool, Node))
    decreases n
    ensures r.0 <==> HasSignal(n)
    ensures Label(r.1) == Label(n)
  {
    var kids := PruneList(n.children);
    (n.quantity != 0.0 || |kids| > 0, n.(children := kids))
  }

  /** The loop over `hijos`: each child pruned, the kept ones in order. */
  function PruneList(ns: seq<Node>): (r: seq<Node>)
    decreases ns
    ensures |r| <= |ns|
    ensures |r| > 0 <==> exists i :: 0 <= i < |ns| && HasSignal(ns[i])
  {
    if ns == [] then []
    else
      var first := PruneNode(ns[0]);
      var rest := PruneList(ns[1..]);
      assert forall i :: 1 <= i < |ns| ==> ns[i] == ns[1..][i - 1];
      if first.0 then [first.1] + rest else rest
  }

  /** `prune_tree`: the root's children pruned, the root itself kept. */
  function PruneTree(root: Node): (r: Node)
    ensures Label(r) == Label(root)
    ensures |r.children| <= |root.children|
  {
    root.(children := PruneList(root.children))
  }

  /** The children whose branches are worth keeping, in order. */
  function Survivors(ns: seq<Node>): seq<Node>
    decreases ns
  {
    if ns == [] then []
    else (if HasSignal(ns[0]) then [ns[0]] else []) + Survivors(ns[1..])
  }

  /** A pruned tree: every node below the top has signal. */
  predicate Pruned(n: Node)
    decreases n
  {
    forall i :: 0 <= i < |n.children| ==> HasSignal(n.children[i]) && Pruned(n.children[i])
  }

  predicate AllPruned(ns: seq<Node>) {
    forall k :: 0 <= k < |ns| ==> HasSignal(ns[k]) && Pruned(ns[k])
  }

  /** The kept children are exactly the children with signal, in their order
      and with their fields unchanged. */
  lemma {:induction false} PruneListSurvivors(ns: seq<Node>)
    ensures Labels(PruneList(ns)) == Labels(Survivors(ns))
    decreases ns
  {
    if ns != [] {
      PruneListSurvivors(ns[1..]);
      var first := PruneNode(ns[0]);
      var rest := PruneList(ns[1..]);
      var tail := Survivors(ns[1..]);
      if first.0 {
        assert Labels([first.1] + rest) == [Label(first.1)] + Labels(rest);
        assert Labels([ns[0]] + tail) == [Label(ns[0])] + Labels(tail);
      } else {
        assert [] + tail == tail;
      }
    }
  }

  /** After pruning, every node below the top has signal. */
  lemma {:induction false} PruneNodePruned(n: Node)
    ensures Pruned(PruneNode(n).1)
    ensures PruneNode(n).0 ==> HasSignal(PruneNode(n).1)
    decreases n
  {
    PruneListPruned(n.children);
    var kids := PruneList(n.children);
    var p := PruneNode(n).1;
    assert p.children == kids;
    if PruneNode(n).0 && n.quantity == 0.0 {
      assert HasSignal(kids[0]);
    }
  }

  lemma {:induction false} PruneListPruned(ns: seq<Node>)
    ensures AllPruned(PruneList(ns))
    decreases ns
  {
    if ns != [] {
      PruneNodePruned(ns[0]);
      PruneListPruned(ns[1..]);
      var first := PruneNode(ns[0]);
      var rest := PruneList(ns[1..]);
      if first.0 {
        var r := [first.1] + rest;
        forall k | 0 <= k < |r| ensures HasSignal(r[k]) && Pruned(r[k]) {
          if k > 0 {
            assert r[k] == rest[k - 1];
          }
        }
      }
    }
  }

  /** Pruning a pruned tree changes nothing. */
  lemma {:induction false} PruneNodeFixed(n: Node)
    requires Pruned(n)
    ensures PruneNode(n).1 == n
    decreases n
  {
    PruneListFixed(n.children);
  }

  lemma {:induction false} PruneListFixed(ns: seq<Node>)
    requires AllPruned(ns)
    ensures PruneList(ns) == ns
    decreases ns
  {
    if ns != [] {
      PruneNodeFixed(ns[0]);
      assert AllPruned(ns[1..]) by {
        forall k | 0 <= k < |ns[1..]| ensures HasSignal(ns[1..][k]) && Pruned(ns[1..][k]) {
          assert ns[1..][k] == ns[k + 1];
        }
      }
      PruneListFixed(ns[1..]);
      assert PruneNode(ns[0]).0;
      assert [ns[0]] + ns[1..] == ns;
    }
  }

  /** `prune_tree` is idempotent. */
  lemma PruneTreeIdempotent(root: Node)
    ensures PruneTree(PruneTree(root)) == PruneTree(root)
  {
    PruneListPruned(root.children);
    PruneListFixed(PruneList(root.children));
  }

  /** Pruning only removes nodes: the codes of the pruned tree are a
      subsequence of the original ones. */
  lemma {:induction false} PruneNodeCodes(n: Node)
    ensures Subseq(CodesOf(PruneNode(n).1), CodesOf(n))
    decreases n
  {
    PruneListCodes(n.children);
    var p := PruneNode(n).1;
    assert CodesOf(p) == [n.code] + CodesOfList(p.children);
    assert CodesOf(n) == [n.code] + CodesOfList(n.children);
    SubseqRefl([n.code]);
    SubseqConcat([n.code], [n.code], CodesOfList(p.children), CodesOfList(n.children));
  }

  lemma {:induction false} PruneListCodes(ns: seq<Node>)
    ensures Subseq(CodesOfList(PruneList(ns)), CodesOfList(ns))
    decreases ns
  {
    if ns == [] {
      assert Subseq<string>([], []);
    } else {
      PruneNodeCodes(ns[0]);
      PruneListCodes(ns[1..]);
      var first := PruneNode(ns[0]);
      var rest := PruneList(ns[1..]);
      assert CodesOfList(ns) == CodesOf(ns[0]) + CodesOfList(ns[1..]);
      if first.0 {
        var r := [first.1] + rest;
        assert r[0] == first.1 && r[1..] == rest;
        assert CodesOfList(r) == CodesOf(first.1) + CodesOfList(rest);
        SubseqConcat(CodesOf(first.1), CodesOf(ns[0]), CodesOfList(rest), CodesOfList(ns[1..]));
      } else {
        SubseqPrepend(CodesOfList(rest), CodesOf(ns[0]), CodesOfList(ns[1..]));
      }
    }
  }

  /** A code that appears once in the tree still appears at most once after
      pruning. */
  lemma PruneTreeNoDup(root: Node)
    requires NoDup(CodesOf(root))
    ensures NoDup(CodesOf(PruneTree(root)))
  {
    var r := PruneTree(root);
    PruneListCodes(root.children);
    assert CodesOf(r) == [root.code] + CodesOfList(r.children);
    assert CodesOf(root) == [root.code] + CodesOfList(root.children);
    SubseqRefl([root.code]);
    SubseqConcat([root.code], [root.code], CodesOfList(r.children), CodesOfList(root.children));
    SubseqNoDup(CodesOf(r), CodesOf(root));
  }

  /** Pruning keeps the shape of a built tree. */
  lemma {:induction false} PruneNodeShaped(n: Node, depth: nat)
    requires Shaped(n, depth)
    ensures Shaped(PruneNode(n).1, depth)
    decreases n
  {
    assert AllShaped(n.children, depth + 1);
    PruneListShaped(n.children, depth + 1);
    var p := PruneNode(n).1;
    assert p.children == PruneList(n.children);
  }

  lemma {:induction false} PruneListShaped(ns: seq<Node>, depth: nat)
    requires AllShaped(ns, depth)
    ensures AllShaped(PruneList(ns), depth)
    decreases ns
  {
    if ns != [] {
      PruneNodeShaped(ns[0], depth);
      assert AllShaped(ns[1..], depth) by {
        forall k | 0 <= k < |ns[1..]| ensures Shaped(ns[1..][k], depth) {
          assert ns[1..][k] == ns[k + 1];
        }
      }
      PruneListShaped(ns[1..], depth);
      var first := PruneNode(ns[0]);
      var rest := PruneList(ns[1..]);
      if first.0 {
        var r := [first.1] + rest;
        forall k | 0 <= k < |r| ensures Shaped(r[k], depth) {
          if k > 0 {
            assert r[k] == rest[k - 1];
          }
        }
      }
    }
  }

  lemma PruneTreeShaped(root: Node)
    requires Shaped(root, 0)
    ensures Shaped(PruneTree(root), 0)
  {
    assert AllShaped(root.children, 1);
    PruneListShaped(root.children, 1);
  }

  /** Below the root of a built tree, a node has signal exactly when it is
      not a line item or its own quantity is non-zero: chapters and
      subchapters carry quantity 1 and always survive, and the only nodes
      pruned are line items with quantity 0. */
  lemma ShapedSignal(n: Node, depth: nat)
    requires Shaped(n, depth) && depth >= 1
    ensures HasSignal(n) <==> n.nature != LineItem || n.quantity != 0.0
  {
  }

  /** In particular no child of the root of a built tree is ever pruned: a
      node at depth 1 has quantity 1 whether or not it has children. */
  lemma PruneTreeKeepsFirstLevel(root: Node)
    requires Shaped(root, 0)
    ensures Labels(PruneTree(root).children) == Labels(root.children)
  {
    PruneListSurvivors(root.children);
    KeepAll(root.children);
  }

  lemma {:induction false} KeepAll(ns: seq<Node>)
    requires AllShaped(ns, 1)
    ensures Survivors(ns) == ns
    decreases ns
  {
    if ns != [] {
      assert Shaped(ns[0], 1);
      assert AllShaped(ns[1..], 1) by {
        forall k | 0 <= k < |ns[1..]| ensures Shaped(ns[1..][k], 1) {
          assert ns[1..][k] == ns[k + 1];
        }
      }
      KeepAll(ns[1..]);
      assert [ns[0]] + ns[1..] == ns;
    }
  }
}
