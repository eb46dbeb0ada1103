/** Renumbering (`_renumber_children`, `renumber_tree`): after pruning, the
    position codes are assigned afresh so that siblings are numbered 1, 2, …
    without gaps. Nothing but the position codes changes. */
module Renumber {
  import opened Text
  import opened Decimal
  import opened Tree

  /** `_renumber_children(node, depth)` once the node's own code has been set
      to `pos`: child `i` (from 1) gets `ChildPosition(depth, pos, i)` and is
      renumbered one level deeper. */
  function RenumberNode(n: Node, depth: nat, pos: string): (r: Node)
    decreases n
    ensures Label(r) == Label(n).(position := pos)
    ensures |r.children| == |n.children|
  {
    n.(position := pos,
       children := seq(|n.children|, i requires 0 <= i < |n.children| =>
         RenumberNode(n.children[i], depth + 1, ChildPosition(depth, pos, i + 1))))
  }

  /** `renumber_tree`: the root's code becomes "0". */
  function RenumberTree(root: Node): Node {
    RenumberNode(root, 0, "0")
  }

  /** Every node at `depth` with code `pos` numbers its `i`-th child (from 1)
      as `ChildPosition(depth, pos, i)`: the bare padded index under the root,
      the parent's code, a dot and the padded index deeper down. */
  predicate WellNumbered(n: Node, depth: nat, pos: string)
    decreases n
  {
    && n.position == pos
    && forall i :: 0 <= i < |n.children| ==>
         WellNumbered(n.children[i], depth + 1, ChildPosition(depth, pos, i + 1))
  }

  /** The tree with every position code blanked: what renumbering must leave
      alone. */
  function Erase(n: Node): Node
    decreases n
  {
    n.(position := "",
       children := seq(|n.children|, i requires 0 <= i < |n.children| => Erase(n.children[i])))
  }

  lemma {:induction false} RenumberNumbered(n: Node, depth: nat, pos: string)
    ensures WellNumbered(RenumberNode(n, depth, pos), depth, pos)
    decreases n
  {
    var r := RenumberNode(n, depth, pos);
    forall i | 0 <= i < |r.children|
      ensures WellNumbered(r.children[i], depth + 1, ChildPosition(depth, pos, i + 1))
    {
      RenumberNumbered(n.children[i], depth + 1, ChildPosition(depth, pos, i + 1));
    }
  }

  /** Renumbering changes position codes only. */
  lemma {:induction false} RenumberErase(n: Node, depth: nat, pos: string)
    ensures Erase(RenumberNode(n, depth, pos)) == Erase(n)
    decreases n
  {
    var r := RenumberNode(n, depth, pos);
    forall i | 0 <= i < |n.children|
      ensures Erase(r.children[i]) == Erase(n.children[i])
    {
      RenumberErase(n.children[i], depth + 1, ChildPosition(depth, pos, i + 1));
    }
    assert Erase(r).children == Erase(n).children;
  }

  /** A well-numbered tree is its own renumbering: the numbering is the only
      one the rule allows, and renumbering twice changes nothing. */
  lemma {:induction false} NumberedFixed(n: Node, depth: nat, pos: string)
    requires WellNumbered(n, depth, pos)
    ensures RenumberNode(n, depth, pos) == n
    decreases n
  {
    var r := RenumberNode(n, depth, pos);
    forall i | 0 <= i < |n.children|
      ensures r.children[i] == n.children[i]
    {
      NumberedFixed(n.children[i], depth + 1, ChildPosition(depth, pos, i + 1));
    }
    assert r.children == n.children;
  }

  lemma RenumberTreeIdempotent(root: Node)
    ensures RenumberTree(RenumberTree(root)) == RenumberTree(root)
  {
    RenumberNumbered(root, 0, "0");
    NumberedFixed(RenumberTree(root), 0, "0");
  }

  /** Renumbering keeps the shape of a built tree. */
  lemma {:induction false} RenumberShaped(n: Node, depth: nat, pos: string)
    requires Shaped(n, depth)
    ensures Shaped(RenumberNode(n, depth, pos), depth)
    decreases n, 1
  {
    var r := RenumberNode(n, depth, pos);
    forall i | 0 <= i < |r.children|
      ensures Shaped(r.children[i], depth + 1)
    {
      RenumberChildShaped(n, depth, pos, i);
    }
    ShapedLike(n, r, depth);
  }

  lemma {:induction false} RenumberChildShaped(n: Node, depth: nat, pos: string, i: nat)
    requires Shaped(n, depth) && i < |n.children|
    ensures Shaped(RenumberNode(n, depth, pos).children[i], depth + 1)
    decreases n, 0
  {
    RenumberChild(n, depth, pos, i);
    assert Shaped(n.children[i], depth + 1);
    RenumberShaped(n.children[i], depth + 1, ChildPosition(depth, pos, i + 1));
  }

  /** The `i`-th child of a renumbered node is the renumbered `i`-th child. */
  lemma RenumberChild(n: Node, depth: nat, pos: string, i: nat)
    requires i < |n.children|
    ensures RenumberNode(n, depth, pos).children[i]
      == RenumberNode(n.children[i], depth + 1, ChildPosition(depth, pos, i + 1))
  {
  }

  /** A node with the fields of a shaped node and as many children, each
      shaped one level down, is shaped. */
  lemma ShapedLike(n: Node, r: Node, depth: nat)
    requires Shaped(n, depth)
    requires Label(r) == Label(n).(position := r.position)
    requires |r.children| == |n.children|
    requires forall i :: 0 <= i < |r.children| ==> Shaped(r.children[i], depth + 1)
    ensures Shaped(r, depth)
  {
    assert Label(r).nature == r.nature && Label(n).nature == n.nature;
    assert Label(r).quantity == r.quantity && Label(n).quantity == n.quantity;
    assert Label(r).price == r.price && Label(n).price == n.price;
    assert Label(r).amount == r.amount && Label(n).amount == n.amount;
  }

  /** Renumbering keeps the codes and their order. */
  lemma {:induction false} RenumberCodes(n: Node, depth: nat, pos: string)
    ensures CodesOf(RenumberNode(n, depth, pos)) == CodesOf(n)
    decreases n
  {
    var r := RenumberNode(n, depth, pos);
    forall i | 0 <= i < |n.children|
      ensures CodesOf(r.children[i]) == CodesOf(n.children[i])
    {
      RenumberCodes(n.children[i], depth + 1, ChildPosition(depth, pos, i + 1));
    }
    SameCodes(r.children, n.children);
  }

  lemma {:induction false} SameCodes(a: seq<Node>, b: seq<Node>)
    requires |a| == |b| && forall i :: 0 <= i < |a| ==> CodesOf(a[i]) == CodesOf(b[i])
    ensures CodesOfList(a) == CodesOfList(b)
    decreases |a|
  {
    if a != [] {
      assert forall i :: 0 <= i < |a[1..]| ==> a[1..][i] == a[i + 1] && b[1..][i] == b[i + 1];
      SameCodes(a[1..], b[1..]);
    }
  }

  // ---------------------------------------------------------------------
  // Position codes are unique
  // ---------------------------------------------------------------------

  /** The position codes of a tree in pre-order. */
  function PositionsOf(n: Node): seq<string>
    decreases n, 1
  {
    [n.position] + PositionsFrom(n.children, 0)
  }

  /** The position codes of the subtrees `ns[k..]`, in order. */
  function PositionsFrom(ns: seq<Node>, k: nat): seq<string>
    requires k <= |ns|
    decreases ns, |ns| - k
  {
    if k == |ns| then [] else PositionsOf(ns[k]) + PositionsFrom(ns, k + 1)
  }

  /** `p` is the code `q` or the code of a node below it. */
  predicate Within(p: string, q: string) {
    p == q || StartsWith(p, q + ".")
  }

  predicate AllWithin(ps: seq<string>, q: string) {
    forall k :: 0 <= k < |ps| ==> Within(ps[k], q)
  }

  /** `p` lies in the subtree of child `j` (from 0) of a node at `depth` with
      code `pos`. */
  predicate InChild(p: string, depth: nat, pos: string, j: nat) {
    Within(p, ChildPosition(depth, pos, j + 1))
  }

  /** `p` lies in the subtree of one of the children `k`, `k + 1`, … */
  ghost predicate InSomeChild(p: string, depth: nat, pos: string, ns: seq<Node>, k: nat) {
    exists j: nat :: k <= j < |ns| && InChild(p, depth, pos, j)
  }

  ghost predicate FromChildren(ps: seq<string>, depth: nat, pos: string, ns: seq<Node>, k: nat) {
    forall q :: 0 <= q < |ps| ==> InSomeChild(ps[q], depth, pos, ns, k)
  }

  lemma NoDot(s: string)
    requires AllDigits(s)
    ensures '.' !in s
  {
    forall k | 0 <= k < |s| ensures s[k] != '.' {
      assert IsDigit(s[k]);
    }
  }

  /** The first dot-separated piece after the base names the sibling. */
  lemma FirstPiece(p: string, base: string, i: nat)
    requires Within(p, base + Pad2(i))
    ensures |base| <= |p| && p[..|base|] == base
    ensures Split(p[|base|..], '.')[0] == Pad2(i)
  {
    var x := p[|base|..];
    NoDot(Pad2(i));
    if p == base + Pad2(i) {
      assert x == Pad2(i);
      SplitPiece(Pad2(i), '.');
    } else {
      var head := base + Pad2(i) + ".";
      assert p[..|head|] == head;
      var rest := p[|head|..];
      assert p == head + rest;
      assert x == Pad2(i) + "." + rest;
      SplitAfterPiece(Pad2(i), '.', rest);
    }
  }

  /** Subtrees of distinct siblings share no code. */
  lemma Separate(p: string, depth: nat, pos: string, i: nat, j: nat)
    ensures InChild(p, depth, pos, i) && InChild(p, depth, pos, j) ==> i == j
  {
    SeparateBase(p, ChildPrefix(depth, pos), i + 1, j + 1);
  }

  lemma SeparateBase(p: string, b: string, i: nat, j: nat)
    ensures Within(p, b + Pad2(i)) && Within(p, b + Pad2(j)) ==> i == j
  {
    if Within(p, b + Pad2(i)) && Within(p, b + Pad2(j)) {
      FirstPiece(p, b, i);
      FirstPiece(p, b, j);
      Pad2Injective(i, j);
    }
  }

  /** A code below a child is longer than the parent's code, and below the
      parent's code unless the parent is the root. */
  lemma BelowChild(p: string, depth: nat, pos: string, j: nat)
    requires InChild(p, depth, pos, j)
    ensures |p| >= 2
    ensures depth >= 1 ==> |p| > |pos| && Within(p, pos)
  {
    var c := ChildPosition(depth, pos, j + 1);
    var d := c + ".";
    assert p == c || StartsWith(p, d);
    assert StartsWith(d, c) by {
      assert d[..|c|] == c;
    }
    assert StartsWith(p, c) by {
      if p != c {
        StartsWithTrans(p, d, c);
      }
    }
    if depth >= 1 {
      assert c == (pos + ".") + Pad2(j + 1);
      assert StartsWith(c, pos + ".") by {
        assert c[..|pos + "."|] == pos + ".";
      }
      StartsWithTrans(p, c, pos + ".");
    }
  }

  /** In a well-numbered tree no two nodes share a position code, provided
      the root's own code is shorter than the two digits of its children. */
  lemma {:induction false} NumberedUnique(n: Node, depth: nat, pos: string)
    requires WellNumbered(n, depth, pos)
    requires depth == 0 ==> |pos| < 2
    ensures NoDup(PositionsOf(n))
    ensures depth >= 1 ==> AllWithin(PositionsOf(n), pos)
    decreases n, |n.children| + 1
  {
    var below := PositionsFrom(n.children, 0);
    NumberedUniqueFrom(n, 0, depth, pos);
    BelowAll(below, depth, pos, n.children);
    assert Elems([pos]) !! Elems(below) by {
      forall x | x in Elems(below) ensures x != pos {
        var q :| 0 <= q < |below| && below[q] == x;
      }
    }
    assert NoDup([pos]);
    NoDupConcat([pos], below);
    if depth >= 1 {
      HeadWithin(PositionsOf(n), pos, below);
    }
  }

  /** Every code below the children is longer than the parent's code, and
      below it unless the parent is the root. */
  lemma BelowAll(below: seq<string>, depth: nat, pos: string, ns: seq<Node>)
    requires FromChildren(below, depth, pos, ns, 0)
    ensures forall q :: 0 <= q < |below| ==> |below[q]| > |pos| || depth == 0
    ensures forall q :: 0 <= q < |below| ==> |below[q]| >= 2
    ensures depth >= 1 ==> AllWithin(below, pos)
  {
    forall q | 0 <= q < |below|
      ensures |below[q]| >= 2 && (depth >= 1 ==> |below[q]| > |pos| && Within(below[q], pos))
    {
      var j :| 0 <= j < |ns| && InChild(below[q], depth, pos, j);
      BelowChild(below[q], depth, pos, j);
    }
  }

  lemma HeadWithin(ps: seq<string>, pos: string, below: seq<string>)
    requires ps == [pos] + below && AllWithin(below, pos)
    ensures AllWithin(ps, pos)
  {
    forall q | 0 <= q < |ps| ensures Within(ps[q], pos) {
      if q > 0 {
        assert ps[q] == below[q - 1];
      }
    }
  }

  /** The position codes below children `k`, `k + 1`, … of a well-numbered
      node repeat nothing, and each lies below one of those children. */
  lemma {:induction false} NumberedUniqueFrom(n: Node, k: nat, depth: nat, pos: string)
    requires WellNumbered(n, depth, pos) && k <= |n.children|
    ensures NoDup(PositionsFrom(n.children, k))
    ensures FromChildren(PositionsFrom(n.children, k), depth, pos, n.children, k)
    decreases n, |n.children| - k
  {
    if k < |n.children| {
      var c := ChildPosition(depth, pos, k + 1);
      assert WellNumbered(n.children[k], depth + 1, c);
      NumberedUnique(n.children[k], depth + 1, c);
      NumberedUniqueFrom(n, k + 1, depth, pos);
      JoinSiblings(PositionsOf(n.children[k]), PositionsFrom(n.children, k + 1), depth, pos, n.children, k);
    }
  }

  /** The codes of child `k`'s subtree followed by those of the later
      children's subtrees repeat nothing and all lie below children `k`,
      `k + 1`, … */
  lemma JoinSiblings(first: seq<string>, rest: seq<string>, depth: nat, pos: string, ns: seq<Node>, k: nat)
    requires k < |ns|
    requires NoDup(first) && AllWithin(first, ChildPosition(depth, pos, k + 1))
    requires NoDup(rest) && FromChildren(rest, depth, pos, ns, k + 1)
    ensures NoDup(first + rest)
    ensures FromChildren(first + rest, depth, pos, ns, k)
  {
    SiblingsDisjoint(first, rest, depth, pos, ns, k);
    NoDupConcat(first, rest);
    FromChildrenConcat(first, rest, depth, pos, ns, k);
  }

  lemma SiblingsDisjoint(first: seq<string>, rest: seq<string>, depth: nat, pos: string, ns: seq<Node>, k: nat)
    requires AllWithin(first, ChildPosition(depth, pos, k + 1))
    requires FromChildren(rest, depth, pos, ns, k + 1)
    ensures Elems(first) !! Elems(rest)
  {
    forall x | x in Elems(first) ensures x !in Elems(rest) {
      var a :| 0 <= a < |first| && first[a] == x;
      assert InChild(first[a], depth, pos, k);
      NotInLater(x, depth, pos, ns, k);
      forall b | 0 <= b < |rest| ensures rest[b] != x {
        assert InSomeChild(rest[b], depth, pos, ns, k + 1);
      }
    }
  }

  /** A code below child `k` is below none of the later children. */
  lemma NotInLater(x: string, depth: nat, pos: string, ns: seq<Node>, k: nat)
    requires InChild(x, depth, pos, k)
    ensures !InSomeChild(x, depth, pos, ns, k + 1)
  {
    forall j: nat | k + 1 <= j < |ns| ensures !InChild(x, depth, pos, j) {
      Separate(x, depth, pos, k, j);
    }
  }

  lemma FromChildrenConcat(first: seq<string>, rest: seq<string>, depth: nat, pos: string, ns: seq<Node>, k: nat)
    requires k < |ns|
    requires AllWithin(first, ChildPosition(depth, pos, k + 1))
    requires FromChildren(rest, depth, pos, ns, k + 1)
    ensures FromChildren(first + rest, depth, pos, ns, k)
  {
    var ps := first + rest;
    forall q | 0 <= q < |ps| ensures InSomeChild(ps[q], depth, pos, ns, k) {
      if q < |first| {
        assert ps[q] == first[q] && InChild(ps[q], depth, pos, k);
      } else {
        assert ps[q] == rest[q - |first|];
        var j :| k + 1 <= j < |ns| && InChild(rest[q - |first|], depth, pos, j);
        assert InChild(ps[q], depth, pos, j);
      }
    }
  }

  /** After `renumber_tree` every node has its own position code. */
  lemma RenumberTreeUnique(root: Node)
    ensures NoDup(PositionsOf(RenumberTree(root)))
  {
    RenumberNumbered(root, 0, "0");
    NumberedUnique(RenumberTree(root), 0, "0");
  }
}
