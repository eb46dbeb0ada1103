/** The output tree of the conversion: one node per concept reached from the
    root, with its position code, nature, quantities and children. */
module Tree {
  import opened Wrappers
  import opened Decimal

  /** `naturaleza`: 0 root (the whole work), 1 chapter, 2 subchapter, 3 line
      item. */
  datatype Nature = Root | Chapter | Subchapter | LineItem {

    /** The integer written to the output. */
    function Code(): (k: int)
      ensures 0 <= k <= 3
    {
      match this
      case Root => 0
      case Chapter => 1
      case Subchapter => 2
      case LineItem => 3
    }
  }

  /** One node of the output. The JSON keys are `codigo_decimal` (position),
      `codigo`, `naturaleza`, `unidad`, `resumen`, `descripcion_larga`
      (longText), `cantidad` (quantity), `precio`, `importe` (amount) and
      `hijos` (children). */
  datatype Node = Node(
    position: string,
    code: string,
    nature: Nature,
    unit: Option<string>,
    summary: string,
    longText: Option<string>,
    quantity: real,
    price: real,
    amount: real,
    children: seq<Node>)

  /** `determine_naturaleza`: the nature of a node at `depth` that has, or
      has not, a non-empty decomposition entry. */
  function NatureOf(depth: nat, hasChildren: bool): (n: Nature)
    ensures n == Root <==> depth == 0
    ensures n == LineItem <==> depth >= 1 && !hasChildren
    ensures n == Chapter <==> depth == 1 && hasChildren
    ensures n == Subchapter <==> depth >= 2 && hasChildren
  {
    if depth == 0 then Root
    else if !hasChildren then LineItem
    else if depth == 1 then Chapter
    else Subchapter
  }

  /** The position code of the `index`-th child (from 1) of a node at `depth`
      whose own position code is `parent`: the padded index alone under the
      root, the parent's code, a dot and the padded index deeper down. */
  function ChildPosition(depth: nat, parent: string, index: nat): string {
    ChildPrefix(depth, parent) + Pad2(index)
  }

  /** What a child's position code adds the padded index to: nothing under
      the root, the parent's code and a dot deeper down. */
  function ChildPrefix(depth: nat, parent: string): string {
    if depth == 0 then "" else parent + "."
  }

  /** `importe`: quantity times unit price. */
  function Amount(quantity: real, price: real): real {
    quantity * price
  }

  /** A node with its children removed: every field but the subtree. */
  function Label(n: Node): Node {
    n.(children := [])
  }

  function Labels(ns: seq<Node>): (ls: seq<Node>)
    ensures |ls| == |ns| && forall i :: 0 <= i < |ns| ==> ls[i] == Label(ns[i])
  {
    seq(|ns|, i requires 0 <= i < |ns| => Label(ns[i]))
  }

  /** The codes of the nodes of a sequence, in order. */
  function Codes(ns: seq<Node>): (cs: seq<string>)
    ensures |cs| == |ns| && forall i :: 0 <= i < |ns| ==> cs[i] == ns[i].code
  {
    seq(|ns|, i requires 0 <= i < |ns| => ns[i].code)
  }

  /** The codes of a tree in pre-order. */
  function CodesOf(n: Node): seq<string>
    decreases n
  {
    [n.code] + CodesOfList(n.children)
  }

  function CodesOfList(ns: seq<Node>): seq<string>
    decreases ns
  {
    if ns == [] then [] else CodesOf(ns[0]) + CodesOfList(ns[1..])
  }

  /** The shape every built tree has: every node fits its depth, all the
      way down. */
  predicate Shaped(n: Node, depth: nat)
    decreases n
  {
    Fits(n, depth) && forall i :: 0 <= i < |n.children| ==> Shaped(n.children[i], depth + 1)
  }

  /** One node's fields agree with its depth: the root has nature Root and
      quantity 1; chapters sit at depth 1 and subchapters deeper; every node
      that is not a line item, and every node at depth 1, has quantity 1;
      line items have no children; and the amount is quantity times price. */
  predicate Fits(n: Node, depth: nat) {
    && (n.nature == Root <==> depth == 0)
    && (n.nature == Chapter ==> depth == 1)
    && (n.nature == Subchapter ==> depth >= 2)
    && (depth <= 1 || n.nature != LineItem ==> n.quantity == 1.0)
    && (n.nature == LineItem ==> n.children == [])
    && n.amount == Amount(n.quantity, n.price)
  }

  predicate AllShaped(ns: seq<Node>, depth: nat) {
    forall k :: 0 <= k < |ns| ==> Shaped(ns[k], depth)
  }

  // ---------------------------------------------------------------------
  // Sequences without repetitions, and subsequences
  // ---------------------------------------------------------------------

  predicate NoDup<T(==)>(s: seq<T>) {
    forall i, j :: 0 <= i < j < |s| ==> s[i] != s[j]
  }

  function Elems<T>(s: seq<T>): set<T> {
    set x | x in s
  }

  lemma NoDupConcat<T>(a: seq<T>, b: seq<T>)
    requires NoDup(a) && NoDup(b) && Elems(a) !! Elems(b)
    ensures NoDup(a + b)
  {
    forall i, j | 0 <= i < j < |a + b|
      ensures (a + b)[i] != (a + b)[j]
    {
      if i < |a| && j >= |a| {
        assert (a + b)[i] in Elems(a) && (a + b)[j] in Elems(b);
      }
    }
  }

  lemma {:induction false} ElemsConcat<T>(a: seq<T>, b: seq<T>)
    ensures Elems(a + b) == Elems(a) + Elems(b)
  {
    forall x | x in Elems(a + b) ensures x in Elems(a) + Elems(b) {
      var k :| 0 <= k < |a + b| && (a + b)[k] == x;
      if k < |a| {
        assert a[k] == x;
      } else {
        assert b[k - |a|] == x;
      }
    }
    forall x | x in Elems(a) + Elems(b) ensures x in Elems(a + b) {
      if x in Elems(a) {
        var k :| 0 <= k < |a| && a[k] == x;
        assert (a + b)[k] == x;
      } else {
        var k :| 0 <= k < |b| && b[k] == x;
        assert (a + b)[|a| + k] == x;
      }
    }
  }

  /** `a` is `b` with some elements left out, the rest in their order. */
  predicate Subseq<T(==)>(a: seq<T>, b: seq<T>)
    decreases |b|
  {
    a == [] || (b != [] && ((a[0] == b[0] && Subseq(a[1..], b[1..])) || Subseq(a, b[1..])))
  }

  lemma {:induction false} SubseqRefl<T>(a: seq<T>)
    ensures Subseq(a, a)
    decreases |a|
  {
    if a != [] {
      SubseqRefl(a[1..]);
    }
  }

  lemma {:induction false} SubseqElems<T>(a: seq<T>, b: seq<T>)
    requires Subseq(a, b)
    ensures Elems(a) <= Elems(b)
    decreases |b|
  {
    if a != [] {
      if a[0] == b[0] && Subseq(a[1..], b[1..]) {
        SubseqElems(a[1..], b[1..]);
        forall x | x in a ensures x in Elems(b) {
          if x != a[0] {
            var k :| 0 <= k < |a| && a[k] == x;
            assert a[1..][k - 1] == x && x in Elems(a[1..]);
            var m :| 0 <= m < |b[1..]| && b[1..][m] == x;
            assert b[m + 1] == x;
          }
        }
      } else {
        SubseqElems(a, b[1..]);
        forall x | x in a ensures x in Elems(b) {
          assert x in Elems(b[1..]);
          var m :| 0 <= m < |b[1..]| && b[1..][m] == x;
          assert b[m + 1] == x;
        }
      }
    }
  }

  lemma {:induction false} SubseqNoDup<T>(a: seq<T>, b: seq<T>)
    requires Subseq(a, b) && NoDup(b)
    ensures NoDup(a)
    decreases |b|
  {
    if a != [] {
      assert NoDup(b[1..]) by {
        forall i, j | 0 <= i < j < |b[1..]| ensures b[1..][i] != b[1..][j] {
          assert b[1..][i] == b[i + 1] && b[1..][j] == b[j + 1];
        }
      }
      if a[0] == b[0] && Subseq(a[1..], b[1..]) {
        SubseqNoDup(a[1..], b[1..]);
        SubseqElems(a[1..], b[1..]);
        assert b[0] !in Elems(b[1..]) by {
          forall x | x in b[1..] ensures x != b[0] {
            var k :| 0 <= k < |b[1..]| && b[1..][k] == x;
            assert b[k + 1] == x;
          }
        }
        forall i, j | 0 <= i < j < |a| ensures a[i] != a[j] {
          if i == 0 {
            assert a[j] == a[1..][j - 1] && a[1..][j - 1] in Elems(a[1..]);
          } else {
            assert a[i] == a[1..][i - 1] && a[j] == a[1..][j - 1];
          }
        }
      } else {
        SubseqNoDup(a, b[1..]);
      }
    }
  }

  lemma {:induction false} SubseqPrepend<T>(a: seq<T>, p: seq<T>, b: seq<T>)
    requires Subseq(a, b)
    ensures Subseq(a, p + b)
    decreases |p|
  {
    if p != [] {
      SubseqPrepend(a, p[1..], b);
      var pb := p + b;
      assert pb[1..] == p[1..] + b;
      assert pb != [] && Subseq(a, pb[1..]);
      assert Subseq(a, pb);
    } else {
      assert p + b == b;
    }
  }

  lemma {:induction false} SubseqConcat<T>(a1: seq<T>, b1: seq<T>, a2: seq<T>, b2: seq<T>)
    requires Subseq(a1, b1) && Subseq(a2, b2)
    ensures Subseq(a1 + a2, b1 + b2)
    decreases |b1|
  {
    if a1 == [] {
      SubseqPrepend(a2, b1, b2);
      assert a1 + a2 == a2;
    } else {
      assert (b1 + b2)[1..] == b1[1..] + b2;
      assert (b1 + b2)[0] == b1[0];
      if a1[0] == b1[0] && Subseq(a1[1..], b1[1..]) {
        SubseqConcat(a1[1..], b1[1..], a2, b2);
        assert (a1 + a2)[1..] == a1[1..] + a2;
      } else {
        SubseqConcat(a1, b1[1..], a2, b2);
      }
    }
  }
}
