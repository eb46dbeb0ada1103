/** Tree construction (`build_node`, `detect_root_code`): the decoded tables
    are composed into one tree rooted at a concept that no decomposition
    lists as a child. One set of visited codes is shared by the whole
    construction, so a concept reached a second time, by a cycle or by a
    second parent, is left out where it is reached again. */
module Builder {
  import opened Wrappers
  import opened Decoders
  import opened Tree

  /** The four lookup structures the decoders produce. */
  datatype Tables = Tables(
    concepts: map<string, Concept>,
    texts: map<string, string>,
    decomp: map<string, seq<Child>>,
    quantities: map<string, real>)

  /** `RuntimeError` of `detect_root_code`: every parent is also a child. */
  datatype BuildError = NoRoot

  /** `decomp.get(code, [])`. */
  function Entry(decomp: map<string, seq<Child>>, code: string): seq<Child> {
    if code in decomp then decomp[code] else []
  }

  /** Every code some decomposition lists as a child. */
  function ChildCodes(decomp: map<string, seq<Child>>): set<string> {
    set k, j | k in decomp && 0 <= j < |decomp[k]| :: decomp[k][j].code
  }

  /** Every code the construction can reach besides the root. */
  ghost function Universe(decomp: map<string, seq<Child>>): set<string> {
    decomp.Keys + ChildCodes(decomp)
  }

  /** The quantity rule, in its order: depth 0 and depth 1 give 1; deeper, a
      code with decomposition children gives 1; otherwise the measured total,
      or 0 when there is none. */
  function QuantityOf(code: string, depth: nat, t: Tables): real {
    if depth == 0 then 1.0
    else if depth == 1 then 1.0
    else if Entry(t.decomp, code) != [] then 1.0
    else if code in t.quantities then t.quantities[code]
    else 0.0
  }

  lemma CardLess<T>(a: set<T>, b: set<T>)
    requires a < b
    ensures |a| < |b|
  {
    assert a + (b - a) == b;
    var x :| x in b - a;
    assert a <= b - {x};
    assert |b - {x}| == |b| - 1;
    CardLessEq(a, b - {x});
  }

  lemma CardLessEq<T>(a: set<T>, b: set<T>)
    requires a <= b
    ensures |a| <= |b|
  {
    assert b == a + (b - a);
  }

  /** Marking `code` visited shrinks what is left to visit. */
  ghost predicate Marked(u: set<string>, visited: set<string>, code: string) {
    |u - (visited + {code})| < |(u + {code}) - visited|
  }

  lemma Marking(u: set<string>, visited: set<string>, code: string)
    requires code !in visited
    ensures Marked(u, visited, code)
  {
    CardLess(u - (visited + {code}), (u + {code}) - visited);
  }

  /** `build_node(code, depth, pos, ...)` with the shared visited set passed
      in and its new value passed out: `None` (the empty dict) when the code
      was already visited. */
  function BuildNode(code: string, depth: nat, pos: string, t: Tables, visited: set<string>)
    : (res: (Option<Node>, set<string>))
    decreases |(Universe(t.decomp) + {code}) - visited|, 0, 0
    ensures visited <= res.1
    ensures res.0.None? <==> code in visited
    ensures res.0.None? ==> res.1 == visited
    ensures res.0.Some? ==> code in res.1
    ensures res.0.Some? ==> var n := res.0.value;
      && n.code == code && n.position == pos
      && (Entry(t.decomp, code) == [] ==> n.children == [])
      && n.unit == (if code in t.concepts then t.concepts[code].unit else None)
      && n.summary == (if code in t.concepts then t.concepts[code].summary else "")
      && n.price == (if code in t.concepts then t.concepts[code].price else 0.0)
      && n.longText == (if code in t.texts then Some(t.texts[code]) else None)
      && n.nature == NatureOf(depth, Entry(t.decomp, code) != [])
      && (depth <= 1 || Entry(t.decomp, code) != [] ==> n.quantity == 1.0)
      && (depth >= 2 && Entry(t.decomp, code) == [] ==>
            n.quantity == (if code in t.quantities then t.quantities[code] else 0.0))
      && n.amount == Amount(n.quantity, n.price)
  {
    if code in visited then (None, visited)
    else
      Marking(Universe(t.decomp), visited, code);
      var (kids, after) := BuildChildren(code, 0, depth, pos, t, visited + {code});
      var n := MakeNode(code, depth, pos, t, kids);
      (Some(n), after)
  }

  /** The node `build_node` assembles once its children are built. */
  function MakeNode(code: string, depth: nat, pos: string, t: Tables, kids: seq<Node>): (n: Node)
    requires Entry(t.decomp, code) == [] ==> kids == []
    ensures n.code == code && n.position == pos && n.children == kids
    ensures n.unit == (if code in t.concepts then t.concepts[code].unit else None)
    ensures n.summary == (if code in t.concepts then t.concepts[code].summary else "")
    ensures n.price == (if code in t.concepts then t.concepts[code].price else 0.0)
    ensures n.longText == (if code in t.texts then Some(t.texts[code]) else None)
    ensures n.nature == NatureOf(depth, Entry(t.decomp, code) != [])
    ensures depth <= 1 || Entry(t.decomp, code) != [] ==> n.quantity == 1.0
    ensures depth >= 2 && Entry(t.decomp, code) == [] ==>
      n.quantity == (if code in t.quantities then t.quantities[code] else 0.0)
    ensures n.amount == Amount(n.quantity, n.price)
  {
    var unit := if code in t.concepts then t.concepts[code].unit else None;
    var summary := if code in t.concepts then t.concepts[code].summary else "";
    var price := if code in t.concepts then t.concepts[code].price else 0.0;
    var longText := if code in t.texts then Some(t.texts[code]) else None;
    var quantity := QuantityOf(code, depth, t);
    var nature := NatureOf(depth, |kids| > 0 || Entry(t.decomp, code) != []);
    Node(pos, code, nature, unit, summary, longText, quantity, price, Amount(quantity, price), kids)
  }

  /** The loop over `decomp.get(parent, [])` from its `i`-th entry: each
      child is built with the visited set the previous ones left behind, and
      kept unless it was already visited. */
  function BuildChildren(parent: string, i: nat, depth: nat, pos: string, t: Tables, visited: set<string>)
    : (res: (seq<Node>, set<string>))
    requires i <= |Entry(t.decomp, parent)|
    decreases |Universe(t.decomp) - visited|, |Entry(t.decomp, parent)| - i, 1
    ensures visited <= res.1
  {
    var entry := Entry(t.decomp, parent);
    if i == |entry| then ([], visited)
    else
      var c := entry[i].code;
      assert c in ChildCodes(t.decomp);
      assert (Universe(t.decomp) + {c}) - visited == Universe(t.decomp) - visited;
      var (child, mid) := BuildNode(c, depth + 1, ChildPosition(depth, pos, i + 1), t, visited);
      CardLessEq(Universe(t.decomp) - mid, Universe(t.decomp) - visited);
      var (rest, after) := BuildChildren(parent, i + 1, depth, pos, t, mid);
      (if child.Some? then [child.value] + rest else rest, after)
  }

  /** The child codes of a decomposition entry, in order. */
  function EntryCodes(entry: seq<Child>): (cs: seq<string>)
    ensures |cs| == |entry| && forall i :: 0 <= i < |entry| ==> cs[i] == entry[i].code
  {
    seq(|entry|, i requires 0 <= i < |entry| => entry[i].code)
  }

  /** `codes` lists, once each, exactly the codes in `v1` but not in `v0`. */
  ghost predicate Exact(codes: seq<string>, v0: set<string>, v1: set<string>) {
    Elems(codes) == v1 - v0 && NoDup(codes)
  }

  /** Two runs of codes, each holding once exactly what its stretch of the
      construction marked visited, join into one such run. */
  lemma CodesStep(a: seq<string>, b: seq<string>, v0: set<string>, v1: set<string>, v2: set<string>)
    requires v0 <= v1 <= v2
    requires Exact(a, v0, v1) && Exact(b, v1, v2)
    ensures Exact(a + b, v0, v2)
  {
    ElemsConcat(a, b);
    NoDupConcat(a, b);
  }

  /** What `BuildNode` returns for a code not yet visited, in terms of the
      loop over its children. */
  lemma BuildNodeUnfold(code: string, depth: nat, pos: string, t: Tables, visited: set<string>)
    requires code !in visited
    ensures Marked(Universe(t.decomp), visited, code)
    ensures var res := BuildNode(code, depth, pos, t, visited);
      var inner := BuildChildren(code, 0, depth, pos, t, visited + {code});
      && res.0.Some? && res.0.value.code == code
      && res.0.value.children == inner.0 && res.1 == inner.1
  {
    Marking(Universe(t.decomp), visited, code);
  }

  /** What `BuildChildren` returns from the `i`-th entry on, in terms of the
      first child and the rest of the loop. */
  lemma BuildChildrenUnfold(parent: string, i: nat, depth: nat, pos: string, t: Tables, visited: set<string>)
    requires i < |Entry(t.decomp, parent)|
    ensures var c := Entry(t.decomp, parent)[i].code;
      var built := BuildNode(c, depth + 1, ChildPosition(depth, pos, i + 1), t, visited);
      var rest := BuildChildren(parent, i + 1, depth, pos, t, built.1);
      var res := BuildChildren(parent, i, depth, pos, t, visited);
      && |(Universe(t.decomp) + {c}) - visited| == |Universe(t.decomp) - visited|
      && |Universe(t.decomp) - built.1| <= |Universe(t.decomp) - visited|
      && res.0 == (if built.0.Some? then [built.0.value] + rest.0 else rest.0)
      && res.1 == rest.1
  {
    var entry := Entry(t.decomp, parent);
    var c := entry[i].code;
    assert c in ChildCodes(t.decomp);
    assert (Universe(t.decomp) + {c}) - visited == Universe(t.decomp) - visited;
    var built := BuildNode(c, depth + 1, ChildPosition(depth, pos, i + 1), t, visited);
    CardLessEq(Universe(t.decomp) - built.1, Universe(t.decomp) - visited);
  }

  /** A node whose code was just marked visited, over children holding what
      the rest of its construction marked. */
  lemma NodeCodes(n: Node, v0: set<string>, v2: set<string>)
    requires n.code !in v0 && v0 + {n.code} <= v2
    requires Exact(CodesOfList(n.children), v0 + {n.code}, v2)
    ensures Exact(CodesOf(n), v0, v2)
  {
    assert CodesOf(n) == [n.code] + CodesOfList(n.children);
    assert Elems([n.code]) == {n.code} == (v0 + {n.code}) - v0;
    assert NoDup([n.code]);
    CodesStep([n.code], CodesOfList(n.children), v0, v0 + {n.code}, v2);
  }

  /** A first child followed by the children after it. */
  lemma ConsCodes(first: Node, rest: seq<Node>, v0: set<string>, v1: set<string>, v2: set<string>)
    requires v0 <= v1 <= v2
    requires Exact(CodesOf(first), v0, v1)
    requires Exact(CodesOfList(rest), v1, v2)
    ensures Exact(CodesOfList([first] + rest), v0, v2)
  {
    var kids := [first] + rest;
    assert kids[0] == first && kids[1..] == rest;
    assert CodesOfList(kids) == CodesOf(first) + CodesOfList(rest);
    CodesStep(CodesOf(first), CodesOfList(rest), v0, v1, v2);
  }

  /** A built tree holds exactly the codes the construction marks visited,
      each once: no concept appears twice, whatever cycles or shared
      children the decompositions have. */
  lemma {:induction false} BuildNodeCodes(code: string, depth: nat, pos: string, t: Tables, visited: set<string>)
    decreases |(Universe(t.decomp) + {code}) - visited|, 0, 0
    ensures var res := BuildNode(code, depth, pos, t, visited);
      res.0.Some? ==> Exact(CodesOf(res.0.value), visited, res.1)
  {
    if code !in visited {
      BuildNodeUnfold(code, depth, pos, t, visited);
      var n := BuildNode(code, depth, pos, t, visited).0.value;
      var inner := BuildChildren(code, 0, depth, pos, t, visited + {code});
      BuildChildrenCodes(code, 0, depth, pos, t, visited + {code});
      NodeCodes(n, visited, inner.1);
    }
  }

  lemma {:induction false} BuildChildrenCodes(parent: string, i: nat, depth: nat, pos: string, t: Tables, visited: set<string>)
    requires i <= |Entry(t.decomp, parent)|
    decreases |Universe(t.decomp) - visited|, |Entry(t.decomp, parent)| - i, 1
    ensures var res := BuildChildren(parent, i, depth, pos, t, visited);
      Exact(CodesOfList(res.0), visited, res.1)
  {
    if i < |Entry(t.decomp, parent)| {
      BuildChildrenUnfold(parent, i, depth, pos, t, visited);
      var c := Entry(t.decomp, parent)[i].code;
      var cpos := ChildPosition(depth, pos, i + 1);
      var built := BuildNode(c, depth + 1, cpos, t, visited);
      BuildNodeCodes(c, depth + 1, cpos, t, visited);
      var rest := BuildChildren(parent, i + 1, depth, pos, t, built.1);
      BuildChildrenCodes(parent, i + 1, depth, pos, t, built.1);
      var res := BuildChildren(parent, i, depth, pos, t, visited);
      if built.0.Some? {
        ConsCodes(built.0.value, rest.0, visited, built.1, rest.1);
      } else {
        assert res.0 == rest.0 && built.1 == visited;
      }
    } else {
      assert CodesOfList([]) == [];
    }
  }

  /** Every built node has the shape of the quantity and nature rules. */
  lemma {:induction false} BuildNodeShaped(code: string, depth: nat, pos: string, t: Tables, visited: set<string>)
    decreases |(Universe(t.decomp) + {code}) - visited|, 0, 0
    ensures var res := BuildNode(code, depth, pos, t, visited);
      res.0.Some? ==> Shaped(res.0.value, depth)
  {
    if code !in visited {
      Marking(Universe(t.decomp), visited, code);
      var n := BuildNode(code, depth, pos, t, visited).0.value;
      var kids := BuildChildren(code, 0, depth, pos, t, visited + {code}).0;
      BuildChildrenShaped(code, 0, depth, pos, t, visited + {code});
      assert n.children == kids;
    }
  }

  lemma {:induction false} BuildChildrenShaped(parent: string, i: nat, depth: nat, pos: string, t: Tables, visited: set<string>)
    requires i <= |Entry(t.decomp, parent)|
    decreases |Universe(t.decomp) - visited|, |Entry(t.decomp, parent)| - i, 1
    ensures AllShaped(BuildChildren(parent, i, depth, pos, t, visited).0, depth + 1)
  {
    if i < |Entry(t.decomp, parent)| {
      var d: nat, j: nat := depth + 1, i + 1;
      BuildChildrenUnfold(parent, i, depth, pos, t, visited);
      var c, cpos := Entry(t.decomp, parent)[i].code, ChildPosition(depth, pos, j);
      var built := BuildNode(c, d, cpos, t, visited);
      BuildNodeShaped(c, d, cpos, t, visited);
      BuildChildrenShaped(parent, j, depth, pos, t, built.1);
      ConsShaped(BuildChildren(parent, i, depth, pos, t, visited).0, built.0, BuildChildren(parent, j, depth, pos, t, built.1).0, d);
    }
  }

  /** Putting a shaped node, if there is one, in front of shaped nodes. */
  lemma ConsShaped(kids: seq<Node>, first: Option<Node>, rest: seq<Node>, depth: nat)
    requires kids == if first.Some? then [first.value] + rest else rest
    requires first.Some? ==> Shaped(first.value, depth)
    requires AllShaped(rest, depth)
    ensures AllShaped(kids, depth)
  {
    if first.Some? {
      forall k | 0 <= k < |kids| ensures Shaped(kids[k], depth) {
        if k > 0 {
          assert kids[k] == rest[k - 1];
        }
      }
    }
  }

  /** The children of a node follow its decomposition entry in order, with
      the already visited ones left out and no placeholder in their place;
      every code the entry lists is visited by the time the loop ends. */
  lemma {:induction false} BuildChildrenOrder(parent: string, i: nat, depth: nat, pos: string, t: Tables, visited: set<string>)
    requires i <= |Entry(t.decomp, parent)|
    decreases |Entry(t.decomp, parent)| - i
    ensures var res := BuildChildren(parent, i, depth, pos, t, visited);
      Subseq(Codes(res.0), EntryCodes(Entry(t.decomp, parent))[i..]) && Elems(EntryCodes(Entry(t.decomp, parent))[i..]) <= res.1
  {
    if i < |Entry(t.decomp, parent)| {
      var j: nat := i + 1;
      BuildChildrenUnfold(parent, i, depth, pos, t, visited);
      var c := Entry(t.decomp, parent)[i].code;
      var built := BuildNode(c, depth + 1, ChildPosition(depth, pos, j), t, visited);
      BuildChildrenOrder(parent, j, depth, pos, t, built.1);
      var rest := BuildChildren(parent, j, depth, pos, t, built.1);
      ConsOrder(BuildChildren(parent, i, depth, pos, t, visited).0, built.0, rest.0,
        EntryCodes(Entry(t.decomp, parent))[i..], rest.1);
    } else {
      assert Codes([]) == [];
    }
  }

  /** Putting the node built for the first listed code, if there is one, in
      front of nodes that follow the rest of the list in order. */
  lemma ConsOrder(kids: seq<Node>, first: Option<Node>, rest: seq<Node>, codes: seq<string>, v: set<string>)
    requires |codes| > 0 && codes[0] in v
    requires kids == if first.Some? then [first.value] + rest else rest
    requires first.Some? ==> first.value.code == codes[0]
    requires Subseq(Codes(rest), codes[1..]) && Elems(codes[1..]) <= v
    ensures Subseq(Codes(kids), codes) && Elems(codes) <= v
  {
    assert codes == [codes[0]] + codes[1..];
    if first.Some? {
      assert Codes(kids) == [codes[0]] + Codes(rest);
    }
  }

  /** `detect_root_code`: a parent that is nobody's child, or `NoRoot` when
      there is none. Which one is returned when there are several depends on
      Python's set iteration order, so the model picks any of them. */
  method DetectRoot(decomp: map<string, seq<Child>>) returns (r: Result<string, BuildError>)
    ensures r.Failure? <==> decomp.Keys <= ChildCodes(decomp)
    ensures r.Success? ==> r.value in decomp && r.value !in ChildCodes(decomp)
  {
    var roots := decomp.Keys - ChildCodes(decomp);
    if roots == {} {
      forall k | k in decomp.Keys
        ensures k in ChildCodes(decomp)
      {
        assert k !in roots;
      }
      return Failure(NoRoot);
    }
    var root :| root in roots;
    return Success(root);
  }
}
