/** `bc3_to_json` after the file read: scan the records, decode the four
    tables, find the root, build the tree, prune it, renumber it. */
module Pipeline {
  import opened Wrappers
  import opened Records
  import opened Decoders
  import opened Tree
  import opened Builder
  import opened Prune
  import opened Renumber

  /** The tables the four decoders produce from the same records. */
  function Decode(records: seq<string>, num: NumParser): Tables {
    Tables(ParseConcepts(records, num), ParseTexts(records),
           ParseDecompositions(records, num), ParseMeasurements(records, num))
  }

  /** Renumbering leaves the signal of every branch as it was. */
  lemma {:induction false} RenumberSignal(n: Node, depth: nat, pos: string)
    ensures HasSignal(RenumberNode(n, depth, pos)) == HasSignal(n)
    decreases n
  {
    var r := RenumberNode(n, depth, pos);
    assert r.quantity == n.quantity by {
      assert Label(r).quantity == Label(n).quantity;
    }
    forall i | 0 <= i < |n.children|
      ensures HasSignal(r.children[i]) == HasSignal(n.children[i])
    {
      RenumberSignal(n.children[i], depth + 1, ChildPosition(depth, pos, i + 1));
    }
  }

  /** Renumbering keeps a pruned tree pruned. */
  lemma {:induction false} RenumberPruned(n: Node, depth: nat, pos: string)
    requires Pruned(n)
    ensures Pruned(RenumberNode(n, depth, pos))
    decreases n, 1
  {
    var r := RenumberNode(n, depth, pos);
    forall i | 0 <= i < |n.children|
      ensures HasSignal(r.children[i]) && Pruned(r.children[i])
    {
      RenumberChildPruned(n, depth, pos, i);
      assert r.children[i] == RenumberNode(n.children[i], depth + 1, ChildPosition(depth, pos, i + 1));
    }
  }

  lemma {:induction false} RenumberChildPruned(n: Node, depth: nat, pos: string, i: nat)
    requires Pruned(n) && i < |n.children|
    ensures var c := RenumberNode(n.children[i], depth + 1, ChildPosition(depth, pos, i + 1));
      HasSignal(c) && Pruned(c)
    decreases n, 0
  {
    var c := ChildPosition(depth, pos, i + 1);
    assert HasSignal(n.children[i]) && Pruned(n.children[i]);
    RenumberSignal(n.children[i], depth + 1, c);
    RenumberPruned(n.children[i], depth + 1, c);
  }

  /** The tree the pipeline returns for a built tree: the shape of the build
      survives pruning and renumbering; the root is "0" with nature Root and
      quantity 1; every node below the root has signal; no code and no
      position code appears twice; and the position codes follow the
      numbering rule. */
  lemma FinishedTree(built: Node)
    requires Shaped(built, 0) && NoDup(CodesOf(built))
    ensures var t := RenumberTree(PruneTree(built));
      && Shaped(t, 0)
      && t.position == "0" && t.nature == Root && t.quantity == 1.0
      && Pruned(t)
      && NoDup(CodesOf(t))
      && NoDup(PositionsOf(t))
      && WellNumbered(t, 0, "0")
  {
    var p := PruneTree(built);
    PruneTreeShaped(built);
    PruneTreeNoDup(built);
    PruneListPruned(built.children);
    assert Pruned(p);
    RenumberShaped(p, 0, "0");
    RenumberCodes(p, 0, "0");
    RenumberPruned(p, 0, "0");
    RenumberTreeUnique(p);
    RenumberNumbered(p, 0, "0");
  }

  /** The part of `bc3_to_json` after the tables are decoded: find the root,
      build, prune and renumber. It fails exactly when `detect_root_code`
      raises; otherwise the tree is the built tree of a root, pruned and then
      renumbered. */
  method TreeOf(t: Tables) returns (r: Result<Node, BuildError>)
    ensures r.Failure? <==> t.decomp.Keys <= ChildCodes(t.decomp)
    ensures r.Success? ==>
      var built := BuildNode(r.value.code, 0, "0", t, {});
      && r.value.code in t.decomp && r.value.code !in ChildCodes(t.decomp)
      && built.0.Some?
      && r.value == RenumberTree(PruneTree(built.0.value))
    ensures r.Success? ==>
      && Shaped(r.value, 0)
      && r.value.position == "0" && r.value.nature == Root && r.value.quantity == 1.0
      && Pruned(r.value)
      && NoDup(CodesOf(r.value))
      && NoDup(PositionsOf(r.value))
      && WellNumbered(r.value, 0, "0")
  {
    var root := DetectRoot(t.decomp);
    if root.Failure? {
      return Failure(root.error);
    }
    var built := BuildNode(root.value, 0, "0", t, {});
    BuildNodeShaped(root.value, 0, "0", t, {});
    BuildNodeCodes(root.value, 0, "0", t, {});
    var tree := RenumberTree(PruneTree(built.0.value));
    FinishedTree(built.0.value);
    r := Success(tree);
  }

  /** `bc3_to_json` on the decoded text `raw`, with `num` standing for
      Python's `float` on strings: the records are the ones the scan of the
      normalised text finds, in order, and the result is that of `TreeOf`
      on the tables decoded from them. */
  method Bc3ToTree(raw: string, num: NumParser)
    returns (r: Result<Node, BuildError>, ghost records: seq<string>, ghost spans: seq<(nat, nat)>)
    ensures Slices(NormalizeNewlines(raw), spans, records)
    ensures ScanOf(NormalizeNewlines(raw), spans)
    ensures Stops(NormalizeNewlines(raw), ResumeAt(spans, |spans|))
    ensures forall k :: 0 <= k < |records| ==> |records[k]| > 0 && records[k][0] == '~'
    ensures var decomp := Decode(records, num).decomp;
      r.Failure? <==> decomp.Keys <= ChildCodes(decomp)
    ensures r.Success? ==>
      var t := Decode(records, num);
      var built := BuildNode(r.value.code, 0, "0", t, {});
      && r.value.code in t.decomp && r.value.code !in ChildCodes(t.decomp)
      && built.0.Some?
      && r.value == RenumberTree(PruneTree(built.0.value))
    ensures r.Success? ==>
      && Shaped(r.value, 0)
      && r.value.position == "0" && r.value.nature == Root && r.value.quantity == 1.0
      && Pruned(r.value)
      && NoDup(CodesOf(r.value))
      && NoDup(PositionsOf(r.value))
      && WellNumbered(r.value, 0, "0")
  {
    var recs;
    recs, spans := LoadRecords(raw);
    records := recs;
    r := TreeOf(Decode(recs, num));
  }
}
