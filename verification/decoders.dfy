/** The four record decoders of a BC3 text: concepts (`~C`), long texts
    (`~T`), decompositions (`~D`) and measurements (`~M`). Each one reads
    only records carrying its own tag and turns them into a map keyed by
    concept code. */
module Decoders {
  import opened Wrappers
  import opened Text

  /** Python's `float(text)`, left abstract: `None` where it raises
      `ValueError`. */
  type NumParser = string -> Option<real>

  /** A `~C` record: code, optional measuring unit, summary and unit price. */
  datatype Concept = Concept(code: string, unit: Option<string>, summary: string, price: real)

  /** One child line of a `~D` record: the child's code and its factor. */
  datatype Child = Child(code: string, factor: real)

  // ---------------------------------------------------------------------
  // Fields of a tagged record
  // ---------------------------------------------------------------------

  /** A record `tag|rest` splits into the tag and the fields of `rest`: the
      code field runs to the next `|`, and the fields after it re-join into
      exactly the text after that `|`. */
  lemma TagFields(rec: string, tag: string)
    requires '|' !in tag && StartsWith(rec, tag + "|")
    ensures var f := Split(rec, '|'); var t := rec[|tag| + 1..];
      && |f| >= 2 && f[0] == tag && |f[1]| <= |t| && f[1] == t[..|f[1]|]
      && (|f| >= 3 <==> '|' in t)
      && (|f| == 2 ==> f[1] == t)
      && (|f| >= 3 ==> t[|f[1]|] == '|' && Join(f[2..], '|') == t[|f[1]| + 1..])
  {
    var t := rec[|tag| + 1..];
    assert rec == tag + ['|'] + t;
    SplitAfterPiece(tag, '|', t);
    var f, g := Split(rec, '|'), Split(t, '|');
    assert f == [tag] + g;
    HeadFields(t);
    assert f[1] == g[0] && f[2..] == g[1..];
  }

  /** The first field of `t` runs to its first `|`, and the fields after it
      re-join to exactly the text after that `|`. */
  lemma HeadFields(t: string)
    ensures var g := Split(t, '|');
      && |g[0]| <= |t| && g[0] == t[..|g[0]|]
      && (|g| >= 2 <==> '|' in t)
      && (|g| == 1 ==> g[0] == t)
      && (|g| >= 2 ==> t[|g[0]|] == '|' && Join(g[1..], '|') == t[|g[0]| + 1..])
  {
    var g := Split(t, '|');
    SplitHead(t, '|');
    if |g| > 1 {
      JoinSplit(t[|g[0]| + 1..], '|');
    }
  }

  // ---------------------------------------------------------------------
  // Last write wins
  // ---------------------------------------------------------------------

  predicate DecodesKey<V>(e: Option<(string, V)>, key: string) {
    e.Some? && e.value.0 == key
  }

  /** Folds the records in order into a map, each decoded record overwriting
      whatever an earlier one stored under the same key. */
  function LastWins<V>(records: seq<string>, decode: string -> Option<(string, V)>): (m: map<string, V>)
    ensures forall key :: key in m <==>
      exists i :: 0 <= i < |records| && DecodesKey(decode(records[i]), key)
    decreases |records|
  {
    if records == [] then map[]
    else
      var prefix := records[..|records| - 1];
      var m := LastWins(prefix, decode);
      assert forall i :: 0 <= i < |prefix| ==> prefix[i] == records[i];
      match decode(records[|records| - 1])
      case None => m
      case Some(kv) => m[kv.0 := kv.1]
  }

  /** The value stored under a key is the one decoded from the last record
      carrying that key; `i` is that record's index. */
  lemma {:induction false} LastWinsIsLast<V>(records: seq<string>, decode: string -> Option<(string, V)>, key: string)
    returns (i: nat)
    requires key in LastWins(records, decode)
    ensures i < |records| && decode(records[i]) == Some((key, LastWins(records, decode)[key]))
    ensures forall j :: i < j < |records| ==> !DecodesKey(decode(records[j]), key)
    decreases |records|
  {
    var last := |records| - 1;
    var prefix := records[..last];
    var m := LastWins(records, decode);
    var m' := LastWins(prefix, decode);
    if DecodesKey(decode(records[last]), key) {
      i := last;
    } else {
      assert key in m' && m[key] == m'[key] by {
        match decode(records[last])
        case None =>
        case Some(kv) => assert kv.0 != key;
      }
      i := LastWinsIsLast(prefix, decode, key);
      assert prefix[i] == records[i];
      forall j | i < j < |records|
        ensures !DecodesKey(decode(records[j]), key)
      {
        if j < last {
          assert prefix[j] == records[j];
        }
      }
    }
  }

  // ---------------------------------------------------------------------
  // ~C concepts
  // ---------------------------------------------------------------------

  /** `parse_concepts` for one record: a `~C|` record yields its code (field
      1), unit (field 2, absent when empty), summary (field 3, empty when
      missing) and price (field 6, 0.0 when missing, empty or unparseable). */
  function ConceptEntry(rec: string, num: NumParser): (r: Option<(string, Concept)>)
    ensures r.Some? <==> StartsWith(rec, "~C|")
    ensures r.Some? ==> var code := r.value.0;
      && r.value.1.code == code && '|' !in code
      && StartsWith(rec, "~C|" + code) && (|rec| == |code| + 3 || rec[|code| + 3] == '|')
    ensures r.Some? ==> var f := Split(rec, '|');
      && (r.value.1.unit.None? <==> |f| <= 2 || f[2] == "")
      && (r.value.1.unit.Some? ==> r.value.1.unit.value == f[2])
      && (|f| <= 3 ==> r.value.1.summary == "")
      && (|f| > 3 ==> r.value.1.summary == f[3])
      && (|f| <= 6 || f[6] == "" || num(f[6]).None? ==> r.value.1.price == 0.0)
      && (|f| > 6 && f[6] != "" && num(f[6]).Some? ==> r.value.1.price == num(f[6]).value)
  {
    if !StartsWith(rec, "~C|") then None
    else
      var f := Split(rec, '|');
      TagFields(rec, "~C");
      assert rec[..3] + rec[3..][..|f[1]|] == rec[..|f[1]| + 3];
      if |f| < 2 then None
      else
        var code := f[1];
        var unit := if |f| > 2 && f[2] != "" then Some(f[2]) else None;
        var summary := if |f| > 3 then f[3] else "";
        var price := if |f| > 6 && f[6] != "" then num(f[6]).GetOr(0.0) else 0.0;
        Some((code, Concept(code, unit, summary, price)))
  }

  /** `parse_concepts`: code to concept, the last `~C` record of a code
      winning. */
  function ParseConcepts(records: seq<string>, num: NumParser): (concepts: map<string, Concept>)
    ensures forall code :: code in concepts <==>
      exists i :: 0 <= i < |records| && DecodesKey(ConceptEntry(records[i], num), code)
    ensures forall code :: code in concepts ==> concepts[code].code == code && '|' !in code
  {
    var decode: string -> Option<(string, Concept)> := rec => ConceptEntry(rec, num);
    var m := LastWins(records, decode);
    forall code | code in m
      ensures m[code].code == code
    {
      var _ := LastWinsIsLast(records, decode, code);
    }
    m
  }

  // ---------------------------------------------------------------------
  // ~T long texts
  // ---------------------------------------------------------------------

  /** `parse_texts` for one record: a `~T|code|body` record yields the code
      and the whole body, `|` characters included, with surrounding white
      space stripped. */
  function TextEntry(rec: string): (r: Option<(string, string)>)
    ensures r.Some? <==> StartsWith(rec, "~T|") && '|' in rec[3..]
    ensures r.Some? ==> var code := r.value.0;
      && '|' !in code && |code| + 4 <= |rec| && rec[..|code| + 4] == "~T|" + code + "|"
      && r.value.1 == Strip(rec[|code| + 4..])
  {
    if !StartsWith(rec, "~T|") then None
    else
      var f := Split(rec, '|');
      TextFields(rec);
      if |f| < 3 then None
      else Some((f[1], Strip(Join(f[2..], '|'))))
  }

  /** A `~T|` record has a body exactly when a second `|` follows the tag;
      the body is then all the text after that `|`. */
  lemma TextFields(rec: string)
    requires StartsWith(rec, "~T|")
    ensures var f := Split(rec, '|');
      && (|f| >= 3 <==> '|' in rec[3..])
      && (|f| >= 3 ==>
           && '|' !in f[1] && |f[1]| + 4 <= |rec| && rec[..|f[1]| + 4] == "~T|" + f[1] + "|"
           && Join(f[2..], '|') == rec[|f[1]| + 4..])
  {
    var f := Split(rec, '|');
    TagFields(rec, "~T");
    if |f| >= 3 {
      assert rec[..3] + rec[3..][..|f[1]| + 1] == rec[..|f[1]| + 4];
      assert rec[3..][|f[1]| + 1..] == rec[|f[1]| + 4..];
    }
  }

  /** `parse_texts`: code to long text, the last `~T` record of a code
      winning. */
  function ParseTexts(records: seq<string>): (texts: map<string, string>)
    ensures forall code :: code in texts <==>
      exists i :: 0 <= i < |records| && DecodesKey(TextEntry(records[i]), code)
    ensures forall code :: code in texts ==> '|' !in code
  {
    var m := LastWins(records, TextEntry);
    forall code | code in m
      ensures '|' !in code
    {
      var _ := LastWinsIsLast(records, TextEntry, code);
    }
    m
  }

  // ---------------------------------------------------------------------
  // ~D decompositions
  // ---------------------------------------------------------------------

  predicate IsChildPrefix(ch: char) {
    ch == '\\' || ch == '|'
  }

  /** A child code as the decomposition decoder can produce it. */
  predicate ValidChildCode(code: string) {
    code != "" && '\\' !in code && !IsChildPrefix(code[0])
  }

  /** One line of a `~D` children block: strip it, drop leading `\` and `|`,
      then the text up to the next `\` is the child code and the segment
      after it the factor (0.0 when missing, empty or unparseable). */
  function ChildLine(line: string, num: NumParser): (r: Option<Child>)
    ensures var s := LStrip(Strip(line), IsChildPrefix);
      r.None? <==> s == ""
    ensures var s := LStrip(Strip(line), IsChildPrefix);
      r.Some? ==>
        && ValidChildCode(r.value.code)
        && StartsWith(s, r.value.code) && (|s| == |r.value.code| || s[|r.value.code|] == '\\')
    ensures var segs := Split(LStrip(Strip(line), IsChildPrefix), '\\');
      r.Some? ==>
        && (|segs| <= 1 || segs[1] == "" || num(segs[1]).None? ==> r.value.factor == 0.0)
        && (|segs| > 1 && segs[1] != "" && num(segs[1]).Some? ==> r.value.factor == num(segs[1]).value)
  {
    var s := Strip(line);
    if s == "" then None
    else
      var s := LStrip(s, IsChildPrefix);
      if s == "" then None
      else
        var segs := Split(s, '\\');
        SplitHead(s, '\\');
        if segs[0] == "" then None
        else
          var factor := if |segs| > 1 && segs[1] != "" then num(segs[1]).GetOr(0.0) else 0.0;
          Some(Child(segs[0], factor))
  }

  /** The values `f` yields on `xs`, in order, the items it yields nothing
      for skipped: the shape of the decoder's `for line in lines` loop. */
  function Keep<T>(xs: seq<string>, f: string -> Option<T>): (ys: seq<T>)
    ensures |ys| <= |xs|
    ensures forall j :: 0 <= j < |ys| ==> exists i :: 0 <= i < |xs| && f(xs[i]) == Some(ys[j])
    ensures ys == [] <==> forall i :: 0 <= i < |xs| ==> f(xs[i]).None?
    decreases |xs|
  {
    if xs == [] then []
    else
      var rest := Keep(xs[1..], f);
      assert forall i :: 1 <= i < |xs| ==> xs[i] == xs[1..][i - 1];
      match f(xs[0])
      case Some(y) =>
        assert forall j :: 1 <= j < |rest| + 1 ==> ([y] + rest)[j] == rest[j - 1];
        [y] + rest
      case None => rest
  }

  /** Keeping works line by line: the values of a concatenation are the
      values of its first part followed by those of its second part, so
      every kept value sits in the order of the item it came from. */
  lemma {:induction false} KeepConcat<T>(a: seq<string>, b: seq<string>, f: string -> Option<T>)
    ensures Keep(a + b, f) == Keep(a, f) + Keep(b, f)
    decreases |a|
  {
    if a == [] {
      assert a + b == b;
    } else {
      assert (a + b)[0] == a[0] && (a + b)[1..] == a[1..] + b;
      KeepConcat(a[1..], b, f);
    }
  }

  /** The children of a block, in line order, lines yielding no child
      skipped. */
  function ChildLines(lines: seq<string>, num: NumParser): (children: seq<Child>)
    ensures |children| <= |lines|
    ensures forall i :: 0 <= i < |children| ==> ValidChildCode(children[i].code)
    ensures children == [] <==> forall i :: 0 <= i < |lines| ==> ChildLine(lines[i], num).None?
  {
    var decode: string -> Option<Child> := line => ChildLine(line, num);
    var children := Keep(lines, decode);
    assert forall i :: 0 <= i < |lines| ==> decode(lines[i]) == ChildLine(lines[i], num);
    children
  }

  /** `parse_decompositions` for one record: `~D|parent|block` is cut by a
      split limited to two cuts, so the block keeps every further `|`; the
      parent is stripped and must be non-empty, and the block's lines must
      give at least one child. */
  function DecompEntry(rec: string, num: NumParser): (r: Option<(string, seq<Child>)>)
    ensures var f := Split(rec, '|');
      r.Some? <==>
        && StartsWith(rec, "~D|") && |f| >= 3 && Strip(f[1]) != ""
        && ChildLines(Split(Join(f[2..], '|'), '\n'), num) != []
    ensures var f := Split(rec, '|');
      r.Some? ==> r.value == (Strip(f[1]), ChildLines(Split(Join(f[2..], '|'), '\n'), num))
    ensures r.Some? ==> var parent := r.value.0;
      && parent != "" && !IsSpace(parent[0]) && !IsSpace(parent[|parent| - 1])
      && |r.value.1| > 0 && forall i :: 0 <= i < |r.value.1| ==> ValidChildCode(r.value.1[i].code)
  {
    if !StartsWith(rec, "~D|") then None
    else
      var parts := SplitMax(rec, '|', 2);
      var f := Split(rec, '|');
      SplitMaxIsCapped(rec, '|', 2);
      assert |f| == 3 ==> f[2..] == [f[2]];
      if |parts| < 3 then None
      else
        var parent := Strip(parts[1]);
        if parent == "" then None
        else
          var children := ChildLines(Split(parts[2], '\n'), num);
          if children == [] then None
          else Some((parent, children))
  }

  /** `parse_decompositions`: parent code to its children in line order, the
      last `~D` record of a parent that has children winning. */
  function ParseDecompositions(records: seq<string>, num: NumParser): (decomp: map<string, seq<Child>>)
    ensures forall parent :: parent in decomp <==>
      exists i :: 0 <= i < |records| && DecodesKey(DecompEntry(records[i], num), parent)
    ensures forall parent :: parent in decomp ==>
      && parent != "" && |decomp[parent]| > 0
      && forall i :: 0 <= i < |decomp[parent]| ==> ValidChildCode(decomp[parent][i].code)
  {
    var decode: string -> Option<(string, seq<Child>)> := rec => DecompEntry(rec, num);
    var m: map<string, seq<Child>> := LastWins(records, decode);
    forall parent | parent in m
      ensures parent != "" && |m[parent]| > 0
      ensures forall i :: 0 <= i < |m[parent]| ==> ValidChildCode(m[parent][i].code)
    {
      var _ := LastWinsIsLast(records, decode, parent);
    }
    m
  }

  // ---------------------------------------------------------------------
  // ~M measurements
  // ---------------------------------------------------------------------

  /** `key` is the tail of `s` after its last `\`, or all of `s`. */
  predicate EndSegment(s: string, key: string) {
    |key| <= |s| && key == s[|s| - |key|..] && (|key| == |s| || s[|s| - |key| - 1] == '\\')
  }

  /** The concept a `~M` header names: its last `\`-segment, or the one
      before when the last is empty, or the whole header when it has no `\`. */
  function MeasureKey(header: string): (key: string)
    ensures '\\' !in key
    ensures '\\' !in header ==> key == header
    ensures header != [] && header[|header| - 1] != '\\' ==> key != [] && EndSegment(header, key)
    ensures header != [] && header[|header| - 1] == '\\' ==> EndSegment(header[..|header| - 1], key)
  {
    var parts := Split(header, '\\');
    LastSegment(header);
    if parts[|parts| - 1] != "" then parts[|parts| - 1]
    else if |parts| > 1 then
      var h := header[..|header| - 1];
      assert header == h + ['\\'];
      SplitSnoc(h, '\\', '\\');
      LastSegment(h);
      parts[|parts| - 2]
    else header
  }

  /** The last `\`-part of a split is the tail after the last `\`; there
      is more than one part exactly when that tail is shorter than `s`. */
  lemma LastSegment(s: string)
    ensures var f := Split(s, '\\');
      EndSegment(s, f[|f| - 1]) && (|f| > 1 <==> |f[|f| - 1]| < |s|)
  {
    SplitLast(s, '\\');
  }

  /** `parse_measurements` for one record: a `~M|header|...|total` record
      with at least three fields yields the header's key and the parsed last
      field; an unparseable total yields nothing. */
  function MeasureEntry(rec: string, num: NumParser): (r: Option<(string, real)>)
    ensures var f := Split(rec, '|');
      r.Some? <==> StartsWith(rec, "~M|") && |f| >= 3 && num(f[|f| - 1]).Some?
    ensures var f := Split(rec, '|');
      r.Some? ==> r.value == (MeasureKey(f[1]), num(f[|f| - 1]).value)
    ensures var last := Split(rec, '|')[|Split(rec, '|')| - 1];
      r.Some? ==> |last| < |rec| && rec[|rec| - |last|..] == last && rec[|rec| - |last| - 1] == '|'
  {
    if !StartsWith(rec, "~M|") then None
    else
      var f := Split(rec, '|');
      SplitLast(rec, '|');
      if |f| < 3 then None
      else
        var key := MeasureKey(f[1]);
        match num(f[|f| - 1])
        case None => None
        case Some(total) => Some((key, total))
  }

  /** `parse_measurements`: the running per-key sums over the records in
      order. */
  function ParseMeasurements(records: seq<string>, num: NumParser): (totals: map<string, real>)
    decreases |records|
  {
    if records == [] then map[]
    else
      var m := ParseMeasurements(records[..|records| - 1], num);
      match MeasureEntry(records[|records| - 1], num)
      case None => m
      case Some(kt) => m[kt.0 := (if kt.0 in m then m[kt.0] else 0.0) + kt.1]
  }

  /** What one record adds to the total of `key`. */
  function Contribution(rec: string, key: string, num: NumParser): real {
    match MeasureEntry(rec, num)
    case Some(kt) => if kt.0 == key then kt.1 else 0.0
    case None => 0.0
  }

  /** The sum of the contributions of all records to `key`, front to back. */
  function TotalFor(records: seq<string>, key: string, num: NumParser): real
    decreases |records|
  {
    if records == [] then 0.0 else Contribution(records[0], key, num) + TotalFor(records[1..], key, num)
  }

  lemma {:induction false} TotalForSnoc(records: seq<string>, rec: string, key: string, num: NumParser)
    ensures TotalFor(records + [rec], key, num) == TotalFor(records, key, num) + Contribution(rec, key, num)
    decreases |records|
  {
    if records == [] {
      assert [rec][1..] == [];
    } else {
      assert (records + [rec])[1..] == records[1..] + [rec];
      TotalForSnoc(records[1..], rec, key, num);
    }
  }

  /** A key has a measured total exactly when some `~M` record with a
      parseable total names it. */
  lemma {:induction false} MeasuredKeys(records: seq<string>, num: NumParser, key: string)
    ensures key in ParseMeasurements(records, num) <==>
      exists i :: 0 <= i < |records| && DecodesKey(MeasureEntry(records[i], num), key)
    decreases |records|
  {
    if records != [] {
      var prefix := records[..|records| - 1];
      var last := records[|records| - 1];
      MeasuredKeys(prefix, num, key);
      assert prefix + [last] == records;
      AccumulateStep(prefix, last, num, key);
      if key in ParseMeasurements(records, num) {
        if key in ParseMeasurements(prefix, num) {
          var i :| 0 <= i < |prefix| && DecodesKey(MeasureEntry(prefix[i], num), key);
          assert records[i] == prefix[i];
        } else {
          assert DecodesKey(MeasureEntry(records[|records| - 1], num), key);
        }
      } else {
        forall i | 0 <= i < |records| ensures !DecodesKey(MeasureEntry(records[i], num), key) {
          if i < |prefix| {
            assert records[i] == prefix[i];
          }
        }
      }
    }
  }

  /** Each key's measured total is the sum of the parseable totals of its
      `~M` records; a key no record contributes to is absent. */
  lemma {:induction false} MeasurementsAreSums(records: seq<string>, num: NumParser, key: string)
    ensures key in ParseMeasurements(records, num) ==>
      ParseMeasurements(records, num)[key] == TotalFor(records, key, num)
    ensures key !in ParseMeasurements(records, num) ==> TotalFor(records, key, num) == 0.0
    decreases |records|
  {
    if records != [] {
      var prefix := records[..|records| - 1];
      var last := records[|records| - 1];
      MeasurementsAreSums(prefix, num, key);
      assert prefix + [last] == records;
      TotalForSnoc(prefix, last, key, num);
      AccumulateStep(prefix, last, num, key);
      var m := ParseMeasurements(prefix, num);
      var m' := ParseMeasurements(records, num);
      var c := Contribution(last, key, num);
      assert TotalFor(records, key, num) == TotalFor(prefix, key, num) + c;
      if key in m' {
        if key !in m {
          assert TotalFor(prefix, key, num) == 0.0;
        }
      } else {
        assert !DecodesKey(MeasureEntry(last, num), key);
        assert c == 0.0;
      }
    }
  }

  /** One more record changes the total of `key` by that record's
      contribution, and creates the key only if it contributes. */
  lemma AccumulateStep(prefix: seq<string>, last: string, num: NumParser, key: string)
    ensures var m := ParseMeasurements(prefix, num);
      var m' := ParseMeasurements(prefix + [last], num);
      && (key in m' <==> key in m || DecodesKey(MeasureEntry(last, num), key))
      && (key in m' ==> m'[key] == (if key in m then m[key] else 0.0) + Contribution(last, key, num))
  {
  }
}
