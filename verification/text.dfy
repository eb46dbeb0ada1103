/** The handful of Python `str` operations the parser relies on, modelled on
    `seq<char>`: `startswith`, `split` (unlimited and limited), `join`,
    `strip`/`lstrip`, `find` and `rfind` for one character. */
module Text {

  /** Python `s.startswith(prefix)`. */
  predicate StartsWith(s: string, prefix: string) {
    |prefix| <= |s| && s[..|prefix|] == prefix
  }

  lemma StartsWithTrans(s: string, a: string, b: string)
    requires StartsWith(s, a) && StartsWith(a, b)
    ensures StartsWith(s, b)
  {
    assert s[..|b|] == s[..|a|][..|b|];
  }

  /** Python `s.split(sep)` for a one-character separator: every occurrence of
      `sep` cuts, so there is always one more part than separators. */
  function Split(s: string, sep: char): (parts: seq<string>)
    ensures |parts| >= 1
    ensures forall k :: 0 <= k < |parts| ==> sep !in parts[k]
    decreases |s|
  {
    if s == [] then [""]
    else
      var rest := Split(s[1..], sep);
      if s[0] == sep then [""] + rest
      else [[s[0]] + rest[0]] + rest[1..]
  }

  /** Python `sep.join(parts)`. */
  function Join(parts: seq<string>, sep: char): string
    decreases |parts|
  {
    if parts == [] then ""
    else if |parts| == 1 then parts[0]
    else parts[0] + [sep] + Join(parts[1..], sep)
  }

  /** Python `s.split(sep, max)`: at most `max` cuts, the last part keeps the
      remaining text verbatim. */
  function SplitMax(s: string, sep: char, max: nat): (parts: seq<string>)
    ensures 1 <= |parts| <= max + 1
    decreases |s|
  {
    if max == 0 || s == [] then [s]
    else if s[0] == sep then [""] + SplitMax(s[1..], sep, max - 1)
    else
      var rest := SplitMax(s[1..], sep, max);
      [[s[0]] + rest[0]] + rest[1..]
  }

  /** Joining the parts of a split gives back the text. */
  lemma {:induction false} JoinSplit(s: string, sep: char)
    ensures Join(Split(s, sep), sep) == s
    decreases |s|
  {
    if s != [] {
      var rest := Split(s[1..], sep);
      JoinSplit(s[1..], sep);
      if s[0] == sep {
        assert Split(s, sep) == [""] + rest;
        if |rest| == 1 {
          assert Join(Split(s, sep), sep) == "" + [sep] + rest[0];
        } else {
          assert ([""] + rest)[1..] == rest;
        }
      } else {
        var parts := Split(s, sep);
        assert parts == [[s[0]] + rest[0]] + rest[1..];
        if |rest| == 1 {
          assert Join(parts, sep) == [s[0]] + rest[0];
        } else {
          assert parts[1..] == rest[1..];
          assert Join(rest, sep) == rest[0] + [sep] + Join(rest[1..], sep);
          assert s == [s[0]] + s[1..];
        }
      }
    }
  }

  /** A separator-free piece followed by the separator is cut off as one part. */
  lemma {:induction false} SplitAfterPiece(a: string, sep: char, b: string)
    requires sep !in a
    ensures Split(a + [sep] + b, sep) == [a] + Split(b, sep)
    decreases |a|
  {
    if a == [] {
      assert a + [sep] + b == [sep] + b;
      assert ([sep] + b)[1..] == b;
    } else {
      SplitAfterPiece(a[1..], sep, b);
      assert (a + [sep] + b)[1..] == a[1..] + [sep] + b;
      assert [a[0]] + a[1..] == a;
    }
  }

  /** A separator-free text is a single part. */
  lemma {:induction false} SplitPiece(a: string, sep: char)
    requires sep !in a
    ensures Split(a, sep) == [a]
    decreases |a|
  {
    if a != [] {
      SplitPiece(a[1..], sep);
      assert [a[0]] + a[1..] == a;
    }
  }

  /** Splitting a join of separator-free parts gives back the parts. */
  lemma {:induction false} SplitJoin(parts: seq<string>, sep: char)
    requires |parts| >= 1
    requires forall k :: 0 <= k < |parts| ==> sep !in parts[k]
    ensures Split(Join(parts, sep), sep) == parts
    decreases |parts|
  {
    if |parts| == 1 {
      SplitPiece(parts[0], sep);
    } else {
      SplitJoin(parts[1..], sep);
      SplitAfterPiece(parts[0], sep, Join(parts[1..], sep));
      assert [parts[0]] + parts[1..] == parts;
    }
  }

  /** The first part of a split runs up to the first separator; the other
      parts are the split of what follows that separator. */
  lemma {:induction false} SplitHead(s: string, sep: char)
    ensures var f := Split(s, sep);
      && |f[0]| <= |s| && f[0] == s[..|f[0]|]
      && (|f| == 1 <==> sep !in s)
      && (|f| == 1 ==> f[0] == s)
      && (|f| > 1 ==> |f[0]| < |s| && s[|f[0]|] == sep && f[1..] == Split(s[|f[0]| + 1..], sep))
    decreases |s|
  {
    if s != [] {
      SplitHead(s[1..], sep);
      var f := Split(s, sep);
      var f' := Split(s[1..], sep);
      if s[0] == sep {
        assert f == [""] + f';
        assert f[1..] == f';
      } else {
        assert f == [[s[0]] + f'[0]] + f'[1..];
        assert sep in s <==> sep in s[1..];
        if |f'| > 1 {
          assert s[|f[0]| + 1..] == s[1..][|f'[0]| + 1..];
        } else {
          assert s == [s[0]] + s[1..];
        }
      }
    }
  }

  /** The split of `s` with one more character appended: a separator opens
      a new, empty last part, any other character extends the last part. */
  function Snoc(f: seq<string>, c: char, sep: char): seq<string>
    requires |f| >= 1
  {
    if c == sep then f + [""] else f[..|f| - 1] + [f[|f| - 1] + [c]]
  }

  lemma {:induction false} SplitSnoc(s: string, c: char, sep: char)
    ensures Split(s + [c], sep) == Snoc(Split(s, sep), c, sep)
    decreases |s|
  {
    if s == [] {
      SplitSnocEmpty(c, sep);
    } else {
      SplitSnoc(s[1..], c, sep);
      assert (s + [c])[1..] == s[1..] + [c];
      assert (s + [c])[0] == s[0];
      if s[0] == sep {
        SplitSnocAfterSep(s, c, sep);
      } else {
        SplitSnocAfterChar(s, c, sep);
      }
    }
  }

  lemma SplitSnocEmpty(c: char, sep: char)
    ensures Split([c], sep) == Snoc(Split([], sep), c, sep)
  {
    assert [c][1..] == [];
    var rest := Split([c][1..], sep);
    assert rest == [""];
    if c != sep {
      assert [c] + rest[0] == [c] && rest[1..] == [];
      assert Split([c], sep) == [[c]];
      assert [""][..0] == [] && "" + [c] == [c];
      assert Snoc([""], c, sep) == [[c]];
    }
  }

  lemma SplitSnocAfterSep(s: string, c: char, sep: char)
    requires s != [] && s[0] == sep
    requires Split(s[1..] + [c], sep) == Snoc(Split(s[1..], sep), c, sep)
    ensures Split(s + [c], sep) == Snoc(Split(s, sep), c, sep)
  {
    var f' := Split(s[1..], sep);
    assert (s + [c])[1..] == s[1..] + [c];
    assert Split(s, sep) == [""] + f';
    assert Split(s + [c], sep) == [""] + Snoc(f', c, sep);
    if c != sep {
      assert ([""] + f')[..|f'|] == [""] + f'[..|f'| - 1];
    }
  }

  lemma SplitSnocAfterChar(s: string, c: char, sep: char)
    requires s != [] && s[0] != sep
    requires Split(s[1..] + [c], sep) == Snoc(Split(s[1..], sep), c, sep)
    ensures Split(s + [c], sep) == Snoc(Split(s, sep), c, sep)
  {
    var f' := Split(s[1..], sep);
    var rest := Snoc(f', c, sep);
    assert (s + [c])[1..] == s[1..] + [c];
    assert Split(s, sep) == [[s[0]] + f'[0]] + f'[1..];
    assert Split(s + [c], sep) == [[s[0]] + rest[0]] + rest[1..];
    SnocCons(s[0], f', c, sep);
  }

  /** Extending the first part commutes with `Snoc`. */
  lemma SnocCons(ch: char, f': seq<string>, c: char, sep: char)
    requires |f'| >= 1
    ensures var rest := Snoc(f', c, sep);
      [[ch] + rest[0]] + rest[1..] == Snoc([[ch] + f'[0]] + f'[1..], c, sep)
  {
    var rest := Snoc(f', c, sep);
    var f := [[ch] + f'[0]] + f'[1..];
    var n' := |f'|;
    if c == sep {
      assert rest[0] == f'[0] && rest[1..] == f'[1..] + [""];
    } else if n' == 1 {
      assert rest == [f'[0] + [c]];
      assert [ch] + (f'[0] + [c]) == ([ch] + f'[0]) + [c];
    } else {
      assert rest[0] == f'[0] && rest[1..] == f'[1..n' - 1] + [f'[n' - 1] + [c]];
      assert f[..|f| - 1] == [[ch] + f'[0]] + f'[1..n' - 1];
    }
  }

  /** The last part of a split is the text after the last separator. */
  lemma {:induction false} SplitLast(s: string, sep: char)
    ensures var f := Split(s, sep); var l := f[|f| - 1];
      && |l| <= |s| && l == s[|s| - |l|..]
      && (|f| > 1 <==> |l| < |s|)
      && (|l| < |s| ==> s[|s| - |l| - 1] == sep)
    decreases |s|
  {
    if s != [] {
      var t := s[..|s| - 1];
      var c := s[|s| - 1];
      assert s == t + [c];
      SplitLast(t, sep);
      SplitSnoc(t, c, sep);
    }
  }

  /** The parts of a full split `f` capped at `max` cuts: the first `max`
      parts, then the rest re-joined. */
  function Capped(f: seq<string>, sep: char, max: nat): seq<string> {
    if |f| <= max + 1 then f else f[..max] + [Join(f[max..], sep)]
  }

  /** A limited split agrees with the full split on the first `max` parts and
      keeps the rest, re-joined, as its last part. */
  lemma {:induction false} SplitMaxIsCapped(s: string, sep: char, max: nat)
    ensures SplitMax(s, sep, max) == Capped(Split(s, sep), sep, max)
    decreases |s|
  {
    if max == 0 {
      CappedZero(s, sep);
    } else if s == [] {
    } else if s[0] == sep {
      SplitMaxIsCapped(s[1..], sep, max - 1);
      CappedAfterSep(s, sep, max);
    } else {
      SplitMaxIsCapped(s[1..], sep, max);
      CappedAfterChar(s, sep, max);
    }
  }

  lemma CappedZero(s: string, sep: char)
    ensures SplitMax(s, sep, 0) == Capped(Split(s, sep), sep, 0)
  {
    var f := Split(s, sep);
    JoinSplit(s, sep);
    if |f| <= 1 {
      assert f == [f[0]];
    } else {
      assert f[0..] == f;
    }
  }

  lemma CappedAfterSep(s: string, sep: char, max: nat)
    requires max > 0 && s != [] && s[0] == sep
    requires SplitMax(s[1..], sep, max - 1) == Capped(Split(s[1..], sep), sep, max - 1)
    ensures SplitMax(s, sep, max) == Capped(Split(s, sep), sep, max)
  {
    var f := Split(s, sep);
    var f' := Split(s[1..], sep);
    assert f == [""] + f';
    if |f| > max + 1 {
      assert f[max..] == f'[max - 1..];
      assert f[..max] == [""] + f'[..max - 1];
    }
  }

  lemma CappedAfterChar(s: string, sep: char, max: nat)
    requires max > 0 && s != [] && s[0] != sep
    requires SplitMax(s[1..], sep, max) == Capped(Split(s[1..], sep), sep, max)
    ensures SplitMax(s, sep, max) == Capped(Split(s, sep), sep, max)
  {
    var f := Split(s, sep);
    var f' := Split(s[1..], sep);
    var rest := SplitMax(s[1..], sep, max);
    assert f == [[s[0]] + f'[0]] + f'[1..];
    if |f| > max + 1 {
      var tail := Join(f'[max..], sep);
      assert rest == f'[..max] + [tail];
      assert f[max..] == f'[max..];
      assert rest[0] == f'[0];
      assert rest[1..] == f'[1..max] + [tail];
      assert f[..max] == [[s[0]] + f'[0]] + f'[1..max];
    }
  }

  /** Python's `str.isspace()` for one character: the characters `strip()`
      with no argument removes. */
  predicate IsSpace(ch: char) {
    var k := ch as int;
    (9 <= k <= 13) || (28 <= k <= 32) || k == 0x85 || k == 0xA0 || k == 0x1680
    || (0x2000 <= k <= 0x200A) || k == 0x2028 || k == 0x2029 || k == 0x202F
    || k == 0x205F || k == 0x3000
  }

  /** Python `s.lstrip(chars)`: drops the longest prefix of dropped characters. */
  function LStrip(s: string, drop: char -> bool): (r: string)
    ensures |r| <= |s| && r == s[|s| - |r|..]
    ensures forall i :: 0 <= i < |s| - |r| ==> drop(s[i])
    ensures r != [] ==> !drop(r[0])
    decreases |s|
  {
    if s != [] && drop(s[0]) then LStrip(s[1..], drop) else s
  }

  /** Python `s.rstrip(chars)`: drops the longest suffix of dropped characters. */
  function RStrip(s: string, drop: char -> bool): (r: string)
    ensures |r| <= |s| && r == s[..|r|]
    ensures forall i :: |r| <= i < |s| ==> drop(s[i])
    ensures r != [] ==> !drop(r[|r| - 1])
    decreases |s|
  {
    if s != [] && drop(s[|s| - 1]) then RStrip(s[..|s| - 1], drop) else s
  }

  /** Every character of `s` is white space. */
  predicate AllSpace(s: string) {
    forall i :: 0 <= i < |s| ==> IsSpace(s[i])
  }

  /** `r` is the slice of `s` that starts at `a`, with nothing but white
      space before and after it in `s`. */
  predicate TrimmedAt(s: string, a: nat, r: string) {
    && a + |r| <= |s| && r == s[a..a + |r|]
    && AllSpace(s[..a]) && AllSpace(s[a + |r|..])
  }

  /** Python `s.strip()`: the text between leading and trailing white space. */
  function Strip(s: string): (r: string)
    ensures TrimmedAt(s, |s| - |LStrip(s, IsSpace)|, r)
    ensures r != [] ==> !IsSpace(r[0]) && !IsSpace(r[|r| - 1])
  {
    var l := LStrip(s, IsSpace);
    var r := RStrip(l, IsSpace);
    StripSlices(s, l, r);
    r
  }

  /** Cutting a suffix of white space from a suffix of `s` that follows only
      white space leaves a slice of `s` with only white space around it. */
  lemma StripSlices(s: string, l: string, r: string)
    requires |l| <= |s| && l == s[|s| - |l|..]
    requires forall i :: 0 <= i < |s| - |l| ==> IsSpace(s[i])
    requires |r| <= |l| && r == l[..|r|]
    requires forall i :: |r| <= i < |l| ==> IsSpace(l[i])
    requires l != [] ==> !IsSpace(l[0])
    requires r != [] ==> !IsSpace(r[|r| - 1])
    ensures TrimmedAt(s, |s| - |l|, r)
    ensures r != [] ==> !IsSpace(r[0]) && !IsSpace(r[|r| - 1])
  {
    var a := |s| - |l|;
    var lead, trail := s[..a], s[a + |r|..];
    forall i | 0 <= i < |trail| ensures IsSpace(trail[i]) {
      assert trail[i] == l[|r| + i];
    }
    forall i | 0 <= i < a ensures IsSpace(lead[i]) {
      assert lead[i] == s[i];
    }
  }

  /** Python `s.find(c, from)`: the first index at or after `from` holding
      `c`, or -1. */
  function FindChar(s: string, c: char, from: nat): (r: int)
    ensures r == -1 || (from <= r < |s| && s[r] == c)
    ensures forall k :: from <= k < |s| && (r == -1 || k < r) ==> s[k] != c
    decreases |s| - from
  {
    if from >= |s| then -1
    else if s[from] == c then from
    else FindChar(s, c, from + 1)
  }

  /** Python `s.rfind(c)`: the last index holding `c`, or -1. */
  function RFindChar(s: string, c: char): (r: int)
    ensures -1 <= r < |s|
    ensures r >= 0 ==> s[r] == c
    ensures forall k :: r < k < |s| ==> s[k] != c
    decreases |s|
  {
    if s == [] then -1
    else if s[|s| - 1] == c then |s| - 1
    else RFindChar(s[..|s| - 1], c)
  }
}
