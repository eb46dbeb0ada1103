/** The record scanner of a BC3 text (`load_records`): line endings are
    normalised, then the text is cut into records, each running from a `~`
    up to, not including, the `|` of the next `|` + newline pair. */
module Records {
  import opened Text
  import opened Wrappers

  /** Python `s.replace("\r\n", "\n")`: pairs are replaced left to right and
      never overlap. */
  function NormalizeNewlines(s: string): (r: string)
    ensures DropCarriageReturns(r) == DropCarriageReturns(s)
    ensures NoCrLf(s) ==> r == s
    ensures |r| <= |s|
    decreases |s|
  {
    if s == [] then []
    else if |s| >= 2 && s[0] == '\r' && s[1] == '\n' then
      var rest := NormalizeNewlines(s[2..]);
      assert ("\n" + rest)[1..] == rest;
      assert s[1..][1..] == s[2..];
      "\n" + rest
    else
      var rest := NormalizeNewlines(s[1..]);
      assert ([s[0]] + rest)[1..] == rest;
      [s[0]] + rest
  }

  /** The reference reading of the replacement, one index at a time: every
      carriage return that a newline follows is deleted, every other
      character is kept. Two `\r\n` pairs never overlap, so this is exactly
      what replacing each pair by `\n` does. */
  function DropPairedCr(s: string): string
    decreases |s|
  {
    if s == [] then []
    else (if |s| >= 2 && s[0] == '\r' && s[1] == '\n' then [] else [s[0]]) + DropPairedCr(s[1..])
  }

  /** The replacement deletes exactly the carriage returns of `\r\n` pairs. */
  lemma {:induction false} NormalizeDropsPairedCr(s: string)
    ensures NormalizeNewlines(s) == DropPairedCr(s)
    decreases |s|
  {
    if s != [] {
      if |s| >= 2 && s[0] == '\r' && s[1] == '\n' {
        NormalizeDropsPairedCr(s[2..]);
        assert s[1..][1..] == s[2..];
        assert DropPairedCr(s[1..]) == "\n" + DropPairedCr(s[2..]);
      } else {
        NormalizeDropsPairedCr(s[1..]);
      }
    }
  }

  /** The text with every carriage return removed: the replacement only ever
      deletes a carriage return, so this view is unchanged by it. */
  function DropCarriageReturns(s: string): string
    decreases |s|
  {
    if s == [] then []
    else (if s[0] == '\r' then [] else [s[0]]) + DropCarriageReturns(s[1..])
  }

  predicate NoCrLf(s: string) {
    forall i :: 0 <= i < |s| - 1 ==> !(s[i] == '\r' && s[i + 1] == '\n')
  }

  /** A record terminator, `|` followed by a newline, starts at index `k`. */
  predicate TerminatorAt(text: string, k: int) {
    0 <= k && k + 1 < |text| && text[k] == '|' && text[k + 1] == '\n'
  }

  /** Python `text.find("|\n", from)`. */
  function FindTerminator(text: string, from: nat): (r: int)
    ensures r == -1 || (from <= r && TerminatorAt(text, r))
    ensures forall k :: from <= k < |text| && (r == -1 || k < r) ==> !TerminatorAt(text, k)
    decreases |text| - from
  {
    if from >= |text| then -1
    else if TerminatorAt(text, from) then from
    else FindTerminator(text, from + 1)
  }

  /** `start` is the first `~` at or after `from`. */
  ghost predicate FirstMarker(text: string, from: int, start: int) {
    0 <= from <= start < |text| && text[start] == '~'
    && forall j :: from <= j < start ==> text[j] != '~'
  }

  /** A record found when scanning from `from` occupies `text[start..end]`:
      `start` is the first marker, and `end` is the first terminator after it
      or, when there is none, the last `|` of the whole text, which must lie
      after the marker. */
  ghost predicate ScannedAt(text: string, from: int, start: int, end: int) {
    && FirstMarker(text, from, start)
    && start < end < |text| && text[end] == '|'
    && ( (TerminatorAt(text, end) && forall j :: start <= j < end ==> !TerminatorAt(text, j))
      || ((forall j :: start <= j < |text| ==> !TerminatorAt(text, j))
          && forall j :: end < j < |text| ==> text[j] != '|'))
  }

  /** Scanning from `from` finds nothing more: either no marker is left, or
      no terminator follows the next marker and no `|` lies after it. */
  ghost predicate Stops(text: string, from: int) {
    forall start :: FirstMarker(text, from, start) ==>
      && (forall j :: start <= j < |text| ==> !TerminatorAt(text, j))
      && (forall j :: start < j < |text| ==> text[j] != '|')
  }

  /** Where scanning resumes after the first `k` records: just past the
      terminator pair of record `k - 1`. */
  function ResumeAt(spans: seq<(nat, nat)>, k: nat): nat
    requires k <= |spans|
  {
    if k == 0 then 0 else spans[k - 1].1 + 2
  }

  /** One step of the scan loop: the span of the next record when scanning
      from `from`, or `None` when the scan stops there. */
  function NextRecord(text: string, from: nat): (r: Option<(nat, nat)>)
    ensures r.None? ==> Stops(text, from)
    ensures r.Some? ==> ScannedAt(text, from, r.value.0, r.value.1)
  {
    var start := FindChar(text, '~', from);
    if start == -1 then None
    else
      var end := FindTerminator(text, start);
      if end != -1 then Some((start, end))
      else
        var lastBar := RFindChar(text, '|');
        if lastBar == -1 || lastBar <= start then None
        else Some((start, lastBar))
  }

  /** Every span in `spans` is the record the scan finds where it resumes
      after the previous one. */
  ghost predicate ScanOf(text: string, spans: seq<(nat, nat)>) {
    forall k :: 0 <= k < |spans| ==> ScannedAt(text, ResumeAt(spans, k), spans[k].0, spans[k].1)
  }

  lemma ScanExtend(text: string, spans: seq<(nat, nat)>, start: nat, end: nat)
    requires ScanOf(text, spans)
    requires ScannedAt(text, ResumeAt(spans, |spans|), start, end)
    ensures ScanOf(text, spans + [(start, end)])
  {
    var after := spans + [(start, end)];
    forall k | 0 <= k < |spans|
      ensures ScannedAt(text, ResumeAt(after, k), after[k].0, after[k].1)
    {
      assert after[k] == spans[k] && ResumeAt(after, k) == ResumeAt(spans, k);
    }
    ResumeAtLast(spans, start, end);
  }

  lemma ResumeAtLast(spans: seq<(nat, nat)>, start: nat, end: nat)
    ensures ResumeAt(spans + [(start, end)], |spans|) == ResumeAt(spans, |spans|)
  {
    if |spans| > 0 {
      assert (spans + [(start, end)])[|spans| - 1] == spans[|spans| - 1];
    }
  }

  /** From one resume point the scan finds at most one record: the marker
      and the end of a record are fixed by the text. */
  lemma ScannedUnique(text: string, from: int, s1: int, e1: int, s2: int, e2: int)
    requires ScannedAt(text, from, s1, e1) && ScannedAt(text, from, s2, e2)
    ensures s1 == s2 && e1 == e2
  {
  }

  /** A scan that stops finds no record there. */
  lemma StopsExcludes(text: string, from: int, start: int, end: int)
    requires Stops(text, from)
    ensures !ScannedAt(text, from, start, end)
  {
  }

  /** Two span lists that follow the scan agree on their first `k` spans. */
  lemma {:induction false} ScanAgree(text: string, a: seq<(nat, nat)>, b: seq<(nat, nat)>, k: nat)
    requires ScanOf(text, a) && ScanOf(text, b) && k <= |a| && k <= |b|
    ensures a[..k] == b[..k]
    decreases k
  {
    if k > 0 {
      ScanAgree(text, a, b, k - 1);
      SameResume(a, b, k - 1);
      SameStep(text, a, b, k - 1);
      PrefixSnoc(a, k);
      PrefixSnoc(b, k);
    }
  }

  lemma PrefixSnoc(s: seq<(nat, nat)>, k: nat)
    requires 0 < k <= |s|
    ensures s[..k] == s[..k - 1] + [s[k - 1]]
  {
  }

  /** Resuming at the same place, two scans find the same record. */
  lemma SameStep(text: string, a: seq<(nat, nat)>, b: seq<(nat, nat)>, k: nat)
    requires k < |a| && k < |b|
    ensures ScanOf(text, a) && ScanOf(text, b) && ResumeAt(a, k) == ResumeAt(b, k) ==> a[k] == b[k]
  {
    if ScanOf(text, a) && ScanOf(text, b) && ResumeAt(a, k) == ResumeAt(b, k) {
      assert ScannedAt(text, ResumeAt(a, k), a[k].0, a[k].1);
      assert ScannedAt(text, ResumeAt(b, k), b[k].0, b[k].1);
      ScannedUnique(text, ResumeAt(a, k), a[k].0, a[k].1, b[k].0, b[k].1);
    }
  }

  lemma SameResume(a: seq<(nat, nat)>, b: seq<(nat, nat)>, k: nat)
    requires k <= |a| && k <= |b| && a[..k] == b[..k]
    ensures ResumeAt(a, k) == ResumeAt(b, k)
  {
    if k > 0 {
      assert a[k - 1] == a[..k][k - 1] && b[k - 1] == b[..k][k - 1];
    }
  }

  /** `spans` follows the scan step by step and ends where the scan stops. */
  ghost predicate FullScan(text: string, spans: seq<(nat, nat)>) {
    ScanOf(text, spans) && Stops(text, ResumeAt(spans, |spans|))
  }

  /** The scan of a text is unique: two span lists that each follow the scan
      step by step and stop where the scan stops are the same list. */
  lemma ScanUnique(text: string, a: seq<(nat, nat)>, b: seq<(nat, nat)>)
    ensures FullScan(text, a) && FullScan(text, b) ==> a == b
  {
    if FullScan(text, a) && FullScan(text, b) {
      var k := if |a| < |b| then |a| else |b|;
      ScanAgree(text, a, b, k);
      SameResume(a, b, k);
      if k < |a| {
        StopsExcludes(text, ResumeAt(b, |b|), a[k].0, a[k].1);
      } else if k < |b| {
        StopsExcludes(text, ResumeAt(a, |a|), b[k].0, b[k].1);
      } else {
        assert a == a[..k] && b == b[..k];
      }
    }
  }

  /** Record `k` is the text between the two ends of span `k`. */
  ghost predicate Slices(text: string, spans: seq<(nat, nat)>, records: seq<string>) {
    && |spans| == |records|
    && forall k :: 0 <= k < |records| ==>
      spans[k].0 < spans[k].1 < |text| && records[k] == text[spans[k].0..spans[k].1]
  }

  lemma SlicesExtend(text: string, spans: seq<(nat, nat)>, records: seq<string>, start: nat, end: nat)
    requires Slices(text, spans, records) && start < end < |text|
    ensures Slices(text, spans + [(start, end)], records + [text[start..end]])
  {
    var s, r := spans + [(start, end)], records + [text[start..end]];
    forall k | 0 <= k < |r|
      ensures s[k].0 < s[k].1 < |text| && r[k] == text[s[k].0..s[k].1]
    {
      if k < |records| {
        assert s[k] == spans[k] && r[k] == records[k];
      }
    }
  }

  /** The consequences of a scan the method states for its callers. */
  lemma ScanFacts(text: string, spans: seq<(nat, nat)>, records: seq<string>)
    requires ScanOf(text, spans) && |spans| == |records|
    requires forall k :: 0 <= k < |records| ==>
      spans[k].0 < spans[k].1 < |text| && records[k] == text[spans[k].0..spans[k].1]
    ensures forall k :: 0 <= k < |records| ==> |records[k]| > 0 && records[k][0] == '~'
    ensures forall k :: 0 <= k < |records| ==> text[spans[k].1] == '|'
    ensures forall k :: 0 < k < |records| ==> spans[k - 1].1 + 2 <= spans[k].0
  {
    forall k | 0 < k < |records|
      ensures spans[k - 1].1 + 2 <= spans[k].0
    {
      assert ScannedAt(text, ResumeAt(spans, k), spans[k].0, spans[k].1);
    }
  }

  /** The scan loop of `load_records` over an already normalised text: the
      records in text order, with `spans` giving where each one lies. */
  method ScanRecords(text: string) returns (records: seq<string>, ghost spans: seq<(nat, nat)>)
    ensures |spans| == |records|
    ensures forall k :: 0 <= k < |records| ==>
      spans[k].0 < spans[k].1 < |text| && records[k] == text[spans[k].0..spans[k].1]
    ensures forall k :: 0 <= k < |records| ==> |records[k]| > 0 && records[k][0] == '~'
    ensures forall k :: 0 <= k < |records| ==> text[spans[k].1] == '|'
    ensures forall k :: 0 < k < |records| ==> spans[k - 1].1 + 2 <= spans[k].0
    ensures ScanOf(text, spans)
    ensures Stops(text, ResumeAt(spans, |spans|))
  {
    records := [];
    spans := [];
    var i := 0;
    while true
      invariant i == ResumeAt(spans, |spans|) && i <= |text| + 1
      invariant ScanOf(text, spans)
      invariant Slices(text, spans, records)
      decreases |text| + 2 - i
    {
      var next := NextRecord(text, i);
      if next.None? {
        break;
      }
      var (start, end) := next.value;
      ScanExtend(text, spans, start, end);
      SlicesExtend(text, spans, records, start, end);
      records := records + [text[start..end]];
      spans := spans + [(start, end)];
      i := end + 2;
    }
    ScanFacts(text, spans, records);
  }

  /** `load_records` after the file has been read: line endings are
      normalised, then the normalised text is scanned. */
  method LoadRecords(raw: string) returns (records: seq<string>, ghost spans: seq<(nat, nat)>)
    ensures |spans| == |records|
    ensures forall k :: 0 <= k < |records| ==>
      spans[k].0 < spans[k].1 < |NormalizeNewlines(raw)|
      && records[k] == NormalizeNewlines(raw)[spans[k].0..spans[k].1]
    ensures forall k :: 0 <= k < |records| ==> |records[k]| > 0 && records[k][0] == '~'
    ensures ScanOf(NormalizeNewlines(raw), spans)
    ensures Stops(NormalizeNewlines(raw), ResumeAt(spans, |spans|))
  {
    records, spans := ScanRecords(NormalizeNewlines(raw));
  }
}
