/** The scan pipeline: each layer sees the text with what was found so far replaced, and its findings
    are mapped back to the original text. */
module ScanPipeline {
  import opened Sorting
  import opened Findings
  import opened RedactionLaws

  // ----- mapping positions back -----

  datatype OffsetEntry = OffsetEntry(origStart: int, origEnd: int, newLen: int)

  function Entry(f: Finding): OffsetEntry {
    OffsetEntry(f.start, f.end, |Placeholder(f.tag)|)
  }

  function Entries(fs: seq<Finding>): (r: seq<OffsetEntry>)
    ensures |r| == |fs| && forall i :: 0 <= i < |r| ==> r[i] == Entry(fs[i])
  {
    seq(|fs|, i requires 0 <= i < |fs| => Entry(fs[i]))
  }

  /** The position in the original text for `pos` in the working text, the entries before `offsets`
      having moved the text by `shift`. */
  function ToOriginal(pos: int, offsets: seq<OffsetEntry>, shift: int): int {
    if offsets == [] then pos - shift
    else
      var e := offsets[0];
      if pos <= e.origStart + shift then pos - shift
      else if pos >= e.origStart + shift + e.newLen then
        ToOriginal(pos, offsets[1..], shift + (e.newLen - (e.origEnd - e.origStart)))
      else e.origStart
  }

  method ToOriginalPos(pos: int, offsets: seq<OffsetEntry>) returns (orig: int)
    ensures orig == ToOriginal(pos, offsets, 0)
  {
    var shift := 0;
    for i := 0 to |offsets|
      invariant ToOriginal(pos, offsets, 0) == ToOriginal(pos, offsets[i..], shift)
    {
      var e := offsets[i];
      assert offsets[i..][1..] == offsets[i + 1..];
      var redactedStart := e.origStart + shift;
      if pos <= redactedStart {
        return pos - shift;
      }
      var redactedEnd := redactedStart + e.newLen;
      if pos >= redactedEnd {
        shift := shift + (e.newLen - (e.origEnd - e.origStart));
      } else {
        return e.origStart;
      }
    }
    return pos - shift;
  }

  /** How far the text behind `f` moves when `f` is replaced. */
  function Gain(f: Finding): int {
    |Placeholder(f.tag)| - (f.end - f.start)
  }

  /** The position in the working text of position `p` of the original. */
  function ToWorking(p: int, fs: seq<Finding>, shift: int): int {
    if fs == [] || p <= fs[0].start then p + shift else ToWorking(p, fs[1..], shift + Gain(fs[0]))
  }

  /** The span `s..t` of the working text has no byte of a placeholder in it. */
  predicate ClearOf(fs: seq<Finding>, shift: int, s: int, t: int) {
    fs == [] || (
      var hole := fs[0].start + shift;
      && (t <= hole || hole + |Placeholder(fs[0].tag)| <= s)
      && ClearOf(fs[1..], shift + Gain(fs[0]), s, t))
  }

  lemma EntriesTail(fs: seq<Finding>)
    requires fs != []
    ensures Entries(fs)[1..] == Entries(fs[1..])
  {
  }

  lemma {:induction false} ToOriginalInside(text: string, fs: seq<Finding>, prev: int, shift: int, pos: int)
    requires 0 <= prev && Layout(fs, prev, |text|) && Sliceable(fs, prev, |text|)
    requires prev + shift <= pos
    ensures prev <= ToOriginal(pos, Entries(fs), shift)
    ensures pos <= prev + shift + |Weave(text, fs, prev, Label)| ==> ToOriginal(pos, Entries(fs), shift) <= |text|
  {
    if fs != [] {
      EntriesTail(fs);
      LayoutIsSliceable(fs[1..], fs[0].end, |text|);
      if pos >= fs[0].start + shift + |Placeholder(fs[0].tag)| {
        ToOriginalInside(text, fs[1..], fs[0].end, shift + Gain(fs[0]), pos);
      }
    }
  }

  lemma {:induction false} ToOriginalMonotone(text: string, fs: seq<Finding>, prev: int, shift: int, p: int, q: int)
    requires 0 <= prev && Layout(fs, prev, |text|)
    requires prev + shift <= p <= q
    ensures ToOriginal(p, Entries(fs), shift) <= ToOriginal(q, Entries(fs), shift)
  {
    if fs != [] {
      EntriesTail(fs);
      LayoutIsSliceable(fs[1..], fs[0].end, |text|);
      var after := fs[0].start + shift + |Placeholder(fs[0].tag)|;
      if p >= after {
        ToOriginalMonotone(text, fs[1..], fs[0].end, shift + Gain(fs[0]), p, q);
      } else if q >= after {
        ToOriginalInside(text, fs[1..], fs[0].end, shift + Gain(fs[0]), q);
      }
    }
  }

  /** The step over the first span, for positions at its placeholder or before, and for those behind it. */
  lemma ToOriginalHead(fs: seq<Finding>, shift: int, pos: int)
    requires fs != []
    ensures var behind := fs[0].start + shift + |Placeholder(fs[0].tag)|;
      && (pos < behind ==> ToOriginal(pos, Entries(fs), shift) <= fs[0].start)
      && (behind <= pos ==> ToOriginal(pos, Entries(fs), shift) == ToOriginal(pos, Entries(fs[1..]), shift + Gain(fs[0])))
  {
    EntriesTail(fs);
  }

  lemma {:induction false} ToOriginalNeverSplits(text: string, fs: seq<Finding>, prev: int, shift: int, pos: int, i: nat)
    requires 0 <= prev && Layout(fs, prev, |text|) && i < |fs|
    requires prev + shift <= pos
    ensures !(fs[i].start < ToOriginal(pos, Entries(fs), shift) < fs[i].end)
  {
    ToOriginalHead(fs, shift, pos);
    LayoutBounds(fs, prev, |text|);
    LayoutIsSliceable(fs[1..], fs[0].end, |text|);
    if pos >= fs[0].start + shift + |Placeholder(fs[0].tag)| {
      ToOriginalInside(text, fs[1..], fs[0].end, shift + Gain(fs[0]), pos);
      if i > 0 {
        ToOriginalNeverSplits(text, fs[1..], fs[0].end, shift + Gain(fs[0]), pos, i - 1);
      }
    }
  }

  lemma SliceBehind(head: string, rest: string, i: int, j: int)
    requires |head| <= i <= j <= |head| + |rest|
    ensures (head + rest)[i..j] == rest[i - |head|..j - |head|]
  {
  }

  lemma SliceOfTail(text: string, lo: int, i: int, j: int)
    requires 0 <= lo && 0 <= i <= j && lo + j <= |text|
    ensures text[lo..][i..j] == text[lo + i..lo + j]
  {
  }

  lemma SliceAhead(text: string, lo: int, hi: int, rest: string, i: int, j: int)
    requires 0 <= lo <= hi <= |text| && 0 <= i <= j <= hi - lo
    ensures (text[lo..hi] + rest)[i..j] == text[lo + i..lo + j]
  {
    var a := text[lo..hi];
    assert (a + rest)[i..j] == a[i..j];
    forall k | i <= k < j
      ensures a[k] == text[lo + k]
    {
    }
  }

  lemma WeaveParts(text: string, fs: seq<Finding>, prev: int)
    requires fs != [] && 0 <= prev && Layout(fs, prev, |text|) && Sliceable(fs, prev, |text|)
    ensures Layout(fs[1..], fs[0].end, |text|) && Sliceable(fs[1..], fs[0].end, |text|)
    ensures Weave(text, fs, prev, Label)
         == text[prev..fs[0].start] + Placeholder(fs[0].tag) + Weave(text, fs[1..], fs[0].end, Label)
  {
    LayoutIsSliceable(fs[1..], fs[0].end, |text|);
  }

  /** The step over the first span: what lies behind its placeholder lies in the rest of the woven text. */
  lemma BehindFirst(text: string, fs: seq<Finding>, prev: int, shift: int, s: int, t: int)
    requires fs != [] && 0 <= prev && Layout(fs, prev, |text|) && Sliceable(fs, prev, |text|)
    requires fs[0].start + shift + |Placeholder(fs[0].tag)| <= s <= t <= prev + shift + |Weave(text, fs, prev, Label)|
    ensures Sliceable(fs[1..], fs[0].end, |text|) && Layout(fs[1..], fs[0].end, |text|)
    ensures var next := fs[0].end + shift + Gain(fs[0]);
      && next <= s && t <= next + |Weave(text, fs[1..], fs[0].end, Label)|
      && ToOriginal(s, Entries(fs), shift) == ToOriginal(s, Entries(fs[1..]), shift + Gain(fs[0]))
      && ToOriginal(t, Entries(fs), shift) == ToOriginal(t, Entries(fs[1..]), shift + Gain(fs[0]))
      && Weave(text, fs, prev, Label)[s - prev - shift..t - prev - shift]
           == Weave(text, fs[1..], fs[0].end, Label)[s - next..t - next]
  {
    EntriesTail(fs);
    WeaveParts(text, fs, prev);
    SliceBehind(text[prev..fs[0].start] + Placeholder(fs[0].tag), Weave(text, fs[1..], fs[0].end, Label),
                s - prev - shift, t - prev - shift);
  }

  lemma BeforeFirst(text: string, fs: seq<Finding>, prev: int, shift: int, s: int, t: int)
    requires fs != [] && 0 <= prev && Layout(fs, prev, |text|) && Sliceable(fs, prev, |text|)
    requires prev + shift <= s <= t <= fs[0].start + shift
    ensures t <= prev + shift + |Weave(text, fs, prev, Label)|
    ensures ToOriginal(s, Entries(fs), shift) == s - shift && ToOriginal(t, Entries(fs), shift) == t - shift
    ensures Weave(text, fs, prev, Label)[s - prev - shift..t - prev - shift] == text[s - shift..t - shift]
  {
    WeaveParts(text, fs, prev);
    var tail := Placeholder(fs[0].tag) + Weave(text, fs[1..], fs[0].end, Label);
    assert Weave(text, fs, prev, Label) == text[prev..fs[0].start] + tail;
    SliceAhead(text, prev, fs[0].start, tail, s - prev - shift, t - prev - shift);
  }

  lemma BehindAll(text: string, prev: int, shift: int, s: int, t: int)
    requires 0 <= prev <= |text| && Sliceable([], prev, |text|)
    requires prev + shift <= s <= t <= prev + shift + |Weave(text, [], prev, Label)|
    ensures ToOriginal(s, Entries([]), shift) == s - shift && ToOriginal(t, Entries([]), shift) == t - shift
    ensures t - shift <= |text|
    ensures Weave(text, [], prev, Label)[s - prev - shift..t - prev - shift] == text[s - shift..t - shift]
  {
    SliceOfTail(text, prev, s - prev - shift, t - prev - shift);
  }

  /** What a layer sees outside the placeholders is what stands at the mapped span. */
  lemma {:induction false} ClearSpanIsCopied(text: string, fs: seq<Finding>, prev: int, shift: int, s: int, t: int)
    requires 0 <= prev && Layout(fs, prev, |text|) && Sliceable(fs, prev, |text|)
    requires prev + shift <= s < t <= prev + shift + |Weave(text, fs, prev, Label)|
    requires ClearOf(fs, shift, s, t)
    ensures var a, b := ToOriginal(s, Entries(fs), shift), ToOriginal(t, Entries(fs), shift);
      && prev <= a <= b <= |text|
      && text[a..b] == Weave(text, fs, prev, Label)[s - prev - shift..t - prev - shift]
  {
    if fs != [] {
      if t <= fs[0].start + shift {
        LayoutBounds(fs, prev, |text|);
        BeforeFirst(text, fs, prev, shift, s, t);
      } else {
        BehindFirst(text, fs, prev, shift, s, t);
        ClearSpanIsCopied(text, fs[1..], fs[0].end, shift + Gain(fs[0]), s, t);
      }
    } else {
      BehindAll(text, prev, shift, s, t);
    }
  }

  /** Mapping back undoes mapping forward. */
  lemma {:induction false} ToOriginalInvertsToWorking(text: string, fs: seq<Finding>, prev: int, shift: int, p: int)
    requires 0 <= prev && Layout(fs, prev, |text|) && Sliceable(fs, prev, |text|)
    requires prev <= p <= |text|
    requires forall i :: 0 <= i < |fs| ==> !(fs[i].start < p < fs[i].end)
    ensures prev + shift <= ToWorking(p, fs, shift) <= prev + shift + |Weave(text, fs, prev, Label)|
    ensures (forall i :: 0 <= i < |fs| ==> fs[i].start < fs[i].end) ==>
      ToOriginal(ToWorking(p, fs, shift), Entries(fs), shift) == p
  {
    if fs != [] && p > fs[0].start {
      EntriesTail(fs);
      WeaveParts(text, fs, prev);
      ToOriginalInvertsToWorking(text, fs[1..], fs[0].end, shift + Gain(fs[0]), p);
    }
  }

  lemma {:induction false} AheadIsClear(fs: seq<Finding>, lo: int, hi: int, shift: int, s: int, t: int)
    requires Layout(fs, lo, hi) && t <= lo + shift
    ensures ClearOf(fs, shift, s, t)
  {
    if fs != [] {
      AheadIsClear(fs[1..], fs[0].end, hi, shift + Gain(fs[0]), s, t);
    }
  }

  lemma {:induction false} UncoveredIsClear(text: string, fs: seq<Finding>, prev: int, shift: int, p: int)
    requires 0 <= prev && Layout(fs, prev, |text|) && prev <= p < |text| && Sliceable(fs, prev, |text|)
    requires forall i :: 0 <= i < |fs| ==> fs[i].start < fs[i].end && !Covers(fs[i], p)
    ensures ClearOf(fs, shift, ToWorking(p, fs, shift), ToWorking(p, fs, shift) + 1)
    ensures prev + shift <= ToWorking(p, fs, shift) < prev + shift + |Weave(text, fs, prev, Label)|
  {
    if fs != [] {
      WeaveParts(text, fs, prev);
      if p < fs[0].start {
        AheadIsClear(fs[1..], fs[0].end, |text|, shift + Gain(fs[0]), p + shift, p + shift + 1);
      } else {
        UncoveredIsClear(text, fs[1..], fs[0].end, shift + Gain(fs[0]), p);
      }
    }
  }

  lemma FirstOfEqual(a: string, i: int, j: int, b: string, k: int, l: int)
    requires 0 <= i <= j <= |a| && 0 <= k < l <= |b| && a[i..j] == b[k..l]
    ensures i < |a| && a[i] == b[k]
  {
    assert a[i..j][0] == b[k..l][0];
  }

  /** Every byte that no span covers is what a layer sees at the position it is mapped to. */
  lemma UncoveredByteIsSeen(text: string, fs: seq<Finding>, p: int)
    requires Layout(fs, 0, |text|) && Sliceable(fs, 0, |text|) && 0 <= p < |text|
    requires forall i :: 0 <= i < |fs| ==> fs[i].start < fs[i].end && !Covers(fs[i], p)
    ensures 0 <= ToWorking(p, fs, 0) < |Weave(text, fs, 0, Label)|
    ensures Weave(text, fs, 0, Label)[ToWorking(p, fs, 0)] == text[p]
  {
    UncoveredIsClear(text, fs, 0, 0, p);
    ToOriginalInvertsToWorking(text, fs, 0, 0, p);
    var s, woven := ToWorking(p, fs, 0), Weave(text, fs, 0, Label);
    ClearSpanIsCopied(text, fs, 0, 0, s, s + 1);
    FirstOfEqual(text, p, ToOriginal(s + 1, Entries(fs), 0), woven, s, s + 1);
  }

  // ----- the working text -----

  /** The findings that the working text can be rewritten for. */
  function Usable(fs: seq<Finding>, n: int): seq<Finding> {
    if fs == [] then []
    else (if fs[0].start < fs[0].end <= n then [fs[0]] else []) + Usable(fs[1..], n)
  }

  /** `applied` may be what is replaced in the working text for `findings`: a sweep over the usable ones
      in some order by start. */
  ghost predicate Selects(findings: seq<Finding>, n: int, applied: seq<Finding>) {
    exists sorted: seq<Finding> :: SortedPermutation(StartLe, findings, sorted) && applied == Swept(Usable(sorted, n), 0)
  }

  lemma {:induction false} UsableSpans(fs: seq<Finding>, n: int)
    ensures forall i :: 0 <= i < |Usable(fs, n)| ==>
      Usable(fs, n)[i] in fs && Usable(fs, n)[i].start < Usable(fs, n)[i].end <= n
  {
    if fs != [] {
      UsableSpans(fs[1..], n);
    }
  }

  lemma SweptUsable(fs: seq<Finding>, prev: int, n: int)
    requires 0 <= prev <= n
    ensures var swept := Swept(Usable(fs, n), prev);
      && Layout(swept, prev, n) && Sliceable(swept, prev, n)
      && (forall i :: 0 <= i < |swept| ==> swept[i] in fs && swept[i].start < swept[i].end)
  {
    UsableSpans(fs, n);
    SweptLayout(Usable(fs, n), prev, n);
    LayoutIsSliceable(Swept(Usable(fs, n), prev), prev, n);
  }

  lemma SelectedSpans(findings: seq<Finding>, n: nat, applied: seq<Finding>)
    requires Selects(findings, n, applied)
    ensures Layout(applied, 0, n) && Sliceable(applied, 0, n)
    ensures forall i :: 0 <= i < |applied| ==> applied[i] in findings && applied[i].start < applied[i].end
  {
    var sorted :| SortedPermutation(StartLe, findings, sorted) && applied == Swept(Usable(sorted, n), 0);
    SweptUsable(sorted, 0, n);
    forall i | 0 <= i < |applied|
      ensures applied[i] in findings
    {
      assert applied[i] in multiset(sorted);
    }
  }

  /** The sorted copy; what a sweep over it takes is one of the possible selections. */
  method SortedByStart(findings: seq<Finding>, ghost n: int) returns (sorted: seq<Finding>)
    ensures Selects(findings, n, Swept(Usable(sorted, n), 0))
  {
    var slice := new Finding[|findings|](i requires 0 <= i < |findings| => findings[i]);
    assert slice[..] == findings;
    SortSlice(slice, StartLe);
    sorted := slice[..];
  }

  /** The text from `prev` on and the entries that the findings `left` still lead to. */
  function Remaining(text: string, left: seq<Finding>, prev: nat): (string, seq<OffsetEntry>)
    requires prev <= |text|
  {
    if left == [] then (text[prev..], [])
    else if left[0].start < prev || !(left[0].start < left[0].end <= |text|) then Remaining(text, left[1..], prev)
    else
      var r := Remaining(text, left[1..], left[0].end);
      (text[prev..left[0].start] + Placeholder(left[0].tag) + r.0, [Entry(left[0])] + r.1)
  }

  function Behind(current: string, entries: seq<OffsetEntry>, r: (string, seq<OffsetEntry>)): (string, seq<OffsetEntry>) {
    (current + r.0, entries + r.1)
  }

  lemma BehindNothing(r: (string, seq<OffsetEntry>))
    ensures Behind("", [], r) == r
  {
    assert "" + r.0 == r.0 && [] + r.1 == r.1;
  }

  lemma BehindMore(current: string, entries: seq<OffsetEntry>, gap: string, placeholder: string, e: OffsetEntry, r: (string, seq<OffsetEntry>))
    ensures Behind(current, entries, (gap + placeholder + r.0, [e] + r.1)) == Behind(current + gap + placeholder, entries + [e], r)
  {
    assert current + (gap + placeholder + r.0) == current + gap + placeholder + r.0;
    assert entries + ([e] + r.1) == entries + [e] + r.1;
  }

  lemma UsableHead(left: seq<Finding>, n: int)
    requires left != []
    ensures left[0].start < left[0].end <= n ==> Usable(left, n) == [left[0]] + Usable(left[1..], n)
    ensures !(left[0].start < left[0].end <= n) ==> Usable(left, n) == Usable(left[1..], n)
  {
    assert [] + Usable(left[1..], n) == Usable(left[1..], n);
  }

  lemma SweptHead(f: Finding, fs: seq<Finding>, prev: int)
    ensures Swept([f] + fs, prev) == if f.start < prev then Swept(fs, prev) else [f] + Swept(fs, f.end)
  {
    assert ([f] + fs)[1..] == fs;
  }

  lemma WeaveHead(text: string, f: Finding, fs: seq<Finding>, prev: int)
    requires 0 <= prev <= f.start <= |text| && Sliceable(fs, f.end, |text|)
    ensures Sliceable([f] + fs, prev, |text|)
    ensures Weave(text, [f] + fs, prev, Label) == text[prev..f.start] + Placeholder(f.tag) + Weave(text, fs, f.end, Label)
    ensures Entries([f] + fs) == [Entry(f)] + Entries(fs)
  {
    assert ([f] + fs)[1..] == fs;
    EntriesTail([f] + fs);
  }

  /** This is the text with the swept findings replaced, and their entries. */
  lemma {:induction false} RemainingIsWoven(text: string, left: seq<Finding>, prev: nat)
    requires prev <= |text|
    ensures var fs := Swept(Usable(left, |text|), prev);
      Sliceable(fs, prev, |text|) && Remaining(text, left, prev) == (Weave(text, fs, prev, Label), Entries(fs))
  {
    if left != [] {
      var f, usable := left[0], Usable(left[1..], |text|);
      UsableHead(left, |text|);
      SweptHead(f, usable, prev);
      if f.start < prev || !(f.start < f.end <= |text|) {
        RemainingIsWoven(text, left[1..], prev);
      } else {
        RemainingIsWoven(text, left[1..], f.end);
        WeaveHead(text, f, Swept(usable, f.end), prev);
      }
    }
  }

  /** The working text and its entries are those of the text with the findings `applied` replaced. */
  ghost predicate Rebuilt(text: string, applied: seq<Finding>, current: string, entries: seq<OffsetEntry>) {
    && Sliceable(applied, 0, |text|)
    && current == Weave(text, applied, 0, Label)
    && entries == Entries(applied)
  }

  /** The working text and its offset entries, for one of the possible selections from the findings. */
  method ApplyRedactions(text: string, findings: seq<Finding>) returns (current: string, entries: seq<OffsetEntry>)
    ensures exists applied :: Selects(findings, |text|, applied) && Rebuilt(text, applied, current, entries)
  {
    var sorted := SortedByStart(findings, |text|);
    current, entries := "", [];
    var prev := 0;
    BehindNothing(Remaining(text, sorted, 0));
    assert sorted[0..] == sorted;
    for i := 0 to |sorted|
      invariant 0 <= prev <= |text|
      invariant Remaining(text, sorted, 0) == Behind(current, entries, Remaining(text, sorted[i..], prev))
    {
      var f := sorted[i];
      assert sorted[i..][1..] == sorted[i + 1..];
      if f.start < prev {
        continue;
      }
      if f.start > |text| || f.end > |text| || f.start >= f.end {
        continue;
      }
      var replacement := Placeholder(f.tag);
      BehindMore(current, entries, text[prev..f.start], replacement, Entry(f), Remaining(text, sorted[i + 1..], f.end));
      current := current + text[prev..f.start];
      current := current + replacement;
      entries := entries + [OffsetEntry(f.start, f.end, |replacement|)];
      prev := f.end;
    }
    current := current + text[prev..];
    RemainingIsWoven(text, sorted, 0);
    assert Rebuilt(text, Swept(Usable(sorted, |text|), 0), current, entries);
  }

  // ----- layers and the scan -----

  /** Whether the rule with an id is enabled. */
  type Rules = string -> bool

  datatype LayerOutcome = Found(findings: seq<Finding>) | Failed(reason: string)

  /** A layer answers for its rules and the text it is given. */
  datatype Layer = Layer(name: string, ready: bool, reconfigurable: bool, rules: Rules, scan: (Rules, string) -> LayerOutcome)

  datatype LayerInfo = LayerInfo(name: string, findingsCount: nat, skipped: bool, skipReason: string)

  class PipelineReport {
    var findings: array<Finding>
    var layerResults: seq<LayerInfo>

    constructor ()
      ensures fresh(findings) && findings[..] == [] && layerResults == []
    {
      findings := new Finding[0];
      layerResults := [];
      new;
    }
  }

  function MapFinding(f: Finding, offsets: seq<OffsetEntry>): Finding {
    f.(start := ToOriginal(f.start, offsets, 0), end := ToOriginal(f.end, offsets, 0))
  }

  function MapFindings(raw: seq<Finding>, offsets: seq<OffsetEntry>): (r: seq<Finding>)
    ensures |r| == |raw| && forall i :: 0 <= i < |r| ==> r[i] == MapFinding(raw[i], offsets)
  {
    seq(|raw|, i requires 0 <= i < |raw| => MapFinding(raw[i], offsets))
  }

  /** Between two layers: all findings so far, and those replaced in the working text. */
  datatype Stage = Stage(findings: seq<Finding>, applied: seq<Finding>)

  ghost predicate StageOk(text: string, st: Stage) {
    && Layout(st.applied, 0, |text|) && Sliceable(st.applied, 0, |text|)
    && forall i :: 0 <= i < |st.applied| ==> st.applied[i] in st.findings && st.applied[i].start < st.applied[i].end
  }

  function Working(text: string, st: Stage): string
    requires Sliceable(st.applied, 0, |text|)
  {
    Weave(text, st.applied, 0, Label)
  }

  /** What the layer reports at this stage, or nothing if it is skipped. */
  function Reported(text: string, layer: Layer, late: bool, st: Stage): seq<Finding>
    requires Sliceable(st.applied, 0, |text|)
  {
    if !layer.ready || late then []
    else match layer.scan(layer.rules, Working(text, st))
      case Found(findings) => findings
      case Failed(_) => []
  }

  ghost predicate Step(text: string, layer: Layer, late: bool, st: Stage, st': Stage)
    requires Sliceable(st.applied, 0, |text|)
  {
    var raw := Reported(text, layer, late, st);
    if raw == [] then st' == st
    else
      && st'.findings == st.findings + MapFindings(raw, Entries(st.applied))
      && Selects(st'.findings, |text|, st'.applied)
  }

  ghost predicate StepAt(text: string, layers: seq<Layer>, late: nat -> bool, stages: seq<Stage>, i: nat)
    requires i < |layers| && i + 1 < |stages|
  {
    Sliceable(stages[i].applied, 0, |text|) && Step(text, layers[i], late(i), stages[i], stages[i + 1])
  }

  /** A run of the first layers over the text; `late(i)` says that the timer fires before layer `i` answers. */
  ghost predicate PartialRun(text: string, layers: seq<Layer>, late: nat -> bool, stages: seq<Stage>) {
    && 1 <= |stages| <= |layers| + 1
    && stages[0] == Stage([], [])
    && forall i :: 0 <= i < |stages| - 1 ==> StepAt(text, layers, late, stages, i)
  }

  /** A run of all layers. */
  ghost predicate Run(text: string, layers: seq<Layer>, late: nat -> bool, stages: seq<Stage>) {
    |stages| == |layers| + 1 && PartialRun(text, layers, late, stages)
  }

  /** The entry a layer leaves in the report. */
  ghost predicate InfoOf(text: string, layer: Layer, late: bool, st: Stage, st': Stage, info: LayerInfo) {
    && info.name == layer.name
    && Sliceable(st.applied, 0, |text|)
    && (info.skipped <==> !layer.ready || late || layer.scan(layer.rules, Working(text, st)).Failed?)
    && info.findingsCount == |st'.findings| - |st.findings|
    && (!layer.ready ==> info.skipReason == "not ready")
    && (layer.ready && !late ==>
          info.skipReason == match layer.scan(layer.rules, Working(text, st)) case Failed(reason) => reason case Found(_) => "")
  }

  ghost predicate InfoAt(text: string, layers: seq<Layer>, late: nat -> bool, stages: seq<Stage>, infos: seq<LayerInfo>, i: nat)
    requires i < |layers| && i + 1 < |stages| && i < |infos|
  {
    InfoOf(text, layers[i], late(i), stages[i], stages[i + 1], infos[i])
  }

  ghost predicate InfosOf(text: string, layers: seq<Layer>, late: nat -> bool, stages: seq<Stage>, infos: seq<LayerInfo>) {
    && |infos| == |stages| - 1 <= |layers|
    && forall i :: 0 <= i < |infos| ==> InfoAt(text, layers, late, stages, infos, i)
  }

  lemma ExtendRun(text: string, layers: seq<Layer>, late: nat -> bool, stages: seq<Stage>, infos: seq<LayerInfo>, st': Stage, info: LayerInfo)
    requires PartialRun(text, layers, late, stages) && InfosOf(text, layers, late, stages, infos) && |stages| <= |layers|
    requires Sliceable(stages[|stages| - 1].applied, 0, |text|)
    requires Step(text, layers[|stages| - 1], late(|stages| - 1), stages[|stages| - 1], st')
    requires InfoOf(text, layers[|stages| - 1], late(|stages| - 1), stages[|stages| - 1], st', info)
    ensures PartialRun(text, layers, late, stages + [st'])
    ensures InfosOf(text, layers, late, stages + [st'], infos + [info])
  {
    var longer, more := stages + [st'], infos + [info];
    forall i | 0 <= i < |longer| - 1
      ensures StepAt(text, layers, late, longer, i) && InfoAt(text, layers, late, longer, more, i)
    {
      if i < |stages| - 1 {
        assert StepAt(text, layers, late, stages, i) && InfoAt(text, layers, late, stages, infos, i);
      }
    }
  }

  lemma {:induction false} RunStagesAreOk(text: string, layers: seq<Layer>, late: nat -> bool, stages: seq<Stage>, i: nat)
    requires Run(text, layers, late, stages) && i < |stages|
    ensures StageOk(text, stages[i])
  {
    if i > 0 {
      RunStagesAreOk(text, layers, late, stages, i - 1);
      assert StepAt(text, layers, late, stages, i - 1);
      if stages[i] != stages[i - 1] {
        SelectedSpans(stages[i].findings, |text|, stages[i].applied);
      }
    }
  }

  lemma RunAt(text: string, layers: seq<Layer>, late: nat -> bool, stages: seq<Stage>, i: nat)
    requires Run(text, layers, late, stages) && i < |layers|
    ensures StageOk(text, stages[i])
    ensures Step(text, layers[i], late(i), stages[i], stages[i + 1])
  {
    RunStagesAreOk(text, layers, late, stages, i);
    assert StepAt(text, layers, late, stages, i);
  }

  /** How a finding inside the working text comes back: inside the original, never cutting into a span
      that is replaced there, and, if no placeholder is touched, with exactly the text the layer saw. */
  lemma MappedFinding(text: string, st: Stage, f: Finding)
    requires StageOk(text, st) && InText(f, |Working(text, st)|)
    ensures var m := MapFinding(f, Entries(st.applied));
      && InText(m, |text|) && m.tag == f.tag && m.value == f.value
      && (forall i :: 0 <= i < |st.applied| ==> Disjoint(m, st.applied[i]) || Contains(m, st.applied[i]))
      && (f.start < f.end && ClearOf(st.applied, 0, f.start, f.end) ==>
            text[m.start..m.end] == Working(text, st)[f.start..f.end])
      && (f.start == f.end ==> m.start == m.end)
  {
    ToOriginalInside(text, st.applied, 0, 0, f.start);
    ToOriginalInside(text, st.applied, 0, 0, f.end);
    ToOriginalMonotone(text, st.applied, 0, 0, f.start, f.end);
    forall i | 0 <= i < |st.applied|
      ensures var m := MapFinding(f, Entries(st.applied)); Disjoint(m, st.applied[i]) || Contains(m, st.applied[i])
    {
      ToOriginalNeverSplits(text, st.applied, 0, 0, f.start, i);
      ToOriginalNeverSplits(text, st.applied, 0, 0, f.end, i);
    }
    if f.start < f.end && ClearOf(st.applied, 0, f.start, f.end) {
      ClearSpanIsCopied(text, st.applied, 0, 0, f.start, f.end);
    }
  }

  /** Under any rules, the layer's findings lie in the text it was given. */
  ghost predicate Honest(layer: Layer) {
    forall rules: Rules, t :: layer.scan(rules, t).Found? ==> AllInText(layer.scan(rules, t).findings, |t|)
  }

  ghost predicate AllHonest(layers: seq<Layer>) {
    forall i :: 0 <= i < |layers| ==> Honest(layers[i])
  }

  lemma StageStaysInText(text: string, layers: seq<Layer>, late: nat -> bool, stages: seq<Stage>, i: nat)
    requires Run(text, layers, late, stages) && AllHonest(layers) && i < |layers|
    requires AllInText(stages[i].findings, |text|)
    ensures AllInText(stages[i + 1].findings, |text|)
  {
    RunAt(text, layers, late, stages, i);
    var st, layer := stages[i], layers[i];
    var raw := Reported(text, layer, late(i), st);
    forall j | 0 <= j < |raw|
      ensures InText(MapFinding(raw[j], Entries(st.applied)), |text|)
    {
      assert Honest(layer);
      assert InText(raw[j], |Working(text, st)|);
      MappedFinding(text, st, raw[j]);
    }
  }

  /** After any number of layers, every finding lies in the original text. */
  lemma {:induction false} ScanStaysInText(text: string, layers: seq<Layer>, late: nat -> bool, stages: seq<Stage>, i: nat)
    requires Run(text, layers, late, stages) && AllHonest(layers) && i < |stages|
    ensures AllInText(stages[i].findings, |text|)
  {
    if i > 0 {
      ScanStaysInText(text, layers, late, stages, i - 1);
      StageStaysInText(text, layers, late, stages, i - 1);
    }
  }

  /** Each value is the text the layer saw at its span, and no non-empty span touches a placeholder. */
  ghost predicate Faithful(text: string, st: Stage, raw: seq<Finding>)
    requires Sliceable(st.applied, 0, |text|)
  {
    forall j :: 0 <= j < |raw| ==>
      && InText(raw[j], |Working(text, st)|)
      && raw[j].value == Working(text, st)[raw[j].start..raw[j].end]
      && (raw[j].start == raw[j].end || ClearOf(st.applied, 0, raw[j].start, raw[j].end))
  }

  lemma StageQuotesTheText(text: string, layers: seq<Layer>, late: nat -> bool, stages: seq<Stage>, i: nat)
    requires Run(text, layers, late, stages) && i < |layers| && FaithfulAt(text, layers, late, stages, i)
    requires ValuesAreText(stages[i].findings, text)
    ensures ValuesAreText(stages[i + 1].findings, text)
  {
    RunAt(text, layers, late, stages, i);
    var st, raw := stages[i], Reported(text, layers[i], late(i), stages[i]);
    forall j | 0 <= j < |raw|
      ensures var m := MapFinding(raw[j], Entries(st.applied)); InText(m, |text|) && m.value == text[m.start..m.end]
    {
      MappedFinding(text, st, raw[j]);
    }
  }

  /** If every stage is faithful, every value is the original text at its mapped span. */
  lemma {:induction false} FaithfulScanQuotesTheText(text: string, layers: seq<Layer>, late: nat -> bool, stages: seq<Stage>, i: nat)
    requires Run(text, layers, late, stages) && i < |stages|
    requires forall k :: 0 <= k < |layers| ==> FaithfulAt(text, layers, late, stages, k)
    ensures ValuesAreText(stages[i].findings, text)
  {
    if i > 0 {
      FaithfulScanQuotesTheText(text, layers, late, stages, i - 1);
      StageQuotesTheText(text, layers, late, stages, i - 1);
    }
  }

  ghost predicate FaithfulAt(text: string, layers: seq<Layer>, late: nat -> bool, stages: seq<Stage>, i: nat)
    requires i < |layers| && i < |stages|
  {
    && Sliceable(stages[i].applied, 0, |text|)
    && Faithful(text, stages[i], Reported(text, layers[i], late(i), stages[i]))
  }

  class Pipeline {
    var layers: seq<Layer>
    var timeoutMs: int

    constructor (layers: seq<Layer>)
      ensures this.layers == layers && timeoutMs == 0
    {
      this.layers := layers;
      timeoutMs := 0;
    }

    method SetTimeout(ms: int)
      modifies this`timeoutMs
      ensures timeoutMs == ms
    {
      timeoutMs := ms;
    }

    /** Which layers the timer cuts off: none without a timeout. */
    function Late(late: nat -> bool): nat -> bool
      reads this`timeoutMs
    {
      var t := timeoutMs;
      (i: nat) => t > 0 && late(i)
    }

    method ScanWithTimeout(layer: Layer, text: string, late: bool) returns (r: LayerOutcome)
      ensures r == if timeoutMs > 0 && late then Failed("timeout") else layer.scan(layer.rules, text)
    {
      if timeoutMs <= 0 {
        return layer.scan(layer.rules, text);
      }
      if late {
        r := Failed("timeout");
      } else {
        r := layer.scan(layer.rules, text);
      }
    }

    /** One turn of the loop of `Scan`. */
    method ScanLayer(text: string, layer: Layer, late: bool, report: PipelineReport, current: string, offsets: seq<OffsetEntry>, ghost st: Stage)
      returns (current': string, offsets': seq<OffsetEntry>, info: LayerInfo, ghost st': Stage)
      requires report.findings[..] == st.findings
      requires Sliceable(st.applied, 0, |text|)
      requires current == Working(text, st) && offsets == Entries(st.applied)
      modifies report`findings
      ensures report.findings == old(report.findings) || fresh(report.findings)
      ensures report.findings[..] == st'.findings
      ensures Sliceable(st'.applied, 0, |text|)
      ensures current' == Working(text, st') && offsets' == Entries(st'.applied)
      ensures Step(text, layer, timeoutMs > 0 && late, st, st')
      ensures InfoOf(text, layer, timeoutMs > 0 && late, st, st', info)
    {
      current', offsets', st' := current, offsets, st;
      if !layer.ready {
        info := LayerInfo(layer.name, 0, true, "not ready");
        return;
      }
      var result := ScanWithTimeout(layer, current, late);
      if result.Failed? {
        info := LayerInfo(layer.name, 0, true, result.reason);
        return;
      }
      if |result.findings| > 0 {
        var mapped := MapInPlace(result.findings, offsets);
        report.findings := Append(report.findings, mapped);
        current', offsets' := ApplyRedactions(text, report.findings[..]);
        ghost var applied :| Selects(report.findings[..], |text|, applied) && Rebuilt(text, applied, current', offsets');
        st' := Stage(report.findings[..], applied);
      }
      info := LayerInfo(layer.name, |result.findings|, false, "");
    }

    /** Runs every layer; `stages` records what stood between them. */
    method Scan(text: string, late: nat -> bool) returns (report: PipelineReport, ghost stages: seq<Stage>)
      ensures fresh(report) && fresh(report.findings)
      ensures Run(text, layers, Late(late), stages)
      ensures forall i: nat :: Late(late)(i) <==> timeoutMs > 0 && late(i)
      ensures report.findings[..] == stages[|layers|].findings
      ensures InfosOf(text, layers, Late(late), stages, report.layerResults)
    {
      report := new PipelineReport();
      var current, offsets := text, [];
      ghost var st := Stage([], []);
      stages := [st];
      for i := 0 to |layers|
        invariant fresh(report) && fresh(report.findings)
        invariant PartialRun(text, layers, Late(late), stages) && |stages| == i + 1 && stages[i] == st
        invariant report.findings[..] == st.findings
        invariant Sliceable(st.applied, 0, |text|)
        invariant current == Working(text, st) && offsets == Entries(st.applied)
        invariant InfosOf(text, layers, Late(late), stages, report.layerResults)
      {
        var info;
        ghost var st';
        current, offsets, info, st' := ScanLayer(text, layers[i], late(i), report, current, offsets, st);
        ExtendRun(text, layers, Late(late), stages, report.layerResults, st', info);
        st := st';
        stages := stages + [st];
        report.layerResults := report.layerResults + [info];
      }
    }

    /** Rewrites the positions of a fresh result slice. */
    static method MapInPlace(raw: seq<Finding>, offsets: seq<OffsetEntry>) returns (mapped: array<Finding>)
      ensures fresh(mapped) && mapped[..] == MapFindings(raw, offsets)
    {
      mapped := new Finding[|raw|](i requires 0 <= i < |raw| => raw[i]);
      for i := 0 to mapped.Length
        invariant forall k :: 0 <= k < i ==> mapped[k] == MapFinding(raw[k], offsets)
        invariant forall k :: i <= k < mapped.Length ==> mapped[k] == raw[k]
      {
        var start := ToOriginalPos(mapped[i].start, offsets);
        var end := ToOriginalPos(mapped[i].end, offsets);
        mapped[i] := mapped[i].(start := start, end := end);
      }
    }

    static method Append(a: array<Finding>, b: array<Finding>) returns (c: array<Finding>)
      ensures fresh(c) && c[..] == a[..] + b[..]
    {
      var s := a[..] + b[..];
      c := new Finding[|s|](i requires 0 <= i < |s| => s[i]);
      assert c[..] == s;
    }

    /** Hands the new rules to the layers that take them. */
    method Reconfigure(enabled: Rules)
      modifies this`layers
      ensures layers == Reconfigured(old(layers), enabled)
    {
      var done := [];
      for i := 0 to |layers|
        invariant layers == old(layers)
        invariant done == Reconfigured(layers[..i], enabled)
      {
        var l := layers[i];
        done := done + [if l.reconfigurable then l.(rules := enabled) else l];
        assert layers[..i + 1] == layers[..i] + [l];
      }
      assert layers[..|layers|] == layers;
      layers := done;
    }
  }

  function Reconfigured(layers: seq<Layer>, enabled: Rules): (r: seq<Layer>)
    ensures |r| == |layers|
    ensures forall i :: 0 <= i < |layers| ==>
      r[i] == if layers[i].reconfigurable then layers[i].(rules := enabled) else layers[i]
  {
    seq(|layers|, i requires 0 <= i < |layers| => if layers[i].reconfigurable then layers[i].(rules := enabled) else layers[i])
  }
}
