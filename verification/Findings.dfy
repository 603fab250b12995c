/** Findings, and texts in which an ordered run of spans has been replaced. A text is a sequence of
    bytes, written as a `string`; offsets count bytes. */
module Findings {

  datatype Finding = Finding(tag: string, value: string, start: int, end: int)

  function Placeholder(tag: string): string {
    "[REDACTED-" + tag + "]"
  }

  /** A placeholder is ten characters, the tag, and one more. */
  lemma PlaceholderExactly(tag: string)
    ensures |Placeholder(tag)| == 11 + |tag|
    ensures Placeholder(tag)[..10] == "[REDACTED-" && Placeholder(tag)[10..10 + |tag|] == tag && Placeholder(tag)[10 + |tag|] == ']'
  {
  }

  /** Different tags have different placeholders. */
  lemma PlaceholderIsInjective(tag: string, tag': string)
    requires Placeholder(tag) == Placeholder(tag')
    ensures tag == tag'
  {
    PlaceholderExactly(tag);
    PlaceholderExactly(tag');
  }

  predicate StartLe(f: Finding, g: Finding) {
    f.start <= g.start
  }

  predicate Contains(outer: Finding, inner: Finding) {
    inner.start >= outer.start && inner.end <= outer.end
  }

  predicate SameSpan(f: Finding, g: Finding) {
    f.start == g.start && f.end == g.end
  }

  predicate Disjoint(f: Finding, g: Finding) {
    f.end <= g.start || g.end <= f.start
  }

  predicate Covers(f: Finding, p: int) {
    f.start <= p < f.end
  }

  predicate CoveredBy(fs: seq<Finding>, p: int) {
    exists i :: 0 <= i < |fs| && Covers(fs[i], p)
  }

  /** The span lies in a text of length `n`. */
  predicate InText(f: Finding, n: int) {
    0 <= f.start <= f.end <= n
  }

  predicate AllInText(fs: seq<Finding>, n: int) {
    forall i :: 0 <= i < |fs| ==> InText(fs[i], n)
  }

  /** The left-to-right sweep: a finding that starts before the end of the last one taken is skipped. */
  function Swept(fs: seq<Finding>, prev: int): seq<Finding> {
    if fs == [] then []
    else if fs[0].start < prev then Swept(fs[1..], prev)
    else [fs[0]] + Swept(fs[1..], fs[0].end)
  }

  /** The spans follow one another without overlap inside `lo..hi`. */
  predicate Layout(fs: seq<Finding>, lo: int, hi: int) {
    if fs == [] then lo <= hi
    else lo <= fs[0].start <= fs[0].end && Layout(fs[1..], fs[0].end, hi)
  }

  /** Every slice that writing the replacements takes of the text is in range. */
  predicate Sliceable(fs: seq<Finding>, prev: int, n: int) {
    && 0 <= prev <= n
    && (fs == [] || (prev <= fs[0].start <= n && Sliceable(fs[1..], fs[0].end, n)))
  }

  /** `text` from `prev` on, with each span replaced by what `fill` gives for it. */
  function Weave(text: string, fs: seq<Finding>, prev: int, fill: Finding -> string): string
    requires Sliceable(fs, prev, |text|)
  {
    if fs == [] then text[prev..]
    else text[prev..fs[0].start] + fill(fs[0]) + Weave(text, fs[1..], fs[0].end, fill)
  }

  /** What a reader does who knows where the replacements are: swaps each `fill` for `other`. */
  function Unweave(woven: string, fs: seq<Finding>, prev: int, fill: Finding -> string, other: Finding -> string): string {
    if fs == [] then woven
    else
      var gap := fs[0].start - prev;
      var next := gap + |fill(fs[0])|;
      if 0 <= gap && next <= |woven| then
        woven[..gap] + other(fs[0]) + Unweave(woven[next..], fs[1..], fs[0].end, fill, other)
      else woven
  }

  const Label: Finding -> string := (f: Finding) => Placeholder(f.tag)
  const Original: Finding -> string := (f: Finding) => f.value
  const Nothing: Finding -> string := (f: Finding) => ""

  lemma {:induction false} LayoutIsSliceable(fs: seq<Finding>, lo: int, n: int)
    requires 0 <= lo && Layout(fs, lo, n)
    ensures Sliceable(fs, lo, n)
    ensures lo <= n
  {
    if fs != [] {
      LayoutIsSliceable(fs[1..], fs[0].end, n);
    }
  }

  lemma {:induction false} LayoutBounds(fs: seq<Finding>, lo: int, hi: int)
    requires Layout(fs, lo, hi)
    ensures lo <= hi
    ensures forall i :: 0 <= i < |fs| ==> lo <= fs[i].start <= fs[i].end <= hi
    ensures forall i, j :: 0 <= i < j < |fs| ==> fs[i].end <= fs[j].start
  {
    if fs != [] {
      LayoutBounds(fs[1..], fs[0].end, hi);
    }
  }

  /** Swapping the fills of a woven text gives the text woven with the other fills. */
  lemma {:induction false} UnweaveWeave(text: string, fs: seq<Finding>, prev: int, fill: Finding -> string, other: Finding -> string)
    requires Sliceable(fs, prev, |text|)
    ensures Unweave(Weave(text, fs, prev, fill), fs, prev, fill, other) == Weave(text, fs, prev, other)
  {
    if fs != [] {
      var woven := Weave(text, fs, prev, fill);
      var gap := fs[0].start - prev;
      var next := gap + |fill(fs[0])|;
      assert woven[..gap] == text[prev..fs[0].start];
      assert woven[next..] == Weave(text, fs[1..], fs[0].end, fill);
      UnweaveWeave(text, fs[1..], fs[0].end, fill, other);
    }
  }

  /** Filling each span with the bytes it covers changes nothing. */
  lemma {:induction false} WeaveOriginals(text: string, fs: seq<Finding>, prev: int)
    requires 0 <= prev && Layout(fs, prev, |text|) && Sliceable(fs, prev, |text|)
    requires forall i :: 0 <= i < |fs| ==> InText(fs[i], |text|) && fs[i].value == text[fs[i].start..fs[i].end]
    ensures Weave(text, fs, prev, Original) == text[prev..]
  {
    if fs != [] {
      var f := fs[0];
      LayoutIsSliceable(fs[1..], f.end, |text|);
      WeaveOriginals(text, fs[1..], f.end);
      assert text[prev..] == text[prev..f.start] + text[f.start..f.end] + text[f.end..];
    }
  }

  /** The bytes of `text` from `p` on that no span covers, in order. */
  function Uncovered(text: string, fs: seq<Finding>, p: nat): string
    requires p <= |text|
    decreases |text| - p
  {
    if p == |text| then ""
    else (if CoveredBy(fs, p) then "" else [text[p]]) + Uncovered(text, fs, p + 1)
  }

  lemma {:induction false} UncoveredSkips(text: string, fs: seq<Finding>, p: nat, q: nat)
    requires p <= q <= |text|
    requires forall x :: p <= x < q ==> CoveredBy(fs, x)
    ensures Uncovered(text, fs, p) == Uncovered(text, fs, q)
    decreases q - p
  {
    if p < q {
      UncoveredSkips(text, fs, p + 1, q);
    }
  }

  lemma {:induction false} UncoveredCopies(text: string, fs: seq<Finding>, p: nat, q: nat)
    requires p <= q <= |text|
    requires forall x :: p <= x < q ==> !CoveredBy(fs, x)
    ensures Uncovered(text, fs, p) == text[p..q] + Uncovered(text, fs, q)
    decreases q - p
  {
    if p < q {
      UncoveredCopies(text, fs, p + 1, q);
      var rest := Uncovered(text, fs, q);
      calc {
        Uncovered(text, fs, p);
        [text[p]] + Uncovered(text, fs, p + 1);
        [text[p]] + (text[p + 1..q] + rest);
        ([text[p]] + text[p + 1..q]) + rest;
        { assert [text[p]] + text[p + 1..q] == text[p..q]; }
        text[p..q] + rest;
      }
    }
  }

  lemma UncoveredHead(text: string, fs: seq<Finding>, p: nat)
    requires p < |text|
    ensures CoveredBy(fs, p) ==> Uncovered(text, fs, p) == Uncovered(text, fs, p + 1)
    ensures !CoveredBy(fs, p) ==> Uncovered(text, fs, p) == [text[p]] + Uncovered(text, fs, p + 1)
  {
    assert "" + Uncovered(text, fs, p + 1) == Uncovered(text, fs, p + 1);
  }

  lemma UncoveredDependsOnCoverage(text: string, fs: seq<Finding>, gs: seq<Finding>, p: nat)
    requires p <= |text|
    requires forall x :: p <= x < |text| ==> CoveredBy(fs, x) == CoveredBy(gs, x)
    ensures Uncovered(text, fs, p) == Uncovered(text, gs, p)
  {
    var q := |text|;
    while q > p
      invariant p <= q <= |text|
      invariant Uncovered(text, fs, q) == Uncovered(text, gs, q)
    {
      q := q - 1;
      UncoveredHead(text, fs, q);
      UncoveredHead(text, gs, q);
    }
  }

  /** With its fills deleted, a woven text is exactly the bytes no span covers. `all` is the whole
      layout, of which `all[k..]` remains to be written. */
  lemma {:induction false} WeaveNothing(text: string, all: seq<Finding>, k: nat, prev: nat)
    requires k <= |all| && Layout(all, 0, |text|)
    requires prev == if k == 0 then 0 else all[k - 1].end
    requires Sliceable(all[k..], prev, |text|)
    ensures Weave(text, all[k..], prev, Nothing) == Uncovered(text, all, prev)
    decreases |all| - k
  {
    LayoutBounds(all, 0, |text|);
    if k == |all| {
      NotCoveredBetween(text, all, k, prev, |text|);
    } else {
      assert all[k..][1..] == all[k + 1..];
      NotCoveredBetween(text, all, k, prev, all[k].start);
      CoveredBySpan(text, all, k);
      WeaveNothing(text, all, k + 1, all[k].end);
    }
  }

  /** Between span `k - 1` and span `k` everything is uncovered. */
  lemma NotCoveredBetween(text: string, all: seq<Finding>, k: nat, p: nat, q: nat)
    requires k <= |all| && Layout(all, 0, |text|) && p <= q <= |text|
    requires k > 0 ==> all[k - 1].end <= p
    requires k < |all| ==> q <= all[k].start
    ensures Uncovered(text, all, p) == text[p..q] + Uncovered(text, all, q)
  {
    LayoutBounds(all, 0, |text|);
    forall x | p <= x < q
      ensures !CoveredBy(all, x)
    {
      forall i | 0 <= i < |all|
        ensures !Covers(all[i], x)
      {
        assert i < k - 1 ==> all[i].end <= all[k - 1].start;
        assert k < i ==> all[k].end <= all[i].start;
      }
    }
    UncoveredCopies(text, all, p, q);
  }

  lemma CoveredBySpan(text: string, all: seq<Finding>, k: nat)
    requires k < |all| && 0 <= all[k].start <= all[k].end <= |text|
    ensures Uncovered(text, all, all[k].start) == Uncovered(text, all, all[k].end)
  {
    forall x | all[k].start <= x < all[k].end
      ensures CoveredBy(all, x)
    {
      assert Covers(all[k], x);
    }
    UncoveredSkips(text, all, all[k].start, all[k].end);
  }

  function TotalOf(fs: seq<Finding>, size: Finding -> int): int {
    if fs == [] then 0 else size(fs[0]) + TotalOf(fs[1..], size)
  }

  /** Length is conserved: what a span loses and what its fill adds is all that changes. */
  lemma {:induction false} WeaveLength(text: string, fs: seq<Finding>, prev: int, fill: Finding -> string)
    requires Sliceable(fs, prev, |text|)
    ensures |Weave(text, fs, prev, fill)|
         == |text| - prev - TotalOf(fs, (f: Finding) => f.end - f.start) + TotalOf(fs, (f: Finding) => |fill(f)|)
  {
    if fs != [] {
      WeaveLength(text, fs[1..], fs[0].end, fill);
    }
  }
}
