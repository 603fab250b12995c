/** Removing duplicate findings, and the final redaction of a text. */
module Redactor {
  import opened Sorting
  import opened Findings

  datatype Redaction = Redaction(text: string, applied: seq<AppliedRedaction>)

  datatype AppliedRedaction = AppliedRedaction(placeholder: string, original: string, start: int, end: int)

  /** A run of the source ends with a result or with a slice that is out of range. */
  datatype Outcome<+T> = Done(value: T) | OutOfRange

  /** By start; of two findings with one start, the longer first. */
  predicate DedupLe(f: Finding, g: Finding) {
    if f.start == g.start then f.end - f.start >= g.end - g.start else f.start < g.start
  }

  // ----- the functions the methods below compute -----

  predicate HasContainer(fs: seq<Finding>, f: Finding) {
    exists k :: 0 <= k < |fs| && Contains(fs[k], f)
  }

  predicate HasSpan(fs: seq<Finding>, f: Finding) {
    exists k :: 0 <= k < |fs| && SameSpan(fs[k], f)
  }

  /** Keeps each finding that no finding kept before it contains. */
  function Dedup(fs: seq<Finding>): seq<Finding> {
    if fs == [] then []
    else
      var kept, f := Dedup(fs[..|fs| - 1]), fs[|fs| - 1];
      if HasContainer(kept, f) then kept else kept + [f]
  }

  function Applied(sorted: seq<Finding>): seq<Finding> {
    Swept(Dedup(sorted), 0)
  }

  function Record(f: Finding): AppliedRedaction {
    AppliedRedaction(Placeholder(f.tag), f.value, f.start, f.end)
  }

  function Records(fs: seq<Finding>): (r: seq<AppliedRedaction>)
    ensures |r| == |fs| && forall i :: 0 <= i < |r| ==> r[i] == Record(fs[i])
  {
    seq(|fs|, i requires 0 <= i < |fs| => Record(fs[i]))
  }

  /** What `Redact` gives once the findings stand in sorted order. */
  function Redacted(text: string, sorted: seq<Finding>): Outcome<Redaction> {
    if Sliceable(Applied(sorted), 0, |text|) then
      Done(Redaction(Weave(text, Applied(sorted), 0, Label), Records(Applied(sorted))))
    else
      OutOfRange
  }

  // ----- what deduplication keeps -----

  /** Starts and ends both rise strictly. */
  ghost predicate Staircase(fs: seq<Finding>) {
    forall i, j :: 0 <= i < j < |fs| ==> fs[i].start < fs[j].start && fs[i].end < fs[j].end
  }

  /** No finding of `fs` contains `f`, except those with the very same span. */
  ghost predicate Maximal(f: Finding, fs: seq<Finding>) {
    forall i :: 0 <= i < |fs| && Contains(fs[i], f) ==> SameSpan(fs[i], f)
  }

  lemma {:induction false} DedupKeepsAStaircase(fs: seq<Finding>)
    requires Sorted(DedupLe, fs)
    ensures Staircase(Dedup(fs))
    ensures forall i :: 0 <= i < |Dedup(fs)| ==> Dedup(fs)[i] in fs
  {
    if fs != [] {
      var front, f := fs[..|fs| - 1], fs[|fs| - 1];
      assert fs == front + [f];
      DedupKeepsAStaircase(front);
      forall k | 0 <= k < |Dedup(front)|
        ensures DedupLe(Dedup(front)[k], f)
      {
        var i :| 0 <= i < |front| && front[i] == Dedup(front)[k];
        assert fs[i] == front[i] && fs[|fs| - 1] == f;
      }
    }
  }

  lemma {:induction false} DedupCoversAll(fs: seq<Finding>)
    ensures forall i :: 0 <= i < |fs| ==> HasContainer(Dedup(fs), fs[i])
  {
    if fs != [] {
      var front, f := fs[..|fs| - 1], fs[|fs| - 1];
      var before, kept := Dedup(front), Dedup(fs);
      DedupCoversAll(front);
      forall i | 0 <= i < |fs|
        ensures HasContainer(kept, fs[i])
      {
        if i < |front| {
          assert front[i] == fs[i];
          var k :| 0 <= k < |before| && Contains(before[k], front[i]);
          assert Contains(kept[k], fs[i]);
        } else if !HasContainer(before, f) {
          assert Contains(kept[|kept| - 1], fs[i]);
        }
      }
    }
  }

  lemma CoveringStaircaseIsMaximal(kept: seq<Finding>, fs: seq<Finding>, j: nat)
    requires Staircase(kept) && j < |kept|
    requires forall i :: 0 <= i < |fs| ==> HasContainer(kept, fs[i])
    ensures Maximal(kept[j], fs)
  {
    forall i | 0 <= i < |fs| && Contains(fs[i], kept[j])
      ensures SameSpan(fs[i], kept[j])
    {
      var k :| 0 <= k < |kept| && Contains(kept[k], fs[i]);
      assert !(k < j) && !(j < k);
    }
  }

  lemma MaximalIsKept(kept: seq<Finding>, fs: seq<Finding>, i: nat)
    requires i < |fs| && Maximal(fs[i], fs) && HasContainer(kept, fs[i])
    requires forall k :: 0 <= k < |kept| ==> kept[k] in fs
    ensures HasSpan(kept, fs[i])
  {
    var k :| 0 <= k < |kept| && Contains(kept[k], fs[i]);
    var m :| 0 <= m < |fs| && fs[m] == kept[k];
    assert SameSpan(kept[k], fs[i]);
  }

  /** The kept findings are exactly the maximal spans, each once, and every span lies in a kept one. */
  lemma {:induction false} DedupIsMaximal(fs: seq<Finding>)
    requires Sorted(DedupLe, fs)
    ensures Staircase(Dedup(fs))
    ensures forall i :: 0 <= i < |Dedup(fs)| ==> Dedup(fs)[i] in fs && Maximal(Dedup(fs)[i], fs)
    ensures forall i :: 0 <= i < |fs| ==> HasContainer(Dedup(fs), fs[i])
    ensures forall i :: 0 <= i < |fs| && Maximal(fs[i], fs) ==> HasSpan(Dedup(fs), fs[i])
  {
    DedupKeepsAStaircase(fs);
    DedupCoversAll(fs);
    var kept := Dedup(fs);
    forall j | 0 <= j < |kept|
      ensures kept[j] in fs && Maximal(kept[j], fs)
    {
      CoveringStaircaseIsMaximal(kept, fs, j);
    }
    forall i | 0 <= i < |fs| && Maximal(fs[i], fs)
      ensures HasSpan(kept, fs[i])
    {
      MaximalIsKept(kept, fs, i);
    }
  }

  ghost predicate SpansAmong(a: seq<Finding>, b: seq<Finding>) {
    forall i :: 0 <= i < |a| ==> HasSpan(b, a[i])
  }

  lemma StaircaseTail(a: seq<Finding>, b: seq<Finding>)
    requires Staircase(a) && Staircase(b) && a != [] && b != []
    requires SameSpan(a[0], b[0]) && SpansAmong(a, b)
    ensures Staircase(a[1..]) && SpansAmong(a[1..], b[1..])
  {
    forall i | 0 <= i < |a[1..]|
      ensures HasSpan(b[1..], a[1..][i])
    {
      assert HasSpan(b, a[i + 1]) && a[0].start < a[i + 1].start;
      var j :| 0 <= j < |b| && SameSpan(b[j], a[i + 1]);
      assert b[1..][j - 1] == b[j];
    }
  }

  lemma SameFirstSpan(a: seq<Finding>, b: seq<Finding>)
    requires Staircase(a) && Staircase(b) && SpansAmong(a, b) && SpansAmong(b, a) && a != []
    ensures b != [] && SameSpan(a[0], b[0])
  {
    assert HasSpan(b, a[0]);
    assert HasSpan(a, b[0]);
  }

  /** A staircase is determined by the set of its spans. */
  lemma {:induction false} StaircaseIsDetermined(a: seq<Finding>, b: seq<Finding>)
    requires Staircase(a) && Staircase(b) && SpansAmong(a, b) && SpansAmong(b, a)
    ensures |a| == |b|
    ensures forall i :: 0 <= i < |a| ==> SameSpan(a[i], b[i])
  {
    if a == [] {
      if b != [] {
        SameFirstSpan(b, a);
      }
    } else {
      SameFirstSpan(a, b);
      StaircaseTail(a, b);
      StaircaseTail(b, a);
      StaircaseIsDetermined(a[1..], b[1..]);
      forall i | 0 < i < |a|
        ensures SameSpan(a[i], b[i])
      {
        assert SameSpan(a[1..][i - 1], b[1..][i - 1]);
      }
    }
  }

  lemma KeptSpansAmong(s: seq<Finding>, t: seq<Finding>)
    requires multiset(s) == multiset(t) && Sorted(DedupLe, s) && Sorted(DedupLe, t)
    ensures SpansAmong(Dedup(s), Dedup(t))
  {
    DedupIsMaximal(s);
    DedupIsMaximal(t);
    forall i | 0 <= i < |Dedup(s)|
      ensures HasSpan(Dedup(t), Dedup(s)[i])
    {
      var f := Dedup(s)[i];
      assert f in s && f in multiset(s) && f in multiset(t);
      var n :| 0 <= n < |t| && t[n] == f;
      forall k | 0 <= k < |t| && Contains(t[k], f)
        ensures SameSpan(t[k], f)
      {
        assert t[k] in multiset(t) && t[k] in multiset(s);
        var m :| 0 <= m < |s| && s[m] == t[k];
        assert Contains(s[m], f);
      }
      assert Maximal(t[n], t);
    }
  }

  /** Whichever order the unstable sort leaves the findings in, the same spans are kept, in the same order. */
  lemma DedupSpansAreOrderIndependent(fs: seq<Finding>, s: seq<Finding>, t: seq<Finding>)
    requires SortedPermutation(DedupLe, fs, s) && SortedPermutation(DedupLe, fs, t)
    ensures |Dedup(s)| == |Dedup(t)|
    ensures forall i :: 0 <= i < |Dedup(s)| ==> SameSpan(Dedup(s)[i], Dedup(t)[i])
  {
    DedupKeepsAStaircase(s);
    DedupKeepsAStaircase(t);
    KeptSpansAmong(s, t);
    KeptSpansAmong(t, s);
    StaircaseIsDetermined(Dedup(s), Dedup(t));
  }

  /** The second sort, by start alone, has nothing left to do. */
  lemma SecondSortChangesNothing(sorted: seq<Finding>, again: seq<Finding>)
    requires Sorted(DedupLe, sorted)
    requires SortedPermutation(StartLe, Dedup(sorted), again)
    ensures again == Dedup(sorted)
  {
    DedupKeepsAStaircase(sorted);
    StrictOrderIsUnique(StartLe, Dedup(sorted), again);
  }

  // ----- the methods -----

  method SortForDedup(findings: array<Finding>)
    modifies findings
    ensures SortedPermutation(DedupLe, old(findings[..]), findings[..])
  {
    SortSlice(findings, DedupLe);
  }

  /** The second sort of `Redact`, with the proof that it is superfluous. */
  method SortKept(deduped: array<Finding>, ghost sorted: seq<Finding>)
    requires Sorted(DedupLe, sorted) && deduped[..] == Dedup(sorted)
    modifies deduped
    ensures deduped[..] == old(deduped[..])
  {
    SortSlice(deduped, StartLe);
    SecondSortChangesNothing(sorted, deduped[..]);
  }

  /** Sorts the caller's findings in place and returns those to keep. */
  method DedupFindings(findings: array<Finding>) returns (result: seq<Finding>)
    modifies findings
    ensures SortedPermutation(DedupLe, old(findings[..]), findings[..])
    ensures result == Dedup(findings[..])
  {
    SortForDedup(findings);
    result := [];
    for i := 0 to findings.Length
      invariant SortedPermutation(DedupLe, old(findings[..]), findings[..])
      invariant result == Dedup(findings[..i])
    {
      var f, overlaps, k := findings[i], false, 0;
      while k < |result|
        invariant 0 <= k <= |result| && !overlaps
        invariant forall m :: 0 <= m < k ==> !Contains(result[m], f)
      {
        if Contains(result[k], f) {
          overlaps := true;
          break;
        }
        k := k + 1;
      }
      assert findings[..i + 1][..i] == findings[..i];
      assert overlaps ==> Contains(result[k], f);
      if !overlaps {
        result := result + [f];
      }
    }
    assert findings[..findings.Length] == findings[..];
  }

  /** The loop of `Redact` after `done` has been written: what is still to come, from `prev` on. */
  ghost predicate Midway(text: string, kept: seq<Finding>, i: nat, prev: int, done: seq<Finding>, b: string)
    requires i <= |kept|
  {
    var all, rest := Swept(kept, 0), Swept(kept[i..], prev);
    && all == done + rest
    && (Sliceable(all, 0, |text|) <==> Sliceable(rest, prev, |text|))
    && (Sliceable(all, 0, |text|) ==> Weave(text, all, 0, Label) == b + Weave(text, rest, prev, Label))
  }

  lemma MidwaySkip(text: string, kept: seq<Finding>, i: nat, prev: int, done: seq<Finding>, b: string)
    requires i < |kept| && Midway(text, kept, i, prev, done, b) && kept[i].start < prev
    ensures Midway(text, kept, i + 1, prev, done, b)
  {
    assert kept[i..][1..] == kept[i + 1..];
  }

  lemma MidwayTake(text: string, kept: seq<Finding>, i: nat, prev: int, done: seq<Finding>, b: string)
    requires i < |kept| && 0 <= prev <= |text| && Midway(text, kept, i, prev, done, b)
    requires prev <= kept[i].start <= |text|
    ensures Midway(text, kept, i + 1, kept[i].end, done + [kept[i]],
                   b + text[prev..kept[i].start] + Placeholder(kept[i].tag))
  {
    var f := kept[i];
    assert kept[i..][1..] == kept[i + 1..];
    var rest, next := Swept(kept[i..], prev), Swept(kept[i + 1..], f.end);
    assert rest == [f] + next && rest[1..] == next;
    assert done + rest == done + [f] + next;
    if Sliceable(rest, prev, |text|) {
      assert Weave(text, rest, prev, Label) == text[prev..f.start] + Placeholder(f.tag) + Weave(text, next, f.end, Label);
    }
  }

  lemma MidwayStuck(text: string, kept: seq<Finding>, i: nat, prev: int, done: seq<Finding>, b: string)
    requires i <= |kept| && Midway(text, kept, i, prev, done, b)
    requires !(0 <= prev <= |text|) || (i < |kept| && prev <= kept[i].start && |text| < kept[i].start)
    ensures !Sliceable(Swept(kept, 0), 0, |text|)
  {
  }

  lemma MidwayEnd(text: string, kept: seq<Finding>, prev: int, done: seq<Finding>, b: string)
    requires 0 <= prev <= |text| && Midway(text, kept, |kept|, prev, done, b)
    ensures done == Swept(kept, 0) && Sliceable(done, 0, |text|)
    ensures b + text[prev..] == Weave(text, done, 0, Label)
  {
  }

  /** Sorts the caller's findings in place and redacts the text with those that remain. */
  method Redact(text: string, findings: array<Finding>) returns (r: Outcome<Redaction>)
    modifies findings
    ensures SortedPermutation(DedupLe, old(findings[..]), findings[..])
    ensures r == Redacted(text, findings[..])
  {
    if findings.Length == 0 {
      assert findings[..] == [];
      return Done(Redaction(text, []));
    }
    var kept := DedupFindings(findings);
    ghost var sorted := findings[..];
    var deduped := new Finding[|kept|](i requires 0 <= i < |kept| => kept[i]);
    assert deduped[..] == kept;
    SortKept(deduped, sorted);

    var b, applied, prev := "", [], 0;
    ghost var done: seq<Finding> := [];
    assert kept[0..] == kept;
    for i := 0 to deduped.Length
      invariant deduped[..] == kept && findings[..] == sorted
      invariant 0 <= prev <= |text|
      invariant Midway(text, kept, i, prev, done, b)
      invariant applied == Records(done)
    {
      var f := deduped[i];
      assert f == kept[i];
      if f.start < prev {
        MidwaySkip(text, kept, i, prev, done, b);
        continue;
      }
      if f.start > |text| {
        MidwayStuck(text, kept, i, prev, done, b);
        return OutOfRange;
      }
      MidwayTake(text, kept, i, prev, done, b);
      b := b + text[prev..f.start];
      var replacement := Placeholder(f.tag);
      b := b + replacement;
      applied := applied + [AppliedRedaction(replacement, f.value, f.start, f.end)];
      done := done + [f];
      if !(0 <= f.end <= |text|) {
        // the next slice of the text starts here, and is out of range
        MidwayStuck(text, kept, i + 1, f.end, done, b);
        return OutOfRange;
      }
      prev := f.end;
    }
    MidwayEnd(text, kept, prev, done, b);
    b := b + text[prev..];
    r := Done(Redaction(b, applied));
  }
}
