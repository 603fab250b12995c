/** Scanning and redacting together. */
module ScanLaws {
  import opened Sorting
  import opened Findings
  import opened Redactor
  import opened RedactionLaws
  import opened ScanPipeline

  /** Whatever the layers find, whichever of them are skipped, and however a caller filters the findings:
      redacting with the result takes no slice out of range. */
  lemma ScanThenRedactStaysInRange(text: string, layers: seq<Layer>, late: nat -> bool, stages: seq<Stage>,
                                   chosen: seq<Finding>, sorted: seq<Finding>)
    requires AllHonest(layers) && Run(text, layers, late, stages)
    requires multiset(chosen) <= multiset(stages[|layers|].findings)
    requires SortedPermutation(DedupLe, chosen, sorted)
    ensures Redacted(text, sorted).Done?
    ensures AllInText(sorted, |text|) && Layout(Applied(sorted), 0, |text|)
  {
    ScanStaysInText(text, layers, late, stages, |layers|);
    forall i | 0 <= i < |sorted|
      ensures InText(sorted[i], |text|)
    {
      assert sorted[i] in multiset(sorted);
      var j :| 0 <= j < |stages[|layers|].findings| && stages[|layers|].findings[j] == sorted[i];
    }
    RedactStaysInRange(text, sorted);
  }

  /** If every layer quotes what it saw and keeps off the placeholders, the redaction of a whole scan can
      be undone from its record. */
  lemma FaithfulScanIsReversible(text: string, layers: seq<Layer>, late: nat -> bool, stages: seq<Stage>,
                                 chosen: seq<Finding>, sorted: seq<Finding>)
    requires Run(text, layers, late, stages)
    requires forall k :: 0 <= k < |layers| ==> FaithfulAt(text, layers, late, stages, k)
    requires multiset(chosen) <= multiset(stages[|layers|].findings)
    requires SortedPermutation(DedupLe, chosen, sorted)
    ensures Redacted(text, sorted).Done?
    ensures Restore(Redacted(text, sorted).value.text, Redacted(text, sorted).value.applied, 0) == text
  {
    FaithfulScanQuotesTheText(text, layers, late, stages, |layers|);
    forall i | 0 <= i < |sorted|
      ensures InText(sorted[i], |text|) && sorted[i].value == text[sorted[i].start..sorted[i].end]
    {
      assert sorted[i] in multiset(sorted);
      var j :| 0 <= j < |stages[|layers|].findings| && stages[|layers|].findings[j] == sorted[i];
    }
    RedactIsReversible(text, sorted);
  }

  // ----- the working text and the final text agree -----

  ghost predicate DistinctStarts(fs: seq<Finding>) {
    forall i, j :: 0 <= i < j < |fs| ==> fs[i].start != fs[j].start
  }

  ghost predicate AllNonEmpty(fs: seq<Finding>) {
    forall i :: 0 <= i < |fs| ==> fs[i].start < fs[i].end
  }

  lemma {:induction false} AllUsable(fs: seq<Finding>, n: int)
    requires AllInText(fs, n) && AllNonEmpty(fs)
    ensures Usable(fs, n) == fs
  {
    if fs != [] {
      AllUsable(fs[1..], n);
    }
  }

  /** What deduplication keeps, the sweep over all findings takes. */
  lemma KeptIsSwept(s: seq<Finding>, n: int, k: nat)
    requires 0 <= n && AllInText(s, n) && AllNonEmpty(s) && DistinctStarts(s) && Laminar(s) && Sorted(StartLe, s)
    requires k < |s| && Maximal(s[k], s)
    ensures s[k] in Swept(s, 0)
  {
    var swept := Swept(s, 0);
    SweptOrMet(s, 0, k);
    if s[k] !in swept {
      var i :| 0 <= i < |swept| && Covers(swept[i], s[k].start);
      SweptLayout(s, 0, n);
    }
  }

  lemma NestedInLayout(swept: seq<Finding>, n: int, i: nat, l: nat)
    requires Layout(swept, 0, n) && i < |swept| && l < |swept|
    requires swept[i].start < swept[i].end && Contains(swept[l], swept[i])
    ensures l == i
  {
    LayoutBounds(swept, 0, n);
  }

  lemma ContainerIsSwept(s: seq<Finding>, n: int, f: Finding) returns (d: Finding)
    requires 0 <= n && AllInText(s, n) && AllNonEmpty(s) && DistinctStarts(s) && Laminar(s)
    requires Sorted(StartLe, s) && Sorted(DedupLe, s) && f in s
    ensures d in Dedup(s) && Contains(d, f) && d in Swept(s, 0)
  {
    var j :| 0 <= j < |s| && s[j] == f;
    DedupIsMaximal(s);
    assert HasContainer(Dedup(s), s[j]);
    var k :| 0 <= k < |Dedup(s)| && Contains(Dedup(s)[k], s[j]);
    d := Dedup(s)[k];
    var m :| 0 <= m < |s| && s[m] == d;
    KeptIsSwept(s, n, m);
  }

  /** What the sweep over all findings takes, deduplication keeps. */
  lemma SweptIsKept(s: seq<Finding>, n: int, i: nat)
    requires 0 <= n && AllInText(s, n) && AllNonEmpty(s) && DistinctStarts(s) && Laminar(s)
    requires Sorted(StartLe, s) && Sorted(DedupLe, s) && i < |Swept(s, 0)|
    ensures Swept(s, 0)[i] in Dedup(s)
  {
    var swept := Swept(s, 0);
    SweptLayout(s, 0, n);
    assert swept[i] in s;
    var d := ContainerIsSwept(s, n, swept[i]);
    var l :| 0 <= l < |swept| && swept[l] == d;
    var j :| 0 <= j < |s| && s[j] == swept[i];
    NestedInLayout(swept, n, i, l);
  }

  lemma LayoutIsStaircase(swept: seq<Finding>, n: int)
    requires Layout(swept, 0, n) && AllNonEmpty(swept)
    ensures Staircase(swept)
  {
    LayoutBounds(swept, 0, n);
  }

  lemma {:induction false} SameSpansSameFindings(a: seq<Finding>, b: seq<Finding>, s: seq<Finding>)
    requires DistinctStarts(s) && |a| == |b|
    requires forall i :: 0 <= i < |a| ==> a[i] in s && b[i] in s && SameSpan(a[i], b[i])
    ensures a == b
  {
    forall i | 0 <= i < |a|
      ensures a[i] == b[i]
    {
      var j :| 0 <= j < |s| && s[j] == a[i];
      var k :| 0 <= k < |s| && s[k] == b[i];
      assert s[j].start == s[k].start;
    }
  }

  lemma SweptHasKeptSpan(s: seq<Finding>, n: int, i: nat)
    requires 0 <= n && AllInText(s, n) && AllNonEmpty(s) && DistinctStarts(s) && Laminar(s)
    requires Sorted(StartLe, s) && Sorted(DedupLe, s) && i < |Swept(s, 0)|
    ensures HasSpan(Dedup(s), Swept(s, 0)[i])
  {
    SweptIsKept(s, n, i);
    var k :| 0 <= k < |Dedup(s)| && Dedup(s)[k] == Swept(s, 0)[i];
    assert SameSpan(Dedup(s)[k], Swept(s, 0)[i]);
  }

  lemma KeptHasSweptSpan(s: seq<Finding>, n: int, k: nat)
    requires 0 <= n && AllInText(s, n) && AllNonEmpty(s) && DistinctStarts(s) && Laminar(s)
    requires Sorted(StartLe, s) && Sorted(DedupLe, s) && k < |Dedup(s)|
    ensures HasSpan(Swept(s, 0), Dedup(s)[k])
  {
    DedupIsMaximal(s);
    var j :| 0 <= j < |s| && s[j] == Dedup(s)[k];
    KeptIsSwept(s, n, j);
    var i :| 0 <= i < |Swept(s, 0)| && Swept(s, 0)[i] == Dedup(s)[k];
    assert SameSpan(Swept(s, 0)[i], Dedup(s)[k]);
  }

  lemma SweepOverAllIsDedup(s: seq<Finding>, n: int)
    requires 0 <= n && AllInText(s, n) && AllNonEmpty(s) && DistinctStarts(s) && Laminar(s)
    requires Sorted(StartLe, s) && Sorted(DedupLe, s)
    ensures Swept(s, 0) == Dedup(s)
  {
    var swept, kept := Swept(s, 0), Dedup(s);
    SweptLayout(s, 0, n);
    forall i | 0 <= i < |swept|
      ensures swept[i].start < swept[i].end
    {
      var j :| 0 <= j < |s| && s[j] == swept[i];
    }
    LayoutIsStaircase(swept, n);
    DedupKeepsAStaircase(s);
    forall i | 0 <= i < |swept|
      ensures HasSpan(kept, swept[i])
    {
      SweptHasKeptSpan(s, n, i);
    }
    forall k | 0 <= k < |kept|
      ensures HasSpan(swept, kept[k])
    {
      KeptHasSweptSpan(s, n, k);
    }
    StaircaseIsDetermined(swept, kept);
    SameSpansSameFindings(swept, kept, s);
  }

  /** With distinct starts both sorts leave the findings in one and the same order. */
  lemma SortsAgree(fs: seq<Finding>, s: seq<Finding>, t: seq<Finding>)
    requires DistinctStarts(s)
    requires SortedPermutation(StartLe, fs, s) && SortedPermutation(DedupLe, fs, t)
    ensures s == t
  {
    assert Strict(StartLe, s);
    assert Sorted(StartLe, t) by {
      forall i, j | 0 <= i < j < |t|
        ensures StartLe(t[i], t[j])
      {
        assert DedupLe(t[i], t[j]);
      }
    }
    StrictOrderIsUnique(StartLe, s, t);
  }

  lemma PropertiesOfAPermutation(fs: seq<Finding>, s: seq<Finding>, n: int)
    requires multiset(s) == multiset(fs)
    requires AllInText(fs, n) && AllNonEmpty(fs) && DistinctStarts(fs) && Laminar(fs)
    ensures AllInText(s, n) && AllNonEmpty(s) && DistinctStarts(s) && Laminar(s)
  {
    forall i | 0 <= i < |s|
      ensures exists j :: 0 <= j < |fs| && fs[j] == s[i]
    {
      assert s[i] in multiset(s);
    }
    forall i, j | 0 <= i < j < |s|
      ensures s[i].start != s[j].start
    {
      if s[i].start == s[j].start {
        var a :| 0 <= a < |fs| && fs[a] == s[i];
        var b :| 0 <= b < |fs| && fs[b] == s[j];
        assert a == b;
        OccursTwice(s, i, j);
        OccursOnce(fs, a);
      }
    }
  }

  lemma OccursTwice(s: seq<Finding>, i: nat, j: nat)
    requires i < j < |s| && s[i] == s[j]
    ensures multiset(s)[s[i]] >= 2
  {
    assert s == s[..i] + [s[i]] + s[i + 1..j] + [s[j]] + s[j + 1..];
  }

  lemma OccursOnce(fs: seq<Finding>, a: nat)
    requires a < |fs| && DistinctStarts(fs)
    ensures multiset(fs)[fs[a]] == 1
  {
    assert fs == fs[..a] + [fs[a]] + fs[a + 1..];
    assert fs[a] !in multiset(fs[..a]) && fs[a] !in multiset(fs[a + 1..]);
  }

  /** If findings are non-empty, nested or disjoint, and start at distinct places, then the working text
      the next layer would see is the text `Redact` produces. */
  lemma WorkingTextIsFinalText(text: string, findings: seq<Finding>, applied: seq<Finding>, sorted: seq<Finding>)
    requires AllInText(findings, |text|) && AllNonEmpty(findings) && DistinctStarts(findings) && Laminar(findings)
    requires Selects(findings, |text|, applied) && SortedPermutation(DedupLe, findings, sorted)
    ensures applied == Applied(sorted)
    ensures Redacted(text, sorted).Done? && Sliceable(applied, 0, |text|)
    ensures Redacted(text, sorted).value.text == Weave(text, applied, 0, Label)
  {
    var byStart :| SortedPermutation(StartLe, findings, byStart) && applied == Swept(Usable(byStart, |text|), 0);
    PropertiesOfAPermutation(findings, byStart, |text|);
    PropertiesOfAPermutation(findings, sorted, |text|);
    SortsAgree(findings, byStart, sorted);
    AllUsable(sorted, |text|);
    SweepOverAllIsDedup(sorted, |text|);
    LaminarIsCovered(text, sorted);
    RedactStaysInRange(text, sorted);
  }
}
