/** When everything that any layer of a scan finds is replaced in the end, and how a byte can be left over. */
module ScanCoverage {
  import opened Sorting
  import opened Findings
  import opened Redactor
  import opened RedactionLaws
  import opened ScanPipeline
  import opened ScanLaws

  /** Findings in the text, none of them empty, nested or disjoint, and with a start of their own. */
  ghost predicate Tidy(fs: seq<Finding>, n: int) {
    AllInText(fs, n) && AllNonEmpty(fs) && DistinctStarts(fs) && Laminar(fs)
  }

  /** What the layer reports at this stage is tidy, and touches no placeholder. */
  ghost predicate TidyStage(text: string, st: Stage, raw: seq<Finding>)
    requires Sliceable(st.applied, 0, |text|)
  {
    && Tidy(raw, |Working(text, st)|)
    && forall k :: 0 <= k < |raw| ==> ClearOf(st.applied, 0, raw[k].start, raw[k].end)
  }

  ghost predicate TidyAt(text: string, layers: seq<Layer>, late: nat -> bool, stages: seq<Stage>, i: nat)
    requires i < |layers| && i < |stages|
  {
    && Sliceable(stages[i].applied, 0, |text|)
    && TidyStage(text, stages[i], Reported(text, layers[i], late(i), stages[i]))
  }

  // ----- mapping keeps findings tidy -----

  lemma {:induction false} ClearPart(fs: seq<Finding>, shift: int, s: int, t: int, s': int, t': int)
    requires ClearOf(fs, shift, s, t) && s <= s' <= t' <= t
    ensures ClearOf(fs, shift, s', t')
  {
    if fs != [] {
      ClearPart(fs[1..], shift + Gain(fs[0]), s, t, s', t');
    }
  }

  /** A span clear of the placeholders is mapped clear of the spans they stand for. */
  lemma {:induction false} MapsClear(text: string, fs: seq<Finding>, prev: int, shift: int, s: int, t: int, i: nat)
    requires 0 <= prev && Layout(fs, prev, |text|) && Sliceable(fs, prev, |text|) && i < |fs|
    requires prev + shift <= s < t && ClearOf(fs, shift, s, t)
    ensures ToOriginal(t, Entries(fs), shift) <= fs[i].start || fs[i].end <= ToOriginal(s, Entries(fs), shift)
  {
    LayoutBounds(fs, prev, |text|);
    ToOriginalHead(fs, shift, t);
    ToOriginalHead(fs, shift, s);
    if t > fs[0].start + shift {
      LayoutIsSliceable(fs[1..], fs[0].end, |text|);
      ToOriginalInside(text, fs[1..], fs[0].end, shift + Gain(fs[0]), s);
      if i > 0 {
        MapsClear(text, fs[1..], fs[0].end, shift + Gain(fs[0]), s, t, i - 1);
      }
    }
  }

  /** A clear finding is mapped to a span of the same length in the text, off all replaced spans. */
  lemma MapsTidy(text: string, st: Stage, f: Finding)
    requires StageOk(text, st) && InText(f, |Working(text, st)|) && f.start < f.end && ClearOf(st.applied, 0, f.start, f.end)
    ensures var m := MapFinding(f, Entries(st.applied));
      && InText(m, |text|) && m.end - m.start == f.end - f.start
      && forall i :: 0 <= i < |st.applied| ==> Disjoint(m, st.applied[i])
  {
    var m := MapFinding(f, Entries(st.applied));
    ClearSpanIsCopied(text, st.applied, 0, 0, f.start, f.end);
    assert |text[m.start..m.end]| == |Working(text, st)[f.start..f.end]|;
    forall i | 0 <= i < |st.applied|
      ensures Disjoint(m, st.applied[i])
    {
      MapsClear(text, st.applied, 0, 0, f.start, f.end, i);
    }
  }

  /** Starts stay apart: what lies between them inside a clear span is copied. */
  lemma StartsStayApart(text: string, st: Stage, f: Finding, g: Finding)
    requires StageOk(text, st) && InText(f, |Working(text, st)|) && InText(g, |Working(text, st)|)
    requires f.start < f.end && ClearOf(st.applied, 0, f.start, f.end) && f.start < g.start
    requires Contains(f, g) || Contains(g, f) || Disjoint(f, g)
    ensures MapFinding(f, Entries(st.applied)).start < MapFinding(g, Entries(st.applied)).start
  {
    if g.start < f.end {
      ClearPart(st.applied, 0, f.start, f.end, f.start, g.start);
      MapsTidy(text, st, f.(end := g.start));
    } else {
      MapsTidy(text, st, f);
      ToOriginalMonotone(text, st.applied, 0, 0, f.end, g.start);
    }
  }

  lemma StaysLaminar(text: string, st: Stage, f: Finding, g: Finding)
    requires StageOk(text, st) && InText(f, |Working(text, st)|) && InText(g, |Working(text, st)|)
    requires Contains(f, g) || Contains(g, f) || Disjoint(f, g)
    ensures var m, n := MapFinding(f, Entries(st.applied)), MapFinding(g, Entries(st.applied));
      Contains(m, n) || Contains(n, m) || Disjoint(m, n)
  {
    if f.start <= g.start {
      ToOriginalMonotone(text, st.applied, 0, 0, f.start, g.start);
    } else {
      ToOriginalMonotone(text, st.applied, 0, 0, g.start, f.start);
    }
    if f.end <= g.end {
      ToOriginalMonotone(text, st.applied, 0, 0, f.end, g.end);
    } else {
      ToOriginalMonotone(text, st.applied, 0, 0, g.end, f.end);
    }
    if f.end <= g.start {
      ToOriginalMonotone(text, st.applied, 0, 0, f.end, g.start);
    } else if g.end <= f.start {
      ToOriginalMonotone(text, st.applied, 0, 0, g.end, f.start);
    }
  }

  lemma MappedAreTidy(text: string, st: Stage, raw: seq<Finding>)
    requires StageOk(text, st) && TidyStage(text, st, raw)
    ensures Tidy(MapFindings(raw, Entries(st.applied)), |text|)
  {
    var mapped := MapFindings(raw, Entries(st.applied));
    forall i | 0 <= i < |mapped|
      ensures InText(mapped[i], |text|) && mapped[i].start < mapped[i].end
    {
      MapsTidy(text, st, raw[i]);
    }
    forall i, j | 0 <= i < |mapped| && 0 <= j < |mapped|
      ensures Contains(mapped[i], mapped[j]) || Contains(mapped[j], mapped[i]) || Disjoint(mapped[i], mapped[j])
    {
      StaysLaminar(text, st, raw[i], raw[j]);
    }
    forall i, j | 0 <= i < j < |mapped|
      ensures mapped[i].start != mapped[j].start
    {
      if raw[i].start < raw[j].start {
        StartsStayApart(text, st, raw[i], raw[j]);
      } else {
        StartsStayApart(text, st, raw[j], raw[i]);
      }
    }
  }

  // ----- what is found later is disjoint from what was found before -----

  lemma {:induction false} SomeOrder(fs: seq<Finding>) returns (sorted: seq<Finding>)
    ensures SortedPermutation(DedupLe, fs, sorted)
  {
    if fs == [] {
      sorted := [];
    } else {
      var front := SomeOrder(fs[..|fs| - 1]);
      InsertSorts(DedupLe, front, fs[|fs| - 1]);
      sorted := Insert(DedupLe, front, fs[|fs| - 1]);
      assert fs == fs[..|fs| - 1] + [fs[|fs| - 1]];
    }
  }

  lemma SameElement(fs: seq<Finding>, gs: seq<Finding>, i: nat) returns (k: nat)
    requires multiset(fs) == multiset(gs) && i < |gs|
    ensures k < |fs| && fs[k] == gs[i]
  {
    assert gs[i] in multiset(fs);
    k :| 0 <= k < |fs| && fs[k] == gs[i];
  }

  lemma SameCoverage(fs: seq<Finding>, gs: seq<Finding>, p: int)
    requires multiset(fs) == multiset(gs)
    ensures CoveredBy(fs, p) ==> CoveredBy(gs, p)
  {
    if i :| 0 <= i < |fs| && Covers(fs[i], p) {
      var k := SameElement(gs, fs, i);
      assert Covers(gs[k], p);
    }
  }

  lemma {:induction false} ReorderedIsTidy(fs: seq<Finding>, sorted: seq<Finding>, n: int)
    requires Tidy(fs, n) && multiset(sorted) == multiset(fs)
    ensures AllInText(sorted, n) && Laminar(sorted)
    ensures forall p :: CoveredBy(sorted, p) <==> CoveredBy(fs, p)
  {
    forall i | 0 <= i < |sorted|
      ensures InText(sorted[i], n)
    {
      var k := SameElement(fs, sorted, i);
    }
    forall i, j | 0 <= i < |sorted| && 0 <= j < |sorted|
      ensures Contains(sorted[i], sorted[j]) || Contains(sorted[j], sorted[i]) || Disjoint(sorted[i], sorted[j])
    {
      var k := SameElement(fs, sorted, i);
      var m := SameElement(fs, sorted, j);
    }
    forall p
      ensures CoveredBy(sorted, p) <==> CoveredBy(fs, p)
    {
      SameCoverage(fs, sorted, p);
      SameCoverage(sorted, fs, p);
    }
  }

  /** Of tidy findings every byte is replaced, in the working text as well as in the end. */
  lemma TidyIsCovered(text: string, fs: seq<Finding>, applied: seq<Finding>, sorted: seq<Finding>)
    requires Tidy(fs, |text|) && Selects(fs, |text|, applied) && SortedPermutation(DedupLe, fs, sorted)
    ensures applied == Applied(sorted) && Sliceable(applied, 0, |text|)
    ensures Redacted(text, sorted).Done? && Redacted(text, sorted).value.text == Weave(text, applied, 0, Label)
    ensures forall p :: CoveredBy(fs, p) <==> CoveredBy(applied, p)
  {
    ReorderedIsTidy(fs, sorted, |text|);
    WorkingTextIsFinalText(text, fs, applied, sorted);
    LaminarIsCovered(text, sorted);
  }

  lemma NotBoth(m: Finding, applied: seq<Finding>, p: int)
    requires forall i :: 0 <= i < |applied| ==> Disjoint(m, applied[i])
    ensures CoveredBy(applied, p) ==> !Covers(m, p)
  {
    if i :| 0 <= i < |applied| && Covers(applied[i], p) {
      assert Disjoint(m, applied[i]);
    }
  }

  lemma OffWhatCovers(m: Finding, g: Finding, applied: seq<Finding>)
    requires m.start < m.end && g.start < g.end
    requires forall i :: 0 <= i < |applied| ==> Disjoint(m, applied[i])
    requires forall p :: Covers(g, p) ==> CoveredBy(applied, p)
    ensures Disjoint(m, g)
  {
    NotBoth(m, applied, if m.start <= g.start then g.start else m.start);
  }

  lemma TidyTogether(fs: seq<Finding>, gs: seq<Finding>, n: int)
    requires Tidy(fs, n) && Tidy(gs, n)
    requires forall i, j :: 0 <= i < |fs| && 0 <= j < |gs| ==> Disjoint(gs[j], fs[i])
    ensures Tidy(fs + gs, n)
  {
    var all := fs + gs;
    forall i, j | 0 <= i < |all| && 0 <= j < |all|
      ensures Contains(all[i], all[j]) || Contains(all[j], all[i]) || Disjoint(all[i], all[j])
      ensures i < j ==> all[i].start != all[j].start
    {
      if i < |fs| && j >= |fs| {
        assert Disjoint(gs[j - |fs|], fs[i]);
      } else if i >= |fs| && j < |fs| {
        assert Disjoint(gs[i - |fs|], fs[j]);
      }
    }
  }

  lemma NewFindingsAreDisjoint(text: string, st: Stage, raw: seq<Finding>, i: nat, j: nat)
    requires StageOk(text, st) && TidyStage(text, st, raw) && Tidy(st.findings, |text|)
    requires Selects(st.findings, |text|, st.applied) && i < |st.findings| && j < |raw|
    ensures Disjoint(MapFinding(raw[j], Entries(st.applied)), st.findings[i])
  {
    var sorted := SomeOrder(st.findings);
    TidyIsCovered(text, st.findings, st.applied, sorted);
    MapsTidy(text, st, raw[j]);
    forall p | Covers(st.findings[i], p)
      ensures CoveredBy(st.applied, p)
    {
      assert CoveredBy(st.findings, p);
    }
    OffWhatCovers(MapFinding(raw[j], Entries(st.applied)), st.findings[i], st.applied);
  }

  lemma StepStaysTidy(text: string, st: Stage, raw: seq<Finding>)
    requires StageOk(text, st) && TidyStage(text, st, raw) && Tidy(st.findings, |text|)
    requires Selects(st.findings, |text|, st.applied)
    ensures Tidy(st.findings + MapFindings(raw, Entries(st.applied)), |text|)
  {
    MappedAreTidy(text, st, raw);
    forall i, j | 0 <= i < |st.findings| && 0 <= j < |raw|
      ensures Disjoint(MapFindings(raw, Entries(st.applied))[j], st.findings[i])
    {
      NewFindingsAreDisjoint(text, st, raw, i, j);
    }
    TidyTogether(st.findings, MapFindings(raw, Entries(st.applied)), |text|);
  }

  // ----- over a whole scan -----

  lemma NothingSelects(n: int)
    ensures Selects([], n, [])
  {
    assert SortedPermutation(StartLe, [], []);
    assert Swept(Usable([], n), 0) == [];
  }

  lemma NextStageIsTidy(text: string, layer: Layer, late: bool, st: Stage, st': Stage)
    requires StageOk(text, st) && Step(text, layer, late, st, st') && TidyStage(text, st, Reported(text, layer, late, st))
    requires Tidy(st.findings, |text|) && Selects(st.findings, |text|, st.applied)
    ensures Tidy(st'.findings, |text|) && Selects(st'.findings, |text|, st'.applied)
  {
    StepStaysTidy(text, st, Reported(text, layer, late, st));
  }

  lemma {:induction false} StagesStayTidy(text: string, layers: seq<Layer>, late: nat -> bool, stages: seq<Stage>, i: nat)
    requires Run(text, layers, late, stages) && i < |stages|
    requires forall k :: 0 <= k < |layers| ==> TidyAt(text, layers, late, stages, k)
    ensures Tidy(stages[i].findings, |text|) && Selects(stages[i].findings, |text|, stages[i].applied)
  {
    if i == 0 {
      NothingSelects(|text|);
    } else {
      StagesStayTidy(text, layers, late, stages, i - 1);
      RunAt(text, layers, late, stages, i - 1);
      assert TidyAt(text, layers, late, stages, i - 1);
      NextStageIsTidy(text, layers[i - 1], late(i - 1), stages[i - 1], stages[i]);
    }
  }

  /** If what each layer reports is non-empty, nested or disjoint, off the placeholders, and starts at distinct places, then
      so is all that the scan reports; every byte of every finding is replaced in the end, and no other; and the
      last working text is the final one. */
  lemma TidyScanIsCovered(text: string, layers: seq<Layer>, late: nat -> bool, stages: seq<Stage>, sorted: seq<Finding>)
    requires Run(text, layers, late, stages)
    requires forall k :: 0 <= k < |layers| ==> TidyAt(text, layers, late, stages, k)
    requires SortedPermutation(DedupLe, stages[|layers|].findings, sorted)
    ensures Tidy(stages[|layers|].findings, |text|)
    ensures forall p :: CoveredBy(stages[|layers|].findings, p) <==> CoveredBy(Applied(sorted), p)
    ensures Sliceable(stages[|layers|].applied, 0, |text|) && Redacted(text, sorted).Done?
    ensures Redacted(text, sorted).value.text == Working(text, stages[|layers|])
  {
    StagesStayTidy(text, layers, late, stages, |layers|);
    TidyIsCovered(text, stages[|layers|].findings, stages[|layers|].applied, sorted);
  }

  // ----- two findings with one start -----

  /** The first layer finds "abcd" and "ab", the second finds "def" once "ab" is gone. */
  const SeesStarts: (Rules, string) -> LayerOutcome :=
    (rules: Rules, t: string) => if t == "abcdef" then Found([Finding("A", "abcd", 0, 4), Finding("B", "ab", 0, 2)]) else Found([])

  const SeesRest: (Rules, string) -> LayerOutcome :=
    (rules: Rules, t: string) => if t == Placeholder("B") + "cdef" then Found([Finding("C", "def", 13, 16)]) else Found([])

  const NoneLate: nat -> bool := (i: nat) => false

  const NoRules: Rules := (id: string) => false

  const TwoLayers: seq<Layer> :=
    [Layer("starts", true, false, NoRules, SeesStarts), Layer("rest", true, false, NoRules, SeesRest)]

  const A: Finding := Finding("A", "abcd", 0, 4)
  const B: Finding := Finding("B", "ab", 0, 2)
  const C: Finding := Finding("C", "def", 3, 6)

  const LeakyStages: seq<Stage> := [Stage([], []), Stage([A, B], [B]), Stage([A, B, C], [B, C])]

  lemma PlaceholderB()
    ensures |Placeholder("B")| == 12 && Placeholder("B") + "cdef" != "abcdef"
  {
    assert |Placeholder("B") + "cdef"| == 16;
  }

  lemma Transposed(a: Finding, b: Finding, c: Finding)
    ensures multiset([a, b]) == multiset([b, a])
    ensures multiset([a, b, c]) == multiset([b, a, c])
  {
    assert [a, b, c] == [a, b] + [c] && [b, a, c] == [b, a] + [c];
  }

  lemma UsableOfThree(a: Finding, b: Finding, c: Finding, n: int)
    requires 0 <= a.start < a.end <= n && 0 <= b.start < b.end <= n && 0 <= c.start < c.end <= n
    ensures Usable([a, b, c], n) == [a, b, c]
  {
    AllUsable([a, b, c], n);
  }

  lemma SweptBehind(a: Finding, b: Finding, c: Finding)
    requires 0 <= a.start && b.start < a.end <= c.start
    ensures Swept([a, b, c], 0) == [a, c]
  {
    SweptHead(a, [b, c], 0);
    SweptHead(b, [c], a.end);
    SweptHead(c, [], a.end);
    assert [a] + [b, c] == [a, b, c] && [b] + [c] == [b, c] && [c] + [] == [c] && [a] + [c] == [a, c];
  }

  lemma TakenOfThree(a: Finding, b: Finding, c: Finding, n: int)
    requires 0 == a.start == b.start < a.end <= c.start < c.end <= n && b.start < b.end <= n
    ensures Swept(Usable([a, b, c], n), 0) == [a, c]
  {
    UsableOfThree(a, b, c, n);
    SweptBehind(a, b, c);
  }

  lemma TakenOfTwo(a: Finding, b: Finding, n: int)
    requires 0 == a.start == b.start < a.end <= n && b.start < b.end <= n
    ensures Swept(Usable([a, b], n), 0) == [a]
  {
    AllUsable([a, b], n);
    SweptOfTwo(a, b);
  }

  lemma InOrder(a: Finding, b: Finding, c: Finding)
    requires a.start <= b.start <= c.start
    ensures Sorted(StartLe, [a, b]) && Sorted(StartLe, [a, b, c])
  {
  }

  /** Sorted by start alone, the shorter of two findings with one start may come first. */
  lemma ShorterMayComeFirst(a: Finding, b: Finding, n: int)
    requires 0 == a.start == b.start < a.end <= n && b.start < b.end <= n
    ensures Selects([b, a], n, [a])
  {
    InOrder(a, b, b);
    Transposed(a, b, b);
    TakenOfTwo(a, b, n);
    assert SortedPermutation(StartLe, [b, a], [a, b]);
  }

  lemma AndTheNextOneBehind(a: Finding, b: Finding, c: Finding, n: int)
    requires 0 == a.start == b.start < a.end <= c.start < c.end <= n && b.start < b.end <= n
    ensures Selects([b, a, c], n, [a, c])
  {
    InOrder(a, b, c);
    Transposed(a, b, c);
    TakenOfThree(a, b, c, n);
    assert SortedPermutation(StartLe, [b, a, c], [a, b, c]);
  }

  lemma FirstStep()
    ensures Sliceable([], 0, 6) && Step("abcdef", TwoLayers[0], false, LeakyStages[0], LeakyStages[1])
  {
    assert Working("abcdef", Stage([], [])) == "abcdef";
    assert MapFindings([A, B], Entries([])) == [A, B];
    assert [] + [A, B] == [A, B];
    ShorterMayComeFirst(B, A, 6);
  }

  lemma MappedRest()
    ensures MapFindings([Finding("C", "def", 13, 16)], Entries([B])) == [C]
  {
    PlaceholderB();
    EntriesTail([B]);
    assert [B][1..] == [];
    ToOriginalHead([B], 0, 13);
    ToOriginalHead([B], 0, 16);
    assert ToOriginal(13, Entries([]), Gain(B)) == 3 && ToOriginal(16, Entries([]), Gain(B)) == 6;
  }

  lemma SecondStep()
    ensures Sliceable([B], 0, 6) && Step("abcdef", TwoLayers[1], false, LeakyStages[1], LeakyStages[2])
  {
    WeaveOfOne("abcdef", B);
    assert "abcdef"[..0] + Label(B) + "abcdef"[2..] == Placeholder("B") + "cdef";
    assert Working("abcdef", Stage([A, B], [B])) == Placeholder("B") + "cdef";
    MappedRest();
    assert [A, B] + [C] == [A, B, C];
    AndTheNextOneBehind(B, A, C, 6);
  }

  lemma RedactedLeaks()
    ensures Sorted(DedupLe, [A, B, C]) && Applied([A, B, C]) == [A]
    ensures Redacted("abcdef", [A, B, C]).Done? && Redacted("abcdef", [A, B, C]).value.text == "[REDACTED-A]ef"
  {
    assert [A, B, C][..2] == [A, B];
    DedupOfTwo(A, B);
    assert HasContainer([A], C) <==> Contains([A][0], C);
    assert Dedup([A, B, C]) == [A, C];
    SweptOfTwo(A, C);
    WeaveOfOne("abcdef", A);
    assert "abcdef"[..0] + Label(A) == Label(A) == "[REDACTED-A]" && "abcdef"[4..] == "ef";
  }

  lemma LeakyRun()
    ensures Run("abcdef", TwoLayers, NoneLate, LeakyStages)
  {
    FirstStep();
    SecondStep();
    forall i | 0 <= i < 2
      ensures StepAt("abcdef", TwoLayers, NoneLate, LeakyStages, i)
    {
      assert i == 0 || i == 1;
    }
  }

  lemma LastByteLeaks()
    ensures CoveredBy([A, B, C], 5) && !CoveredBy([A], 5)
  {
    assert Covers([A, B, C][2], 5);
  }

  /** One layer finds two spans with one start, and the working text may replace the shorter; the next layer then finds
      what overlaps the longer in part, and that is not replaced in the end. */
  lemma SharedStartLeaks()
    ensures Run("abcdef", TwoLayers, NoneLate, LeakyStages)
    ensures var fs := LeakyStages[2].findings;
      && CoveredBy(fs, 5) && Sorted(DedupLe, fs) && !CoveredBy(Applied(fs), 5)
      && Redacted("abcdef", fs).Done? && Redacted("abcdef", fs).value.text == "[REDACTED-A]ef"
  {
    LeakyRun();
    RedactedLeaks();
    LastByteLeaks();
  }
}
