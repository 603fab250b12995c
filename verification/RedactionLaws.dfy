/** What the final redaction guarantees: no slice out of range, an optimal choice of spans, which
    bytes are replaced, and that the replacement can be undone. */
module RedactionLaws {
  import opened Sorting
  import opened Findings
  import opened Redactor

  // ----- slices stay in range -----

  lemma {:induction false} SweptLayout(fs: seq<Finding>, prev: int, n: int)
    requires prev <= n && forall i :: 0 <= i < |fs| ==> fs[i].start <= fs[i].end <= n
    ensures Layout(Swept(fs, prev), prev, n)
    ensures forall i :: 0 <= i < |Swept(fs, prev)| ==> Swept(fs, prev)[i] in fs
  {
    if fs == [] {
    } else if fs[0].start < prev {
      SweptLayout(fs[1..], prev, n);
    } else {
      SweptLayout(fs[1..], fs[0].end, n);
    }
  }

  /** A sweep can be written exactly when each taken span starts and ends inside the text. */
  lemma {:induction false} SliceableExactly(fs: seq<Finding>, prev: int, n: int)
    requires 0 <= prev <= n
    ensures Sliceable(Swept(fs, prev), prev, n)
       <==> forall i :: 0 <= i < |Swept(fs, prev)| ==> Swept(fs, prev)[i].start <= n && 0 <= Swept(fs, prev)[i].end <= n
  {
    if fs == [] {
    } else if fs[0].start < prev {
      SliceableExactly(fs[1..], prev, n);
    } else {
      var f, swept, rest := fs[0], Swept(fs, prev), Swept(fs[1..], fs[0].end);
      assert swept == [f] + rest && swept[1..] == rest;
      if f.start <= n && 0 <= f.end <= n {
        SliceableExactly(fs[1..], f.end, n);
        assert forall i :: 0 <= i < |rest| ==> swept[i + 1] == rest[i];
      } else {
        assert swept[0] == f;
      }
    }
  }

  /** On findings inside the text no slice is out of range, and the applied spans are disjoint and in order. */
  lemma {:induction false} RedactStaysInRange(text: string, sorted: seq<Finding>)
    requires Sorted(DedupLe, sorted) && AllInText(sorted, |text|)
    ensures Redacted(text, sorted).Done?
    ensures Layout(Applied(sorted), 0, |text|)
    ensures forall f :: f in Applied(sorted) ==> f in sorted
    ensures Staircase(Dedup(sorted)) && AllInText(Dedup(sorted), |text|)
  {
    DedupKeepsAStaircase(sorted);
    SweptLayout(Dedup(sorted), 0, |text|);
    LayoutIsSliceable(Applied(sorted), 0, |text|);
  }

  // ----- where the placeholders stand -----

  /** How far the spans before the `i`-th move what comes behind them: each is replaced by its tag and eleven characters. */
  function Moved(fs: seq<Finding>, i: nat): int
    requires i <= |fs|
  {
    if i == 0 then 0 else 11 + |fs[0].tag| - (fs[0].end - fs[0].start) + Moved(fs[1..], i - 1)
  }

  lemma SliceOfMiddle(a: string, b: string, c: string)
    ensures (a + b + c)[|a|..|a| + |b|] == b
  {
  }

  lemma SliceBehindTwo(a: string, b: string, c: string, i: int, j: int)
    requires 0 <= i <= j <= |c|
    ensures (a + b + c)[|a| + |b| + i..|a| + |b| + j] == c[i..j]
  {
  }

  lemma StandsBehind(woven: string, gap: string, mark: string, rest: string, at: int, pos: int, next: string)
    requires woven == gap + mark + rest && pos == |gap| + |mark| + at
    requires 0 <= at && at + |next| <= |rest| && rest[at..at + |next|] == next
    ensures 0 <= pos && pos + |next| <= |woven| && woven[pos..pos + |next|] == next
  {
    SliceBehindTwo(gap, mark, rest, at, at + |next|);
  }

  lemma WovenHead(text: string, fs: seq<Finding>, prev: int)
    requires 0 <= prev && fs != [] && Layout(fs, prev, |text|) && Sliceable(fs, prev, |text|)
    ensures Layout(fs[1..], fs[0].end, |text|) && Sliceable(fs[1..], fs[0].end, |text|)
    ensures Weave(text, fs, prev, Label) == text[prev..fs[0].start] + Label(fs[0]) + Weave(text, fs[1..], fs[0].end, Label)
    ensures |Label(fs[0])| == 11 + |fs[0].tag| && Label(fs[0]) == "[REDACTED-" + fs[0].tag + "]"
  {
    LayoutIsSliceable(fs[1..], fs[0].end, |text|);
    PlaceholderExactly(fs[0].tag);
  }

  lemma MovedBehind(fs: seq<Finding>, i: nat)
    requires 0 < i < |fs|
    ensures Moved(fs, i) == 11 + |fs[0].tag| - (fs[0].end - fs[0].start) + Moved(fs[1..], i - 1) && fs[1..][i - 1] == fs[i]
  {
  }

  lemma {:induction false} LabelStands(text: string, fs: seq<Finding>, prev: int, i: nat)
    requires 0 <= prev && Layout(fs, prev, |text|) && Sliceable(fs, prev, |text|) && i < |fs|
    ensures var at := fs[i].start + Moved(fs, i) - prev;
      && 0 <= at <= at + 11 + |fs[i].tag| <= |Weave(text, fs, prev, Label)|
      && Weave(text, fs, prev, Label)[at..at + 11 + |fs[i].tag|] == "[REDACTED-" + fs[i].tag + "]"
  {
    var f := fs[0];
    var gap, rest := text[prev..f.start], Weave(text, fs[1..], f.end, Label);
    WovenHead(text, fs, prev);
    if i == 0 {
      SliceOfMiddle(gap, Label(f), rest);
    } else {
      LabelStands(text, fs[1..], f.end, i - 1);
      MovedBehind(fs, i);
      StandsBehind(Weave(text, fs, prev, Label), gap, Label(f), rest, fs[i].start + Moved(fs[1..], i - 1) - f.end,
                   fs[i].start + Moved(fs, i) - prev, "[REDACTED-" + fs[i].tag + "]");
    }
  }

  /** In the text that `Redact` returns each replaced span has become the ten characters "[REDACTED-", its own tag, and a
      bracket, and its record says just that, what stood there, and where. */
  lemma {:induction false} PlaceholdersStand(text: string, sorted: seq<Finding>, i: nat)
    requires Sorted(DedupLe, sorted) && AllInText(sorted, |text|) && i < |Applied(sorted)|
    ensures Redacted(text, sorted).Done?
    ensures var r, f := Redacted(text, sorted).value, Applied(sorted)[i];
      var at := f.start + Moved(Applied(sorted), i);
      && |r.applied| == |Applied(sorted)| && 0 <= at <= at + 11 + |f.tag| <= |r.text|
      && r.text[at..at + 11 + |f.tag|] == "[REDACTED-" + f.tag + "]"
      && r.applied[i] == AppliedRedaction("[REDACTED-" + f.tag + "]", f.value, f.start, f.end)
  {
    RedactStaysInRange(text, sorted);
    LabelStands(text, Applied(sorted), 0, i);
  }

  lemma CancelAround(a: string, b: string, b': string, c: string)
    requires a + b + c == a + b' + c
    ensures b == b'
  {
    assert |b| == |b'|;
    SliceOfMiddle(a, b, c);
    SliceOfMiddle(a, b', c);
  }

  lemma CancelBefore(a: string, b: string, c: string, c': string)
    requires a + b + c == a + b + c'
    ensures c == c'
  {
    assert |c| == |c'|;
    SliceBehindTwo(a, b, c, 0, |c|);
    SliceBehindTwo(a, b, c', 0, |c'|);
  }

  /** Another tag for one of the spans makes another text. */
  lemma {:induction false} TagsShow(text: string, fs: seq<Finding>, prev: int, i: nat, tag: string)
    requires Sliceable(fs, prev, |text|) && i < |fs| && Sliceable(fs[i := fs[i].(tag := tag)], prev, |text|)
    requires tag != fs[i].tag
    ensures Weave(text, fs[i := fs[i].(tag := tag)], prev, Label) != Weave(text, fs, prev, Label)
  {
    var gs, f := fs[i := fs[i].(tag := tag)], fs[0];
    var gap, rest := text[prev..f.start], Weave(text, fs[1..], f.end, Label);
    if Weave(text, gs, prev, Label) == Weave(text, fs, prev, Label) {
      if i == 0 {
        assert gs[1..] == fs[1..];
        CancelAround(gap, Label(f), Label(gs[0]), rest);
        PlaceholderIsInjective(f.tag, tag);
      } else {
        assert gs[1..] == fs[1..][i - 1 := fs[1..][i - 1].(tag := tag)];
        CancelBefore(gap, Label(f), rest, Weave(text, gs[1..], f.end, Label));
        TagsShow(text, fs[1..], f.end, i - 1, tag);
      }
    }
  }

  // ----- the sweep is optimal -----

  ghost predicate PairwiseDisjoint(s: set<Finding>) {
    forall f, g :: f in s && g in s && f != g ==> Disjoint(f, g)
  }

  /** Of disjoint non-empty spans on a staircase, at most one starts before the first step ends. */
  lemma AtMostOneMeetsTheFirst(fs: seq<Finding>, s: set<Finding>, n: int)
    requires fs != [] && Staircase(fs) && AllInText(fs, n)
    requires PairwiseDisjoint(s)
    requires forall f :: f in s ==> f.start < f.end && f.start < fs[0].end && HasSpan(fs, f)
    ensures |s| <= 1
  {
    if s != {} {
      var f :| f in s;
      forall g | g in s
        ensures g == f
      {
        assert HasSpan(fs, f) && HasSpan(fs, g);
        assert fs[0].end <= f.end && fs[0].end <= g.end;
      }
      assert s == {f};
    }
  }

  lemma NotTheFirst(fs: seq<Finding>, f: Finding, next: int)
    requires fs != [] && HasSpan(fs, f) && f.start < f.end && next <= f.start
    requires next == fs[0].end || fs[0].start < next
    ensures HasSpan(fs[1..], f)
  {
    var k :| 0 <= k < |fs| && SameSpan(fs[k], f);
    assert fs[1..][k - 1] == fs[k];
  }

  ghost predicate Choice(fs: seq<Finding>, s: set<Finding>, prev: int) {
    && PairwiseDisjoint(s)
    && forall f :: f in s ==> f.start < f.end && prev <= f.start && HasSpan(fs, f)
  }

  lemma RestIsChoice(fs: seq<Finding>, s: set<Finding>, later: set<Finding>, prev: int, next: int)
    requires fs != [] && Choice(fs, s, prev)
    requires next == fs[0].end || fs[0].start < next
    requires forall f :: f in later ==> f in s && next <= f.start
    ensures Choice(fs[1..], later, next)
  {
    forall f | f in later
      ensures HasSpan(fs[1..], f)
    {
      NotTheFirst(fs, f, next);
    }
  }

  /** If the first step starts too early or is empty, no choice contains anything that meets it. */
  lemma NoneMeetsTheFirst(fs: seq<Finding>, s: set<Finding>, prev: int, f: Finding)
    requires fs != [] && Staircase(fs) && Choice(fs, s, prev) && f in s
    ensures fs[0].start <= f.start && prev <= f.start
  {
    assert HasSpan(fs, f);
  }

  lemma RestLosesAtMostOne(fs: seq<Finding>, s: set<Finding>, later: set<Finding>, prev: int, n: int)
    requires fs != [] && Staircase(fs) && AllInText(fs, n) && Choice(fs, s, prev)
    requires prev <= fs[0].start && later == set f | f in s && fs[0].end <= f.start
    ensures |s| <= |later| + 1
  {
    AtMostOneMeetsTheFirst(fs, s - later, n);
    assert s == later + (s - later);
  }

  /** Leaving out what meets the first step leaves a choice from the other steps. */
  lemma ChoiceFromTheRest(fs: seq<Finding>, s: set<Finding>, prev: int, next: int, n: int) returns (later: set<Finding>)
    requires fs != [] && Staircase(fs) && AllInText(fs, n) && Choice(fs, s, prev)
    requires next == if fs[0].start < prev then prev else fs[0].end
    ensures Choice(fs[1..], later, next)
    ensures |s| <= |later| + if fs[0].start < prev || fs[0].start == fs[0].end then 0 else 1
  {
    later := set f | f in s && next <= f.start;
    RestIsChoice(fs, s, later, prev, next);
    if fs[0].start < prev || fs[0].start == fs[0].end {
      forall f | f in s
        ensures f in later
      {
        NoneMeetsTheFirst(fs, s, prev, f);
      }
      assert later == s;
    } else {
      RestLosesAtMostOne(fs, s, later, prev, n);
    }
  }

  /** The non-empty spans among `fs`. */
  ghost function NonEmpty(fs: seq<Finding>): set<Finding> {
    set f | f in fs && f.start < f.end
  }

  /** What the sweep takes first counts once more than the rest if it is not empty. */
  lemma NonEmptyHead(f: Finding, rest: seq<Finding>, n: int)
    requires Layout(rest, f.end, n)
    ensures NonEmpty([f] + rest) == NonEmpty(rest) + if f.start < f.end then {f} else {}
    ensures f.start < f.end ==> f !in NonEmpty(rest)
  {
    LayoutBounds(rest, f.end, n);
  }

  lemma {:induction false} SweepBeatsDisjoint(fs: seq<Finding>, prev: int, s: set<Finding>, n: int)
    requires Staircase(fs) && AllInText(fs, n) && Choice(fs, s, prev)
    ensures |s| <= |NonEmpty(Swept(fs, prev))|
  {
    if fs == [] {
      assert forall f :: f in s ==> HasSpan(fs, f);
      assert s == {};
    } else {
      var next := if fs[0].start < prev then prev else fs[0].end;
      var later := ChoiceFromTheRest(fs, s, prev, next, n);
      SweepBeatsDisjoint(fs[1..], next, later, n);
      if fs[0].start >= prev {
        SweptLayout(fs[1..], fs[0].end, n);
        NonEmptyHead(fs[0], Swept(fs[1..], fs[0].end), n);
      }
    }
  }

  /** No choice of pairwise disjoint non-empty spans among the maximal ones is larger than what the sweep
      applies, empty spans not counted. */
  lemma SweepIsOptimal(text: string, sorted: seq<Finding>, chosen: set<Finding>)
    requires Sorted(DedupLe, sorted) && AllInText(sorted, |text|)
    requires PairwiseDisjoint(chosen)
    requires forall f :: f in chosen ==> f in sorted && Maximal(f, sorted) && f.start < f.end
    ensures |chosen| <= |NonEmpty(Applied(sorted))|
  {
    RedactStaysInRange(text, sorted);
    forall f | f in chosen
      ensures HasSpan(Dedup(sorted), f)
    {
      DedupIsMaximal(sorted);
      var i :| 0 <= i < |sorted| && sorted[i] == f;
    }
    SweepBeatsDisjoint(Dedup(sorted), 0, chosen, |text|);
  }

  ghost function Elements(fs: seq<Finding>): set<Finding> {
    set f | f in fs
  }

  lemma ElementsAreDisjoint(fs: seq<Finding>, n: int)
    requires Layout(fs, 0, n)
    ensures PairwiseDisjoint(Elements(fs)) && PairwiseDisjoint(NonEmpty(fs))
  {
    LayoutBounds(fs, 0, n);
    forall f, g | f in Elements(fs) && g in Elements(fs) && f != g
      ensures Disjoint(f, g)
    {
      var i :| 0 <= i < |fs| && fs[i] == f;
      var j :| 0 <= j < |fs| && fs[j] == g;
      assert i < j || j < i;
    }
    assert NonEmpty(fs) <= Elements(fs);
  }

  lemma SweptIsMaximal(sorted: seq<Finding>, n: int, f: Finding)
    requires Sorted(DedupLe, sorted) && AllInText(Dedup(sorted), n) && 0 <= n
    requires f in Applied(sorted)
    ensures f in sorted && Maximal(f, sorted)
  {
    SweptLayout(Dedup(sorted), 0, n);
    var i :| 0 <= i < |Applied(sorted)| && Applied(sorted)[i] == f;
    var k :| 0 <= k < |Dedup(sorted)| && Dedup(sorted)[k] == f;
    DedupIsMaximal(sorted);
  }

  /** The applied spans are disjoint and maximal, so the non-empty ones are themselves such a choice. */
  lemma AppliedIsDisjointAndMaximal(text: string, sorted: seq<Finding>)
    requires Sorted(DedupLe, sorted) && AllInText(sorted, |text|)
    ensures forall i, j :: 0 <= i < j < |Applied(sorted)| ==> Disjoint(Applied(sorted)[i], Applied(sorted)[j])
    ensures PairwiseDisjoint(NonEmpty(Applied(sorted)))
    ensures forall f :: f in Applied(sorted) ==> f in sorted && Maximal(f, sorted)
  {
    RedactStaysInRange(text, sorted);
    LayoutBounds(Applied(sorted), 0, |text|);
    ElementsAreDisjoint(Applied(sorted), |text|);
    forall f | f in Applied(sorted)
      ensures f in sorted && Maximal(f, sorted)
    {
      SweptIsMaximal(sorted, |text|, f);
    }
  }

  // ----- which bytes are replaced -----

  /** A finding the sweep passes over starts inside the one it was passed over for. */
  lemma {:induction false} SweptOrMet(fs: seq<Finding>, prev: int, k: nat)
    requires k < |fs| && Sorted(StartLe, fs) && prev <= fs[k].start
    ensures fs[k] in Swept(fs, prev)
         || exists i :: 0 <= i < |Swept(fs, prev)| && Covers(Swept(fs, prev)[i], fs[k].start)
  {
    var swept := Swept(fs, prev);
    if fs[0].start < prev {
      assert fs[1..][k - 1] == fs[k];
      SweptOrMet(fs[1..], prev, k - 1);
    } else if k == 0 {
      assert swept[0] == fs[0];
    } else {
      assert fs[1..][k - 1] == fs[k] && StartLe(fs[0], fs[k]);
      var rest := Swept(fs[1..], fs[0].end);
      assert swept == [fs[0]] + rest;
      if fs[k].start < fs[0].end {
        assert Covers(swept[0], fs[k].start);
      } else {
        SweptOrMet(fs[1..], fs[0].end, k - 1);
        if fs[k] !in rest {
          var i :| 0 <= i < |rest| && Covers(rest[i], fs[k].start);
          assert Covers(swept[i + 1], fs[k].start);
        }
      }
    }
  }

  /** The first byte of every non-empty finding that deduplication keeps is replaced. */
  lemma FirstByteIsReplaced(text: string, sorted: seq<Finding>, f: Finding)
    requires Sorted(DedupLe, sorted) && AllInText(sorted, |text|)
    requires f in Dedup(sorted) && f.start < f.end
    ensures CoveredBy(Applied(sorted), f.start)
  {
    RedactStaysInRange(text, sorted);
    var k :| 0 <= k < |Dedup(sorted)| && Dedup(sorted)[k] == f;
    SweptOrMet(Dedup(sorted), 0, k);
    if f in Applied(sorted) {
      var i :| 0 <= i < |Applied(sorted)| && Applied(sorted)[i] == f;
      assert Covers(Applied(sorted)[i], f.start);
    }
  }

  ghost predicate AllCovered(fs: seq<Finding>, applied: seq<Finding>) {
    forall p :: CoveredBy(fs, p) ==> CoveredBy(applied, p)
  }

  ghost predicate StartsAt(fs: seq<Finding>, p: int) {
    exists k :: 0 <= k < |fs| && fs[k].start == p
  }

  /** Wherever a kept finding sticks out past the end of an applied one, some kept finding starts at that very end. */
  ghost predicate NoGap(applied: seq<Finding>, kept: seq<Finding>) {
    forall i, k :: 0 <= i < |applied| && 0 <= k < |kept| && kept[k].start < applied[i].end < kept[k].end
      ==> StartsAt(kept, applied[i].end)
  }

  lemma ContainersCover(kept: seq<Finding>, fs: seq<Finding>, p: int)
    requires forall i :: 0 <= i < |kept| ==> kept[i] in fs
    requires forall i :: 0 <= i < |fs| ==> HasContainer(kept, fs[i])
    ensures CoveredBy(fs, p) <==> CoveredBy(kept, p)
  {
    if CoveredBy(fs, p) {
      var i :| 0 <= i < |fs| && Covers(fs[i], p);
      var k :| 0 <= k < |kept| && Contains(kept[k], fs[i]);
      assert Covers(kept[k], p);
    }
  }

  lemma DedupCoverage(sorted: seq<Finding>, p: int)
    requires Sorted(DedupLe, sorted)
    ensures CoveredBy(sorted, p) <==> CoveredBy(Dedup(sorted), p)
  {
    DedupCoversAll(sorted);
    DedupKeepsAStaircase(sorted);
    ContainersCover(Dedup(sorted), sorted, p);
  }

  /** In a layout, the span over the end of another starts right there. */
  lemma MeetsAtTheEnd(applied: seq<Finding>, n: int, i: nat, m: nat)
    requires Layout(applied, 0, n) && i < |applied| && m < |applied| && Covers(applied[m], applied[i].end)
    ensures applied[m].start == applied[i].end
  {
    LayoutBounds(applied, 0, n);
    assert i < m ==> applied[i].end <= applied[m].start;
  }

  /** A kept finding that starts at the end of an applied one is itself applied. */
  lemma NextIsApplied(kept: seq<Finding>, n: int, i: nat, k: nat)
    requires 0 <= n && Staircase(kept) && AllInText(kept, n) && i < |Swept(kept, 0)| && k < |kept|
    requires kept[k].start == Swept(kept, 0)[i].end
    ensures kept[k] in Swept(kept, 0)
  {
    var applied := Swept(kept, 0);
    SweptOrMet(kept, 0, k);
    if kept[k] !in applied {
      var m :| 0 <= m < |applied| && Covers(applied[m], kept[k].start);
      SweptLayout(kept, 0, n);
      MeetsAtTheEnd(applied, n, i, m);
    }
  }

  /** The tail of a kept finding past the end of an applied one lies in the applied one that starts there. */
  lemma TailIsCovered(kept: seq<Finding>, n: int, i: nat, k: nat, p: int)
    requires 0 <= n && Staircase(kept) && AllInText(kept, n) && i < |Swept(kept, 0)| && k < |kept|
    requires kept[k].start < Swept(kept, 0)[i].end <= p < kept[k].end && StartsAt(kept, Swept(kept, 0)[i].end)
    ensures CoveredBy(Swept(kept, 0), p)
  {
    var applied := Swept(kept, 0);
    var g :| 0 <= g < |kept| && kept[g].start == applied[i].end;
    assert k < g;
    NextIsApplied(kept, n, i, g);
    var m :| 0 <= m < |applied| && applied[m] == kept[g];
    assert Covers(applied[m], p);
  }

  lemma NoGapCovers(kept: seq<Finding>, n: int, k: nat, p: int)
    requires 0 <= n && Staircase(kept) && AllInText(kept, n) && NoGap(Swept(kept, 0), kept)
    requires k < |kept| && Covers(kept[k], p)
    ensures CoveredBy(Swept(kept, 0), p)
  {
    var applied := Swept(kept, 0);
    SweptOrMet(kept, 0, k);
    if kept[k] in applied {
      var m :| 0 <= m < |applied| && applied[m] == kept[k];
      assert Covers(applied[m], p);
    } else {
      var i :| 0 <= i < |applied| && Covers(applied[i], kept[k].start);
      if p < applied[i].end {
        assert Covers(applied[i], p);
      } else {
        TailIsCovered(kept, n, i, k, p);
      }
    }
  }

  lemma CoveredEndIsAStart(kept: seq<Finding>, n: int, i: nat)
    requires AllInText(kept, n) && 0 <= n && i < |Swept(kept, 0)|
    requires CoveredBy(Swept(kept, 0), Swept(kept, 0)[i].end)
    ensures StartsAt(kept, Swept(kept, 0)[i].end)
  {
    var applied := Swept(kept, 0);
    SweptLayout(kept, 0, n);
    var m :| 0 <= m < |applied| && Covers(applied[m], applied[i].end);
    MeetsAtTheEnd(applied, n, i, m);
    var j :| 0 <= j < |kept| && kept[j] == applied[m];
  }

  lemma CoveredHasNoGap(kept: seq<Finding>, n: int)
    requires 0 <= n && AllInText(kept, n) && AllCovered(kept, Swept(kept, 0))
    ensures NoGap(Swept(kept, 0), kept)
  {
    var applied := Swept(kept, 0);
    forall i, k | 0 <= i < |applied| && 0 <= k < |kept| && kept[k].start < applied[i].end < kept[k].end
      ensures StartsAt(kept, applied[i].end)
    {
      assert Covers(kept[k], applied[i].end);
      assert CoveredBy(kept, applied[i].end);
      CoveredEndIsAStart(kept, n, i);
    }
  }

  /** Told from the sweep itself: exactly when every byte of every finding is replaced. */
  lemma NoGapExactly(text: string, sorted: seq<Finding>)
    requires Sorted(DedupLe, sorted) && AllInText(sorted, |text|)
    ensures AllCovered(sorted, Applied(sorted)) <==> NoGap(Applied(sorted), Dedup(sorted))
  {
    var kept, applied := Dedup(sorted), Applied(sorted);
    RedactStaysInRange(text, sorted);
    if AllCovered(sorted, applied) {
      forall p | CoveredBy(kept, p)
        ensures CoveredBy(applied, p)
      {
        DedupCoverage(sorted, p);
      }
      CoveredHasNoGap(kept, |text|);
    }
    if NoGap(applied, kept) {
      forall p | CoveredBy(sorted, p)
        ensures CoveredBy(applied, p)
      {
        DedupCoverage(sorted, p);
        var k :| 0 <= k < |kept| && Covers(kept[k], p);
        NoGapCovers(kept, |text|, k, p);
      }
    }
  }

  // ----- which findings can be replaced completely -----

  /** One of the chosen spans covers the byte; it is on the staircase, and starts at `prev` or later. */
  ghost predicate ChosenCovers(chosen: set<Finding>, fs: seq<Finding>, prev: int, p: int) {
    exists c :: c in chosen && Covers(c, p) && prev <= c.start && HasSpan(fs, c)
  }

  lemma CoveredByCons(f: Finding, fs: seq<Finding>, p: int)
    ensures CoveredBy([f] + fs, p) <==> Covers(f, p) || CoveredBy(fs, p)
  {
    if Covers(f, p) {
      assert Covers(([f] + fs)[0], p);
    }
    if i :| 0 <= i < |fs| && Covers(fs[i], p) {
      assert Covers(([f] + fs)[i + 1], p);
    }
  }

  lemma ChosenIsCovered(chosen: set<Finding>, fs: seq<Finding>, prev: int, p: int)
    requires ChosenCovers(chosen, fs, prev, p)
    ensures CoveredBy(fs, p)
  {
    var c :| c in chosen && Covers(c, p) && prev <= c.start && HasSpan(fs, c);
    var k :| 0 <= k < |fs| && SameSpan(fs[k], c);
    assert Covers(fs[k], p);
  }

  lemma NotTheHead(fs: seq<Finding>, c: Finding)
    requires fs != [] && HasSpan(fs, c) && !SameSpan(fs[0], c)
    ensures HasSpan(fs[1..], c)
    ensures Staircase(fs) ==> fs[0].start < c.start
  {
    var k :| 0 <= k < |fs| && SameSpan(fs[k], c);
    assert fs[1..][k - 1] == fs[k];
  }

  /** The choice contains the first step if that one is taken, and is disjoint from it everywhere else. */
  lemma ChosenBehind(fs: seq<Finding>, chosen: set<Finding>, prev: int, next: int, p: int)
    requires fs != [] && Staircase(fs) && PairwiseDisjoint(chosen) && fs[0].start <= fs[0].end
    requires next == (if fs[0].start < prev then prev else fs[0].end) && next <= p
    requires prev <= fs[0].start < fs[0].end ==> ChosenCovers(chosen, fs, prev, fs[0].start)
    requires ChosenCovers(chosen, fs, prev, p)
    ensures ChosenCovers(chosen, fs[1..], next, p)
  {
    var d :| d in chosen && Covers(d, p) && prev <= d.start && HasSpan(fs, d);
    NotTheHead(fs, d);
    if prev <= fs[0].start < fs[0].end {
      var c :| c in chosen && Covers(c, fs[0].start) && prev <= c.start && HasSpan(fs, c);
      if !SameSpan(fs[0], c) {
        NotTheHead(fs, c);
      }
      assert Disjoint(c, d);
    }
  }

  lemma TailStaysChosen(fs: seq<Finding>, prev: int, next: int, chosen: set<Finding>, q: int)
    requires fs != [] && Staircase(fs) && PairwiseDisjoint(chosen) && fs[0].start <= fs[0].end
    requires next == (if fs[0].start < prev then prev else fs[0].end)
    requires forall x :: prev <= x && CoveredBy(fs, x) ==> ChosenCovers(chosen, fs, prev, x)
    requires next <= q && CoveredBy(fs[1..], q)
    ensures ChosenCovers(chosen, fs[1..], next, q)
  {
    assert fs == [fs[0]] + fs[1..];
    CoveredByCons(fs[0], fs[1..], q);
    CoveredByCons(fs[0], fs[1..], fs[0].start);
    ChosenBehind(fs, chosen, prev, next, q);
  }

  /** A byte that the first step covers, or that still has to be covered by what comes behind. */
  lemma CoveredBehind(fs: seq<Finding>, prev: int, next: int, chosen: set<Finding>, p: int)
    requires fs != [] && Staircase(fs) && PairwiseDisjoint(chosen) && fs[0].start <= fs[0].end
    requires next == (if fs[0].start < prev then prev else fs[0].end)
    requires prev <= p && CoveredBy(fs, p) && ChosenCovers(chosen, fs, prev, p)
    ensures (prev <= fs[0].start && Covers(fs[0], p)) || (next <= p && CoveredBy(fs[1..], p))
  {
    if fs[0].start < prev {
      ChosenBehind(fs, chosen, prev, next, p);
      ChosenIsCovered(chosen, fs[1..], next, p);
    } else if !Covers(fs[0], p) {
      var i :| 0 <= i < |fs| && Covers(fs[i], p);
      assert fs[1..][i - 1] == fs[i];
    }
  }

  /** If a disjoint choice from the staircase covers all its bytes from `prev` on, then so does the sweep. */
  lemma {:induction false} SweepCovers(fs: seq<Finding>, prev: int, chosen: set<Finding>, n: int, p: int)
    requires Staircase(fs) && AllInText(fs, n) && PairwiseDisjoint(chosen)
    requires forall q :: prev <= q && CoveredBy(fs, q) ==> ChosenCovers(chosen, fs, prev, q)
    requires prev <= p && CoveredBy(fs, p)
    ensures CoveredBy(Swept(fs, prev), p)
  {
    var h, tail := fs[0], fs[1..];
    var next := if h.start < prev then prev else h.end;
    CoveredBehind(fs, prev, next, chosen, p);
    CoveredByCons(h, Swept(tail, h.end), p);
    if h.start < prev || !Covers(h, p) {
      forall q | next <= q && CoveredBy(tail, q)
        ensures ChosenCovers(chosen, tail, next, q)
      {
        TailStaysChosen(fs, prev, next, chosen, q);
      }
      SweepCovers(tail, next, chosen, n, p);
    }
  }

  /** A choice of pairwise disjoint findings, each maximal, that leaves out no byte of any finding. */
  ghost predicate CoversAll(chosen: set<Finding>, fs: seq<Finding>) {
    && PairwiseDisjoint(chosen)
    && (forall f :: f in chosen ==> f in fs && Maximal(f, fs))
    && (forall p :: CoveredBy(fs, p) ==> exists c :: c in chosen && Covers(c, p))
  }

  lemma ChoiceOnTheStaircase(sorted: seq<Finding>, chosen: set<Finding>, n: int, p: int)
    requires Sorted(DedupLe, sorted) && AllInText(sorted, n) && CoversAll(chosen, sorted)
    requires CoveredBy(Dedup(sorted), p)
    ensures ChosenCovers(chosen, Dedup(sorted), 0, p)
  {
    DedupCoverage(sorted, p);
    DedupIsMaximal(sorted);
    var c :| c in chosen && Covers(c, p);
    var i :| 0 <= i < |sorted| && sorted[i] == c;
    assert HasSpan(Dedup(sorted), c) && InText(sorted[i], n);
  }

  lemma AppliedCoversAll(text: string, sorted: seq<Finding>)
    requires Sorted(DedupLe, sorted) && AllInText(sorted, |text|)
    requires AllCovered(sorted, Applied(sorted))
    ensures CoversAll(NonEmpty(Applied(sorted)), sorted)
  {
    AppliedIsDisjointAndMaximal(text, sorted);
    forall p | CoveredBy(sorted, p)
      ensures exists c :: c in NonEmpty(Applied(sorted)) && Covers(c, p)
    {
      var i :| 0 <= i < |Applied(sorted)| && Covers(Applied(sorted)[i], p);
      assert Applied(sorted)[i] in NonEmpty(Applied(sorted));
    }
  }

  /** Every byte of every finding is replaced exactly when the findings allow it at all: when some disjoint
      choice of maximal findings leaves out no byte. */
  lemma CoverageExactly(text: string, sorted: seq<Finding>)
    requires Sorted(DedupLe, sorted) && AllInText(sorted, |text|)
    ensures AllCovered(sorted, Applied(sorted)) <==> exists chosen :: CoversAll(chosen, sorted)
  {
    if AllCovered(sorted, Applied(sorted)) {
      AppliedCoversAll(text, sorted);
    }
    if chosen :| CoversAll(chosen, sorted) {
      RedactStaysInRange(text, sorted);
      forall p | CoveredBy(sorted, p)
        ensures CoveredBy(Applied(sorted), p)
      {
        DedupCoverage(sorted, p);
        forall q | 0 <= q && CoveredBy(Dedup(sorted), q)
          ensures ChosenCovers(chosen, Dedup(sorted), 0, q)
        {
          ChoiceOnTheStaircase(sorted, chosen, |text|, q);
        }
        SweepCovers(Dedup(sorted), 0, chosen, |text|, p);
      }
    }
  }

  lemma DedupOfTwo(f: Finding, g: Finding)
    ensures Dedup([f, g]) == if Contains(f, g) then [f] else [f, g]
  {
    assert [f, g][..1] == [f] && [f][..0] == [];
    assert Dedup([f]) == [f];
    assert HasContainer([f], g) <==> Contains([f][0], g);
  }

  lemma SweptOfTwo(f: Finding, g: Finding)
    requires 0 <= f.start
    ensures Swept([f, g], 0) == if g.start < f.end then [f] else [f, g]
  {
    assert [f, g][1..] == [g] && [g][1..] == [];
    assert Swept([g], f.end) == if g.start < f.end then [] else [g];
  }

  lemma WeaveOfOne(text: string, f: Finding)
    requires 0 <= f.start <= |text| && 0 <= f.end <= |text|
    ensures Sliceable([f], 0, |text|)
    ensures Weave(text, [f], 0, Label) == text[..f.start] + Label(f) + text[f.end..]
  {
    assert [f][1..] == [];
  }

  lemma FirstFour(f: Finding)
    requires f.tag == "A" && f.start == 0 && f.end == 4
    ensures Sliceable([f], 0, 9) && Weave("abcdefghi", [f], 0, Label) == "[REDACTED-A]efghi"
  {
    WeaveOfOne("abcdefghi", f);
    assert "abcdefghi"[..0] + Label(f) == "[REDACTED-A]" && "abcdefghi"[4..] == "efghi";
  }

  /** Two findings that overlap in part: the second is passed over, and its tail stays in the output. */
  lemma PartialOverlapLeaks()
    ensures var f, g := Finding("A", "abcd", 0, 4), Finding("B", "cdefghi", 2, 9);
      && Sorted(DedupLe, [f, g]) && Applied([f, g]) == [f]
      && CoveredBy([f, g], 8) && !CoveredBy(Applied([f, g]), 8)
      && Redacted("abcdefghi", [f, g]).Done? && Redacted("abcdefghi", [f, g]).value.text == "[REDACTED-A]efghi"
  {
    var f, g := Finding("A", "abcd", 0, 4), Finding("B", "cdefghi", 2, 9);
    DedupOfTwo(f, g);
    SweptOfTwo(f, g);
    assert Covers([f, g][1], 8);
    FirstFour(f);
  }

  /** Of the same two findings it is the longer that is passed over. */
  lemma LongerIsPassedOver()
    ensures var f, g := Finding("A", "abcd", 0, 4), Finding("B", "cdefghi", 2, 9);
      Length(f) < Length(g) && g in Dedup([f, g]) && g !in Applied([f, g]) && !LongestWins([f, g])
  {
    var f, g := Finding("A", "abcd", 0, 4), Finding("B", "cdefghi", 2, 9);
    DedupOfTwo(f, g);
    SweptOfTwo(f, g);
    assert Dedup([f, g])[1] == g;
    assert !LosesTo(g, f);
  }

  // ----- when the longest finding wins -----

  function Length(f: Finding): int {
    f.end - f.start
  }

  /** `f` starts strictly inside `g`, which is at least as long. */
  predicate LosesTo(f: Finding, g: Finding) {
    g.start < f.start < g.end && Length(f) <= Length(g)
  }

  /** Of two kept findings that overlap, the sweep never passes over the longer. */
  ghost predicate LongestWins(sorted: seq<Finding>) {
    forall f :: f in Dedup(sorted) && f !in Applied(sorted) ==> exists a :: a in Applied(sorted) && LosesTo(f, a)
  }

  ghost predicate InChoice(chosen: set<Finding>, f: Finding) {
    exists c :: c in chosen && SameSpan(c, f)
  }

  /** A choice of pairwise disjoint maximal findings to which all other maximal findings lose. */
  ghost predicate ChoosesLongest(chosen: set<Finding>, fs: seq<Finding>) {
    && PairwiseDisjoint(chosen)
    && (forall c :: c in chosen ==> c in fs && Maximal(c, fs))
    && (forall f :: f in fs && Maximal(f, fs) && !InChoice(chosen, f) ==> exists c :: c in chosen && LosesTo(f, c))
  }

  /** The finding is chosen, or loses to a chosen one on the staircase that starts at `prev` or later. */
  ghost predicate ChosenOrLoses(chosen: set<Finding>, fs: seq<Finding>, prev: int, f: Finding) {
    InChoice(chosen, f) || exists c :: c in chosen && LosesTo(f, c) && prev <= c.start && HasSpan(fs, c)
  }

  lemma FirstIsChosen(fs: seq<Finding>, prev: int, chosen: set<Finding>)
    requires fs != [] && Staircase(fs) && ChosenOrLoses(chosen, fs, prev, fs[0])
    ensures InChoice(chosen, fs[0])
  {
  }

  /** Behind the first step, what is chosen or loses does so behind it. */
  lemma ChosenOrLosesBehind(fs: seq<Finding>, prev: int, next: int, chosen: set<Finding>, f: Finding)
    requires fs != [] && Staircase(fs) && PairwiseDisjoint(chosen) && fs[0].start <= fs[0].end
    requires next == (if fs[0].start < prev then prev else fs[0].end) && next <= f.start
    requires prev <= fs[0].start ==> InChoice(chosen, fs[0])
    requires ChosenOrLoses(chosen, fs, prev, f)
    ensures ChosenOrLoses(chosen, fs[1..], next, f)
  {
    if !InChoice(chosen, f) {
      var c :| c in chosen && LosesTo(f, c) && prev <= c.start && HasSpan(fs, c);
      NotTheHead(fs, c);
      if prev <= fs[0].start {
        var h :| h in chosen && SameSpan(h, fs[0]);
        assert Disjoint(c, h);
      }
    }
  }

  lemma InsideIsNotChosen(fs: seq<Finding>, chosen: set<Finding>, k: nat)
    requires Staircase(fs) && PairwiseDisjoint(chosen) && 0 < k < |fs| && InChoice(chosen, fs[0])
    requires fs[k].start < fs[0].end
    ensures !InChoice(chosen, fs[k])
  {
    var h :| h in chosen && SameSpan(h, fs[0]);
    forall c | c in chosen
      ensures !SameSpan(c, fs[k])
    {
      assert c == h || Disjoint(c, h);
    }
  }

  /** What starts inside the first step, which is taken, loses to it. */
  lemma LosesToFirst(fs: seq<Finding>, prev: int, chosen: set<Finding>, k: nat)
    requires Staircase(fs) && PairwiseDisjoint(chosen) && 0 < k < |fs| && InChoice(chosen, fs[0])
    requires fs[k].start < fs[0].end && ChosenOrLoses(chosen, fs, prev, fs[k])
    ensures LosesTo(fs[k], fs[0])
  {
    var h :| h in chosen && SameSpan(h, fs[0]);
    InsideIsNotChosen(fs, chosen, k);
    var c :| c in chosen && LosesTo(fs[k], c) && prev <= c.start && HasSpan(fs, c);
    assert c == h || Disjoint(c, h);
  }

  ghost predicate TakenOrLoses(fs: seq<Finding>, prev: int, f: Finding) {
    f in Swept(fs, prev) || exists a :: a in Swept(fs, prev) && LosesTo(f, a)
  }

  /** If all of the staircase from `prev` on is chosen or loses to what is chosen, the sweep takes what is chosen. */
  lemma {:induction false} SweepTakesLongest(fs: seq<Finding>, prev: int, chosen: set<Finding>, n: int, k: nat)
    requires Staircase(fs) && AllInText(fs, n) && PairwiseDisjoint(chosen)
    requires forall i :: 0 <= i < |fs| && prev <= fs[i].start ==> ChosenOrLoses(chosen, fs, prev, fs[i])
    requires k < |fs| && prev <= fs[k].start
    ensures TakenOrLoses(fs, prev, fs[k])
  {
    var h, tail := fs[0], fs[1..];
    var next := if h.start < prev then prev else h.end;
    if prev <= h.start {
      FirstIsChosen(fs, prev, chosen);
    }
    forall i | 0 <= i < |tail| && next <= tail[i].start
      ensures ChosenOrLoses(chosen, tail, next, tail[i])
    {
      assert tail[i] == fs[i + 1] && prev <= fs[i + 1].start;
      ChosenOrLosesBehind(fs, prev, next, chosen, tail[i]);
    }
    if prev <= h.start && k == 0 {
      assert Swept(fs, prev)[0] == h;
    } else if prev <= h.start && fs[k].start < h.end {
      LosesToFirst(fs, prev, chosen, k);
      assert Swept(fs, prev)[0] == h;
    } else {
      assert tail[k - 1] == fs[k];
      SweepTakesLongest(tail, next, chosen, n, k - 1);
      TakenInTail(fs, prev, next, fs[k]);
    }
  }

  lemma TakenInTail(fs: seq<Finding>, prev: int, next: int, f: Finding)
    requires fs != [] && next == (if fs[0].start < prev then prev else fs[0].end) && TakenOrLoses(fs[1..], next, f)
    ensures TakenOrLoses(fs, prev, f)
  {
    var rest := Swept(fs[1..], next);
    assert forall a :: a in rest ==> a in [fs[0]] + rest;
    assert Swept(fs, prev) == if fs[0].start < prev then rest else [fs[0]] + rest;
  }

  lemma MaximalHasSpan(sorted: seq<Finding>, f: Finding)
    requires Sorted(DedupLe, sorted) && f in sorted && Maximal(f, sorted)
    ensures HasSpan(Dedup(sorted), f)
  {
    DedupIsMaximal(sorted);
    var i :| 0 <= i < |sorted| && sorted[i] == f;
  }

  lemma KeptIsMaximal(sorted: seq<Finding>, f: Finding)
    requires Sorted(DedupLe, sorted) && f in Dedup(sorted)
    ensures f in sorted && Maximal(f, sorted)
  {
    var k :| 0 <= k < |Dedup(sorted)| && Dedup(sorted)[k] == f;
    DedupKeepsAStaircase(sorted);
    DedupCoversAll(sorted);
    CoveringStaircaseIsMaximal(Dedup(sorted), sorted, k);
  }

  lemma KeptIsChosenOrLoses(sorted: seq<Finding>, chosen: set<Finding>, n: int, f: Finding)
    requires Sorted(DedupLe, sorted) && AllInText(sorted, n) && ChoosesLongest(chosen, sorted) && f in Dedup(sorted)
    ensures ChosenOrLoses(chosen, Dedup(sorted), 0, f)
  {
    KeptIsMaximal(sorted, f);
    if !InChoice(chosen, f) {
      var c :| c in chosen && LosesTo(f, c);
      MaximalHasSpan(sorted, c);
      var i :| 0 <= i < |sorted| && sorted[i] == c;
      assert InText(sorted[i], n);
    }
  }

  /** With the longest winning, a maximal finding has an applied span or loses to one. */
  lemma MaximalIsAppliedOrLoses(sorted: seq<Finding>, f: Finding)
    requires Sorted(DedupLe, sorted) && LongestWins(sorted) && f in sorted && Maximal(f, sorted)
    requires !InChoice(Elements(Applied(sorted)), f)
    ensures exists a :: a in Elements(Applied(sorted)) && LosesTo(f, a)
  {
    MaximalHasSpan(sorted, f);
    var k :| 0 <= k < |Dedup(sorted)| && SameSpan(Dedup(sorted)[k], f);
    var g := Dedup(sorted)[k];
    assert g in Elements(Applied(sorted)) <==> g in Applied(sorted);
    var a :| a in Applied(sorted) && LosesTo(g, a);
    assert a in Elements(Applied(sorted)) && LosesTo(f, a);
  }

  lemma AppliedChoosesLongest(text: string, sorted: seq<Finding>)
    requires Sorted(DedupLe, sorted) && AllInText(sorted, |text|) && LongestWins(sorted)
    ensures ChoosesLongest(Elements(Applied(sorted)), sorted)
  {
    RedactStaysInRange(text, sorted);
    ElementsAreDisjoint(Applied(sorted), |text|);
    AppliedIsDisjointAndMaximal(text, sorted);
    forall f | f in sorted && Maximal(f, sorted) && !InChoice(Elements(Applied(sorted)), f)
      ensures exists c :: c in Elements(Applied(sorted)) && LosesTo(f, c)
    {
      MaximalIsAppliedOrLoses(sorted, f);
    }
  }

  /** The longest of overlapping findings wins, exactly if the findings can be told apart that way at all: if all maximal
      findings but some disjoint ones start strictly inside one of these that is at least as long. */
  lemma {:induction false} LongestWinsExactly(text: string, sorted: seq<Finding>)
    requires Sorted(DedupLe, sorted) && AllInText(sorted, |text|)
    ensures LongestWins(sorted) <==> exists chosen :: ChoosesLongest(chosen, sorted)
  {
    if LongestWins(sorted) {
      AppliedChoosesLongest(text, sorted);
    }
    if chosen :| ChoosesLongest(chosen, sorted) {
      RedactStaysInRange(text, sorted);
      var kept := Dedup(sorted);
      forall i | 0 <= i < |kept|
        ensures ChosenOrLoses(chosen, kept, 0, kept[i])
      {
        KeptIsChosenOrLoses(sorted, chosen, |text|, kept[i]);
      }
      forall f | f in kept
        ensures TakenOrLoses(kept, 0, f)
      {
        var k :| 0 <= k < |kept| && kept[k] == f;
        SweepTakesLongest(kept, 0, chosen, |text|, k);
      }
    }
  }

  /** Any two findings are nested, or have no byte in common. */
  ghost predicate Laminar(fs: seq<Finding>) {
    forall i, j :: 0 <= i < |fs| && 0 <= j < |fs| ==>
      Contains(fs[i], fs[j]) || Contains(fs[j], fs[i]) || Disjoint(fs[i], fs[j])
  }

  lemma {:induction false} DisjointAreAllSwept(fs: seq<Finding>, prev: int)
    requires forall i :: 0 <= i < |fs| ==> prev <= fs[i].start
    requires forall i, j :: 0 <= i < j < |fs| ==> fs[i].end <= fs[j].start
    ensures Swept(fs, prev) == fs
  {
    if fs != [] {
      DisjointAreAllSwept(fs[1..], fs[0].end);
    }
  }

  lemma LaminarKeepsDisjoint(sorted: seq<Finding>, n: int, i: nat, j: nat)
    requires Sorted(DedupLe, sorted) && AllInText(sorted, n) && Laminar(sorted)
    requires i < j < |Dedup(sorted)|
    ensures Dedup(sorted)[i].end <= Dedup(sorted)[j].start
  {
    var kept := Dedup(sorted);
    DedupKeepsAStaircase(sorted);
    var a :| 0 <= a < |sorted| && sorted[a] == kept[i];
    var b :| 0 <= b < |sorted| && sorted[b] == kept[j];
    assert Contains(sorted[a], sorted[b]) || Contains(sorted[b], sorted[a]) || Disjoint(sorted[a], sorted[b]);
  }

  /** When findings are nested or disjoint, everything deduplication keeps is applied, and every byte of
      every finding is replaced. */
  lemma LaminarIsCovered(text: string, sorted: seq<Finding>)
    requires Sorted(DedupLe, sorted) && AllInText(sorted, |text|) && Laminar(sorted)
    ensures Applied(sorted) == Dedup(sorted)
    ensures forall p :: CoveredBy(sorted, p) <==> CoveredBy(Applied(sorted), p)
  {
    var kept := Dedup(sorted);
    RedactStaysInRange(text, sorted);
    forall i, j | 0 <= i < j < |kept|
      ensures kept[i].end <= kept[j].start
    {
      LaminarKeepsDisjoint(sorted, |text|, i, j);
    }
    DisjointAreAllSwept(kept, 0);
    forall p
      ensures CoveredBy(sorted, p) <==> CoveredBy(Applied(sorted), p)
    {
      DedupCoverage(sorted, p);
    }
  }

  // ----- undoing a redaction -----

  /** Puts the original of each applied redaction back in place of its placeholder. */
  function Restore(redacted: string, applied: seq<AppliedRedaction>, prev: int): string {
    if applied == [] then redacted
    else
      var a := applied[0];
      var next := a.start - prev + |a.placeholder|;
      if prev <= a.start && next <= |redacted| then
        redacted[..a.start - prev] + a.original + Restore(redacted[next..], applied[1..], a.end)
      else redacted
  }

  lemma {:induction false} RestoreIsUnweave(woven: string, fs: seq<Finding>, prev: int)
    ensures Restore(woven, Records(fs), prev) == Unweave(woven, fs, prev, Label, Original)
  {
    if fs != [] {
      assert Records(fs)[1..] == Records(fs[1..]);
      var gap := fs[0].start - prev;
      var next := gap + |Placeholder(fs[0].tag)|;
      if 0 <= gap && next <= |woven| {
        RestoreIsUnweave(woven[next..], fs[1..], fs[0].end);
      }
    }
  }

  ghost predicate ValuesAreText(fs: seq<Finding>, text: string) {
    forall i :: 0 <= i < |fs| ==> InText(fs[i], |text|) && fs[i].value == text[fs[i].start..fs[i].end]
  }

  /** Restoring undoes redacting, and the lengths add up. */
  lemma RedactIsReversible(text: string, sorted: seq<Finding>)
    requires Sorted(DedupLe, sorted) && ValuesAreText(sorted, text)
    ensures Redacted(text, sorted).Done?
    ensures var r := Redacted(text, sorted).value;
      && Restore(r.text, r.applied, 0) == text
      && |r.text| == |text| - TotalOf(Applied(sorted), (f: Finding) => f.end - f.start)
                           + TotalOf(Applied(sorted), (f: Finding) => |Label(f)|)
  {
    RedactStaysInRange(text, sorted);
    var applied := Applied(sorted);
    UnweaveWeave(text, applied, 0, Label, Original);
    RestoreIsUnweave(Weave(text, applied, 0, Label), applied, 0);
    forall i | 0 <= i < |applied|
      ensures InText(applied[i], |text|) && applied[i].value == text[applied[i].start..applied[i].end]
    {
      assert applied[i] in sorted;
    }
    WeaveOriginals(text, applied, 0);
    WeaveLength(text, applied, 0, Label);
  }

  /** With the placeholders taken out, the output is exactly the bytes that no applied span covers, in
      order; when findings are nested or disjoint, exactly the bytes that no finding covers. */
  lemma RedactKeepsTheRest(text: string, sorted: seq<Finding>)
    requires Sorted(DedupLe, sorted) && AllInText(sorted, |text|)
    ensures Redacted(text, sorted).Done?
    ensures var bare := Unweave(Redacted(text, sorted).value.text, Applied(sorted), 0, Label, Nothing);
      && bare == Uncovered(text, Applied(sorted), 0)
      && (Laminar(sorted) ==> bare == Uncovered(text, sorted, 0))
  {
    RedactStaysInRange(text, sorted);
    var applied := Applied(sorted);
    UnweaveWeave(text, applied, 0, Label, Nothing);
    assert applied[0..] == applied;
    WeaveNothing(text, applied, 0, 0);
    if Laminar(sorted) {
      LaminarIsCovered(text, sorted);
      UncoveredDependsOnCoverage(text, applied, sorted, 0);
    }
  }
}
