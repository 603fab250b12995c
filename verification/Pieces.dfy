/** Texts joined with newlines, and redactions that stay within one piece of such a text. */
module Pieces {
  import opened Sorting
  import opened Findings
  import opened Redactor
  import opened RedactionLaws

  // ----- joining and splitting -----

  function Join(ps: seq<string>): string {
    if ps == [] then ""
    else if |ps| == 1 then ps[0]
    else ps[0] + "\n" + Join(ps[1..])
  }

  function Split(s: string): (r: seq<string>)
    ensures |r| >= 1
  {
    if s == "" then [""]
    else
      var r := Split(s[1..]);
      if s[0] == '\n' then [""] + r else [[s[0]] + r[0]] + r[1..]
  }

  predicate NewlineFree(s: string) {
    '\n' !in s
  }

  ghost predicate AllNewlineFree(ps: seq<string>) {
    forall i :: 0 <= i < |ps| ==> NewlineFree(ps[i])
  }

  lemma {:induction false} SplitIsNewlineFree(s: string)
    ensures AllNewlineFree(Split(s))
  {
    if s != "" {
      SplitIsNewlineFree(s[1..]);
    }
  }

  lemma {:induction false} SplitFree(s: string)
    requires NewlineFree(s)
    ensures Split(s) == [s]
  {
    if s != "" {
      SplitFree(s[1..]);
      assert [s[0]] + s[1..] == s;
    }
  }

  lemma {:induction false} SplitAtNewline(s: string, t: string)
    ensures |Split(s + "\n" + t)| == |Split(s)| + |Split(t)|
    ensures NewlineFree(s) ==> Split(s + "\n" + t) == [s] + Split(t)
  {
    if s == "" {
      assert "" + "\n" + t == "\n" + t && ("\n" + t)[1..] == t;
    } else {
      SplitAtNewline(s[1..], t);
      assert (s + "\n" + t)[1..] == s[1..] + "\n" + t;
      if NewlineFree(s) {
        assert [s[0]] + s[1..] == s;
      }
    }
  }

  /** Splitting a joined text gives back its pieces, if none of them has a newline in it. */
  lemma {:induction false} SplitJoin(ps: seq<string>)
    requires ps != [] && AllNewlineFree(ps)
    ensures Split(Join(ps)) == ps
  {
    if |ps| == 1 {
      SplitFree(ps[0]);
    } else {
      SplitJoin(ps[1..]);
      SplitAtNewline(ps[0], Join(ps[1..]));
    }
  }

  lemma {:induction false} SplitJoinLength(ps: seq<string>)
    ensures |Split(Join(ps))| >= |ps|
  {
    if |ps| > 1 {
      SplitJoinLength(ps[1..]);
      SplitAtNewline(ps[0], Join(ps[1..]));
    }
  }

  // ----- moving findings along -----

  function Shift(f: Finding, d: int): Finding {
    f.(start := f.start + d, end := f.end + d)
  }

  function ShiftAll(fs: seq<Finding>, d: int): (r: seq<Finding>)
    ensures |r| == |fs| && forall i :: 0 <= i < |r| ==> r[i] == Shift(fs[i], d)
  {
    if fs == [] then [] else [Shift(fs[0], d)] + ShiftAll(fs[1..], d)
  }

  lemma {:induction false} DedupShift(fs: seq<Finding>, d: int)
    ensures Dedup(ShiftAll(fs, d)) == ShiftAll(Dedup(fs), d)
  {
    if fs != [] {
      var front, last := fs[..|fs| - 1], fs[|fs| - 1];
      DedupShift(front, d);
      assert ShiftAll(fs, d)[..|fs| - 1] == ShiftAll(front, d);
      var kept := Dedup(front);
      assert HasContainer(ShiftAll(kept, d), Shift(last, d)) <==> HasContainer(kept, last) by {
        if k :| 0 <= k < |kept| && Contains(kept[k], last) {
          assert Contains(ShiftAll(kept, d)[k], Shift(last, d));
        }
        if k :| 0 <= k < |kept| && Contains(ShiftAll(kept, d)[k], Shift(last, d)) {
          assert Contains(kept[k], last);
        }
      }
      assert ShiftAll(kept + [last], d) == ShiftAll(kept, d) + [Shift(last, d)];
    }
  }

  lemma {:induction false} SweptShift(fs: seq<Finding>, prev: int, d: int)
    ensures Swept(ShiftAll(fs, d), prev + d) == ShiftAll(Swept(fs, prev), d)
  {
    if fs != [] {
      assert ShiftAll(fs, d)[1..] == ShiftAll(fs[1..], d);
      if fs[0].start < prev {
        SweptShift(fs[1..], prev, d);
      } else {
        SweptShift(fs[1..], fs[0].end, d);
        assert ShiftAll([fs[0]] + Swept(fs[1..], fs[0].end), d)
            == [Shift(fs[0], d)] + ShiftAll(Swept(fs[1..], fs[0].end), d);
      }
    }
  }

  /** Text behind a prefix is woven as if it stood alone. */
  lemma SliceBehindHead(head: string, tail: string, i: int, j: int)
    requires 0 <= i <= j <= |tail|
    ensures (head + tail)[|head| + i..|head| + j] == tail[i..j]
    ensures (head + tail)[|head| + i..] == tail[i..]
  {
  }

  lemma {:induction false} WeaveBehind(head: string, tail: string, gs: seq<Finding>, prev: int)
    requires 0 <= prev && Layout(gs, prev, |tail|) && Sliceable(gs, prev, |tail|)
    ensures Sliceable(ShiftAll(gs, |head|), |head| + prev, |head + tail|)
    ensures Weave(head + tail, ShiftAll(gs, |head|), |head| + prev, Label) == Weave(tail, gs, prev, Label)
  {
    if gs == [] {
      SliceBehindHead(head, tail, prev, |tail|);
    } else {
      assert ShiftAll(gs, |head|)[1..] == ShiftAll(gs[1..], |head|);
      LayoutIsSliceable(gs[1..], gs[0].end, |tail|);
      WeaveBehind(head, tail, gs[1..], gs[0].end);
      SliceBehindHead(head, tail, prev, gs[0].start);
    }
  }

  lemma WeaveFromEarlier(text: string, fs: seq<Finding>, prev: int, mid: int)
    requires 0 <= prev <= mid && Sliceable(fs, mid, |text|)
    ensures Sliceable(fs, prev, |text|)
    ensures Weave(text, fs, prev, Label) == text[prev..mid] + Weave(text, fs, mid, Label)
  {
    if fs == [] {
      assert text[prev..] == text[prev..mid] + text[mid..];
    } else {
      assert text[prev..fs[0].start] == text[prev..mid] + text[mid..fs[0].start];
      var rest := Weave(text, fs[1..], fs[0].end, Label);
      var p, a, b := Label(fs[0]), text[prev..mid], text[mid..fs[0].start];
      assert (a + b) + p + rest == a + (b + p + rest);
    }
  }

  lemma HeadSlice(head: string, tail: string, i: int, j: int)
    requires 0 <= i <= j <= |head|
    ensures (head + tail)[i..j] == head[i..j]
  {
  }

  lemma WeaveFirst(text: string, f: Finding, rest: seq<Finding>, prev: int)
    requires 0 <= prev <= f.start <= |text| && Sliceable(rest, f.end, |text|)
    ensures Sliceable([f] + rest, prev, |text|)
    ensures Weave(text, [f] + rest, prev, Label) == text[prev..f.start] + Label(f) + Weave(text, rest, f.end, Label)
  {
    assert ([f] + rest)[1..] == rest;
  }

  lemma ConsAppend(fs: seq<Finding>, gs: seq<Finding>)
    requires fs != []
    ensures fs == [fs[0]] + fs[1..] && fs + gs == [fs[0]] + (fs[1..] + gs)
  {
  }

  lemma Reassociate(a: string, b: string, c: string, d: string)
    ensures a + b + (c + d) == (a + b + c) + d
  {
  }

  lemma WeaveApartStep(head: string, tail: string, f: Finding, rest: seq<Finding>, moved: seq<Finding>, prev: int, t: string)
    requires 0 <= prev <= f.start <= f.end <= |head|
    requires Sliceable(rest, f.end, |head|) && Sliceable(rest + moved, f.end, |head + tail|)
    requires Weave(head + tail, rest + moved, f.end, Label) == Weave(head, rest, f.end, Label) + t
    ensures Sliceable([f] + (rest + moved), prev, |head + tail|) && Sliceable([f] + rest, prev, |head|)
    ensures Weave(head + tail, [f] + (rest + moved), prev, Label) == Weave(head, [f] + rest, prev, Label) + t
  {
    WeaveFirst(head + tail, f, rest + moved, prev);
    WeaveFirst(head, f, rest, prev);
    HeadSlice(head, tail, prev, f.start);
    Reassociate(head[prev..f.start], Label(f), Weave(head, rest, f.end, Label), t);
  }

  /** A text whose spans lie in its head or in its tail is woven head and tail apart. */
  lemma {:induction false} WeaveApart(head: string, tail: string, fs: seq<Finding>, gs: seq<Finding>, prev: int)
    requires 0 <= prev && Layout(fs, prev, |head|) && Sliceable(fs, prev, |head|)
    requires Layout(gs, 0, |tail|) && Sliceable(gs, 0, |tail|)
    ensures Sliceable(fs + ShiftAll(gs, |head|), prev, |head + tail|)
    ensures Weave(head + tail, fs + ShiftAll(gs, |head|), prev, Label) == Weave(head, fs, prev, Label) + Weave(tail, gs, 0, Label)
  {
    var moved := ShiftAll(gs, |head|);
    if fs == [] {
      assert fs + moved == moved;
      WeaveBehind(head, tail, gs, 0);
      WeaveFromEarlier(head + tail, moved, prev, |head|);
      HeadSlice(head, tail, prev, |head|);
    } else {
      var f, rest := fs[0], fs[1..];
      LayoutBounds(fs, prev, |head|);
      LayoutIsSliceable(rest, f.end, |head|);
      WeaveApart(head, tail, rest, gs, f.end);
      WeaveApartStep(head, tail, f, rest, moved, prev, Weave(tail, gs, 0, Label));
      ConsAppend(fs, moved);
    }
  }

  // ----- findings that lie in one of two halves -----

  ghost predicate EndsBy(fs: seq<Finding>, p: int) {
    forall i :: 0 <= i < |fs| ==> fs[i].start <= fs[i].end <= p
  }

  ghost predicate StartsFrom(fs: seq<Finding>, p: int) {
    forall i :: 0 <= i < |fs| ==> p <= fs[i].start <= fs[i].end
  }

  lemma {:induction false} DedupApart(fs: seq<Finding>, gs: seq<Finding>, p: int)
    requires Sorted(DedupLe, fs + gs) && EndsBy(fs, p) && StartsFrom(gs, p + 1)
    ensures Dedup(fs + gs) == Dedup(fs) + Dedup(gs)
  {
    if gs == [] {
      assert fs + gs == fs;
    } else {
      var front, last := gs[..|gs| - 1], gs[|gs| - 1];
      var all := fs + gs;
      assert all[..|all| - 1] == fs + front && all[|all| - 1] == last;
      DedupApart(fs, front, p);
      ContainerIsNear(Dedup(fs), Dedup(front), fs, last, p);
    }
  }

  lemma ContainerIsNear(a: seq<Finding>, b: seq<Finding>, fs: seq<Finding>, f: Finding, p: int)
    requires EndsBy(fs, p) && p < f.start <= f.end
    requires a == Dedup(fs)
    ensures HasContainer(a + b, f) <==> HasContainer(b, f)
  {
    DedupIsPart(fs);
    if k :| 0 <= k < |a + b| && Contains((a + b)[k], f) {
      assert forall i :: 0 <= i < |a| ==> a[i] in fs;
      assert Contains(b[k - |a|], f);
    }
    if k :| 0 <= k < |b| && Contains(b[k], f) {
      assert Contains((a + b)[|a| + k], f);
    }
  }

  lemma {:induction false} DedupIsPart(fs: seq<Finding>)
    ensures forall i :: 0 <= i < |Dedup(fs)| ==> Dedup(fs)[i] in fs
  {
    if fs != [] {
      DedupIsPart(fs[..|fs| - 1]);
    }
  }

  lemma {:induction false} SweptApart(fs: seq<Finding>, gs: seq<Finding>, prev: int, p: int)
    requires EndsBy(fs, p) && StartsFrom(gs, p) && prev <= p
    ensures Swept(fs + gs, prev) == Swept(fs, prev) + Swept(gs, p)
  {
    if fs == [] {
      assert fs + gs == gs;
      SweptFromBefore(gs, prev, p);
    } else {
      assert (fs + gs)[0] == fs[0] && (fs + gs)[1..] == fs[1..] + gs;
      SweptApart(fs[1..], gs, if fs[0].start < prev then prev else fs[0].end, p);
    }
  }

  lemma SweptFromBefore(gs: seq<Finding>, prev: int, p: int)
    requires StartsFrom(gs, p) && prev <= p
    ensures Swept(gs, prev) == Swept(gs, p)
  {
  }

  // ----- findings piece by piece -----

  /** The findings that lie in `lo..hi`, counted from `lo`. */
  function Local(fs: seq<Finding>, lo: int, hi: int): seq<Finding> {
    if fs == [] then []
    else (if lo <= fs[0].start && fs[0].end <= hi then [Shift(fs[0], -lo)] else []) + Local(fs[1..], lo, hi)
  }

  /** Where piece `i` starts in the joined text. */
  function Offset(ps: seq<string>, i: nat): int
    requires i < |ps|
  {
    if i == 0 then 0 else |ps[0]| + 1 + Offset(ps[1..], i - 1)
  }

  ghost predicate InPiece(f: Finding, ps: seq<string>, i: nat)
    requires i < |ps|
  {
    Offset(ps, i) <= f.start <= f.end <= Offset(ps, i) + |ps[i]|
  }

  ghost predicate InSomePiece(f: Finding, ps: seq<string>) {
    exists i :: 0 <= i < |ps| && InPiece(f, ps, i)
  }

  ghost predicate AllInPieces(fs: seq<Finding>, ps: seq<string>) {
    forall k :: 0 <= k < |fs| ==> InSomePiece(fs[k], ps)
  }

  /** The text `Redact` gives for findings inside the text, already in sorted order. */
  function RedactedText(text: string, sorted: seq<Finding>): string {
    match Redacted(text, sorted)
    case Done(r) => r.text
    case OutOfRange => text
  }

  lemma RedactedTextIsWeave(text: string, sorted: seq<Finding>)
    requires Sorted(DedupLe, sorted) && AllInText(sorted, |text|)
    ensures Layout(Applied(sorted), 0, |text|) && Sliceable(Applied(sorted), 0, |text|)
    ensures RedactedText(text, sorted) == Weave(text, Applied(sorted), 0, Label)
  {
    RedactStaysInRange(text, sorted);
    LayoutIsSliceable(Applied(sorted), 0, |text|);
  }

  lemma AppliedApart(fs: seq<Finding>, gs: seq<Finding>, p: int, n: nat)
    requires Sorted(DedupLe, fs + ShiftAll(gs, n)) && StartsFrom(gs, 0) && EndsBy(fs, p) && p < n
    ensures Applied(fs + ShiftAll(gs, n)) == Applied(fs) + ShiftAll(Applied(gs), n)
  {
    var moved := ShiftAll(gs, n);
    DedupApart(fs, moved, n - 1);
    DedupShift(gs, n);
    forall i | 0 <= i < |Dedup(fs)|
      ensures Dedup(fs)[i] in fs
    {
      DedupIsPart(fs);
    }
    forall i | 0 <= i < |Dedup(gs)|
      ensures 0 <= Dedup(gs)[i].start <= Dedup(gs)[i].end
    {
      DedupIsPart(gs);
      var j :| 0 <= j < |gs| && gs[j] == Dedup(gs)[i];
    }
    SweptApart(Dedup(fs), Dedup(moved), 0, n);
    SweptShift(Dedup(gs), 0, n);
  }

  /** Redacting a text made of two parts, with findings that do not cross from one into the other. */
  lemma {:induction false} RedactApart(head: string, tail: string, fs: seq<Finding>, gs: seq<Finding>, p: int)
    requires Sorted(DedupLe, fs + ShiftAll(gs, |head|)) && Sorted(DedupLe, fs) && Sorted(DedupLe, gs)
    requires AllInText(fs, |head|) && AllInText(gs, |tail|) && EndsBy(fs, p) && p < |head|
    requires AllInText(fs + ShiftAll(gs, |head|), |head + tail|)
    ensures RedactedText(head + tail, fs + ShiftAll(gs, |head|)) == RedactedText(head, fs) + RedactedText(tail, gs)
  {
    AppliedApart(fs, gs, p, |head|);
    RedactedTextIsWeave(head, fs);
    RedactedTextIsWeave(tail, gs);
    WeaveApart(head, tail, Applied(fs), Applied(gs), 0);
    RedactedTextIsWeave(head + tail, fs + ShiftAll(gs, |head|));
  }

  /** Each finding lies in the first piece or behind the newline after it. */
  ghost predicate OnEitherSide(fs: seq<Finding>, p: int, n: int) {
    forall i :: 0 <= i < |fs| ==> 0 <= fs[i].start <= fs[i].end <= n && (fs[i].end <= p || p < fs[i].start)
  }

  lemma {:induction false} NoneOnTheLeft(fs: seq<Finding>, p: int)
    requires StartsFrom(fs, p + 1)
    ensures Local(fs, 0, p) == []
  {
    if fs != [] {
      NoneOnTheLeft(fs[1..], p);
    }
  }

  lemma {:induction false} LocalBounds(fs: seq<Finding>, lo: int, hi: int)
    requires forall i :: 0 <= i < |fs| ==> fs[i].start <= fs[i].end
    ensures AllInText(Local(fs, lo, hi), hi - lo)
  {
    if fs != [] {
      LocalBounds(fs[1..], lo, hi);
    }
  }

  lemma LocalHead(f: Finding, fs: seq<Finding>, lo: int, hi: int)
    ensures lo <= f.start && f.end <= hi ==> Local([f] + fs, lo, hi) == [Shift(f, -lo)] + Local(fs, lo, hi)
    ensures !(lo <= f.start && f.end <= hi) ==> Local([f] + fs, lo, hi) == Local(fs, lo, hi)
  {
    assert ([f] + fs)[1..] == fs;
  }

  lemma ShiftHead(f: Finding, fs: seq<Finding>, d: int)
    ensures ShiftAll([f] + fs, d) == [Shift(f, d)] + ShiftAll(fs, d)
  {
    assert ([f] + fs)[1..] == fs;
  }

  lemma AllOnTheRight(f: Finding, rest: seq<Finding>, right: seq<Finding>, d: int)
    requires rest == [] + ShiftAll(right, d)
    ensures [f] + rest == [] + ShiftAll([Shift(f, -d)] + right, d)
  {
    ShiftHead(Shift(f, -d), right, d);
  }

  lemma ConsToSum(f: Finding, fs: seq<Finding>, gs: seq<Finding>)
    ensures [f] + (fs + gs) == ([f] + fs) + gs
  {
  }

  lemma SplitBySideStep(f: Finding, rest: seq<Finding>, p: int, n: int)
    requires 0 <= f.start <= f.end <= n && (f.end <= p || p < f.start)
    requires f.end <= p || StartsFrom(rest, p + 1)
    requires rest == Local(rest, 0, p) + ShiftAll(Local(rest, p + 1, n), p + 1)
    ensures [f] + rest == Local([f] + rest, 0, p) + ShiftAll(Local([f] + rest, p + 1, n), p + 1)
  {
    var left, right := Local(rest, 0, p), Local(rest, p + 1, n);
    LocalHead(f, rest, 0, p);
    LocalHead(f, rest, p + 1, n);
    if f.end <= p {
      ConsToSum(f, left, ShiftAll(right, p + 1));
    } else {
      NoneOnTheLeft(rest, p);
      AllOnTheRight(f, rest, right, p + 1);
    }
  }

  lemma {:induction false} SplitBySide(fs: seq<Finding>, p: int, n: int)
    requires Sorted(DedupLe, fs) && OnEitherSide(fs, p, n)
    ensures fs == Local(fs, 0, p) + ShiftAll(Local(fs, p + 1, n), p + 1)
  {
    if fs != [] {
      var rest := fs[1..];
      SplitBySide(rest, p, n);
      if fs[0].end > p {
        forall i | 0 <= i < |rest|
          ensures p + 1 <= rest[i].start <= rest[i].end
        {
          assert rest[i] == fs[i + 1] && DedupLe(fs[0], fs[i + 1]);
        }
      }
      SplitBySideStep(fs[0], rest, p, n);
      assert fs == [fs[0]] + rest;
    }
  }

  lemma SortedApart(fs: seq<Finding>, gs: seq<Finding>, d: int)
    requires Sorted(DedupLe, fs + ShiftAll(gs, d))
    ensures Sorted(DedupLe, fs) && Sorted(DedupLe, gs)
  {
    var all := fs + ShiftAll(gs, d);
    forall i, j | 0 <= i < j < |fs|
      ensures DedupLe(fs[i], fs[j])
    {
      assert all[i] == fs[i] && all[j] == fs[j];
    }
    forall i, j | 0 <= i < j < |gs|
      ensures DedupLe(gs[i], gs[j])
    {
      assert all[|fs| + i] == Shift(gs[i], d) && all[|fs| + j] == Shift(gs[j], d);
    }
  }

  lemma {:induction false} LocalOfLocal(fs: seq<Finding>, lo: int, hi: int, a: int, b: int)
    requires 0 <= a && lo + b <= hi
    ensures Local(Local(fs, lo, hi), a, b) == Local(fs, lo + a, lo + b)
  {
    if fs != [] {
      LocalOfLocal(fs[1..], lo, hi, a, b);
      if lo <= fs[0].start && fs[0].end <= hi {
        LocalHead(Shift(fs[0], -lo), Local(fs[1..], lo, hi), a, b);
      } else {
        assert [] + Local(fs[1..], lo, hi) == Local(fs[1..], lo, hi);
      }
    }
  }

  lemma {:induction false} OffsetBounds(ps: seq<string>, i: nat)
    requires i < |ps|
    ensures 0 <= Offset(ps, i) && Offset(ps, i) + |ps[i]| <= |Join(ps)|
  {
    if i > 0 {
      OffsetBounds(ps[1..], i - 1);
    }
  }

  /** The findings of piece `i`, in its own positions. */
  function OfPiece(ps: seq<string>, fs: seq<Finding>, i: nat): seq<Finding>
    requires i < |ps|
  {
    Local(fs, Offset(ps, i), Offset(ps, i) + |ps[i]|)
  }

  /** Each piece redacted on its own. */
  function RedactedPieces(ps: seq<string>, fs: seq<Finding>): (r: seq<string>)
    ensures |r| == |ps| && forall i :: 0 <= i < |ps| ==> r[i] == RedactedText(ps[i], OfPiece(ps, fs, i))
  {
    seq(|ps|, i requires 0 <= i < |ps| => RedactedText(ps[i], OfPiece(ps, fs, i)))
  }

  lemma SidesOfPieces(ps: seq<string>, fs: seq<Finding>)
    requires |ps| > 1 && AllInPieces(fs, ps)
    ensures OnEitherSide(fs, |ps[0]|, |Join(ps)|)
    ensures AllInPieces(Local(fs, |ps[0]| + 1, |Join(ps)|), ps[1..])
  {
    forall k | 0 <= k < |fs|
      ensures 0 <= fs[k].start <= fs[k].end <= |Join(ps)| && (fs[k].end <= |ps[0]| || |ps[0]| < fs[k].start)
    {
      assert InSomePiece(fs[k], ps);
      var i :| 0 <= i < |ps| && InPiece(fs[k], ps, i);
      OffsetBounds(ps, i);
      if i > 0 {
        OffsetBounds(ps[1..], i - 1);
      }
    }
    TailInPieces(ps, fs);
  }

  lemma {:induction false} TailInPieces(ps: seq<string>, fs: seq<Finding>)
    requires |ps| > 1 && AllInPieces(fs, ps)
    ensures AllInPieces(Local(fs, |ps[0]| + 1, |Join(ps)|), ps[1..])
  {
    if fs != [] {
      TailInPieces(ps, fs[1..]);
      var p, f := |ps[0]|, fs[0];
      if p + 1 <= f.start && f.end <= |Join(ps)| {
        assert InSomePiece(f, ps);
        var i :| 0 <= i < |ps| && InPiece(f, ps, i);
        assert i > 0;
        assert InPiece(Shift(f, -(p + 1)), ps[1..], i - 1);
        assert InSomePiece(Shift(f, -(p + 1)), ps[1..]);
      }
    }
  }

  lemma {:induction false} AllLocal(fs: seq<Finding>, n: int)
    requires AllInText(fs, n)
    ensures Local(fs, 0, n) == fs
  {
    if fs != [] {
      AllLocal(fs[1..], n);
      assert Shift(fs[0], 0) == fs[0];
    }
  }

  lemma RedactWithNewline(piece: string, fs: seq<Finding>)
    requires Sorted(DedupLe, fs) && AllInText(fs, |piece|)
    ensures RedactedText(piece + "\n", fs) == RedactedText(piece, fs) + "\n"
  {
    RedactedTextIsWeave(piece, fs);
    RedactedTextIsWeave(piece + "\n", fs);
    WeaveApart(piece, "\n", Applied(fs), [], 0);
    assert Applied(fs) + ShiftAll([], |piece|) == Applied(fs);
    assert Weave("\n", [], 0, Label) == "\n";
  }

  lemma TailPieces(ps: seq<string>, sorted: seq<Finding>)
    requires |ps| > 1
    ensures var gs := Local(sorted, |ps[0]| + 1, |Join(ps)|);
      && (forall i :: 0 < i < |ps| ==> OfPiece(ps, sorted, i) == OfPiece(ps[1..], gs, i - 1))
      && RedactedPieces(ps, sorted)[1..] == RedactedPieces(ps[1..], gs)
  {
    var p, n := |ps[0]|, |Join(ps)|;
    var gs := Local(sorted, p + 1, n);
    forall i | 0 < i < |ps|
      ensures OfPiece(ps, sorted, i) == OfPiece(ps[1..], gs, i - 1)
    {
      OffsetBounds(ps[1..], i - 1);
      LocalOfLocal(sorted, p + 1, n, Offset(ps[1..], i - 1), Offset(ps[1..], i - 1) + |ps[i]|);
    }
  }

  lemma FirstPieceApart(ps: seq<string>, sorted: seq<Finding>)
    requires |ps| > 1 && Sorted(DedupLe, sorted) && AllInPieces(sorted, ps)
    ensures AllInText(sorted, |Join(ps)|)
    ensures var fs, gs := Local(sorted, 0, |ps[0]|), Local(sorted, |ps[0]| + 1, |Join(ps)|);
      && Sorted(DedupLe, fs) && AllInText(fs, |ps[0]|)
      && Sorted(DedupLe, gs) && AllInPieces(gs, ps[1..]) && AllInText(gs, |Join(ps[1..])|)
      && RedactedText(Join(ps), sorted) == RedactedText(ps[0], fs) + "\n" + RedactedText(Join(ps[1..]), gs)
  {
    var p, n := |ps[0]|, |Join(ps)|;
    var head, tail := ps[0] + "\n", Join(ps[1..]);
    var fs, gs := Local(sorted, 0, p), Local(sorted, p + 1, n);
    assert Join(ps) == head + tail;
    SidesOfPieces(ps, sorted);
    SplitBySide(sorted, p, n);
    LocalBounds(sorted, 0, p);
    LocalBounds(sorted, p + 1, n);
    SortedApart(fs, gs, p + 1);
    RedactApart(head, tail, fs, gs, p);
    RedactWithNewline(ps[0], fs);
  }

  lemma OnlyPiece(ps: seq<string>, sorted: seq<Finding>)
    requires |ps| == 1 && AllInPieces(sorted, ps)
    ensures AllInText(sorted, |ps[0]|) && OfPiece(ps, sorted, 0) == sorted
  {
    forall k | 0 <= k < |sorted|
      ensures InText(sorted[k], |ps[0]|)
    {
      assert InSomePiece(sorted[k], ps);
    }
    AllLocal(sorted, |ps[0]|);
  }

  /** If every finding lies in one piece, redacting the joined text redacts each piece by itself. */
  lemma {:induction false} RedactActsOnEachPiece(ps: seq<string>, sorted: seq<Finding>)
    requires ps != [] && Sorted(DedupLe, sorted) && AllInPieces(sorted, ps)
    ensures RedactedText(Join(ps), sorted) == Join(RedactedPieces(ps, sorted))
  {
    if |ps| == 1 {
      OnlyPiece(ps, sorted);
    } else {
      FirstPieceApart(ps, sorted);
      TailPieces(ps, sorted);
      RedactActsOnEachPiece(ps[1..], Local(sorted, |ps[0]| + 1, |Join(ps)|));
    }
  }

  /** What is local to a piece is sorted and lies in the piece. */
  lemma {:induction false} OfPieceIsLocal(ps: seq<string>, sorted: seq<Finding>, i: nat)
    requires i < |ps| && Sorted(DedupLe, sorted) && AllInPieces(sorted, ps)
    ensures Sorted(DedupLe, OfPiece(ps, sorted, i)) && AllInText(OfPiece(ps, sorted, i), |ps[i]|)
  {
    if |ps| == 1 {
      OnlyPiece(ps, sorted);
    } else {
      FirstPieceApart(ps, sorted);
      TailPieces(ps, sorted);
      if i > 0 {
        OfPieceIsLocal(ps[1..], Local(sorted, |ps[0]| + 1, |Join(ps)|), i - 1);
      }
    }
  }
}
