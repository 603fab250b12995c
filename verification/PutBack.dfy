/** Putting extracted pieces back: exactly when the parts hold again what was extracted from them. */
module PutBack {
  import opened Pieces
  import opened Messages

  // ----- the lines of several pieces -----

  /** The lines that the pieces fall into, piece by piece. */
  function Lines(ps: seq<string>): seq<string> {
    if ps == [] then [] else Lines(ps[..|ps| - 1]) + Split(ps[|ps| - 1])
  }

  lemma {:induction false} SplitConcat(s: string, t: string)
    ensures Split(s + "\n" + t) == Split(s) + Split(t)
  {
    if s == "" {
      assert "" + "\n" + t == "\n" + t && ("\n" + t)[1..] == t;
    } else {
      assert (s + "\n" + t)[1..] == s[1..] + "\n" + t;
      SplitConcat(s[1..], t);
      HeadOfConcat(Split(s[1..]), Split(t));
      assert [""] + (Split(s[1..]) + Split(t)) == [""] + Split(s[1..]) + Split(t);
    }
  }

  lemma HeadOfConcat(r: seq<string>, t: seq<string>)
    requires r != []
    ensures (r + t)[0] == r[0] && (r + t)[1..] == r[1..] + t
    ensures forall x: string :: [x] + (r + t)[1..] == [x] + r[1..] + t
  {
  }

  lemma {:induction false} JoinSnoc(ps: seq<string>, p: string)
    requires ps != []
    ensures Join(ps + [p]) == Join(ps) + "\n" + p
  {
    if |ps| > 1 {
      JoinSnoc(ps[1..], p);
      assert (ps + [p])[1..] == ps[1..] + [p];
      assert ps[0] + "\n" + (Join(ps[1..]) + "\n" + p) == (ps[0] + "\n" + Join(ps[1..])) + "\n" + p;
    } else {
      assert (ps + [p])[1..] == [p];
    }
  }

  lemma {:induction false} SplitJoinIsLines(ps: seq<string>)
    requires ps != []
    ensures Split(Join(ps)) == Lines(ps)
  {
    var front, last := ps[..|ps| - 1], ps[|ps| - 1];
    assert ps == front + [last];
    if front == [] {
      assert [] + Split(last) == Split(last);
    } else {
      SplitJoinIsLines(front);
      JoinSnoc(front, last);
      SplitConcat(Join(front), last);
    }
  }

  predicate OnlyNewlines(s: string) {
    forall i :: 0 <= i < |s| ==> s[i] == '\n'
  }

  predicate AllBlank(ls: seq<string>) {
    forall i :: 0 <= i < |ls| ==> ls[i] == ""
  }

  /** A text falls into empty lines exactly if it is made of newlines. */
  lemma {:induction false} BlankLines(s: string)
    ensures AllBlank(Split(s)) <==> OnlyNewlines(s)
    ensures OnlyNewlines(s) ==> |Split(s)| == |s| + 1
  {
    if s != "" {
      BlankLines(s[1..]);
      var r := Split(s[1..]);
      if s[0] == '\n' {
        assert Split(s) == [""] + r;
        assert forall i :: 0 <= i < |r| ==> Split(s)[i + 1] == r[i];
        assert OnlyNewlines(s) <==> OnlyNewlines(s[1..]) by {
          assert forall i :: 1 <= i < |s| ==> s[i] == s[1..][i - 1];
        }
      } else {
        assert Split(s)[0] != "";
      }
    }
  }

  // ----- parts, slots and lines -----

  /** The first empty tool result, or the number of parts. */
  function FirstEmpty(parts: seq<Part>): (e: nat)
    ensures e <= |parts| && (e < |parts| ==> IsEmptyToolResult(parts[e]))
    ensures forall k :: 0 <= k < e ==> !IsEmptyToolResult(parts[k])
  {
    if parts == [] || IsEmptyToolResult(parts[0]) then 0
    else
      var e := FirstEmpty(parts[1..]);
      assert forall k :: 1 <= k < |parts| ==> parts[k] == parts[1..][k - 1];
      e + 1
  }

  /** How many lines the pieces take when they consist of newlines. */
  function LineCount(ps: seq<string>): nat {
    if ps == [] then 0 else |Join(ps)| + 1
  }

  /** Behind the first empty tool result there is nothing but newlines, and the slots that they are put into are empty. */
  ghost predicate BlankFrom(parts: seq<Part>) {
    && (forall i :: 0 <= i < |PiecesOf(parts)| ==> OnlyNewlines(PiecesOf(parts)[i]))
    && (forall k :: 0 <= k < |parts| && IsSlot(parts[k]) && SlotCount(parts[..k]) < LineCount(PiecesOf(parts)) ==>
          SlotText(parts[k]) == "")
  }

  /** Told from the parts alone: no newline up to the first empty tool result, and blanks from there on. */
  ghost predicate ComesBack(parts: seq<Part>) {
    var e := FirstEmpty(parts);
    && (forall k :: 0 <= k < e && IsSlot(parts[k]) ==> NewlineFree(SlotText(parts[k])))
    && BlankFrom(parts[e..])
  }

  /** The slots hold the texts that would be put into them. */
  ghost predicate Agree(parts: seq<Part>, texts: seq<string>) {
    forall k :: 0 <= k < |parts| && IsSlot(parts[k]) && SlotCount(parts[..k]) < |texts| ==>
      SlotText(parts[k]) == texts[SlotCount(parts[..k])]
  }

  lemma RefillUnchanged(parts: seq<Part>, texts: seq<string>)
    ensures Refill(parts, texts) == parts <==> Agree(parts, texts)
  {
    if Refill(parts, texts) == parts {
      forall k | 0 <= k < |parts| && IsSlot(parts[k]) && SlotCount(parts[..k]) < |texts|
        ensures SlotText(parts[k]) == texts[SlotCount(parts[..k])]
      {
        assert Refilled(parts, texts, k) == parts[k];
      }
    }
    if Agree(parts, texts) {
      forall k | 0 <= k < |parts|
        ensures Refilled(parts, texts, k) == parts[k]
      {
      }
    }
  }

  // ----- up to the first empty tool result -----

  lemma {:induction false} CountBehindHead(parts: seq<Part>, k: nat)
    requires 0 < k <= |parts|
    ensures SlotCount(parts[..k]) == (if IsSlot(parts[0]) then 1 else 0) + SlotCount(parts[1..][..k - 1])
  {
    if k > 1 {
      CountBehindHead(parts, k - 1);
      assert parts[..k][..k - 1] == parts[..k - 1];
      assert parts[1..][..k - 1][..k - 2] == parts[1..][..k - 2];
    } else {
      assert parts[..1][..0] == [];
    }
  }

  lemma {:induction false} PiecesBehindHead(parts: seq<Part>)
    requires parts != []
    ensures PiecesOf(parts) ==
      (if IsSlot(parts[0]) && !IsEmptyToolResult(parts[0]) then [SlotText(parts[0])] else []) + PiecesOf(parts[1..])
  {
    if |parts| > 1 {
      var front := parts[..|parts| - 1];
      PiecesBehindHead(front);
      assert front[1..] == parts[1..][..|parts| - 2];
    }
  }

  lemma AgreeBehindOther(parts: seq<Part>, texts: seq<string>)
    requires parts != [] && !IsSlot(parts[0])
    ensures Agree(parts, texts) <==> Agree(parts[1..], texts)
  {
    forall k | 1 <= k < |parts|
      ensures SlotCount(parts[..k]) == SlotCount(parts[1..][..k - 1]) && parts[k] == parts[1..][k - 1]
    {
      CountBehindHead(parts, k);
    }
    if Agree(parts, texts) {
      forall k | 0 <= k < |parts[1..]| && IsSlot(parts[1..][k]) && SlotCount(parts[1..][..k]) < |texts|
        ensures SlotText(parts[1..][k]) == texts[SlotCount(parts[1..][..k])]
      {
        assert parts[k + 1] == parts[1..][k];
      }
    }
  }

  lemma AgreeBehindSlot(parts: seq<Part>, text: string, texts: seq<string>)
    requires parts != [] && IsSlot(parts[0])
    ensures Agree(parts, [text] + texts) <==> SlotText(parts[0]) == text && Agree(parts[1..], texts)
  {
    forall k | 1 <= k < |parts|
      ensures SlotCount(parts[..k]) == 1 + SlotCount(parts[1..][..k - 1]) && parts[k] == parts[1..][k - 1]
    {
      CountBehindHead(parts, k);
    }
    assert SlotCount(parts[..0]) == 0;
    if Agree(parts, [text] + texts) {
      forall k | 0 <= k < |parts[1..]| && IsSlot(parts[1..][k]) && SlotCount(parts[1..][..k]) < |texts|
        ensures SlotText(parts[1..][k]) == texts[SlotCount(parts[1..][..k])]
      {
        assert parts[k + 1] == parts[1..][k];
      }
    }
  }

  lemma {:induction false} FreeLines(s: string)
    ensures Split(s)[0] == s <==> NewlineFree(s)
    ensures NewlineFree(s) ==> Split(s) == [s]
  {
    SplitIsNewlineFree(s);
    if NewlineFree(s) {
      SplitFree(s);
    }
  }

  lemma LinesSnoc(ps: seq<string>, p: string)
    ensures Lines(ps + [p]) == Lines(ps) + Split(p)
  {
    assert (ps + [p])[..|ps|] == ps;
  }

  lemma Associate(a: seq<string>, b: seq<string>, c: seq<string>)
    ensures (a + b) + c == a + (b + c)
  {
  }

  lemma {:induction false} LinesCons(p: string, ps: seq<string>)
    ensures Lines([p] + ps) == Split(p) + Lines(ps)
  {
    if ps == [] {
      assert [p] + ps == [] + [p];
      LinesSnoc([], p);
      assert [] + Split(p) == Split(p) + [];
    } else {
      var front, last := ps[..|ps| - 1], ps[|ps| - 1];
      LinesCons(p, front);
      assert ps == front + [last];
      Associate([p], front, [last]);
      LinesSnoc([p] + front, last);
      LinesSnoc(front, last);
      Associate(Split(p), Lines(front), Split(last));
    }
  }

  lemma ComesBackHead(parts: seq<Part>)
    requires parts != [] && !IsEmptyToolResult(parts[0])
    ensures ComesBack(parts) <==> (IsSlot(parts[0]) ==> NewlineFree(SlotText(parts[0]))) && ComesBack(parts[1..])
  {
    var e := FirstEmpty(parts[1..]);
    assert FirstEmpty(parts) == e + 1 && parts[e + 1..] == parts[1..][e..];
    assert forall k :: 1 <= k < |parts| ==> parts[k] == parts[1..][k - 1];
    assert forall k :: 0 <= k < e ==> parts[1..][k] == parts[k + 1];
  }

  /** A first slot agrees with its lines if it has only one. */
  lemma AgreeSlotStep(parts: seq<Part>)
    requires parts != [] && IsSlot(parts[0]) && !IsEmptyToolResult(parts[0])
    ensures Agree(parts, Lines(PiecesOf(parts))) <==>
      NewlineFree(SlotText(parts[0])) && Agree(parts[1..], Lines(PiecesOf(parts[1..])))
  {
    var s, lines := SlotText(parts[0]), Lines(PiecesOf(parts[1..]));
    PiecesBehindHead(parts);
    LinesCons(s, PiecesOf(parts[1..]));
    FreeLines(s);
    HeadOfConcat(Split(s), lines);
    assert Split(s) + lines == [Split(s)[0]] + (Split(s)[1..] + lines);
    AgreeBehindSlot(parts, Split(s)[0], Split(s)[1..] + lines);
    if NewlineFree(s) {
      assert Split(s)[1..] + lines == lines;
    }
  }

  lemma AgreeOtherStep(parts: seq<Part>)
    requires parts != [] && !IsSlot(parts[0])
    ensures Agree(parts, Lines(PiecesOf(parts))) <==> Agree(parts[1..], Lines(PiecesOf(parts[1..])))
  {
    PiecesBehindHead(parts);
    assert [] + PiecesOf(parts[1..]) == PiecesOf(parts[1..]);
    AgreeBehindOther(parts, Lines(PiecesOf(parts)));
  }

  lemma {:induction false} AgreeExactly(parts: seq<Part>)
    ensures Agree(parts, Lines(PiecesOf(parts))) <==> ComesBack(parts)
  {
    if parts == [] {
    } else if IsEmptyToolResult(parts[0]) {
      assert parts[0..] == parts;
      BlankExactly(parts);
    } else {
      AgreeExactly(parts[1..]);
      ComesBackHead(parts);
      if IsSlot(parts[0]) {
        AgreeSlotStep(parts);
      } else {
        AgreeOtherStep(parts);
      }
    }
  }

  // ----- from the first empty tool result on -----

  lemma {:induction false} BlankPiecesLines(ps: seq<string>)
    requires forall i :: 0 <= i < |ps| ==> OnlyNewlines(ps[i])
    ensures AllBlank(Lines(ps)) && |Lines(ps)| == LineCount(ps)
  {
    if ps != [] {
      var front, last := ps[..|ps| - 1], ps[|ps| - 1];
      BlankPiecesLines(front);
      BlankLines(last);
      assert ps == front + [last];
      if front != [] {
        JoinSnoc(front, last);
      }
    }
  }

  /** From an empty tool result on, slots and lines agree only if all is blank. */
  lemma BlankExactly(parts: seq<Part>)
    requires parts != [] && IsEmptyToolResult(parts[0])
    ensures Agree(parts, Lines(PiecesOf(parts))) <==> BlankFrom(parts)
  {
    var ps := PiecesOf(parts);
    if Agree(parts, Lines(ps)) {
      AgreeingSlotsAreBlank(parts, |parts|);
      forall i | 0 <= i < |ps|
        ensures OnlyNewlines(ps[i])
      {
        var k := PieceOrigin(parts, i);
      }
    }
    if forall i :: 0 <= i < |ps| ==> OnlyNewlines(ps[i]) {
      BlankPiecesLines(ps);
    }
  }

  lemma {:induction false} PieceOrigin(parts: seq<Part>, i: nat) returns (k: nat)
    requires i < |PiecesOf(parts)|
    ensures k < |parts| && IsSlot(parts[k]) && SlotText(parts[k]) == PiecesOf(parts)[i]
  {
    var front := parts[..|parts| - 1];
    if i < |PiecesOf(front)| {
      k := PieceOrigin(front, i);
      assert front[k] == parts[k];
    } else {
      k := |parts| - 1;
    }
  }

  /** The lines of a slot's piece stand behind those of the pieces before it. */
  lemma {:induction false} LinesOfSlot(parts: seq<Part>, k: nat)
    requires k < |parts| && IsSlot(parts[k]) && !IsEmptyToolResult(parts[k])
    ensures Lines(PiecesOf(parts[..k])) + Split(SlotText(parts[k])) <= Lines(PiecesOf(parts))
  {
    var front := parts[..|parts| - 1];
    if k < |front| {
      LinesOfSlot(front, k);
      assert front[..k] == parts[..k] && front[k] == parts[k];
      LinesGrow(parts);
    } else {
      LinesSnoc(PiecesOf(front), SlotText(parts[k]));
    }
  }

  lemma PiecesSnoc(parts: seq<Part>)
    requires parts != []
    ensures var p, front := parts[|parts| - 1], parts[..|parts| - 1];
      && (IsSlot(p) && !IsEmptyToolResult(p) ==> PiecesOf(parts) == PiecesOf(front) + [SlotText(p)])
      && (!IsSlot(p) || IsEmptyToolResult(p) ==> PiecesOf(parts) == PiecesOf(front))
  {
    assert PiecesOf(parts[..|parts| - 1]) + [] == PiecesOf(parts[..|parts| - 1]);
  }

  lemma LinesGrow(parts: seq<Part>)
    requires parts != []
    ensures Lines(PiecesOf(parts[..|parts| - 1])) <= Lines(PiecesOf(parts))
  {
    PiecesSnoc(parts);
    LinesSnoc(PiecesOf(parts[..|parts| - 1]), SlotText(parts[|parts| - 1]));
  }

  /** Slots that are all empty, an empty tool result first, have fewer lines than slots. */
  lemma {:induction false} BlankSlotsLag(parts: seq<Part>, k: nat)
    requires 0 < k <= |parts| && IsEmptyToolResult(parts[0])
    requires forall i :: 0 <= i < k && IsSlot(parts[i]) ==> SlotText(parts[i]) == ""
    ensures |Lines(PiecesOf(parts[..k]))| < SlotCount(parts[..k])
  {
    PiecesSnoc(parts[..k]);
    assert parts[..k][..k - 1] == parts[..k - 1];
    if k == 1 {
      assert parts[..0] == [];
    } else {
      BlankSlotsLag(parts, k - 1);
      LinesSnoc(PiecesOf(parts[..k - 1]), "");
      assert Split("") == [""];
    }
  }

  /** The lines put into slots that hold only newlines are empty. */
  lemma LineOfBlankSlot(parts: seq<Part>, k: nat, m: nat)
    requires k <= |parts| && m < SlotCount(parts[..k]) && m < |Lines(PiecesOf(parts))|
    requires Agree(parts, Lines(PiecesOf(parts)))
    requires forall i :: 0 <= i < k && IsSlot(parts[i]) ==> OnlyNewlines(SlotText(parts[i]))
    ensures Lines(PiecesOf(parts))[m] == ""
  {
    var i := SlotAt(parts[..k], m);
    assert parts[..k][..i] == parts[..i] && parts[..k][i] == parts[i];
    LinesAreFree(PiecesOf(parts), m);
    var l := Lines(PiecesOf(parts))[m];
    assert SlotText(parts[i]) == l;
    FreeNewlinesAreNone(l);
  }

  lemma {:induction false} LinesAreFree(ps: seq<string>, m: nat)
    requires m < |Lines(ps)|
    ensures NewlineFree(Lines(ps)[m])
  {
    var front, last := ps[..|ps| - 1], ps[|ps| - 1];
    if m < |Lines(front)| {
      LinesAreFree(front, m);
    } else {
      SplitIsNewlineFree(last);
    }
  }

  /** If all slots before `k` are blank, all their lines are put into slots before `k`. */
  lemma LinesStayBefore(parts: seq<Part>, k: nat)
    requires 0 < k < |parts| && IsEmptyToolResult(parts[0]) && IsSlot(parts[k]) && !IsEmptyToolResult(parts[k])
    requires Agree(parts, Lines(PiecesOf(parts)))
    requires forall i :: 0 <= i < k && IsSlot(parts[i]) ==> OnlyNewlines(SlotText(parts[i]))
    ensures |Lines(PiecesOf(parts[..k])) + Split(SlotText(parts[k]))| <= SlotCount(parts[..k])
         || |Lines(PiecesOf(parts))| <= SlotCount(parts[..k])
  {
    var texts, s := Lines(PiecesOf(parts)), SlotCount(parts[..k]);
    if s < |texts| {
      forall i | 0 <= i < k && IsSlot(parts[i])
        ensures SlotText(parts[i]) == ""
      {
        SlotsBefore(parts, i, k);
        LineOfBlankSlot(parts, k, SlotCount(parts[..i]));
      }
      BlankSlotsLag(parts, k);
      LinesAreFree(PiecesOf(parts), s);
      FreeLines(SlotText(parts[k]));
    }
  }

  lemma {:induction false} SlotsBefore(parts: seq<Part>, i: nat, k: nat)
    requires i < k <= |parts| && IsSlot(parts[i])
    ensures SlotCount(parts[..i]) < SlotCount(parts[..k])
  {
    SlotCountGrows(parts[..k], i);
    assert parts[..k][..i] == parts[..i];
  }

  /** Slots that agree with their lines, an empty tool result first, hold nothing but newlines. */
  lemma {:induction false} AgreeingSlotsAreBlank(parts: seq<Part>, k: nat)
    requires parts != [] && k <= |parts| && IsEmptyToolResult(parts[0]) && Agree(parts, Lines(PiecesOf(parts)))
    ensures forall i :: 0 <= i < k && IsSlot(parts[i]) ==> OnlyNewlines(SlotText(parts[i]))
  {
    if k > 1 {
      AgreeingSlotsAreBlank(parts, k - 1);
      if IsSlot(parts[k - 1]) && !IsEmptyToolResult(parts[k - 1]) {
        NextSlotIsBlank(parts, k - 1);
      }
    }
  }

  lemma MiddleOfPrefix(a: seq<string>, b: seq<string>, texts: seq<string>, m: nat)
    requires a + b <= texts && m < |b|
    ensures |a| + m < |texts| && texts[|a| + m] == b[m]
  {
    assert (a + b)[|a| + m] == b[m];
  }

  lemma NextSlotIsBlank(parts: seq<Part>, k: nat)
    requires 0 < k < |parts| && IsEmptyToolResult(parts[0]) && IsSlot(parts[k]) && !IsEmptyToolResult(parts[k])
    requires Agree(parts, Lines(PiecesOf(parts)))
    requires forall i :: 0 <= i < k && IsSlot(parts[i]) ==> OnlyNewlines(SlotText(parts[i]))
    ensures OnlyNewlines(SlotText(parts[k]))
  {
    LinesStayBefore(parts, k);
    LinesOfSlot(parts, k);
    forall m | 0 <= m < |Split(SlotText(parts[k]))|
      ensures Split(SlotText(parts[k]))[m] == ""
    {
      var before := Lines(PiecesOf(parts[..k]));
      MiddleOfPrefix(before, Split(SlotText(parts[k])), Lines(PiecesOf(parts)), m);
      LineOfBlankSlot(parts, k, |before| + m);
    }
    BlankLines(SlotText(parts[k]));
  }

  // ----- all parts -----

  /** Putting the extracted text back unredacted changes no decoded part, exactly if no slot up to the first
      empty tool result has a newline in it, the pieces behind it are newlines, and the slots these are put
      into are empty. */
  lemma {:induction false} PartsComeBackExactly(parts: seq<Part>)
    ensures Refill(parts, Split(Join(PiecesOf(parts)))) == parts <==> ComesBack(parts)
  {
    var ps := PiecesOf(parts);
    RefillUnchanged(parts, Split(Join(ps)));
    AgreeExactly(parts);
    if ps == [] {
      NothingToPutBack(parts);
    } else {
      SplitJoinIsLines(ps);
    }
  }

  lemma NothingToPutBack(parts: seq<Part>)
    requires PiecesOf(parts) == []
    ensures Agree(parts, [""]) && Agree(parts, Lines(PiecesOf(parts)))
  {
    forall k | 0 <= k < |parts| && IsSlot(parts[k])
      ensures SlotText(parts[k]) == ""
    {
      if !IsEmptyToolResult(parts[k]) {
        SlotIsPiece(parts, k);
      }
    }
  }

  lemma {:induction false} SlotIsPiece(parts: seq<Part>, k: nat)
    requires k < |parts| && IsSlot(parts[k]) && !IsEmptyToolResult(parts[k])
    ensures SlotText(parts[k]) in PiecesOf(parts)
  {
    var front := parts[..|parts| - 1];
    if k < |front| {
      SlotIsPiece(front, k);
      assert front[k] == parts[k];
    }
  }

  // ----- the two ways to fail, each by itself -----

  /** Without empty tool results: exactly if no piece has a newline in it. */
  lemma {:induction false} PutBackUnchangedExactly(parts: seq<Part>)
    requires NoEmptyToolResult(parts)
    ensures Refill(parts, Split(Join(PiecesOf(parts)))) == parts <==> AllNewlineFree(PiecesOf(parts))
  {
    PartsComeBackExactly(parts);
    assert parts[|parts|..] == [];
    if AllNewlineFree(PiecesOf(parts)) {
      forall k | 0 <= k < |parts| && IsSlot(parts[k])
        ensures NewlineFree(SlotText(parts[k]))
      {
        SlotIsPiece(parts, k);
      }
    }
    if ComesBack(parts) {
      forall i | 0 <= i < |PiecesOf(parts)|
        ensures NewlineFree(PiecesOf(parts)[i])
      {
        var k := PieceOrigin(parts, i);
      }
    }
  }

  /** Behind an empty tool result every slot is empty. */
  ghost predicate NothingBehindEmpty(parts: seq<Part>) {
    forall j, k :: 0 <= j < k < |parts| && IsEmptyToolResult(parts[j]) && IsSlot(parts[k]) ==> SlotText(parts[k]) == ""
  }

  lemma SlotIsPieceBehind(parts: seq<Part>, e: nat, k: nat)
    requires e <= k < |parts| && IsSlot(parts[k]) && !IsEmptyToolResult(parts[k])
    ensures SlotText(parts[k]) in PiecesOf(parts[e..])
  {
    assert parts[e..][k - e] == parts[k];
    SlotIsPiece(parts[e..], k - e);
  }

  lemma ComingBackLeavesNothing(parts: seq<Part>, j: nat, k: nat)
    requires AllNewlineFree(PiecesOf(parts)) && BlankFrom(parts[FirstEmpty(parts)..])
    requires j < k < |parts| && IsEmptyToolResult(parts[j]) && IsSlot(parts[k])
    ensures SlotText(parts[k]) == ""
  {
    if !IsEmptyToolResult(parts[k]) {
      SlotIsPiece(parts, k);
      SlotIsPieceBehind(parts, FirstEmpty(parts), k);
      FreeNewlinesAreNone(SlotText(parts[k]));
    }
  }

  lemma EmptySlotsAreBlank(parts: seq<Part>)
    requires forall k :: 0 <= k < |parts| && IsSlot(parts[k]) ==> SlotText(parts[k]) == ""
    ensures BlankFrom(parts)
  {
    forall i | 0 <= i < |PiecesOf(parts)|
      ensures OnlyNewlines(PiecesOf(parts)[i])
    {
      var k := PieceOrigin(parts, i);
    }
  }

  lemma NothingBehindComesBack(parts: seq<Part>)
    requires AllNewlineFree(PiecesOf(parts)) && NothingBehindEmpty(parts)
    ensures ComesBack(parts)
  {
    var e := FirstEmpty(parts);
    forall k | 0 <= k < e && IsSlot(parts[k])
      ensures NewlineFree(SlotText(parts[k]))
    {
      SlotIsPiece(parts, k);
    }
    forall k | 0 <= k < |parts[e..]| && IsSlot(parts[e..][k])
      ensures SlotText(parts[e..][k]) == ""
    {
      assert parts[e..][k] == parts[e + k];
    }
    EmptySlotsAreBlank(parts[e..]);
  }

  /** For newline-free pieces: exactly if nothing stands behind an empty tool result. */
  lemma {:induction false} EmptyToolResultsExactly(parts: seq<Part>)
    requires AllNewlineFree(PiecesOf(parts))
    ensures Refill(parts, Split(Join(PiecesOf(parts)))) == parts <==> NothingBehindEmpty(parts)
  {
    PartsComeBackExactly(parts);
    if NothingBehindEmpty(parts) {
      NothingBehindComesBack(parts);
    } else if ComesBack(parts) {
      forall j, k | 0 <= j < k < |parts| && IsEmptyToolResult(parts[j]) && IsSlot(parts[k])
        ensures SlotText(parts[k]) == ""
      {
        ComingBackLeavesNothing(parts, j, k);
      }
    }
  }

  lemma FreeNewlinesAreNone(s: string)
    requires OnlyNewlines(s)
    ensures NewlineFree(s) ==> s == ""
  {
    if s != "" {
      assert s[0] in s;
    }
  }
}
