/** Forwarding a request: the last message of the user is extracted, redacted and put back. */
module Forwarding {
  import opened Wrappers
  import opened Sorting
  import opened Findings
  import opened Redactor
  import opened RedactionLaws
  import opened Pieces
  import opened Messages
  import opened PutBack

  // ----- the step of the proxy -----

  /** `redact` gives the redacted text, or nothing if the scan fails. Only a text that changed is put back. */
  function Forwarded(messages: seq<Message>, index: nat, redact: string -> Option<string>): seq<Message>
    requires index < |messages|
  {
    match ExtractFrom(messages, index)
    case Err(_) => messages
    case Ok(msg) =>
      var redacted := redact(msg.text);
      if redacted.None? || redacted.value == msg.text then messages
      else messages[index := Replacement(msg, redacted.value)]
  }

  method Forward(messages: seq<Message>, redact: string -> Option<string>) returns (r: seq<Message>)
    ensures (forall i :: 0 <= i < |messages| ==> messages[i].role != "user") ==> r == messages
    ensures forall i :: IsLastUser(messages, i) ==> r == Forwarded(messages, i, redact)
    ensures forall i: nat :: IsLastUser(messages, i) && messages[i].content.Unsupported? ==> r == messages
    ensures forall i: nat :: IsLastUser(messages, i) && ExtractFrom(messages, i).Ok? ==>
      var msg := ExtractFrom(messages, i).value;
      var redacted := redact(msg.text);
      && (redacted.None? ==> r == messages)
      && (redacted.Some? && redacted.value == msg.text ==> r == messages)
      && (redacted.Some? && redacted.value != msg.text ==> r == messages[i := Replacement(msg, redacted.value)])
  {
    var extracted := ExtractLastUserMessage(messages);
    if extracted.Err? {
      return messages;
    }
    var msg := extracted.value;
    var redactedText := redact(msg.text);
    if redactedText.None? {
      return messages;
    }
    ghost var i := LastUser(messages);
    if redactedText.value != msg.text {
      r := ReplaceLastUserMessage(messages, msg, redactedText.value);
    } else {
      r := messages;
    }
  }

  lemma LastUser(messages: seq<Message>) returns (i: nat)
    requires exists j :: 0 <= j < |messages| && messages[j].role == "user"
    ensures IsLastUser(messages, i)
  {
    i := |messages| - 1;
    while messages[i].role != "user"
      invariant i < |messages| && forall j :: i < j < |messages| ==> messages[j].role != "user"
      invariant exists j :: 0 <= j <= i && messages[j].role == "user"
      decreases i
    {
      i := i - 1;
    }
  }

  // ----- what should become of the parts -----

  predicate IsPiece(p: Part) {
    IsSlot(p) && !IsEmptyToolResult(p)
  }

  /** The place of part `k` among the pieces. */
  function PieceIndex(parts: seq<Part>, k: nat): nat
    requires k <= |parts|
  {
    |PiecesOf(parts[..k])|
  }

  lemma {:induction false} PieceAt(parts: seq<Part>, k: nat)
    requires k < |parts| && IsPiece(parts[k])
    ensures PieceIndex(parts, k) < |PiecesOf(parts)| && PiecesOf(parts)[PieceIndex(parts, k)] == SlotText(parts[k])
  {
    var front := parts[..|parts| - 1];
    PiecesSnoc(parts);
    if k < |front| {
      PieceAt(front, k);
      assert front[..k] == parts[..k] && front[k] == parts[k];
    }
  }

  /** A part that holds a text, with that text redacted by its own findings; any other part as it is. */
  function RedactedPart(parts: seq<Part>, sorted: seq<Finding>, k: nat): Part
    requires k < |parts|
  {
    if IsPiece(parts[k]) then
      PieceAt(parts, k);
      Fill(parts[k], RedactedPieces(PiecesOf(parts), sorted)[PieceIndex(parts, k)])
    else parts[k]
  }

  function RedactedParts(parts: seq<Part>, sorted: seq<Finding>): (r: seq<Part>)
    ensures |r| == |parts| && forall k :: 0 <= k < |r| ==> r[k] == RedactedPart(parts, sorted, k)
  {
    seq(|parts|, k requires 0 <= k < |parts| => RedactedPart(parts, sorted, k))
  }

  /** A redacted text is empty only if it was. */
  lemma RedactedIsNotEmpty(text: string, sorted: seq<Finding>)
    requires text != "" && Sorted(DedupLe, sorted) && AllInText(sorted, |text|)
    ensures RedactedText(text, sorted) != ""
  {
    RedactedTextIsWeave(text, sorted);
    var applied := Applied(sorted);
    if applied == [] {
      assert Weave(text, applied, 0, Label) == text;
    } else {
      assert |Label(applied[0])| > 0;
    }
  }

  lemma {:induction false} WeaveNewlineFree(text: string, fs: seq<Finding>, prev: int)
    requires NewlineFree(text) && Sliceable(fs, prev, |text|)
    requires forall i :: 0 <= i < |fs| ==> NewlineFree(fs[i].tag)
    ensures NewlineFree(Weave(text, fs, prev, Label))
  {
    if fs != [] {
      WeaveNewlineFree(text, fs[1..], fs[0].end);
      assert NewlineFree(Placeholder(fs[0].tag));
    }
  }

  lemma {:induction false} LocalTags(fs: seq<Finding>, lo: int, hi: int)
    requires forall i :: 0 <= i < |fs| ==> NewlineFree(fs[i].tag)
    ensures forall i :: 0 <= i < |Local(fs, lo, hi)| ==> NewlineFree(Local(fs, lo, hi)[i].tag)
  {
    if fs != [] {
      LocalTags(fs[1..], lo, hi);
    }
  }

  lemma RedactedPieceIsNewlineFree(ps: seq<string>, sorted: seq<Finding>, i: nat)
    requires Sorted(DedupLe, sorted) && AllInPieces(sorted, ps) && i < |ps| && NewlineFree(ps[i])
    requires forall k :: 0 <= k < |sorted| ==> NewlineFree(sorted[k].tag)
    ensures NewlineFree(RedactedPieces(ps, sorted)[i])
  {
    var local := OfPiece(ps, sorted, i);
    OfPieceIsLocal(ps, sorted, i);
    RedactedTextIsWeave(ps[i], local);
    LocalTags(sorted, Offset(ps, i), Offset(ps, i) + |ps[i]|);
    forall k | 0 <= k < |Applied(local)|
      ensures NewlineFree(Applied(local)[k].tag)
    {
      RedactStaysInRange(ps[i], local);
      assert Applied(local)[k] in local;
    }
    WeaveNewlineFree(ps[i], Applied(local), 0);
  }

  lemma InNoPiece(f: Finding)
    ensures !InSomePiece(f, [])
  {
  }

  lemma NothingToRedact(sorted: seq<Finding>)
    requires AllInPieces(sorted, [])
    ensures sorted == [] && RedactedText("", sorted) == ""
  {
    if sorted != [] {
      InNoPiece(sorted[0]);
    }
    assert RedactedText("", []) == ""[0..];
  }

  lemma RedactedSlotText(parts: seq<Part>, sorted: seq<Finding>, k: nat)
    requires k < |parts| && IsPiece(parts[k])
    ensures PieceIndex(parts, k) < |PiecesOf(parts)|
    ensures SlotText(RedactedPart(parts, sorted, k)) == RedactedPieces(PiecesOf(parts), sorted)[PieceIndex(parts, k)]
  {
    PieceAt(parts, k);
  }

  lemma RedactedPieceIsNotEmpty(ps: seq<string>, sorted: seq<Finding>, i: nat)
    requires Sorted(DedupLe, sorted) && AllInPieces(sorted, ps) && i < |ps| && ps[i] != ""
    ensures RedactedPieces(ps, sorted)[i] != ""
  {
    OfPieceIsLocal(ps, sorted, i);
    RedactedIsNotEmpty(ps[i], OfPiece(ps, sorted, i));
  }

  lemma FilledIsPiece(p: Part, t: string)
    requires IsPiece(p) && (SlotText(p) != "" ==> t != "")
    ensures IsPiece(Fill(p, t))
  {
  }

  /** Redaction leaves no text empty, so what was a piece stays one. */
  lemma StaysAPiece(parts: seq<Part>, sorted: seq<Finding>, k: nat)
    requires Sorted(DedupLe, sorted) && AllInPieces(sorted, PiecesOf(parts)) && k < |parts|
    ensures IsPiece(RedactedPart(parts, sorted, k)) <==> IsPiece(parts[k])
    ensures IsSlot(RedactedPart(parts, sorted, k)) <==> IsSlot(parts[k])
  {
    if IsPiece(parts[k]) {
      var ps, i := PiecesOf(parts), PieceIndex(parts, k);
      PieceAt(parts, k);
      if ps[i] != "" {
        RedactedPieceIsNotEmpty(ps, sorted, i);
      }
      FilledIsPiece(parts[k], RedactedPieces(ps, sorted)[i]);
    }
  }

  lemma {:induction false} PiecesOfRedactedFront(parts: seq<Part>, sorted: seq<Finding>, n: nat)
    requires Sorted(DedupLe, sorted) && AllInPieces(sorted, PiecesOf(parts)) && n <= |parts|
    ensures PieceIndex(parts, n) <= |PiecesOf(parts)|
    ensures PiecesOf(RedactedParts(parts, sorted)[..n]) == RedactedPieces(PiecesOf(parts), sorted)[..PieceIndex(parts, n)]
  {
    if n > 0 {
      PiecesOfRedactedFront(parts, sorted, n - 1);
      StaysAPiece(parts, sorted, n - 1);
      if IsPiece(parts[n - 1]) {
        RedactedSlotText(parts, sorted, n - 1);
      }
      NextPiece(parts, RedactedParts(parts, sorted), RedactedPieces(PiecesOf(parts), sorted), n - 1);
    }
  }

  lemma NextPiece(parts: seq<Part>, parts': seq<Part>, redacted: seq<string>, n: nat)
    requires n < |parts| == |parts'| && (IsPiece(parts'[n]) <==> IsPiece(parts[n]))
    requires PieceIndex(parts, n) <= |redacted| && PiecesOf(parts'[..n]) == redacted[..PieceIndex(parts, n)]
    requires IsPiece(parts[n]) ==> PieceIndex(parts, n) < |redacted| && SlotText(parts'[n]) == redacted[PieceIndex(parts, n)]
    ensures PieceIndex(parts, n + 1) <= |redacted| && PiecesOf(parts'[..n + 1]) == redacted[..PieceIndex(parts, n + 1)]
  {
    PiecesOfFront(parts, n);
    PiecesOfFront(parts', n);
  }

  lemma PiecesOfFront(parts: seq<Part>, n: nat)
    requires n < |parts|
    ensures PiecesOf(parts[..n + 1]) == PiecesOf(parts[..n]) + if IsPiece(parts[n]) then [SlotText(parts[n])] else []
  {
    PiecesSnoc(parts[..n + 1]);
    assert parts[..n + 1][..n] == parts[..n];
  }

  /** The redacted parts hold the redacted pieces. */
  lemma PiecesOfRedacted(parts: seq<Part>, sorted: seq<Finding>)
    requires Sorted(DedupLe, sorted) && AllInPieces(sorted, PiecesOf(parts))
    ensures PiecesOf(RedactedParts(parts, sorted)) == RedactedPieces(PiecesOf(parts), sorted)
    ensures Join(PiecesOf(RedactedParts(parts, sorted))) == RedactedText(Join(PiecesOf(parts)), sorted)
  {
    var ps, parts' := PiecesOf(parts), RedactedParts(parts, sorted);
    PiecesOfRedactedFront(parts, sorted, |parts|);
    assert parts[..|parts|] == parts && parts'[..|parts|] == parts';
    if ps == [] {
      NothingToRedact(sorted);
    } else {
      RedactActsOnEachPiece(ps, sorted);
    }
  }

  lemma {:induction false} SameSlotCount(parts: seq<Part>, parts': seq<Part>, k: nat)
    requires |parts'| == |parts| && k <= |parts|
    requires forall i :: 0 <= i < |parts| ==> (IsSlot(parts'[i]) <==> IsSlot(parts[i]))
    ensures SlotCount(parts'[..k]) == SlotCount(parts[..k])
  {
    if k > 0 {
      SameSlotCount(parts, parts', k - 1);
      assert parts[..k][..k - 1] == parts[..k - 1] && parts'[..k][..k - 1] == parts'[..k - 1];
    }
  }

  // ----- exactly when it does -----

  lemma HeadOfConcat(a: string, b: string, c: string)
    requires b != ""
    ensures (a + b + c)[|a|] == b[0]
  {
  }

  /** A redacted text of newlines has no placeholder in it. */
  lemma NewlinesAreUnredacted(text: string, sorted: seq<Finding>)
    requires Sorted(DedupLe, sorted) && AllInText(sorted, |text|)
    ensures OnlyNewlines(RedactedText(text, sorted)) ==> RedactedText(text, sorted) == text
  {
    RedactedTextIsWeave(text, sorted);
    var applied := Applied(sorted);
    if applied == [] {
      assert Weave(text, applied, 0, Label) == text;
    } else {
      assert Label(applied[0])[0] == '[';
      HeadOfConcat(text[0..applied[0].start], Label(applied[0]), Weave(text, applied[1..], applied[0].end, Label));
    }
  }

  lemma {:induction false} PiecesLineUp(parts: seq<Part>, k: nat)
    requires k <= |parts| && forall i :: 0 <= i < k ==> !IsEmptyToolResult(parts[i])
    ensures PieceIndex(parts, k) == SlotCount(parts[..k])
  {
    if k > 0 {
      PiecesLineUp(parts, k - 1);
      PiecesSnoc(parts[..k]);
      assert parts[..k][..k - 1] == parts[..k - 1];
    }
  }

  /** A piece in a slot behind all lines is made of newlines if the parts come back. */
  lemma BehindTheLines(parts: seq<Part>, k: nat)
    requires ComesBack(parts) && k < |parts| && IsPiece(parts[k])
    requires SlotCount(parts[..k]) >= |Split(Join(PiecesOf(parts)))|
    ensures OnlyNewlines(SlotText(parts[k]))
  {
    PieceAt(parts, k);
    SplitJoinLength(PiecesOf(parts));
    var e := FirstEmpty(parts);
    if k < e {
      PiecesLineUp(parts, k);
    } else {
      SlotIsPieceBehind(parts, e, k);
    }
  }

  /** Slots behind all lines keep the text they have, which is the redacted one if the redacted parts come back. */
  lemma BehindTheLinesNothingChanges(parts: seq<Part>, sorted: seq<Finding>, k: nat)
    requires Sorted(DedupLe, sorted) && AllInPieces(sorted, PiecesOf(parts)) && k < |parts| && IsSlot(parts[k])
    requires ComesBack(RedactedParts(parts, sorted))
    requires SlotCount(parts[..k]) >= |Split(RedactedText(Join(PiecesOf(parts)), sorted))|
    ensures RedactedPart(parts, sorted, k) == parts[k]
  {
    if IsPiece(parts[k]) {
      var ps, i, parts' := PiecesOf(parts), PieceIndex(parts, k), RedactedParts(parts, sorted);
      RedactedSlots(parts, sorted, k);
      PiecesOfRedacted(parts, sorted);
      StaysAPiece(parts, sorted, k);
      BehindTheLines(parts', k);
      PieceAt(parts, k);
      OfPieceIsLocal(ps, sorted, i);
      NewlinesAreUnredacted(ps[i], OfPiece(ps, sorted, i));
    }
  }

  lemma RedactedSlots(parts: seq<Part>, sorted: seq<Finding>, k: nat)
    requires Sorted(DedupLe, sorted) && AllInPieces(sorted, PiecesOf(parts)) && k <= |parts|
    ensures SlotCount(RedactedParts(parts, sorted)[..k]) == SlotCount(parts[..k])
  {
    forall i | 0 <= i < |parts|
      ensures IsSlot(RedactedParts(parts, sorted)[i]) <==> IsSlot(parts[i])
    {
      StaysAPiece(parts, sorted, i);
    }
    SameSlotCount(parts, RedactedParts(parts, sorted), k);
  }

  /** Refilling slot `k` gives the redacted part, exactly if the redacted part would keep its text. */
  lemma SlotIsRedacted(parts: seq<Part>, sorted: seq<Finding>, texts: seq<string>, k: nat)
    requires k < |parts| && IsSlot(parts[k]) && SlotCount(parts[..k]) < |texts|
    ensures Refilled(parts, texts, k) == RedactedPart(parts, sorted, k) <==>
      SlotText(RedactedPart(parts, sorted, k)) == texts[SlotCount(parts[..k])]
  {
    if IsPiece(parts[k]) {
      PieceAt(parts, k);
    }
  }

  lemma RefillAgrees(parts: seq<Part>, sorted: seq<Finding>, texts: seq<string>)
    requires Sorted(DedupLe, sorted) && AllInPieces(sorted, PiecesOf(parts))
    requires Refill(parts, texts) == RedactedParts(parts, sorted)
    ensures Agree(RedactedParts(parts, sorted), texts)
  {
    var parts' := RedactedParts(parts, sorted);
    forall k | 0 <= k < |parts'| && IsSlot(parts'[k]) && SlotCount(parts'[..k]) < |texts|
      ensures SlotText(parts'[k]) == texts[SlotCount(parts'[..k])]
    {
      RedactedSlots(parts, sorted, k);
      StaysAPiece(parts, sorted, k);
      SlotIsRedacted(parts, sorted, texts, k);
      assert Refill(parts, texts)[k] == Refilled(parts, texts, k);
    }
  }

  lemma AgreeingRefill(parts: seq<Part>, sorted: seq<Finding>, texts: seq<string>, k: nat)
    requires Sorted(DedupLe, sorted) && AllInPieces(sorted, PiecesOf(parts)) && k < |parts|
    requires texts == Split(RedactedText(Join(PiecesOf(parts)), sorted))
    requires ComesBack(RedactedParts(parts, sorted)) && Agree(RedactedParts(parts, sorted), texts)
    ensures Refilled(parts, texts, k) == RedactedPart(parts, sorted, k)
  {
    if IsSlot(parts[k]) {
      RedactedSlots(parts, sorted, k);
      StaysAPiece(parts, sorted, k);
      if SlotCount(parts[..k]) < |texts| {
        assert SlotText(RedactedParts(parts, sorted)[k]) == texts[SlotCount(RedactedParts(parts, sorted)[..k])];
        SlotIsRedacted(parts, sorted, texts, k);
      } else {
        BehindTheLinesNothingChanges(parts, sorted, k);
      }
    }
  }

  /** Putting the redacted text back gives every part its own text redacted and leaves the others alone, exactly if
      the parts redacted that way come back: no newline up to the first empty tool result, and blanks from there on. */
  lemma {:induction false} PartsAreRedactedExactly(parts: seq<Part>, sorted: seq<Finding>)
    requires Sorted(DedupLe, sorted) && AllInPieces(sorted, PiecesOf(parts))
    ensures Refill(parts, Split(RedactedText(Join(PiecesOf(parts)), sorted))) == RedactedParts(parts, sorted)
       <==> ComesBack(RedactedParts(parts, sorted))
  {
    var texts, parts' := Split(RedactedText(Join(PiecesOf(parts)), sorted)), RedactedParts(parts, sorted);
    PiecesOfRedacted(parts, sorted);
    PartsComeBackExactly(parts');
    RefillUnchanged(parts', texts);
    if Refill(parts, texts) == parts' {
      RefillAgrees(parts, sorted, texts);
    }
    if ComesBack(parts') {
      forall k | 0 <= k < |parts|
        ensures Refill(parts, texts)[k] == parts'[k]
      {
        AgreeingRefill(parts, sorted, texts, k);
      }
    }
  }

  // ----- whole requests -----

  /** The findings lie in the text, and each in one of its pieces. */
  ghost predicate FindingsFit(content: Content, sorted: seq<Finding>) {
    Sorted(DedupLe, sorted) &&
    match content
    case Str(s) => AllInText(sorted, |s|)
    case Parts(raw) => AllInPieces(sorted, PiecesOf(Decoded(raw)))
    case _ => AllInText(sorted, 0)
  }

  /** The message with its texts redacted and everything else as it was; null counts as an empty text. */
  ghost function Intended(m: Message, sorted: seq<Finding>): Message {
    m.(content := match m.content
                  case Str(s) => Str(RedactedText(s, sorted))
                  case Parts(raw) => Parts(RedactedParts(raw, sorted))
                  case _ => if RedactedText("", sorted) == "" then m.content else Str(RedactedText("", sorted)))
  }

  /** Told from the message and the findings alone: decoding has nothing to drop from it, and its content is a text,
      or parts that come back once they are redacted. */
  ghost predicate GoesThrough(m: Message, sorted: seq<Finding>) {
    m.rest == "" &&
    match m.content
    case Str(_) => true
    case Parts(raw) => NoRest(raw) && ComesBack(RedactedParts(raw, sorted))
    case _ => RedactedText("", sorted) != ""
  }

  lemma UpdatesDiffer(messages: seq<Message>, index: nat, m: Message, m': Message)
    requires index < |messages|
    ensures messages[index := m] == messages[index := m'] <==> m == m'
  {
    assert messages[index := m][index] == m && messages[index := m'][index] == m';
  }

  lemma PartsGoThroughExactly(raw: seq<Part>, sorted: seq<Finding>)
    requires Sorted(DedupLe, sorted) && AllInPieces(sorted, PiecesOf(Decoded(raw)))
    ensures Refill(Decoded(raw), Split(RedactedText(Join(PiecesOf(Decoded(raw))), sorted))) == RedactedParts(raw, sorted)
       <==> NoRest(raw) && ComesBack(RedactedParts(raw, sorted))
  {
    RefillIsDecoded(Decoded(raw), Split(RedactedText(Join(PiecesOf(Decoded(raw))), sorted)));
    if NoRest(raw) {
      assert Decoded(raw) == raw;
      PartsAreRedactedExactly(raw, sorted);
    } else {
      var k :| 0 <= k < |raw| && raw[k].rest != "";
      assert RedactedParts(raw, sorted)[k].rest == raw[k].rest;
    }
  }

  /** A redacted text that is put back leads to the intended request, exactly if the message goes through. */
  lemma {:induction false} RequestIsRedactedExactly(messages: seq<Message>, index: nat, sorted: seq<Finding>)
    requires IsLastUser(messages, index) && ExtractFrom(messages, index).Ok? && FindingsFit(messages[index].content, sorted)
    ensures var msg, m := ExtractFrom(messages, index).value, messages[index];
      messages[index := Replacement(msg, RedactedText(msg.text, sorted))] == messages[index := Intended(m, sorted)]
      <==> GoesThrough(m, sorted)
  {
    var msg, m := ExtractFrom(messages, index).value, messages[index];
    UpdatesDiffer(messages, index, Replacement(msg, RedactedText(msg.text, sorted)), Intended(m, sorted));
    if m.content.Parts? {
      PartsGoThroughExactly(m.content.parts, sorted);
    }
  }

  // ----- texts that redaction does not change -----

  function Newlines(s: string): nat {
    if s == "" then 0 else (if s[0] == '\n' then 1 else 0) + Newlines(s[1..])
  }

  lemma {:induction false} NewlinesOfConcat(s: string, t: string)
    ensures Newlines(s + t) == Newlines(s) + Newlines(t)
  {
    if s == "" {
      assert s + t == t;
    } else {
      assert (s + t)[1..] == s[1..] + t;
      NewlinesOfConcat(s[1..], t);
    }
  }

  lemma {:induction false} FreeHasNoNewlines(s: string)
    requires NewlineFree(s)
    ensures Newlines(s) == 0
  {
    if s != "" {
      FreeHasNoNewlines(s[1..]);
    }
  }

  lemma NewlinesOfTail(text: string, i: nat, j: nat)
    requires i <= j <= |text|
    ensures Newlines(text[i..]) == Newlines(text[i..j]) + Newlines(text[j..])
  {
    assert text[i..] == text[i..j] + text[j..];
    NewlinesOfConcat(text[i..j], text[j..]);
  }

  /** Labels without newlines bring none in. */
  lemma {:induction false} WeaveAddsNoNewlines(text: string, fs: seq<Finding>, prev: nat)
    requires prev <= |text| && Layout(fs, prev, |text|) && Sliceable(fs, prev, |text|)
    requires forall i :: 0 <= i < |fs| ==> NewlineFree(fs[i].tag)
    ensures Newlines(Weave(text, fs, prev, Label)) <= Newlines(text[prev..])
  {
    if fs != [] {
      var f, rest := fs[0], Weave(text, fs[1..], fs[0].end, Label);
      LayoutIsSliceable(fs[1..], f.end, |text|);
      WeaveAddsNoNewlines(text, fs[1..], f.end);
      NewlinesOfConcat(text[prev..f.start] + Label(f), rest);
      NewlinesOfConcat(text[prev..f.start], Label(f));
      assert NewlineFree(Label(f));
      FreeHasNoNewlines(Label(f));
      NewlinesOfTail(text, prev, f.start);
      NewlinesOfTail(text, f.start, f.end);
    }
  }

  lemma RedactionAddsNoNewlines(ps: seq<string>, sorted: seq<Finding>, i: nat)
    requires Sorted(DedupLe, sorted) && AllInPieces(sorted, ps) && i < |ps|
    requires forall k :: 0 <= k < |sorted| ==> NewlineFree(sorted[k].tag)
    ensures Newlines(RedactedPieces(ps, sorted)[i]) <= Newlines(ps[i])
  {
    var local := OfPiece(ps, sorted, i);
    OfPieceIsLocal(ps, sorted, i);
    RedactedTextIsWeave(ps[i], local);
    LocalTags(sorted, Offset(ps, i), Offset(ps, i) + |ps[i]|);
    forall k | 0 <= k < |Applied(local)|
      ensures NewlineFree(Applied(local)[k].tag)
    {
      RedactStaysInRange(ps[i], local);
      assert Applied(local)[k] in local;
    }
    WeaveAddsNoNewlines(ps[i], Applied(local), 0);
    assert ps[i][0..] == ps[i];
  }

  /** Of two texts that go on differently, the longer has a newline more if the shorter ends at one. */
  lemma SameHead(p: string, q: string, r: string, s: string)
    requires p + "\n" + q == r + "\n" + s && Newlines(p) == Newlines(r)
    ensures p == r && q == s
  {
    if |p| < |r| {
      LongerHead(p, q, r, s);
    } else if |r| < |p| {
      LongerHead(r, s, p, q);
    }
    assert p == (p + "\n" + q)[..|p|] && r == (r + "\n" + s)[..|r|];
    assert q == (p + "\n" + q)[|p| + 1..] && s == (r + "\n" + s)[|r| + 1..];
  }

  lemma LongerHead(p: string, q: string, r: string, s: string)
    requires p + "\n" + q == r + "\n" + s && |p| < |r|
    ensures Newlines(p) < Newlines(r)
  {
    var more := r[|p| + 1..];
    assert r == (r + "\n" + s)[..|r|] == (p + "\n" + q)[..|r|];
    assert r == p + "\n" + more;
    NewlinesOfConcat(p + "\n", more);
    NewlinesOfConcat(p, "\n");
  }

  lemma NewlinesOfJoin(ps: seq<string>)
    requires |ps| > 1
    ensures Newlines(Join(ps)) == Newlines(ps[0]) + 1 + Newlines(Join(ps[1..]))
  {
    NewlinesOfConcat(ps[0] + "\n", Join(ps[1..]));
    NewlinesOfConcat(ps[0], "\n");
  }

  lemma {:induction false} FewerNewlines(rs: seq<string>, ps: seq<string>)
    requires |rs| == |ps| && forall i :: 0 <= i < |ps| ==> Newlines(rs[i]) <= Newlines(ps[i])
    ensures Newlines(Join(rs)) <= Newlines(Join(ps))
  {
    if |ps| > 1 {
      FewerNewlines(rs[1..], ps[1..]);
      NewlinesOfJoin(ps);
      NewlinesOfJoin(rs);
    }
  }

  /** Texts that join to the same text, none with more newlines than its counterpart, are the same. */
  lemma {:induction false} SamePieces(rs: seq<string>, ps: seq<string>)
    requires |rs| == |ps| && Join(rs) == Join(ps)
    requires forall i :: 0 <= i < |ps| ==> Newlines(rs[i]) <= Newlines(ps[i])
    ensures rs == ps
  {
    if |ps| == 1 {
      assert rs[0] == ps[0];
    } else if |ps| > 1 {
      NewlinesOfJoin(ps);
      NewlinesOfJoin(rs);
      FewerNewlines(rs[1..], ps[1..]);
      SameHead(rs[0], Join(rs[1..]), ps[0], Join(ps[1..]));
      SamePieces(rs[1..], ps[1..]);
      assert rs == [rs[0]] + rs[1..] && ps == [ps[0]] + ps[1..];
    }
  }

  ghost predicate TagsNewlineFree(sorted: seq<Finding>) {
    forall k :: 0 <= k < |sorted| ==> NewlineFree(sorted[k].tag)
  }

  /** If the joined text stays as it is, so does every part. */
  lemma UnchangedTextUnchangedParts(parts: seq<Part>, sorted: seq<Finding>)
    requires Sorted(DedupLe, sorted) && AllInPieces(sorted, PiecesOf(parts)) && TagsNewlineFree(sorted)
    requires RedactedText(Join(PiecesOf(parts)), sorted) == Join(PiecesOf(parts))
    ensures RedactedParts(parts, sorted) == parts
  {
    var ps := PiecesOf(parts);
    PiecesOfRedacted(parts, sorted);
    forall i | 0 <= i < |ps|
      ensures Newlines(RedactedPieces(ps, sorted)[i]) <= Newlines(ps[i])
    {
      RedactionAddsNoNewlines(ps, sorted, i);
    }
    SamePieces(RedactedPieces(ps, sorted), ps);
    forall k | 0 <= k < |parts|
      ensures RedactedPart(parts, sorted, k) == parts[k]
    {
      if IsPiece(parts[k]) {
        PieceAt(parts, k);
      }
    }
  }

  lemma UnchangedTextUnchangedMessage(messages: seq<Message>, index: nat, sorted: seq<Finding>)
    requires index < |messages| && ExtractFrom(messages, index).Ok? && FindingsFit(messages[index].content, sorted)
    requires TagsNewlineFree(sorted)
    requires RedactedText(ExtractFrom(messages, index).value.text, sorted) == ExtractFrom(messages, index).value.text
    ensures Intended(messages[index], sorted) == messages[index]
  {
    var m := messages[index];
    if m.content.Parts? {
      var raw := m.content.parts;
      DecodedPieces(raw);
      UnchangedTextUnchangedParts(raw, sorted);
    }
  }

  lemma {:induction false} DecodedPieces(raw: seq<Part>)
    ensures PiecesOf(Decoded(raw)) == PiecesOf(raw)
  {
    if raw != [] {
      DecodedPieces(raw[..|raw| - 1]);
      assert Decoded(raw)[..|raw| - 1] == Decoded(raw[..|raw| - 1]);
    }
  }

  /** What the proxy forwards is the intended request, exactly if redaction changed nothing or the message goes through. */
  lemma {:induction false} ForwardedExactly(messages: seq<Message>, index: nat, sorted: seq<Finding>, redact: string -> Option<string>)
    requires IsLastUser(messages, index) && ExtractFrom(messages, index).Ok? && FindingsFit(messages[index].content, sorted)
    requires TagsNewlineFree(sorted)
    requires var text := ExtractFrom(messages, index).value.text; redact(text) == Some(RedactedText(text, sorted))
    ensures var text, m := ExtractFrom(messages, index).value.text, messages[index];
      Forwarded(messages, index, redact) == messages[index := Intended(m, sorted)]
      <==> RedactedText(text, sorted) == text || GoesThrough(m, sorted)
  {
    var text := ExtractFrom(messages, index).value.text;
    if RedactedText(text, sorted) == text {
      UnchangedTextUnchangedMessage(messages, index, sorted);
    } else {
      RequestIsRedactedExactly(messages, index, sorted);
    }
  }

  // ----- special cases -----

  /** Without empty tool results: exactly if no redacted piece has a newline in it. */
  lemma {:induction false} PartsAreRedacted(parts: seq<Part>, sorted: seq<Finding>)
    requires Sorted(DedupLe, sorted) && AllInPieces(sorted, PiecesOf(parts)) && NoEmptyToolResult(parts)
    ensures Refill(parts, Split(RedactedText(Join(PiecesOf(parts)), sorted))) == RedactedParts(parts, sorted)
       <==> AllNewlineFree(RedactedPieces(PiecesOf(parts), sorted))
  {
    var parts' := RedactedParts(parts, sorted);
    forall k | 0 <= k < |parts'| && parts'[k].kind == "tool_result"
      ensures parts'[k].content != ""
    {
      StaysAPiece(parts, sorted, k);
      assert IsPiece(parts[k]);
    }
    PartsAreRedactedExactly(parts, sorted);
    PiecesOfRedacted(parts, sorted);
    PartsComeBackExactly(parts');
    PutBackUnchangedExactly(parts');
  }

  /** Pieces and labels without newlines lead to redacted pieces without newlines. */
  lemma RedactedPiecesStayFree(ps: seq<string>, sorted: seq<Finding>)
    requires Sorted(DedupLe, sorted) && AllInPieces(sorted, ps) && AllNewlineFree(ps) && TagsNewlineFree(sorted)
    ensures AllNewlineFree(RedactedPieces(ps, sorted))
  {
    forall i | 0 <= i < |ps|
      ensures NewlineFree(RedactedPieces(ps, sorted)[i])
    {
      RedactedPieceIsNewlineFree(ps, sorted, i);
    }
  }

  /** Up to what decoding drops, and without empty tool results and newlines in what is left: each part gets its own text
      redacted by its own findings, every other decoded part and every other message stays as it was, and
      extracting again gives the redacted text. */
  lemma {:induction false} ReplaceRedactsEachPart(messages: seq<Message>, index: nat, raw: seq<Part>, parts: seq<Part>, sorted: seq<Finding>)
    requires IsLastUser(messages, index) && messages[index].content == Parts(raw) && parts == Decoded(raw)
    requires Sorted(DedupLe, sorted) && AllInPieces(sorted, PiecesOf(parts))
    requires NoEmptyToolResult(parts) && AllNewlineFree(RedactedPieces(PiecesOf(parts), sorted))
    ensures var msg := ExtractFrom(messages, index).value;
      var redacted, parts' := RedactedText(msg.text, sorted), RedactedParts(parts, sorted);
      var messages' := messages[index := Replacement(msg, redacted)];
      && messages'[index] == Message("user", Parts(parts'), "")
      && IsLastUser(messages', index) && ExtractFrom(messages', index) == Ok(Extracted(redacted, index, parts', true))
      && (forall j :: 0 <= j < |messages| && j != index ==> messages'[j] == messages[j])
  {
    PartsAreRedacted(parts, sorted);
    PiecesOfRedacted(parts, sorted);
    RefillIsDecoded(parts, Split(RedactedText(Join(PiecesOf(parts)), sorted)));
  }

  lemma NothingIsRedacted(text: string)
    ensures RedactedText(text, []) == text
  {
    RedactedTextIsWeave(text, []);
    assert Applied([]) == [] && text[0..] == text;
  }

  /** With nothing redacted: the request would come back as it was, exactly if decoding has nothing to drop from it, and
      its content is a text, or parts that come back. */
  lemma {:induction false} RequestComesBackExactly(messages: seq<Message>, index: nat)
    requires IsLastUser(messages, index) && ExtractFrom(messages, index).Ok?
    ensures var msg, m := ExtractFrom(messages, index).value, messages[index];
      messages[index := Replacement(msg, msg.text)] == messages
      <==> m.rest == "" && (m.content.Str? || (m.content.Parts? && NoRest(m.content.parts) && ComesBack(m.content.parts)))
  {
    var msg, m := ExtractFrom(messages, index).value, messages[index];
    NothingIsRedacted(msg.text);
    RequestIsRedactedExactly(messages, index, []);
    UnchangedTextUnchangedMessage(messages, index, []);
    assert messages[index := m] == messages;
    NothingIsRedacted("");
  }

  // ----- what goes wrong -----

  lemma PiecesOfTwoSlots(a: Part, b: Part)
    requires IsSlot(a) && IsPiece(b)
    ensures PiecesOf([a, b]) == (if IsPiece(a) then [SlotText(a)] else []) + [SlotText(b)]
  {
    assert [a, b][..1] == [a] && [a][..0] == [];
    PiecesSnoc([a, b]);
    PiecesSnoc([a]);
    assert [] + [SlotText(a)] == [SlotText(a)];
  }

  lemma RefillOfTwo(a: Part, b: Part, texts: seq<string>)
    requires IsSlot(a) && IsSlot(b) && texts != []
    ensures Refill([a, b], texts) == [Fill(a, texts[0]), if |texts| > 1 then Fill(b, texts[1]) else b]
  {
    assert [a, b][..1] == [a] && [a, b][..0] == [] && [a][..0] == [];
    assert SlotCount([]) == 0 && SlotCount([a]) == 1;
    assert Refilled([a, b], texts, 0) == Fill(a, texts[0]);
    assert Refilled([a, b], texts, 1) == if |texts| > 1 then Fill(b, texts[1]) else b;
  }

  lemma RedactedSecret(rest: string)
    ensures var f := Finding("A", "secret", 0, 6);
      Sorted(DedupLe, [f]) && RedactedText("secret" + rest, [f]) == Placeholder("A") + rest
  {
    var f := Finding("A", "secret", 0, 6);
    assert [f][..0] == [] && [f][1..] == [];
    assert Dedup([f]) == [f];
    assert Swept([f], 0) == [f];
    assert Applied([f]) == [f];
    WeaveOfOne("secret" + rest, f);
    assert ("secret" + rest)[..0] + Label(f) == Label(f) && ("secret" + rest)[6..] == rest;
  }

  lemma TextBehindEmptyToolResult(a: Part, b: Part, t: string)
    requires IsEmptyToolResult(a) && b.kind == "text"
    ensures Join(PiecesOf([a, b])) == b.text && Refill([a, b], [t]) == [a.(content := t), b]
  {
    PiecesOfTwoSlots(a, b);
    assert [] + [b.text] == [b.text];
    RefillOfTwo(a, b, [t]);
  }

  lemma SecretIsRedacted()
    ensures RedactedText("secret", [Finding("A", "secret", 0, 6)]) == "[REDACTED-A]"
    ensures Split("[REDACTED-A]") == ["[REDACTED-A]"]
  {
    RedactedSecret("");
    assert "secret" + "" == "secret" && Placeholder("A") + "" == "[REDACTED-A]";
    SplitFree("[REDACTED-A]");
  }

  /** An empty tool result takes the redacted text of the part behind it, which keeps its secret. */
  lemma EmptyToolResultKeepsTheSecret()
    ensures var a, b := Part("tool_result", "", "", "t", ""), Part("text", "secret", "", "", "");
      var sorted := [Finding("A", "secret", 0, 6)];
      && Join(PiecesOf([a, b])) == "secret"
      && Refill([a, b], Split(RedactedText("secret", sorted))) == [a.(content := "[REDACTED-A]"), b]
  {
    TextBehindEmptyToolResult(Part("tool_result", "", "", "t", ""), Part("text", "secret", "", "", ""), "[REDACTED-A]");
    SecretIsRedacted();
  }

  lemma JoinOfTwo(p: string, q: string)
    ensures Join([p] + [q]) == p + "\n" + q
  {
    assert ([p] + [q])[1..] == [q];
  }

  lemma SplitOfThree(p: string)
    requires NewlineFree(p)
    ensures Split(p + "\nx\ny") == [p, "x", "y"]
  {
    SplitFree("y");
    SplitAtNewline("x", "y");
    assert "x" + "\n" + "y" == "x\ny";
    SplitAtNewline(p, "x\ny");
    assert p + "\n" + "x\ny" == p + "\nx\ny";
  }

  lemma LinesOfTwoTexts(a: Part, b: Part, p: string, q: string, r: string)
    requires a.kind == "text" && b.kind == "text"
    ensures Join(PiecesOf([a, b])) == a.text + "\n" + b.text
    ensures Refill([a, b], [p, q, r]) == [a.(text := p), b.(text := q)]
  {
    PiecesOfTwoSlots(a, b);
    JoinOfTwo(a.text, b.text);
    RefillOfTwo(a, b, [p, q, r]);
  }

  lemma SecretAndTwoLines()
    ensures RedactedText("secret\nx\ny", [Finding("A", "secret", 0, 6)]) == "[REDACTED-A]\nx\ny"
    ensures Split("[REDACTED-A]\nx\ny") == ["[REDACTED-A]", "x", "y"]
  {
    RedactedSecret("\nx\ny");
    assert "secret" + "\nx\ny" == "secret\nx\ny" && Placeholder("A") + "\nx\ny" == "[REDACTED-A]\nx\ny";
    SplitOfThree("[REDACTED-A]");
    assert "[REDACTED-A]" + "\nx\ny" == "[REDACTED-A]\nx\ny";
  }

  /** Where a part has two lines, redacting another one loses the second. */
  lemma SecondLineIsLost()
    ensures var a, b := Part("text", "secret", "", "", ""), Part("text", "x\ny", "", "", "");
      var sorted := [Finding("A", "secret", 0, 6)];
      && Join(PiecesOf([a, b])) == "secret\nx\ny"
      && Refill([a, b], Split(RedactedText("secret\nx\ny", sorted))) == [a.(text := "[REDACTED-A]"), b.(text := "x")]
  {
    LinesOfTwoTexts(Part("text", "secret", "", "", ""), Part("text", "x\ny", "", "", ""), "[REDACTED-A]", "x", "y");
    assert "secret" + "\n" + "x\ny" == "secret\nx\ny";
    SecretAndTwoLines();
  }
}
