/** Taking the last user message out of a request, and putting its redacted text back. */
module Messages {
  import opened Sorting
  import opened Findings
  import opened Redactor
  import opened RedactionLaws
  import opened Pieces

  /** A part of a message: the four members that are decoded, and `rest` for whatever else it takes to give
      the JSON object back, such as members of other names. `rest` is empty for exactly the objects that
      encoding the four members writes. */
  datatype Part = Part(kind: string, text: string, content: string, toolUseId: string, rest: string)

  /** The forms the content of a message decodes as. */
  datatype Content = Str(s: string) | Null | Parts(parts: seq<Part>) | Unsupported

  /** `rest` stands for what a message has besides these two members. */
  datatype Message = Message(role: string, content: Content, rest: string)

  datatype Extracted = Extracted(text: string, index: nat, parts: seq<Part>, isArray: bool)

  datatype Error = UnsupportedContent(index: nat) | NoUserMessage

  datatype Result<+T> = Ok(value: T) | Err(error: Error)

  // ----- the functions the methods below compute -----

  /** The texts of the parts that are scanned. */
  function PiecesOf(parts: seq<Part>): seq<string> {
    if parts == [] then []
    else
      PiecesOf(parts[..|parts| - 1]) +
      var p := parts[|parts| - 1];
      if p.kind == "text" then [p.text]
      else if p.kind == "tool_result" && p.content != "" then [p.content]
      else []
  }

  predicate IsSlot(p: Part) {
    p.kind == "text" || p.kind == "tool_result"
  }

  function SlotText(p: Part): string {
    if p.kind == "text" then p.text else p.content
  }

  predicate IsEmptyToolResult(p: Part) {
    p.kind == "tool_result" && p.content == ""
  }

  function Fill(p: Part, t: string): Part {
    if p.kind == "text" then p.(text := t) else p.(content := t)
  }

  function SlotCount(parts: seq<Part>): nat {
    if parts == [] then 0 else SlotCount(parts[..|parts| - 1]) + if IsSlot(parts[|parts| - 1]) then 1 else 0
  }

  /** What part `k` becomes: the texts go to the slots in order, as long as there are texts. */
  function Refilled(parts: seq<Part>, texts: seq<string>, k: nat): Part
    requires k < |parts|
  {
    if IsSlot(parts[k]) && SlotCount(parts[..k]) < |texts| then Fill(parts[k], texts[SlotCount(parts[..k])]) else parts[k]
  }

  function Refill(parts: seq<Part>, texts: seq<string>): (r: seq<Part>)
    ensures |r| == |parts| && forall k :: 0 <= k < |r| ==> r[k] == Refilled(parts, texts, k)
  {
    seq(|parts|, k requires 0 <= k < |parts| => Refilled(parts, texts, k))
  }

  /** What decoding keeps of the parts. */
  function Decoded(parts: seq<Part>): (r: seq<Part>)
    ensures |r| == |parts| && forall k :: 0 <= k < |r| ==> r[k] == parts[k].(rest := "")
  {
    seq(|parts|, k requires 0 <= k < |parts| => parts[k].(rest := ""))
  }

  function ExtractFrom(messages: seq<Message>, i: nat): Result<Extracted>
    requires i < |messages|
  {
    match messages[i].content
    case Str(s) => Ok(Extracted(s, i, [], false))
    case Null => Ok(Extracted("", i, [], false))
    case Parts(parts) => Ok(Extracted(Join(PiecesOf(Decoded(parts))), i, Decoded(parts), true))
    case Unsupported => Err(UnsupportedContent(i))
  }

  ghost predicate IsLastUser(messages: seq<Message>, i: nat) {
    && i < |messages| && messages[i].role == "user"
    && forall j :: i < j < |messages| ==> messages[j].role != "user"
  }

  /** The message that comes back in place of the extracted one. */
  function Replacement(msg: Extracted, redacted: string): Message {
    Message("user", if msg.isArray then Parts(Refill(msg.parts, Split(redacted))) else Str(redacted), "")
  }

  // ----- the methods -----

  method CollectTexts(parts: seq<Part>) returns (texts: seq<string>)
    ensures texts == PiecesOf(parts)
  {
    texts := [];
    for i := 0 to |parts|
      invariant texts == PiecesOf(parts[..i])
    {
      var p := parts[i];
      assert parts[..i + 1][..i] == parts[..i];
      if p.kind == "text" {
        texts := texts + [p.text];
      } else if p.kind == "tool_result" {
        if p.content != "" {
          texts := texts + [p.content];
        }
      }
    }
    assert parts[..|parts|] == parts;
  }

  method ExtractLastUserMessage(messages: seq<Message>) returns (r: Result<Extracted>)
    ensures r == Err(NoUserMessage) <==> forall i :: 0 <= i < |messages| ==> messages[i].role != "user"
    ensures forall i :: IsLastUser(messages, i) ==> r == ExtractFrom(messages, i)
    ensures r.Ok? ==>
      && r.value.index < |messages| && messages[r.value.index].role == "user"
      && forall j :: r.value.index < j < |messages| ==> messages[j].role != "user"
  {
    var i := |messages| - 1;
    while i >= 0
      invariant -1 <= i < |messages|
      invariant forall j :: i < j < |messages| ==> messages[j].role != "user"
    {
      var msg := messages[i];
      if msg.role == "user" {
        assert forall j: nat :: IsLastUser(messages, j) ==> j == i;
        match msg.content
        case Str(s) => return Ok(Extracted(s, i, [], false));
        case Null => return Ok(Extracted("", i, [], false));
        case Parts(raw) =>
          var parts := Decoded(raw);
          var texts := CollectTexts(parts);
          return Ok(Extracted(Join(texts), i, parts, true));
        case Unsupported => return Err(UnsupportedContent(i));
      }
      i := i - 1;
    }
    return Err(NoUserMessage);
  }

  method ReplaceLastUserMessage(messages: seq<Message>, msg: Extracted, redactedText: string) returns (r: seq<Message>)
    requires msg.index < |messages|
    ensures r == messages[msg.index := Replacement(msg, redactedText)]
  {
    if msg.isArray {
      var redactedParts := new Part[|msg.parts|](i requires 0 <= i < |msg.parts| => msg.parts[i]);
      var texts := Split(redactedText);
      var textIdx := 0;
      for i := 0 to |msg.parts|
        invariant textIdx <= |texts|
        invariant textIdx == if SlotCount(msg.parts[..i]) < |texts| then SlotCount(msg.parts[..i]) else |texts|
        invariant forall k :: 0 <= k < i ==> redactedParts[k] == Refilled(msg.parts, texts, k)
        invariant forall k :: i <= k < |msg.parts| ==> redactedParts[k] == msg.parts[k]
      {
        var p := msg.parts[i];
        assert msg.parts[..i + 1][..i] == msg.parts[..i];
        redactedParts[i] := p;
        if p.kind == "text" {
          if textIdx < |texts| {
            redactedParts[i] := p.(text := texts[textIdx]);
            textIdx := textIdx + 1;
          }
        } else if p.kind == "tool_result" {
          if textIdx < |texts| {
            redactedParts[i] := p.(content := texts[textIdx]);
            textIdx := textIdx + 1;
          }
        }
      }
      assert redactedParts[..] == Refill(msg.parts, texts);
      r := messages[msg.index := Message("user", Parts(redactedParts[..]), "")];
    } else {
      r := messages[msg.index := Message("user", Str(redactedText), "")];
    }
  }

  // ----- when slots and pieces line up -----

  ghost predicate NoEmptyToolResult(parts: seq<Part>) {
    forall k :: 0 <= k < |parts| && parts[k].kind == "tool_result" ==> parts[k].content != ""
  }

  /** Without empty tool results the pieces are the texts of the slots, one by one. */
  lemma {:induction false} PiecesAreSlots(parts: seq<Part>)
    requires NoEmptyToolResult(parts)
    ensures |PiecesOf(parts)| == SlotCount(parts)
    ensures forall k :: 0 <= k < |parts| && IsSlot(parts[k]) ==>
      SlotCount(parts[..k]) < |PiecesOf(parts)| && PiecesOf(parts)[SlotCount(parts[..k])] == SlotText(parts[k])
  {
    if parts != [] {
      var front := parts[..|parts| - 1];
      PiecesAreSlots(front);
      forall k | 0 <= k < |parts| && IsSlot(parts[k])
        ensures SlotCount(parts[..k]) < |PiecesOf(parts)| && PiecesOf(parts)[SlotCount(parts[..k])] == SlotText(parts[k])
      {
        if k < |front| {
          assert front[..k] == parts[..k] && front[k] == parts[k];
        }
      }
    }
  }

  lemma {:induction false} SlotCountOfRefill(parts: seq<Part>, texts: seq<string>, k: nat)
    requires k <= |parts|
    ensures SlotCount(Refill(parts, texts)[..k]) == SlotCount(parts[..k])
  {
    if k > 0 {
      SlotCountOfRefill(parts, texts, k - 1);
      assert Refill(parts, texts)[..k][..k - 1] == Refill(parts, texts)[..k - 1];
      assert parts[..k][..k - 1] == parts[..k - 1];
      assert IsSlot(Refilled(parts, texts, k - 1)) <==> IsSlot(parts[k - 1]);
    }
  }

  lemma RefillHasNoEmptyToolResult(parts: seq<Part>, texts: seq<string>)
    requires forall k :: 0 <= k < |parts| && parts[k].kind == "tool_result" ==>
      SlotCount(parts[..k]) < |texts| && texts[SlotCount(parts[..k])] != ""
    ensures NoEmptyToolResult(Refill(parts, texts))
  {
    var r := Refill(parts, texts);
    forall k | 0 <= k < |r| && r[k].kind == "tool_result"
      ensures r[k].content != ""
    {
      assert r[k] == Refilled(parts, texts, k);
    }
  }

  lemma FilledSlot(parts: seq<Part>, texts: seq<string>, k: nat)
    requires k < |parts| && IsSlot(parts[k]) && SlotCount(parts[..k]) < |texts|
    ensures IsSlot(Refill(parts, texts)[k]) && SlotText(Refill(parts, texts)[k]) == texts[SlotCount(parts[..k])]
  {
    assert Refill(parts, texts)[k] == Refilled(parts, texts, k);
  }

  /** With a text for each slot, none of them empty for a tool result, the refilled parts hold just these texts. */
  lemma {:induction false} PiecesOfRefill(parts: seq<Part>, texts: seq<string>)
    requires |texts| == SlotCount(parts)
    requires forall k :: 0 <= k < |parts| && parts[k].kind == "tool_result" ==>
      SlotCount(parts[..k]) < |texts| && texts[SlotCount(parts[..k])] != ""
    ensures PiecesOf(Refill(parts, texts)) == texts
  {
    var r := Refill(parts, texts);
    RefillHasNoEmptyToolResult(parts, texts);
    PiecesAreSlots(r);
    SlotCountOfRefill(parts, texts, |parts|);
    assert r[..|parts|] == r && parts[..|parts|] == parts;
    forall j | 0 <= j < |texts|
      ensures PiecesOf(r)[j] == texts[j]
    {
      var k := SlotAt(parts, j);
      SlotCountOfRefill(parts, texts, k);
      FilledSlot(parts, texts, k);
    }
  }

  /** The part that holds slot `j`. */
  lemma {:induction false} SlotAt(parts: seq<Part>, j: nat) returns (k: nat)
    requires j < SlotCount(parts)
    ensures k < |parts| && IsSlot(parts[k]) && SlotCount(parts[..k]) == j
  {
    var front := parts[..|parts| - 1];
    if j < SlotCount(front) {
      k := SlotAt(front, j);
      assert front[..k] == parts[..k];
    } else {
      k := |parts| - 1;
    }
  }

  lemma {:induction false} SlotCountGrows(parts: seq<Part>, k: nat)
    requires k < |parts|
    ensures SlotCount(parts) >= SlotCount(parts[..k]) + if IsSlot(parts[k]) then 1 else 0
  {
    var front := parts[..|parts| - 1];
    if k < |front| {
      SlotCountGrows(front, k);
      assert front[..k] == parts[..k] && front[k] == parts[k];
    }
  }

  // ----- what decoding drops -----

  ghost predicate NoRest(parts: seq<Part>) {
    forall k :: 0 <= k < |parts| ==> parts[k].rest == ""
  }

  lemma RefillIsDecoded(parts: seq<Part>, texts: seq<string>)
    requires NoRest(parts)
    ensures NoRest(Refill(parts, texts)) && Decoded(Refill(parts, texts)) == Refill(parts, texts)
  {
    forall k | 0 <= k < |parts|
      ensures Refill(parts, texts)[k].rest == ""
    {
      assert Refill(parts, texts)[k] == Refilled(parts, texts, k);
    }
  }

  /** What decoding and encoding make of a message, whatever the redacted text: its other members, those of the
      parts, and the parts that hold no text are there again exactly if decoding had nothing to drop from them. */
  lemma RestIsDropped(messages: seq<Message>, index: nat, raw: seq<Part>, redacted: string)
    requires IsLastUser(messages, index) && messages[index].content == Parts(raw)
    ensures var m := Replacement(ExtractFrom(messages, index).value, redacted);
      && m.role == "user" && m.content.Parts? && |m.content.parts| == |raw|
      && (m.rest == messages[index].rest <==> messages[index].rest == "")
      && (forall k :: 0 <= k < |raw| ==> (m.content.parts[k].rest == raw[k].rest <==> raw[k].rest == ""))
      && (forall k :: 0 <= k < |raw| && !IsSlot(raw[k]) ==> (m.content.parts[k] == raw[k] <==> raw[k].rest == ""))
  {
  }

  lemma PiecesOfTwo(a: Part, b: Part)
    requires !IsSlot(a) && b.kind == "text"
    ensures PiecesOf([a, b]) == [b.text]
  {
    assert [a, b][..1] == [a] && [a][..0] == [];
    assert PiecesOf([a]) == PiecesOf([]) + [];
    assert PiecesOf([a, b]) == PiecesOf([a]) + [b.text];
  }

  /** An image beside a redacted text loses its source. */
  lemma ImageLosesItsSource(redacted: string)
    ensures var image := Part("image", "", "", "", "source");
      var messages := [Message("user", Parts([image, Part("text", "x", "", "", "")]), "")];
      var m := Replacement(ExtractFrom(messages, 0).value, redacted);
      ExtractFrom(messages, 0).value.text == "x" && m.content.Parts? && |m.content.parts| == 2 &&
      m.content.parts[0] == Part("image", "", "", "", "") != image
  {
    var raw := [Part("image", "", "", "", "source"), Part("text", "x", "", "", "")];
    var parts := Decoded(raw);
    PiecesOfTwo(parts[0], parts[1]);
    assert parts == [parts[0], parts[1]];
    assert Refill(parts, Split(redacted))[0] == Refilled(parts, Split(redacted), 0);
  }
}
