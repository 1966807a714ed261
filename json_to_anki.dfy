/**
 * ai_tutor_anki/ai_tutor_json_to_anki.py: load a file of flashcards that
 * may be wrapped in a ```json fence and surrounded by other text, cut out
 * the first bracket-balanced `[...]`, keep the items with both `front`
 * and `back`, make sure the deck exists, and add the cards one by one.
 */
module JsonToAnki {
  import opened Optional
  import opened PyText
  import opened Json
  import opened AnkiApi
  import opened CardFiles
  import opened CardBatch

  const OPEN_FENCE := "```json"
  const FENCE := "```"

  /**
   * The fence handling of `load_json_cards`: when "```json" occurs and a
   * "```" follows its end, the stripped text between them; otherwise the
   * text as it is.
   */
  function StripFence(text: string): (r: string)
    // The text is either left alone or cut down to a stripped fenced body.
    ensures r == text || (Contains(text, OPEN_FENCE) && |r| < |text| && Strip(r) == r)
  {
    if Contains(text, OPEN_FENCE) && Contains(text, FENCE) then
      var startMarker := Find(text, OPEN_FENCE);
      if startMarker != -1 then
        var startContent := startMarker + |OPEN_FENCE|;
        var endMarker := FindFrom(text, FENCE, startContent);
        if endMarker != -1 then
          var body := text[startContent..endMarker];
          StripEnds(body);
          StripOfStripped(Strip(body));
          Strip(body)
        else text
      else text
    else text
  }

  /** Without an opening fence the text is left alone. */
  lemma NoFenceUnchanged(text: string)
    requires !Contains(text, OPEN_FENCE)
    ensures StripFence(text) == text
  {
  }

  /** With an opening fence but no closing one after it, the text is left alone. */
  lemma UnclosedFenceUnchanged(text: string)
    requires Contains(text, OPEN_FENCE)
    requires forall i :: Find(text, OPEN_FENCE) + |OPEN_FENCE| <= i ==> !OccursAt(text, FENCE, i)
    ensures StripFence(text) == text
  {
    var k := Find(text, OPEN_FENCE);
    assert text[k..k + 3] == text[k..k + 7][..3];
    assert OccursAt(text, FENCE, k);
  }

  /**
   * A fenced body is recovered, stripped, whatever precedes the fence and
   * follows it, provided no opening fence starts before it and no closing
   * fence starts within it.
   */
  lemma {:induction false} FencedBody(prefix: string, body: string, rest: string)
    requires forall i :: 0 <= i < |prefix| ==> !OccursAt(prefix + OPEN_FENCE, OPEN_FENCE, i)
    requires forall i :: 0 <= i < |body| ==> !OccursAt(body + FENCE, FENCE, i)
    ensures StripFence(prefix + OPEN_FENCE + body + FENCE + rest) == Strip(body)
  {
    var text := prefix + OPEN_FENCE + body + FENCE + rest;
    OpenFenceAt(prefix, body + FENCE + rest);
    assert text == prefix + OPEN_FENCE + (body + FENCE + rest);
    CloseFenceAt(prefix + OPEN_FENCE, body, rest);
    assert text == (prefix + OPEN_FENCE) + body + (FENCE + rest);
    MiddleSlice(prefix + OPEN_FENCE, body, FENCE + rest);
  }

  /** The first opening fence of `prefix + OPEN_FENCE + tail` is the one after `prefix`. */
  lemma OpenFenceAt(prefix: string, tail: string)
    requires forall i :: 0 <= i < |prefix| ==> !OccursAt(prefix + OPEN_FENCE, OPEN_FENCE, i)
    ensures Find(prefix + OPEN_FENCE + tail, OPEN_FENCE) == |prefix|
    ensures Contains(prefix + OPEN_FENCE + tail, OPEN_FENCE)
  {
    var text := prefix + OPEN_FENCE + tail;
    var k := |prefix|;
    var s := k + |OPEN_FENCE|;
    assert text[k..s] == OPEN_FENCE;
    forall i | 0 <= i < k
      ensures !OccursAt(text, OPEN_FENCE, i)
    {
      if OccursAt(text, OPEN_FENCE, i) {
        assert text[0..s] == prefix + OPEN_FENCE;
        OccursWithin(text, prefix + OPEN_FENCE, 0, OPEN_FENCE, i);
      }
    }
    FindIs(text, OPEN_FENCE, k);
  }

  /** In `head + body + FENCE + rest`, the first fence from the end of `head` closes `body`. */
  lemma CloseFenceAt(head: string, body: string, rest: string)
    requires forall i :: 0 <= i < |body| ==> !OccursAt(body + FENCE, FENCE, i)
    ensures FindFrom(head + body + FENCE + rest, FENCE, |head|) == |head| + |body|
    ensures Contains(head + body + FENCE + rest, FENCE)
  {
    var text := head + body + FENCE + rest;
    var s := |head|;
    var e := s + |body|;
    assert text[e..e + 3] == FENCE;
    OccursContains(text, FENCE, e);
    forall i | s <= i < e
      ensures !OccursAt(text, FENCE, i)
    {
      if OccursAt(text, FENCE, i) {
        assert text[s..e + 3] == body + FENCE;
        OccursWithin(text, body + FENCE, s, FENCE, i);
      }
    }
    FindFromIs(text, FENCE, s, e);
  }

  /** An occurrence inside a known stretch of the text is an occurrence in that stretch. */
  lemma OccursWithin(text: string, mid: string, off: nat, sub: string, i: int)
    requires off + |mid| <= |text| && text[off..off + |mid|] == mid
    requires off <= i && i + |sub| <= off + |mid|
    requires OccursAt(text, sub, i)
    ensures OccursAt(mid, sub, i - off)
  {
    forall j | 0 <= j < |sub|
      ensures mid[i - off..i - off + |sub|][j] == sub[j]
    {
      assert mid[i - off + j] == text[off..off + |mid|][i - off + j];
      assert text[i..i + |sub|][j] == sub[j];
    }
    assert mid[i - off..i - off + |sub|] == sub;
  }

  lemma MiddleSlice<T>(a: seq<T>, b: seq<T>, c: seq<T>)
    ensures (a + b + c)[|a|..|a| + |b|] == b
  {
  }

  lemma FindFromIs(s: string, sub: string, from: nat, k: int)
    requires from <= k && OccursAt(s, sub, k)
    requires forall i :: from <= i < k ==> !OccursAt(s, sub, i)
    ensures FindFrom(s, sub, from) == k
  {
  }

  /** The change in bracket depth one character makes. */
  function Step(ch: char): int {
    if ch == '[' then 1 else if ch == ']' then -1 else 0
  }

  /** The number of `[` minus the number of `]`, brackets inside strings included. */
  function Depth(s: string): int {
    if s == [] then 0 else Depth(s[..|s| - 1]) + Step(s[|s| - 1])
  }

  /**
   * Scanning from `i` with running count `depth`: the first `]` that
   * brings the count to 0, or -1.
   */
  function CloseFrom(t: string, i: nat, depth: int): (r: int)
    requires i <= |t|
    ensures r == -1 || (i <= r < |t| && t[r] == ']')
    decreases |t| - i
  {
    if i == |t| then -1
    else if t[i] == ']' && depth - 1 == 0 then i
    else CloseFrom(t, i + 1, depth + Step(t[i]))
  }

  /** The index of the `]` that closes the array opening at `start`, or -1. */
  function ArrayEnd(t: string, start: nat): (e: int)
    requires start <= |t|
    ensures e == -1 || (start <= e < |t| && t[e] == ']')
  {
    CloseFrom(t, start, 0)
  }

  /** The depth counted from `start` through index `j`. */
  function DepthThrough(t: string, start: nat, j: nat): int
    requires start <= j < |t|
  {
    Depth(t[start..j + 1])
  }

  /** The bracket-matching loop of `load_json_cards`, from `start_idx`. */
  method FindArrayEnd(t: string, start: nat) returns (endIdx: int)
    requires start <= |t|
    ensures endIdx == ArrayEnd(t, start)
  {
    var bracketCount := 0;
    endIdx := -1;
    var i := start;
    while i < |t|
      invariant start <= i <= |t|
      invariant CloseFrom(t, i, bracketCount) == ArrayEnd(t, start)
    {
      if t[i] == '[' {
        bracketCount := bracketCount + 1;
      } else if t[i] == ']' {
        bracketCount := bracketCount - 1;
        if bracketCount == 0 {
          endIdx := i;
          break;
        }
      }
      i := i + 1;
    }
  }

  /**
   * The array opening at `start` closes at the first point where the
   * depth counted from `start` returns to 0, and the slice it bounds is
   * balanced; when it does not close, the depth stays positive to the end.
   */
  lemma ArrayEndBalanced(t: string, start: nat)
    requires start < |t| && t[start] == '['
    ensures var e := ArrayEnd(t, start);
      e == -1 || (start < e < |t| && t[e] == ']' && Depth(t[start..e + 1]) == 0)
    ensures var e := ArrayEnd(t, start);
      forall j :: start <= j < (if e == -1 then |t| else e) ==> DepthThrough(t, start, j) > 0
  {
    assert t[start..start] == [];
    CloseFromSpec(t, start, start, 0);
  }

  lemma {:induction false} CloseFromSpec(t: string, start: nat, i: nat, depth: int)
    requires start < |t| && t[start] == '['
    requires start <= i <= |t|
    requires depth == Depth(t[start..i])
    requires i > start ==> depth > 0
    requires forall j :: start <= j < i ==> DepthThrough(t, start, j) > 0
    ensures var e := CloseFrom(t, i, depth);
      e == -1 || (i <= e < |t| && start < e && t[e] == ']' && Depth(t[start..e + 1]) == 0)
    ensures var e := CloseFrom(t, i, depth);
      forall j :: start <= j < (if e == -1 then |t| else e) ==> DepthThrough(t, start, j) > 0
    decreases |t| - i
  {
    if i < |t| {
      assert t[start..i + 1][..i - start] == t[start..i];
      assert Depth(t[start..i + 1]) == depth + Step(t[i]);
      if t[i] == ']' && depth - 1 == 0 {
        assert i > start;
      } else {
        assert i == start ==> Step(t[i]) == 1;
        CloseFromSpec(t, start, i + 1, depth + Step(t[i]));
      }
    }
  }

  /**
   * What `load_json_cards(path)` returns, given whether the file exists,
   * its text (`None` when reading fails), and `json.loads` as `parse`
   * (`None` for a `JSONDecodeError`).
   */
  function LoadedCards(fileExists: bool, text: Option<string>, parse: string -> Option<Json>): (cards: Option<seq<Json>>)
    // Cards come only from a file that could be read, and never as an empty list.
    ensures cards.Some? ==> fileExists && text.Some? && cards.value != []
  {
    if !fileExists || text.None? then None
    else
      var cleaned := StripFence(text.value);
      var startIdx := Find(cleaned, "[");
      if startIdx == -1 then None
      else
        var endIdx := ArrayEnd(cleaned, startIdx);
        if endIdx == -1 then None
        else
          var data := parse(cleaned[startIdx..endIdx + 1]);
          if data.None? || Iterate(data.value).None? then None
          else
            var cards := ValidCards(Iterate(data.value).value);
            if cards.None? || cards.value == [] then None else cards
  }

  /** `load_json_cards(path)`. */
  method LoadJsonCards(fileExists: bool, text: Option<string>, parse: string -> Option<Json>)
    returns (cards: Option<seq<Json>>)
    ensures cards == LoadedCards(fileExists, text, parse)
    // No list of cards is ever empty.
    ensures cards.Some? ==> cards.value != []
  {
    if !fileExists || text.None? {
      return None;
    }
    var cleanedText := StripFence(text.value);
    var startIdx := Find(cleanedText, "[");
    if startIdx == -1 {
      return None;
    }
    var endIdx := FindArrayEnd(cleanedText, startIdx);
    if endIdx == -1 {
      return None;
    }
    var jsonText := cleanedText[startIdx..endIdx + 1];
    var data := parse(jsonText);
    if data.None? {
      return None;
    }
    var items := Iterate(data.value);
    if items.None? {
      return None;
    }
    cards := SelectCards(items.value);
    if cards.Some? && cards.value == [] {
      return None;
    }
  }

  /**
   * The text handed to `json.loads` starts at the first `[`, ends at the
   * `]` that first brings the depth back to 0, and is balanced.
   */
  lemma ParsedSliceBalanced(text: string)
    requires Find(StripFence(text), "[") >= 0
    requires ArrayEnd(StripFence(text), Find(StripFence(text), "[")) >= 0
    ensures var t := StripFence(text);
      var s := Find(t, "[");
      var e := ArrayEnd(t, s);
      t[s..e + 1][0] == '[' && t[s..e + 1][e - s] == ']' && Depth(t[s..e + 1]) == 0
      && forall i :: 0 <= i < s ==> t[i] != '['
  {
    var t := StripFence(text);
    var s := Find(t, "[");
    assert t[s..s + 1] == "[";
    forall i | 0 <= i < s
      ensures t[i] != '['
    {
      assert !OccursAt(t, "[", i);
      assert t[i..i + 1] == [t[i]];
    }
    ArrayEndBalanced(t, s);
  }

  /** Every loaded card is an item of the parsed list with both `front` and `back`. */
  lemma LoadedAreValid(fileExists: bool, text: Option<string>, parse: string -> Option<Json>, x: Json)
    requires LoadedCards(fileExists, text, parse).Some?
    requires x in LoadedCards(fileExists, text, parse).value
    ensures HasFrontBack(x) == Some(true)
  {
    var cleaned := StripFence(text.value);
    var startIdx := Find(cleaned, "[");
    var endIdx := ArrayEnd(cleaned, startIdx);
    var data := parse(cleaned[startIdx..endIdx + 1]);
    ValidCardsMembers(Iterate(data.value).value, x);
  }

  /** The connector `add_cards_to_anki` builds. */
  function Sender(deck: string): Connector {
    Connector(deck, "Basic", false, None)
  }

  /**
   * `add_cards_to_anki(cards, deck)`.  `ankiRunning` is what
   * `ensure_anki_running()` returns.
   */
  method AddCardsToAnki(cards: seq<Json>, deck: string, ankiRunning: bool, ask: Request -> Http)
    returns (outcome: Outcome<bool>, sent: seq<Request>)
    ensures !ankiRunning ==> outcome == Returned(false) && sent == []
    // No card is added unless the deck exists or was created.
    ensures ankiRunning && !DeckReady(deck, ask) ==> outcome == Returned(false) && forall r :: r in sent ==> !r.AddNote?
    ensures ankiRunning && DeckReady(deck, ask) ==> outcome == BatchOutcome(Sender(deck), cards, ask)
    ensures forall r :: r in sent && r.AddNote? ==> r.note.deckName == deck && r.note.modelName == "Basic" && !r.note.allowDuplicate
  {
    sent := [];
    if !ankiRunning {
      return Returned(false), sent;
    }
    var ready;
    ready, sent := CreateDeckIfNotExists(deck, ask);
    if !ready {
      return Returned(false), sent;
    }
    var connector := Sender(deck);
    var successCount, failedCount, more;
    outcome, successCount, failedCount, more := AddAll(connector, cards, ask);
    sent := sent + more;
  }
}
