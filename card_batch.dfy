/**
 * The batch loop of `add_cards_to_anki` (ai_tutor_anki/ai_tutor_json_to_anki.py)
 * and `add_cards_with_duplicates_allowed` (ai_tutor_anki/fix_duplicate_cards.py):
 * read each card's fields, call `add_card` inside a `try`, count successes
 * and failures, and report whether nothing failed.
 */
module CardBatch {
  import opened Optional
  import opened Json
  import opened AnkiApi
  import AnkiConnector

  /**
   * `card["front"]`, `card["back"]`, `card.get("source", "")` and the
   * `front[:50]` of the progress line, all outside the `try`; `None` where
   * one of them raises.
   */
  function CardFields(card: Json): (f: Option<(Json, Json, Json)>)
    ensures f.Some? <==>
      card.JObj? && Subscript(card, "front").Some? && Subscript(card, "back").Some? && Sliceable(Subscript(card, "front").value)
    ensures f.Some? ==>
      f.value.0 == Subscript(card, "front").value && f.value.1 == Subscript(card, "back").value
      && f.value.2 == GetOr(card, "source", JStr(""))
  {
    if !card.JObj? then None
    else match (Subscript(card, "front"), Subscript(card, "back"))
      case (Some(front), Some(back)) =>
        if Sliceable(front) then Some((front, back, GetOr(card, "source", JStr("")))) else None
      case _ => None
  }

  /** The text `add_card` cites for `source`: a string as it is, any falsy value as `''`. */
  function SourceText(source: Json): (t: Option<string>)
    ensures source == JStr("") || !Truthy(source) ==> t == Some("")
    ensures source.JStr? ==> t == Some(source.s)
  {
    if source.JStr? then Some(source.s) else if !Truthy(source) then Some("") else None
  }

  /**
   * What `connector.add_card(front, back, source)` gives for one card.
   * Front is posted as it is and Back is extended with `+=`, so a list
   * serves as well as a string; a truthy source that is not a string
   * raises when the citation is built, before anything is posted.
   */
  function CardOutcome(c: Connector, front: Json, back: Json, source: Json, ask: Request -> Http): (o: Outcome<bool>)
    ensures SourceText(source).None? || (!back.JStr? && !back.JArr?) ==> o == Raised
    ensures o == Returned(true) ==>
      SourceText(source).Some?
      && AnkiConnector.AddCardResult(c, front, back, SourceText(source).value, true, ask) == Returned(true)
  {
    if SourceText(source).Some? then
      AnkiConnector.AddCardResult(c, front, back, SourceText(source).value, true, ask)
    else Raised
  }

  /** The card is read and `add_card` returns True for it. */
  predicate Succeeds(c: Connector, card: Json, ask: Request -> Http) {
    CardFields(card).Some?
    && CardOutcome(c, CardFields(card).value.0, CardFields(card).value.1, CardFields(card).value.2, ask) == Returned(true)
  }

  /** Every card's fields can be read, so the loop runs to the end. */
  predicate AllReadable(cards: seq<Json>) {
    forall i :: 0 <= i < |cards| ==> CardFields(cards[i]).Some?
  }

  /** The number of `true` entries. */
  function CountTrue(bs: seq<bool>): (n: nat)
    ensures n <= |bs|
    ensures n == |bs| <==> forall i :: 0 <= i < |bs| ==> bs[i]
  {
    if bs == [] then 0
    else
      var init := bs[..|bs| - 1];
      assert forall i :: 0 <= i < |init| ==> init[i] == bs[i];
      CountTrue(init) + (if bs[|bs| - 1] then 1 else 0)
  }

  /** For each card, whether `add_card` returns True for it. */
  function Flags(c: Connector, cards: seq<Json>, ask: Request -> Http): (fs: seq<bool>)
    ensures |fs| == |cards|
    ensures forall i :: 0 <= i < |cards| ==> fs[i] == Succeeds(c, cards[i], ask)
  {
    seq(|cards|, i requires 0 <= i < |cards| => Succeeds(c, cards[i], ask))
  }

  /** The number of cards for which `add_card` returns True. */
  function Successes(c: Connector, cards: seq<Json>, ask: Request -> Http): nat {
    CountTrue(Flags(c, cards, ask))
  }

  /** The value the batch returns: True exactly when no card failed. */
  function BatchOutcome(c: Connector, cards: seq<Json>, ask: Request -> Http): (o: Outcome<bool>)
    ensures o == Raised <==> !AllReadable(cards)
    ensures o == Returned(true) ==> forall i :: 0 <= i < |cards| ==> Succeeds(c, cards[i], ask)
  {
    if !AllReadable(cards) then Raised else Returned(Successes(c, cards, ask) == |cards|)
  }

  /** The batch reports True exactly when every card was added and its note read back. */
  lemma BatchOutcomeMeaning(c: Connector, cards: seq<Json>, ask: Request -> Http)
    requires AllReadable(cards)
    ensures BatchOutcome(c, cards, ask) == Returned(forall i :: 0 <= i < |cards| ==> Succeeds(c, cards[i], ask))
  {
    var fs := Flags(c, cards, ask);
    assert (forall i :: 0 <= i < |fs| ==> fs[i]) <==> (forall i :: 0 <= i < |cards| ==> Succeeds(c, cards[i], ask));
  }

  lemma ReadableSnoc(cards: seq<Json>, i: int)
    requires 0 <= i < |cards|
    requires AllReadable(cards[..i]) && CardFields(cards[i]).Some?
    ensures AllReadable(cards[..i + 1])
  {
    assert forall j :: 0 <= j < i ==> cards[..i + 1][j] == cards[..i][j];
  }

  lemma FlagsSnoc(c: Connector, cards: seq<Json>, i: int, ask: Request -> Http)
    requires 0 <= i < |cards|
    ensures Flags(c, cards[..i + 1], ask) == Flags(c, cards[..i], ask) + [Succeeds(c, cards[i], ask)]
  {
  }

  /** A note built by connector `c`: its deck, note type and duplicate flag, and no tags. */
  predicate NoteOf(c: Connector, n: NotePayload) {
    n.deckName == c.deckName && n.modelName == c.noteType && n.allowDuplicate == c.allowDuplicate && n.tags == []
  }

  /**
   * One pass of the loop body: read the card, then `add_card` inside the
   * `try`.  The note is posted exactly when the source is usable and Back
   * is a string or a list, whatever Front holds.
   */
  method AddOne(c: Connector, card: Json, ask: Request -> Http)
    returns (fields: Option<(Json, Json, Json)>, success: bool, sent: seq<Request>)
    requires c.backImage.None?
    ensures fields == CardFields(card)
    ensures success <==> Succeeds(c, card, ask)
    ensures fields.Some? && SourceText(fields.value.2).Some? && (fields.value.1.JStr? || fields.value.1.JArr?) ==>
      var note := AnkiConnector.Payload(c, fields.value.0, fields.value.1, SourceText(fields.value.2).value).value;
      sent != [] && sent[0] == AddNote(note) && note.front == fields.value.0
    ensures fields.None? || SourceText(fields.value.2).None? || (!fields.value.1.JStr? && !fields.value.1.JArr?) ==>
      sent == [] && !success
    ensures forall r :: r in sent && r.AddNote? ==> NoteOf(c, r.note)
  {
    fields := CardFields(card);
    sent := [];
    success := false;
    if fields.None? {
      return;
    }
    var (front, back, source) := fields.value;
    if SourceText(source).Some? {
      var outcome;
      outcome, sent := AnkiConnector.AddCard(c, front, back, SourceText(source).value, true, ask);
      success := outcome == Returned(true);
    }
  }

  /**
   * The `for i, card in enumerate(cards, 1)` loop with its counters; the
   * connectors these scripts build carry no image.  `sent` lists the
   * requests posted, in order.
   */
  method AddAll(c: Connector, cards: seq<Json>, ask: Request -> Http)
    returns (outcome: Outcome<bool>, successCount: nat, failedCount: nat, sent: seq<Request>)
    requires c.backImage.None?
    ensures outcome == BatchOutcome(c, cards, ask)
    ensures outcome != Raised ==> successCount + failedCount == |cards| && successCount == Successes(c, cards, ask)
    ensures outcome != Raised ==> outcome == Returned(failedCount == 0)
    ensures forall r :: r in sent && r.AddNote? ==> NoteOf(c, r.note)
  {
    successCount, failedCount := 0, 0;
    sent := [];
    ghost var flags: seq<bool> := [];
    var i := 0;
    while i < |cards|
      invariant 0 <= i <= |cards|
      invariant AllReadable(cards[..i])
      invariant flags == Flags(c, cards[..i], ask)
      invariant successCount + failedCount == i
      invariant successCount == CountTrue(flags)
      invariant forall r :: r in sent && r.AddNote? ==> NoteOf(c, r.note)
    {
      var fields, success, more := AddOne(c, cards[i], ask);
      if fields.None? {
        return Raised, successCount, failedCount, sent;
      }
      sent := sent + more;
      ReadableSnoc(cards, i);
      FlagsSnoc(c, cards, i, ask);
      flags := flags + [success];
      if success {
        successCount := successCount + 1;
      } else {
        failedCount := failedCount + 1;
      }
      i := i + 1;
    }
    assert cards[..i] == cards;
    outcome := Returned(failedCount == 0);
  }
}
