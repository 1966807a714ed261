/**
 * ai_tutor_anki/fix_duplicate_cards.py: the same loading and batch as the
 * JSON importer, except that the file must be a plain JSON list and the
 * connector allows duplicates, so that notes stuck in Anki's duplicate
 * detection can be added again.
 */
module FixDuplicateCards {
  import opened Optional
  import opened Json
  import opened AnkiApi
  import opened CardFiles
  import opened CardBatch

  /**
   * What `load_json_cards(path)` returns, given whether the file exists and
   * what `json.load` reads from it (`None` when opening or parsing fails).
   */
  function LoadedCards(fileExists: bool, data: Option<Json>): Option<seq<Json>> {
    if !fileExists || data.None? || Iterate(data.value).None? then None
    else
      var cards := ValidCards(Iterate(data.value).value);
      if cards.None? || cards.value == [] then None else cards
  }

  /** `load_json_cards(path)`. */
  method LoadJsonCards(fileExists: bool, data: Option<Json>) returns (cards: Option<seq<Json>>)
    ensures cards == LoadedCards(fileExists, data)
    ensures cards.Some? ==> cards.value != []
  {
    if !fileExists || data.None? {
      return None;
    }
    var items := Iterate(data.value);
    if items.None? {
      return None;
    }
    cards := SelectCards(items.value);
    if cards.Some? && cards.value == [] {
      return None;
    }
  }

  /** A list that holds a card with both keys, and no item on which `in` raises, loads. */
  lemma ListWithACardLoads(items: seq<Json>, k: int)
    requires 0 <= k < |items| && HasFrontBack(items[k]) == Some(true)
    requires forall i :: 0 <= i < |items| ==> HasFrontBack(items[i]).Some?
    ensures LoadedCards(true, Some(JArr(items))).Some?
    ensures items[k] in LoadedCards(true, Some(JArr(items))).value
  {
    ValidCardsSpec(items);
    ValidCardsMembers(items, items[k]);
  }

  /** The connector `add_cards_with_duplicates_allowed` builds. */
  function Sender(deck: string): Connector {
    Connector(deck, "Basic", true, None)
  }

  /**
   * `add_cards_with_duplicates_allowed(cards, deck)`.  `ankiRunning` is
   * what `ensure_anki_running()` returns.
   */
  method AddCardsWithDuplicatesAllowed(cards: seq<Json>, deck: string, ankiRunning: bool, ask: Request -> Http)
    returns (outcome: Outcome<bool>, sent: seq<Request>)
    ensures !ankiRunning ==> outcome == Returned(false) && sent == []
    // Nothing is added when the deck cannot be created or accessed.
    ensures ankiRunning && !DeckReady(deck, ask) ==> outcome == Returned(false) && forall r :: r in sent ==> !r.AddNote?
    ensures ankiRunning && DeckReady(deck, ask) ==> outcome == BatchOutcome(Sender(deck), cards, ask)
    // Every note is posted as a Basic note with duplicates allowed.
    ensures forall r :: r in sent && r.AddNote? ==> r.note.deckName == deck && r.note.modelName == "Basic" && r.note.allowDuplicate
  {
    sent := [];
    if !ankiRunning {
      return Returned(false), sent;
    }
    var ready;
    ready, sent := CreateDeckIfNotExists(deck, ask);
    if !ready {
      return Returned(false), sent;
    }
    var connector := Sender(deck);
    var successCount, failedCount, more;
    outcome, successCount, failedCount, more := AddAll(connector, cards, ask);
    sent := sent + more;
  }
}
