/**
 * What the card-file scripts share: the `"front" in item and "back" in item`
 * check their `load_json_cards` applies to every loaded item, and
 * `create_deck_if_not_exists`, written out identically in
 * ai_tutor_anki/ai_tutor_json_to_anki.py and ai_tutor_anki/fix_duplicate_cards.py.
 */
module CardFiles {
  import opened Optional
  import opened Json
  import opened AnkiApi

  /** `"front" in item and "back" in item`; `None` where an `in` raises TypeError. */
  function HasFrontBack(item: Json): (r: Option<bool>)
    ensures r == Some(true) <==> In("front", item) == Some(true) && In("back", item) == Some(true)
    ensures r == Some(false) <==> In("front", item) == Some(false) || (In("front", item) == Some(true) && In("back", item) == Some(false))
  {
    match In("front", item)
    case None => None
    case Some(hasFront) => if hasFront then In("back", item) else Some(false)
  }

  /** The validation loop's result: the items with both keys, in order; `None` if a test raises. */
  function ValidCards(items: seq<Json>): (cards: Option<seq<Json>>)
    ensures cards.Some? ==> |cards.value| <= |items|
    ensures cards.Some? ==> forall k :: 0 <= k < |cards.value| ==> HasFrontBack(cards.value[k]) == Some(true)
  {
    if items == [] then Some([])
    else
      var init := ValidCards(items[..|items| - 1]);
      var last := items[|items| - 1];
      if init.None? || HasFrontBack(last).None? then None
      else if HasFrontBack(last).value then Some(init.value + [last])
      else init
  }

  /** `for item in data: if "front" in item and "back" in item: cards.append(item)` */
  method SelectCards(items: seq<Json>) returns (cards: Option<seq<Json>>)
    ensures cards == ValidCards(items)
  {
    var acc := [];
    var i := 0;
    while i < |items|
      invariant 0 <= i <= |items|
      invariant ValidCards(items[..i]) == Some(acc)
    {
      assert items[..i + 1][..i] == items[..i];
      var keep := HasFrontBack(items[i]);
      if keep.None? {
        ValidCardsSpec(items);
        return None;
      }
      if keep.value {
        acc := acc + [items[i]];
      }
      i := i + 1;
    }
    assert items[..i] == items;
    cards := Some(acc);
  }

  /** The check succeeds exactly when no membership test raises. */
  lemma {:induction false} ValidCardsSpec(items: seq<Json>)
    ensures ValidCards(items).Some? <==> forall i :: 0 <= i < |items| ==> HasFrontBack(items[i]).Some?
    decreases |items|
  {
    if items != [] {
      var prefix := items[..|items| - 1];
      ValidCardsSpec(prefix);
      assert forall i :: 0 <= i < |prefix| ==> prefix[i] == items[i];
    }
  }

  /** The kept items are exactly the items that have both keys. */
  lemma {:induction false} ValidCardsMembers(items: seq<Json>, x: Json)
    requires ValidCards(items).Some?
    ensures x in ValidCards(items).value <==> x in items && HasFrontBack(x) == Some(true)
    ensures |ValidCards(items).value| <= |items|
    decreases |items|
  {
    if items != [] {
      var prefix := items[..|items| - 1];
      assert items == prefix + [items[|items| - 1]];
      ValidCardsMembers(prefix, x);
    }
  }

  /** The check keeps the order of the file: checking two lists in turn concatenates the results. */
  lemma {:induction false} ValidCardsAppend(a: seq<Json>, b: seq<Json>)
    requires ValidCards(a).Some? && ValidCards(b).Some?
    ensures ValidCards(a + b) == Some(ValidCards(a).value + ValidCards(b).value)
    decreases |b|
  {
    if b == [] {
      assert a + b == a;
      assert ValidCards(a).value + [] == ValidCards(a).value;
    } else {
      var init := b[..|b| - 1];
      assert (a + b)[..|a + b| - 1] == a + init;
      assert (a + b)[|a + b| - 1] == b[|b| - 1];
      var last := b[|b| - 1];
      assert ValidCards(init).Some?;
      ValidCardsAppend(a, init);
      var ca, ci := ValidCards(a).value, ValidCards(init).value;
      if HasFrontBack(last).value {
        assert ValidCards(b).value == ci + [last];
        assert ValidCards(a + b).value == (ca + ci) + [last];
        assert (ca + ci) + [last] == ca + (ci + [last]);
      } else {
        assert ValidCards(b).value == ci;
      }
    }
  }

  /**
   * Whether `deck_names` (the `deckNames` reply's `result`, default `[]`)
   * lists `deck`; `None` where the call or reading the reply raises, or
   * the status is not 200.
   */
  function DeckListed(r: Http, deck: string): (listed: Option<bool>)
    ensures listed.Some? ==> r.Reply? && r.status == 200 && r.body.Some? && r.body.value.JObj?
  {
    if r.Reply? && r.status == 200 && r.body.Some? && r.body.value.JObj? then
      In(deck, GetOr(r.body.value, "result", JArr([])))
    else None
  }

  /** Whether `create_deck_if_not_exists(deck)` returns True: the deck is listed, or creating it is accepted. */
  predicate DeckReady(deck: string, ask: Request -> Http) {
    match DeckListed(ask(DeckNames), deck)
    case None => false
    case Some(listed) => listed || Accepted(ask(CreateDeck(deck)))
  }

  /**
   * `create_deck_if_not_exists(deck)`.  The `deckNames` reply's own
   * `error` is not consulted.  `sent` lists the requests posted, in order.
   */
  method CreateDeckIfNotExists(deck: string, ask: Request -> Http) returns (ok: bool, sent: seq<Request>)
    ensures ok <==> DeckReady(deck, ask)
    ensures |sent| >= 1 && sent[0] == DeckNames
    // An existing deck is not created again.
    ensures DeckListed(ask(DeckNames), deck) == Some(true) ==> ok && sent == [DeckNames]
    ensures DeckListed(ask(DeckNames), deck).None? ==> !ok && sent == [DeckNames]
    ensures DeckListed(ask(DeckNames), deck) == Some(false) ==>
      sent == [DeckNames, CreateDeck(deck)] && (ok <==> Accepted(ask(CreateDeck(deck))))
    // The deck is created only when it is absent.
    ensures CreateDeck(deck) in sent <==> DeckListed(ask(DeckNames), deck) == Some(false)
  {
    var list := DeckNames;
    sent := [list];
    var r := ask(list);
    if r.Failed? || r.status != 200 {
      return false, sent;
    }
    if r.body.None? || !r.body.value.JObj? {
      return false, sent;
    }
    var present := In(deck, GetOr(r.body.value, "result", JArr([])));
    if present.None? {
      return false, sent;
    }
    if present.value {
      return true, sent;
    }
    var create := CreateDeck(deck);
    sent := sent + [create];
    var created := ask(create);
    if created.Failed? || created.status != 200 {
      return false, sent;
    }
    if created.body.None? || !created.body.value.JObj? {
      return false, sent;
    }
    ok := !Truthy(Get(created.body.value, "error"));
  }
}
