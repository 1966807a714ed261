/**
 * ai_tutor_anki/anki_duplicate_cleaner.py: for every card of a JSON file,
 * search the deck for notes with the same Front text, collect every note
 * record the search returns, and, only in live mode, delete all of them
 * in one call.
 */
module DuplicateCleaner {
  import opened Optional
  import opened PyText
  import opened Json
  import opened AnkiApi
  import opened CardFiles

  const DEFAULT_DECK := "...IBAC25"

  /** The `findNotes` query `find_notes_by_content` builds; nothing in it is escaped. */
  function Query(frontText: string, deck: string): (q: string)
    // The deck name and the front text are placed between quotes as they are.
    ensures |q| == |deck| + |frontText| + 16
    ensures q[6..6 + |deck|] == deck && q[|q| - 1 - |frontText|..|q| - 1] == frontText
  {
    "deck:\"" + deck + "\" Front:\"" + frontText + "\""
  }

  /** Without quotes in the deck name, the query determines both the deck and the front text. */
  lemma {:induction false} QueryDeterminesParts(f1: string, d1: string, f2: string, d2: string)
    requires '"' !in d1 && '"' !in d2
    requires Query(f1, d1) == Query(f2, d2)
    ensures d1 == d2 && f1 == f2
  {
    var q := Query(f1, d1);
    assert q == Query(f2, d2);
    assert q[..6] == "deck:\"";
    assert forall i :: 0 <= i < |d1| ==> q[6 + i] == d1[i];
    assert forall i :: 0 <= i < |d2| ==> q[6 + i] == d2[i];
    assert q[6 + |d1|] == '"' && q[6 + |d2|] == '"';
    if |d1| != |d2| {
      assert false;
    }
    assert d1 == q[6..6 + |d1|] == d2;
    var k := 6 + |d1| + 9;
    assert q[k..|q| - 1] == f1;
    assert q[k..|q| - 1] == f2;
  }

  /**
   * Because nothing is escaped, a quote in the deck name can make two
   * searches collide: for every deck `d` and texts `m` and `f`, the deck
   * `d" Front:"m` with front `f` and the deck `d` with front `m" Front:"f`
   * give the same query, e.g. `Query("c", "a\" Front:\"b") == Query("b\" Front:\"c", "a")`.
   */
  lemma QueryCollides(d: string, m: string, f: string)
    ensures d + "\" Front:\"" + m != d
    ensures Query(f, d + "\" Front:\"" + m) == Query(m + "\" Front:\"" + f, d)
  {
    assert |d + "\" Front:\"" + m| > |d|;
  }

  /** One entry of `found_duplicates`. */
  datatype Found = Found(noteId: Json, front: Json, back: Json, card: Json)

  /**
   * What the inner loop reads from one `notesInfo` record, including the
   * `[:50]` slices it prints; `None` where one of those steps raises.
   */
  function ReadRecord(noteInfo: Json, card: Json): (r: Option<Found>)
    ensures r.Some? ==> noteInfo.JObj? && r.value.noteId == Get(noteInfo, "noteId") && r.value.card == card
  {
    if !noteInfo.JObj? then None
    else
      var fields := GetOr(noteInfo, "fields", JObj([]));
      if !fields.JObj? then None
      else
        var frontObj := GetOr(fields, "Front", JObj([]));
        var backObj := GetOr(fields, "Back", JObj([]));
        if !frontObj.JObj? || !backObj.JObj? then None
        else
          var frontField := GetOr(frontObj, "value", JStr(""));
          var backField := GetOr(backObj, "value", JStr(""));
          if !Sliceable(frontField) || !Sliceable(backField) then None
          else Some(Found(Get(noteInfo, "noteId"), frontField, backField, card))
  }

  /** The entries the inner loop appends for `card`; `None` if a record cannot be read. */
  function ReadAll(records: seq<Json>, card: Json): Option<seq<Found>> {
    if records == [] then Some([])
    else
      var init := ReadAll(records[..|records| - 1], card);
      var last := ReadRecord(records[|records| - 1], card);
      if init.None? || last.None? then None else Some(init.value + [last.value])
  }

  /** Every record is read in place, and each entry remembers the card. */
  lemma {:induction false} ReadAllSpec(records: seq<Json>, card: Json)
    requires ReadAll(records, card).Some?
    ensures |ReadAll(records, card).value| == |records|
    ensures forall k :: 0 <= k < |records| ==> ReadRecord(records[k], card) == Some(ReadAll(records, card).value[k])
    decreases |records|
  {
    if records != [] {
      var init := records[..|records| - 1];
      ReadAllSpec(init, card);
      assert forall k :: 0 <= k < |init| ==> init[k] == records[k];
    }
  }

  /** What scanning some cards produced: the entries found, the requests posted, and whether it raised. */
  datatype Scan = Scan(found: seq<Found>, sent: seq<Request>, raised: bool)

  /** The search `find_and_clean_duplicates` posts for a card's front. */
  function CardSearch(front: Json, deck: string): Request {
    FindNotes(Query(PyStr(front), deck))
  }

  /** One pass of the outer loop for `card`. */
  function CardScan(card: Json, deck: string, ask: Request -> Http): (s: Scan)
    // At most a search for the front and a fetch of what it found; entries only after both.
    ensures |s.sent| <= 2 && forall r :: r in s.sent ==> r.FindNotes? || r.NotesInfo?
    ensures s.sent != [] ==> Subscript(card, "front").Some? && s.sent[0] == CardSearch(Subscript(card, "front").value, deck)
    ensures s.found != [] ==> |s.sent| == 2 && !s.raised
  {
    match Subscript(card, "front")
    case None => Scan([], [], true)
    case Some(front) =>
      if !Sliceable(front) then Scan([], [], true)
      else
        var search := CardSearch(front, deck);
        var noteIds := CollapseToList(ask(search));
        if !Truthy(noteIds) then Scan([], [search], false)
        else if !HasLen(noteIds) then Scan([], [search], true)
        else
          var info := NotesInfo(noteIds);
          var notesInfo := CollapseToList(ask(info));
          match Iterate(notesInfo)
          case None => Scan([], [search, info], true)
          case Some(records) =>
            match ReadAll(records, card)
            case None => Scan([], [search, info], true)
            case Some(entries) => Scan(entries, [search, info], false)
  }

  /** Running the scan `t` after `s`: nothing more happens once `s` has raised. */
  function Then(s: Scan, t: Scan): Scan {
    if s.raised then s else Scan(s.found + t.found, s.sent + t.sent, t.raised)
  }

  /** The outer loop over `cards`, stopping at the first card that raises. */
  function ScanCards(cards: seq<Json>, deck: string, ask: Request -> Http): (s: Scan)
    ensures |s.sent| <= 2 * |cards|
  {
    if cards == [] then Scan([], [], false)
    else Then(ScanCards(cards[..|cards| - 1], deck, ask), CardScan(cards[|cards| - 1], deck, ask))
  }

  /** `len(note_ids)` is defined (strings, lists, dicts). */
  predicate HasLen(j: Json) {
    j.JStr? || j.JArr? || j.JObj?
  }

  /** `[dup['note_id'] for dup in found_duplicates]` */
  function NoteIds(found: seq<Found>): (ids: seq<Json>)
    ensures |ids| == |found| && forall k :: 0 <= k < |found| ==> ids[k] == found[k].noteId
  {
    seq(|found|, k requires 0 <= k < |found| => found[k].noteId)
  }

  /** The batched deletion live mode posts. */
  function Deletion(found: seq<Found>): Request {
    DeleteNotes(JArr(NoteIds(found)))
  }

  /**
   * `for note_info in notes_info:` appending one entry per record to
   * `found_duplicates`.
   */
  method CollectRecords(records: seq<Json>, card: Json, found: seq<Found>) returns (ok: bool, collected: seq<Found>)
    ensures ok <==> ReadAll(records, card).Some?
    ensures ok ==> collected == found + ReadAll(records, card).value
  {
    collected := found;
    var j := 0;
    while j < |records|
      invariant 0 <= j <= |records|
      invariant ReadAll(records[..j], card).Some?
      invariant collected == found + ReadAll(records[..j], card).value
    {
      assert records[..j + 1][..j] == records[..j];
      var entry := ReadRecord(records[j], card);
      if entry.None? {
        ReadAllFails(records, j, card);
        return false, collected;
      }
      collected := collected + [entry.value];
      j := j + 1;
    }
    assert records[..j] == records;
    ok := true;
  }

  lemma ReadAllFails(records: seq<Json>, j: int, card: Json)
    requires 0 <= j < |records| && ReadRecord(records[j], card).None?
    ensures ReadAll(records, card).None?
  {
    if ReadAll(records, card).Some? {
      ReadAllSpec(records, card);
    }
  }

  /** One pass of the outer loop: the search, the info fetch and the inner loop. */
  method CheckCard(card: Json, deck: string, ask: Request -> Http, found: seq<Found>)
    returns (raised: bool, collected: seq<Found>, sent: seq<Request>)
    ensures raised == CardScan(card, deck, ask).raised
    ensures sent == CardScan(card, deck, ask).sent
    ensures !raised ==> collected == found + CardScan(card, deck, ask).found
  {
    collected := found;
    sent := [];
    var front := Subscript(card, "front");
    if front.None? || !Sliceable(front.value) {
      return true, collected, sent;
    }
    var search := CardSearch(front.value, deck);
    sent := [search];
    var noteIds := CollapseToList(ask(search));
    if !Truthy(noteIds) {
      return false, collected, sent;
    }
    if !HasLen(noteIds) {
      return true, collected, sent;
    }
    var info := NotesInfo(noteIds);
    sent := sent + [info];
    var notesInfo := CollapseToList(ask(info));
    var records := Iterate(notesInfo);
    if records.None? {
      return true, collected, sent;
    }
    var ok;
    ok, collected := CollectRecords(records.value, card, found);
    raised := !ok;
  }

  /**
   * `find_and_clean_duplicates(cards, deck, dry_run)`.  `ask` gives the
   * server's reply to each request; `sent` lists the requests posted.
   */
  method FindAndCleanDuplicates(cards: seq<Json>, deck: string, dryRun: bool, ask: Request -> Http)
    returns (outcome: Outcome<bool>, sent: seq<Request>)
    ensures ScanCards(cards, deck, ask).raised ==> outcome == Raised && sent == ScanCards(cards, deck, ask).sent
    // Finding nothing returns True in either mode; a dry run returns True and deletes nothing.
    ensures !ScanCards(cards, deck, ask).raised && (ScanCards(cards, deck, ask).found == [] || dryRun) ==>
      outcome == Returned(true) && sent == ScanCards(cards, deck, ask).sent
    // Live mode with findings returns exactly the result of the single deletion.
    ensures !ScanCards(cards, deck, ask).raised && ScanCards(cards, deck, ask).found != [] && !dryRun ==>
      var delete := Deletion(ScanCards(cards, deck, ask).found);
      sent == ScanCards(cards, deck, ask).sent + [delete] && outcome == Returned(CollapseToBool(ask(delete)))
  {
    var found := [];
    sent := [];
    var i := 0;
    while i < |cards|
      invariant 0 <= i <= |cards|
      invariant ScanCards(cards[..i], deck, ask) == Scan(found, sent, false)
    {
      assert cards[..i + 1][..i] == cards[..i];
      var raised, collected, more := CheckCard(cards[i], deck, ask, found);
      sent := sent + more;
      if raised {
        ScanStops(cards, i + 1, deck, ask);
        return Raised, sent;
      }
      found := collected;
      i := i + 1;
    }
    assert cards[..i] == cards;
    if found != [] && !dryRun {
      var noteIdsToDelete := NoteIds(found);
      var delete := DeleteNotes(JArr(noteIdsToDelete));
      sent := sent + [delete];
      outcome := Returned(CollapseToBool(ask(delete)));
    } else {
      outcome := Returned(true);
    }
  }

  /** Once a card raises, the later cards are not scanned. */
  lemma {:induction false} ScanStops(cards: seq<Json>, n: int, deck: string, ask: Request -> Http)
    requires 0 <= n <= |cards| && ScanCards(cards[..n], deck, ask).raised
    ensures ScanCards(cards, deck, ask) == ScanCards(cards[..n], deck, ask)
    decreases |cards| - n
  {
    if n < |cards| {
      assert cards[..n + 1][..n] == cards[..n];
      ScanStops(cards, n + 1, deck, ask);
    } else {
      assert cards[..n] == cards;
    }
  }

  /** Only searches and info fetches are posted while scanning. */
  lemma {:induction false} ScanOnlyReads(cards: seq<Json>, deck: string, ask: Request -> Http)
    ensures forall r :: r in ScanCards(cards, deck, ask).sent ==> r.FindNotes? || r.NotesInfo?
    decreases |cards|
  {
    if cards != [] {
      ScanOnlyReads(cards[..|cards| - 1], deck, ask);
    }
  }

  lemma ThenAssociative(s: Scan, u: Scan, t: Scan)
    ensures Then(Then(s, u), t) == Then(s, Then(u, t))
  {
    if !s.raised && !u.raised {
      assert (s.found + u.found) + t.found == s.found + (u.found + t.found);
      assert (s.sent + u.sent) + t.sent == s.sent + (u.sent + t.sent);
    }
  }

  /**
   * Scanning is card by card: scanning two lists in turn is scanning the
   * second after the first, so entries come in card order, then record order.
   */
  lemma {:induction false} ScanAppend(a: seq<Json>, b: seq<Json>, deck: string, ask: Request -> Http)
    ensures ScanCards(a + b, deck, ask) == Then(ScanCards(a, deck, ask), ScanCards(b, deck, ask))
    decreases |b|
  {
    var sa := ScanCards(a, deck, ask);
    if b == [] {
      assert a + b == a;
      assert sa.found + [] == sa.found && sa.sent + [] == sa.sent;
    } else {
      var init := b[..|b| - 1];
      assert (a + b)[..|a + b| - 1] == a + init;
      assert (a + b)[|a + b| - 1] == b[|b| - 1];
      ScanAppend(a, init, deck, ask);
      ThenAssociative(sa, ScanCards(init, deck, ask), CardScan(b[|b| - 1], deck, ask));
    }
  }

  /** A card listed twice contributes its matches twice. */
  lemma RepeatedCardRepeatsMatches(card: Json, deck: string, ask: Request -> Http)
    requires !CardScan(card, deck, ask).raised
    ensures ScanCards([card, card], deck, ask).found == CardScan(card, deck, ask).found + CardScan(card, deck, ask).found
  {
    var t := CardScan(card, deck, ask);
    assert [card][..0] == [];
    assert [] + t.found == t.found && [] + t.sent == t.sent;
    assert ScanCards([card], deck, ask) == t;
    assert [card] + [card] == [card, card];
    ScanAppend([card], [card], deck, ask);
  }

  /**
   * The entries a card contributes: one per record the info fetch
   * returns, each naming that record's `noteId`, in record order.
   */
  lemma CardEntries(card: Json, deck: string, ask: Request -> Http)
    requires !CardScan(card, deck, ask).raised
    requires CardScan(card, deck, ask).found != []
    ensures var front := Subscript(card, "front").value;
      var noteIds := CollapseToList(ask(CardSearch(front, deck)));
      var records := Iterate(CollapseToList(ask(NotesInfo(noteIds)))).value;
      var entries := CardScan(card, deck, ask).found;
      |entries| == |records|
      && forall k :: 0 <= k < |records| ==> records[k].JObj? && entries[k].noteId == Get(records[k], "noteId") && entries[k].card == card
  {
    var front := Subscript(card, "front").value;
    var noteIds := CollapseToList(ask(CardSearch(front, deck)));
    var records := Iterate(CollapseToList(ask(NotesInfo(noteIds)))).value;
    ReadAllSpec(records, card);
  }

  /** A dry run never deletes. */
  lemma DryRunNeverDeletes(cards: seq<Json>, deck: string, ask: Request -> Http)
    ensures forall r :: r in ScanCards(cards, deck, ask).sent ==> !r.DeleteNotes?
  {
    ScanOnlyReads(cards, deck, ask);
  }

  /** What `load_json_cards(path)` returns, given what `json.load` reads (`None` when that raises). */
  function LoadedCards(data: Option<Json>): Option<seq<Json>> {
    if data.None? || Iterate(data.value).None? then None else ValidCards(Iterate(data.value).value)
  }

  /** `load_json_cards(path)`; unlike the importer's, it may return an empty list. */
  method LoadJsonCards(data: Option<Json>) returns (cards: Option<seq<Json>>)
    ensures cards == LoadedCards(data)
  {
    if data.None? {
      return None;
    }
    var items := Iterate(data.value);
    if items.None? {
      return None;
    }
    cards := SelectCards(items.value);
  }

  /** A list with no card that has both keys loads as an empty list. */
  lemma NoValidCardLoadsEmpty(items: seq<Json>)
    requires forall i :: 0 <= i < |items| ==> HasFrontBack(items[i]) == Some(false)
    ensures LoadedCards(Some(JArr(items))) == Some([])
  {
    ValidCardsSpec(items);
    if ValidCards(items).value != [] {
      var x := ValidCards(items).value[0];
      ValidCardsMembers(items, x);
    }
  }

  /** The deck argument: `argv[2]` unless absent or a `--` flag. */
  function DeckArg(argv: seq<string>): (deck: string)
    ensures !StartsWith(deck, "--")
    ensures |argv| > 2 && !StartsWith(argv[2], "--") ==> deck == argv[2]
  {
    if |argv| > 2 && !StartsWith(argv[2], "--") then argv[2]
    else assert DEFAULT_DECK[..2] == ".."; DEFAULT_DECK
  }

  /** The run is dry unless `--live` appears anywhere in `argv`. */
  predicate DryRun(argv: seq<string>) {
    "--live" !in argv
  }

  /** `main`'s reading of `argv`: the JSON path, the deck and the mode, or `None` for the usage exit. */
  function ParseArgs(argv: seq<string>): (r: Option<(string, string, bool)>)
    ensures r.Some? <==> |argv| >= 2
    ensures r.Some? ==> r.value.0 == argv[1] && r.value.1 == DeckArg(argv) && (r.value.2 <==> "--live" !in argv)
  {
    if |argv| < 2 then None else Some((argv[1], DeckArg(argv), DryRun(argv)))
  }

  /**
   * Every three-argument call whose last argument does not start with `--`
   * (and with no `--live` before it) is a dry run on that deck.
   */
  lemma FileAndDeckIsDryRun(prog: string, path: string, deck: string)
    requires !StartsWith(deck, "--") && path != "--live" && prog != "--live"
    ensures ParseArgs([prog, path, deck]) == Some((path, deck, true))
  {
    assert StartsWith("--live", "--");
  }

  /** Every three-argument call ending in `--live` is a live run on the default deck. */
  lemma LiveFlagInDeckPosition(prog: string, path: string)
    ensures ParseArgs([prog, path, "--live"]) == Some((path, DEFAULT_DECK, false))
  {
    assert StartsWith("--live", "--");
  }
}
