/**
 * Whole-deck deduplication (ai_tutor_anki/remove_duplicate_cards.py):
 * fetch every note of a deck, group the notes by their stripped Front
 * field, keep the most recently modified note of each group and delete
 * the others in one batched call.
 */
module RemoveDuplicates {
  import opened Optional
  import opened PyText
  import opened Json
  import opened AnkiApi

  /** What the grouping loop reads from one `notesInfo` record. */
  datatype NoteEntry = NoteEntry(noteId: Json, front: string, mod: int)

  /** `note_info.get('mod', 0)` where it is an integer (a bool counts as one). */
  function ModValue(j: Json): Option<int> {
    match j
    case JInt(i) => Some(i)
    case JBool(b) => Some(if b then 1 else 0)
    case _ => None
  }

  /**
   * One record as the loop reads it; `None` where the record, `fields` or
   * `Front` is not a dict, the value is not a string, or a note with a
   * non-empty front has a `mod` that is not an integer.
   */
  function DecodeNote(j: Json): (r: Option<NoteEntry>)
    ensures r.Some? ==> j.JObj? && r.value.noteId == Get(j, "noteId")
    ensures r.Some? && r.value.front == "" ==> r.value.mod == 0
  {
    if !j.JObj? then None
    else
      var fields := GetOr(j, "fields", JObj([]));
      if !fields.JObj? then None
      else
        var frontField := GetOr(fields, "Front", JObj([]));
        if !frontField.JObj? then None
        else
          var value := GetOr(frontField, "value", JStr(""));
          if !value.JStr? then None
          else
            var front := Strip(value.s);
            if front == "" then Some(NoteEntry(Get(j, "noteId"), front, 0))
            else match ModValue(GetOr(j, "mod", JInt(0)))
              case Some(m) => Some(NoteEntry(Get(j, "noteId"), front, m))
              case None => None
  }

  /**
   * What `DecodeNote` reads from a record: the front is the stripped
   * `fields.Front.value`, each level defaulting to an empty dict or an
   * empty string when it is missing, and the mod is `get('mod', 0)`.
   */
  lemma DecodeNoteReads(j: Json)
    // The front is the stripped `fields.Front.value`, each level defaulting
    // to an empty dict or an empty string when it is missing.
    ensures DecodeNote(j).Some? ==>
      var fields := GetOr(j, "fields", JObj([]));
      && fields.JObj?
      && GetOr(fields, "Front", JObj([])).JObj?
      && GetOr(GetOr(fields, "Front", JObj([])), "value", JStr("")).JStr?
      && DecodeNote(j).value.front == Strip(GetOr(GetOr(fields, "Front", JObj([])), "value", JStr("")).s)
    // A grouped note's mod is its `mod`, read as an integer; a missing `mod` is 0.
    ensures DecodeNote(j).Some? && DecodeNote(j).value.front != "" ==> ModValue(GetOr(j, "mod", JInt(0))) == Some(DecodeNote(j).value.mod)
    ensures DecodeNote(j).Some? && Lookup(j.entries, "mod").None? ==> DecodeNote(j).value.mod == 0
    // A record with no `fields`, or no `Front` in them, has an empty front and is never grouped.
    ensures j.JObj? && GetOr(j, "fields", JObj([])).JObj? && Lookup(GetOr(j, "fields", JObj([])).entries, "Front").None?
      ==> DecodeNote(j) == Some(NoteEntry(Get(j, "noteId"), "", 0))
    // A note with a non-empty front and an integer `mod` always decodes.
    ensures j.JObj? && GetOr(j, "fields", JObj([])).JObj?
      && GetOr(GetOr(j, "fields", JObj([])), "Front", JObj([])).JObj?
      && GetOr(GetOr(GetOr(j, "fields", JObj([])), "Front", JObj([])), "value", JStr("")).JStr?
      && ModValue(GetOr(j, "mod", JInt(0))).Some?
      ==> DecodeNote(j).Some?
  {
  }

  /** Every record decoded, or `None` if some record does not decode. */
  function DecodeAll(records: seq<Json>): Option<seq<NoteEntry>> {
    if records == [] then Some([])
    else
      var init := DecodeAll(records[..|records| - 1]);
      var last := DecodeNote(records[|records| - 1]);
      if init.None? || last.None? then None else Some(init.value + [last.value])
  }

  /** `DecodeAll` decodes each record in place. */
  lemma {:induction false} DecodeAllSpec(records: seq<Json>)
    ensures DecodeAll(records).Some? <==> forall i :: 0 <= i < |records| ==> DecodeNote(records[i]).Some?
    ensures DecodeAll(records).Some? ==>
      (|DecodeAll(records).value| == |records|
       && forall i :: 0 <= i < |records| ==> DecodeNote(records[i]) == Some(DecodeAll(records).value[i]))
    decreases |records|
  {
    if records != [] {
      var prefix := records[..|records| - 1];
      DecodeAllSpec(prefix);
      assert forall i :: 0 <= i < |prefix| ==> prefix[i] == records[i];
    }
  }

  /** The notes `for note_info in notes_info` visits; `None` where that loop raises. */
  function Records(info: Json): Option<seq<NoteEntry>> {
    match Iterate(info)
    case None => None
    case Some(items) => DecodeAll(items)
  }

  predicate Distinct<T(==)>(s: seq<T>) {
    forall i, j :: 0 <= i < j < |s| ==> s[i] != s[j]
  }

  /** The notes with a non-empty stripped front, in order. */
  function Eligible(notes: seq<NoteEntry>): (r: seq<NoteEntry>)
    ensures forall e :: e in r ==> e in notes && e.front != ""
  {
    if notes == [] then []
    else
      var last := notes[|notes| - 1];
      assert notes == notes[..|notes| - 1] + [last];
      Eligible(notes[..|notes| - 1]) + (if last.front != "" then [last] else [])
  }

  /** Some note has stripped front `k`. */
  predicate HasFront(notes: seq<NoteEntry>, k: string) {
    notes != [] && (notes[|notes| - 1].front == k || HasFront(notes[..|notes| - 1], k))
  }

  lemma {:induction false} HasFrontAt(notes: seq<NoteEntry>, i: int)
    requires 0 <= i < |notes|
    ensures HasFront(notes, notes[i].front)
    decreases |notes|
  {
    if i < |notes| - 1 {
      HasFrontAt(notes[..|notes| - 1], i);
    }
  }

  /** The `front_to_notes` keys: each non-empty front once, in order of first appearance. */
  function Keys(notes: seq<NoteEntry>): (ks: seq<string>)
    ensures Distinct(ks)
    ensures forall k :: k in ks <==> k != "" && HasFront(notes, k)
  {
    if notes == [] then []
    else
      var prefix := notes[..|notes| - 1];
      var f := notes[|notes| - 1].front;
      var p := Keys(prefix);
      if f == "" || f in p then p else p + [f]
  }

  /** `front_to_notes[k]`: the notes whose stripped front is `k`, in order. */
  function Group(notes: seq<NoteEntry>, k: string): (g: seq<NoteEntry>)
    ensures forall e :: e in g ==> e in notes && e.front == k
    ensures g != [] <==> HasFront(notes, k)
  {
    if notes == [] then []
    else
      var prefix := notes[..|notes| - 1];
      var last := notes[|notes| - 1];
      Group(prefix, k) + (if last.front == k then [last] else [])
  }

  /** Each note is at least as new as the one after it. */
  predicate DescendingByMod(s: seq<NoteEntry>) {
    |s| <= 1 || (s[0].mod >= s[1].mod && DescendingByMod(s[1..]))
  }

  /** A list descending step by step is descending between any two positions. */
  lemma {:induction false} DescendingPairwise(s: seq<NoteEntry>)
    requires DescendingByMod(s)
    ensures forall i, j :: 0 <= i < j < |s| ==> s[i].mod >= s[j].mod
  {
    if |s| > 1 {
      var t := s[1..];
      DescendingPairwise(t);
      assert forall j :: 1 <= j < |s| ==> s[j] == t[j - 1];
    }
  }

  /** Places `x` before the first element that is not newer than it. */
  function Insert(x: NoteEntry, s: seq<NoteEntry>): (r: seq<NoteEntry>)
    requires DescendingByMod(s)
    ensures multiset(r) == multiset(s) + multiset{x}
    ensures |r| == |s| + 1
    ensures DescendingByMod(r)
    ensures s == [] || s[0].mod <= x.mod ==> r == [x] + s
    ensures s != [] && s[0].mod > x.mod ==> r[0] == s[0]
  {
    if s == [] || s[0].mod <= x.mod then
      assert ([x] + s)[1..] == s;
      [x] + s
    else
      assert s == [s[0]] + s[1..];
      var t := Insert(x, s[1..]);
      assert ([s[0]] + t)[1..] == t;
      [s[0]] + t
  }

  /**
   * `notes_list.sort(key=mod_time, reverse=True)`: a stable sort, newest
   * first; among equal times the order of the list is kept.
   */
  function SortByModDesc(g: seq<NoteEntry>): (r: seq<NoteEntry>)
    ensures multiset(r) == multiset(g)
    ensures |r| == |g|
    ensures DescendingByMod(r)
  {
    if g == [] then []
    else
      assert g == [g[0]] + g[1..];
      Insert(g[0], SortByModDesc(g[1..]))
  }

  /** The index of the first element with the largest `mod`. */
  function FirstMax(g: seq<NoteEntry>): (m: nat)
    requires g != []
    ensures m < |g|
    ensures forall j :: 0 <= j < |g| ==> g[j].mod <= g[m].mod
    ensures forall j :: 0 <= j < m ==> g[j].mod < g[m].mod
  {
    if |g| == 1 then 0
    else
      var m := 1 + FirstMax(g[1..]);
      assert g[m] == g[1..][m - 1];
      assert forall j :: 1 <= j < |g| ==> g[j] == g[1..][j - 1];
      if g[0].mod >= g[m].mod then 0 else m
  }

  /** The kept note of a group is its newest; on a tie, the one listed first. */
  lemma {:induction false} SortHeadIsFirstMax(g: seq<NoteEntry>)
    requires g != []
    ensures SortByModDesc(g)[0] == g[FirstMax(g)]
  {
    if |g| > 1 {
      var rest := SortByModDesc(g[1..]);
      SortHeadIsFirstMax(g[1..]);
      var m := 1 + FirstMax(g[1..]);
      assert g[m] == g[1..][m - 1];
      assert rest[0] == g[m];
    }
  }

  /** What a group contributes to `duplicates_to_delete`: all but the kept note. */
  function Dropped(g: seq<NoteEntry>): (d: seq<NoteEntry>)
    ensures g != [] ==> |d| == |g| - 1
    ensures g != [] ==> multiset(d) + multiset{SortByModDesc(g)[0]} == multiset(g)
  {
    if g == [] then []
    else
      var s := SortByModDesc(g);
      assert s == [s[0]] + s[1..];
      s[1..]
  }

  /** The note a group keeps, as a list of zero or one note. */
  function Retained(g: seq<NoteEntry>): (r: seq<NoteEntry>)
    ensures g != [] ==> r == [SortByModDesc(g)[0]]
    ensures |r| <= 1
  {
    if g == [] then [] else [SortByModDesc(g)[0]]
  }

  /** The notes queued for deletion, group after group, for the given keys. */
  function Deleted(notes: seq<NoteEntry>, keys: seq<string>): (d: seq<NoteEntry>)
    // Only notes of the deck whose front is one of the keys are queued.
    ensures forall e :: e in d ==> e in notes && e.front in keys
  {
    if keys == [] then []
    else
      var g := Group(notes, keys[|keys| - 1]);
      var dropped := Dropped(g);
      assert forall e :: e in dropped ==> e in g by {
        forall e | e in dropped
          ensures e in g
        {
          assert g != [];
          assert (multiset(dropped) + multiset{SortByModDesc(g)[0]})[e] > 0;
          assert multiset(g)[e] > 0;
        }
      }
      Deleted(notes, keys[..|keys| - 1]) + dropped
  }

  /** The notes kept, one per group, for the given keys. */
  function Kept(notes: seq<NoteEntry>, keys: seq<string>): seq<NoteEntry> {
    if keys == [] then [] else Kept(notes, keys[..|keys| - 1]) + Retained(Group(notes, keys[|keys| - 1]))
  }

  function GroupsConcat(notes: seq<NoteEntry>, keys: seq<string>): seq<NoteEntry> {
    if keys == [] then [] else GroupsConcat(notes, keys[..|keys| - 1]) + Group(notes, keys[|keys| - 1])
  }

  /** The number of keys whose group has more than one note. */
  function DuplicateGroups(notes: seq<NoteEntry>, keys: seq<string>): (n: nat)
    ensures n <= |keys|
  {
    if keys == [] then 0
    else DuplicateGroups(notes, keys[..|keys| - 1]) + (if |Group(notes, keys[|keys| - 1])| > 1 then 1 else 0)
  }

  function Ids(es: seq<NoteEntry>): (ids: seq<Json>)
    ensures |ids| == |es| && forall i :: 0 <= i < |es| ==> ids[i] == es[i].noteId
  {
    seq(|es|, i requires 0 <= i < |es| => es[i].noteId)
  }

  /** The query `get_all_notes_in_deck` sends. */
  function DeckQuery(deck: string): (q: string)
    // The deck name is quoted as it is.
    ensures |q| == |deck| + 7 && q[6..|q| - 1] == deck
  {
    "deck:\"" + deck + "\""
  }

  /** Python's `len(x)` is defined (strings, lists, dicts). */
  predicate HasLen(j: Json) {
    j.JStr? || j.JArr? || j.JObj?
  }

  /** The grouping loop of `find_and_remove_duplicates` (lines building `front_to_notes`). */
  method GroupByFront(records: seq<Json>) returns (ok: bool, order: seq<string>, groups: map<string, seq<NoteEntry>>)
    ensures ok <==> DecodeAll(records).Some?
    ensures ok ==> order == Keys(DecodeAll(records).value)
    ensures ok ==> forall k :: k in groups <==> k in order
    ensures ok ==> forall k :: k in groups ==> groups[k] == Group(DecodeAll(records).value, k)
  {
    order := [];
    groups := map[];
    ghost var notes: seq<NoteEntry> := [];
    var i := 0;
    while i < |records|
      invariant 0 <= i <= |records|
      invariant DecodeAll(records[..i]) == Some(notes)
      invariant order == Keys(notes)
      invariant forall k :: k in groups <==> k in order
      invariant forall k :: k in groups ==> groups[k] == Group(notes, k)
    {
      var e := DecodeNote(records[i]);
      if e.None? {
        DecodeAllFails(records, i);
        return false, order, groups;
      }
      var note := e.value;
      DecodeAllSnoc(records, i, notes, note);
      KeysSnoc(notes, note);
      GroupSnoc(notes, note);
      if note.front != "" {
        if note.front in groups {
          groups := groups[note.front := groups[note.front] + [note]];
        } else {
          order := order + [note.front];
          groups := groups[note.front := [note]];
        }
      }
      notes := notes + [note];
      i := i + 1;
    }
    assert records[..i] == records;
    ok := true;
  }

  lemma DecodeAllFails(records: seq<Json>, i: int)
    requires 0 <= i < |records| && DecodeNote(records[i]).None?
    ensures DecodeAll(records).None?
  {
    DecodeAllSpec(records);
  }

  lemma DecodeAllSnoc(records: seq<Json>, i: int, notes: seq<NoteEntry>, note: NoteEntry)
    requires 0 <= i < |records|
    requires DecodeAll(records[..i]) == Some(notes) && DecodeNote(records[i]) == Some(note)
    ensures DecodeAll(records[..i + 1]) == Some(notes + [note])
  {
    assert records[..i + 1][..i] == records[..i];
  }

  lemma KeysSnoc(notes: seq<NoteEntry>, e: NoteEntry)
    ensures Keys(notes + [e]) == if e.front == "" || e.front in Keys(notes) then Keys(notes) else Keys(notes) + [e.front]
  {
    assert (notes + [e])[..|notes|] == notes;
  }

  lemma GroupSnoc(notes: seq<NoteEntry>, e: NoteEntry)
    ensures forall k :: Group(notes + [e], k) == Group(notes, k) + (if e.front == k then [e] else [])
  {
    assert (notes + [e])[..|notes|] == notes;
  }

  /** The loop over `front_to_notes.items()`: counters and the delete list. */
  method SelectDeletions(ghost notes: seq<NoteEntry>, order: seq<string>, groups: map<string, seq<NoteEntry>>)
    returns (toDelete: seq<Json>, uniqueFronts: nat, duplicateGroups: nat)
    requires forall k :: k in order ==> k in groups && groups[k] == Group(notes, k)
    ensures toDelete == Ids(Deleted(notes, order))
    ensures uniqueFronts == |order|
    ensures duplicateGroups == DuplicateGroups(notes, order)
    ensures toDelete == [] <==> duplicateGroups == 0
  {
    toDelete := [];
    uniqueFronts := 0;
    duplicateGroups := 0;
    var i := 0;
    while i < |order|
      invariant 0 <= i <= |order|
      invariant toDelete == Ids(Deleted(notes, order[..i]))
      invariant uniqueFronts == i
      invariant duplicateGroups == DuplicateGroups(notes, order[..i])
      invariant toDelete == [] <==> duplicateGroups == 0
    {
      var key := order[i];
      var notesList := groups[key];
      SelectStep(notes, order, i);
      uniqueFronts := uniqueFronts + 1;
      if |notesList| > 1 {
        duplicateGroups := duplicateGroups + 1;
        toDelete := QueueDropped(notesList, toDelete);
      }
      i := i + 1;
    }
    assert order[..i] == order;
  }

  /** One step of the loop over the keys. */
  lemma SelectStep(notes: seq<NoteEntry>, order: seq<string>, i: int)
    requires 0 <= i < |order|
    ensures Ids(Deleted(notes, order[..i + 1])) == Ids(Deleted(notes, order[..i])) + Ids(Dropped(Group(notes, order[i])))
    ensures DuplicateGroups(notes, order[..i + 1])
      == DuplicateGroups(notes, order[..i]) + (if |Group(notes, order[i])| > 1 then 1 else 0)
    ensures |Group(notes, order[i])| <= 1 ==> Dropped(Group(notes, order[i])) == []
  {
    assert order[..i + 1][..i] == order[..i];
    IdsAppend(Deleted(notes, order[..i]), Dropped(Group(notes, order[i])));
  }

  /** Sorts one group newest first and appends the ids of all but its first note. */
  method QueueDropped(notesList: seq<NoteEntry>, toDelete: seq<Json>) returns (queued: seq<Json>)
    requires |notesList| > 1
    ensures queued == toDelete + Ids(Dropped(notesList))
    ensures |queued| > |toDelete|
  {
    var sorted := SortByModDesc(notesList);
    var deleteNotesList := sorted[1..];
    assert deleteNotesList == Dropped(notesList);
    queued := AppendIds(toDelete, deleteNotesList);
  }

  /** `for delete_note in delete_notes_list: duplicates_to_delete.append(delete_note['note_id'])` */
  method AppendIds(toDelete: seq<Json>, deleteNotesList: seq<NoteEntry>) returns (queued: seq<Json>)
    ensures queued == toDelete + Ids(deleteNotesList)
  {
    queued := toDelete;
    var j := 0;
    while j < |deleteNotesList|
      invariant 0 <= j <= |deleteNotesList|
      invariant queued == toDelete + Ids(deleteNotesList[..j])
    {
      TakeSnoc(deleteNotesList, j);
      IdsSnoc(deleteNotesList[..j], deleteNotesList[j]);
      queued := queued + [deleteNotesList[j].noteId];
      j := j + 1;
    }
    TakeAll(deleteNotesList);
  }

  lemma TakeSnoc<T>(s: seq<T>, j: int)
    requires 0 <= j < |s|
    ensures s[..j + 1] == s[..j] + [s[j]]
  {
  }

  lemma TakeAll<T>(s: seq<T>)
    ensures s[..|s|] == s
  {
  }

  lemma IdsAppend(a: seq<NoteEntry>, b: seq<NoteEntry>)
    ensures Ids(a + b) == Ids(a) + Ids(b)
  {
  }

  lemma IdsSnoc(a: seq<NoteEntry>, e: NoteEntry)
    ensures Ids(a + [e]) == Ids(a) + [e.noteId]
  {
  }

  /** The note ids `get_all_notes_in_deck(deck)` returns. */
  function FoundIds(deck: string, ask: Request -> Http): Json {
    CollapseToList(ask(FindNotes(DeckQuery(deck))))
  }

  /** The records `get_notes_info(note_ids)` returns. */
  function FetchedInfo(deck: string, ask: Request -> Http): Json {
    CollapseToList(ask(NotesInfo(FoundIds(deck, ask))))
  }

  /** The ids queued for deletion from the fetched notes. */
  function Doomed(notes: seq<NoteEntry>): seq<Json> {
    Ids(Deleted(notes, Keys(notes)))
  }

  /**
   * `find_and_remove_duplicates(deck, dry_run)`.  `ask` gives the server's
   * reply to each request; `sent` lists the requests posted, in order.
   */
  method FindAndRemoveDuplicates(deck: string, dryRun: bool, ask: Request -> Http)
    returns (outcome: Outcome<bool>, sent: seq<Request>)
    ensures |sent| >= 1 && sent[0] == FindNotes(DeckQuery(deck))
    ensures !Truthy(FoundIds(deck, ask)) ==> outcome == Returned(true) && |sent| == 1
    ensures Truthy(FoundIds(deck, ask)) && !HasLen(FoundIds(deck, ask)) ==> outcome == Raised && |sent| == 1
    ensures Truthy(FoundIds(deck, ask)) && HasLen(FoundIds(deck, ask)) ==>
      |sent| >= 2 && sent[1] == NotesInfo(FoundIds(deck, ask))
    ensures Truthy(FoundIds(deck, ask)) && HasLen(FoundIds(deck, ask)) && !Truthy(FetchedInfo(deck, ask)) ==>
      outcome == Returned(false) && |sent| == 2
    ensures Truthy(FoundIds(deck, ask)) && HasLen(FoundIds(deck, ask)) && Truthy(FetchedInfo(deck, ask)) ==>
      match Records(FetchedInfo(deck, ask))
      case None => outcome == Raised && |sent| == 2
      case Some(notes) =>
        if Doomed(notes) == [] || dryRun then outcome == Returned(true) && |sent| == 2
        else (|sent| == 3 && sent[2] == DeleteNotes(JArr(Doomed(notes)))
              && outcome == Returned(CollapseToBool(ask(DeleteNotes(JArr(Doomed(notes)))))))
    // A dry run never deletes.
    ensures dryRun ==> forall r :: r in sent ==> !r.DeleteNotes?
  {
    var find := FindNotes(DeckQuery(deck));
    sent := [find];
    var noteIds := CollapseToList(ask(find));
    if !Truthy(noteIds) {
      return Returned(true), sent;
    }
    if !HasLen(noteIds) {
      return Raised, sent;
    }
    var infoRequest := NotesInfo(noteIds);
    sent := sent + [infoRequest];
    var notesInfo := CollapseToList(ask(infoRequest));
    if !Truthy(notesInfo) {
      return Returned(false), sent;
    }
    assert notesInfo == FetchedInfo(deck, ask);
    var more;
    outcome, more := DeduplicateRecords(notesInfo, dryRun, ask);
    sent := sent + more;
  }

  /**
   * The rest of `find_and_remove_duplicates` once `notes_info` is non-empty:
   * group, select, and delete unless in a dry run.  `sent` lists the
   * requests posted by this part.
   */
  method DeduplicateRecords(notesInfo: Json, dryRun: bool, ask: Request -> Http)
    returns (outcome: Outcome<bool>, sent: seq<Request>)
    ensures match Records(notesInfo)
      case None => outcome == Raised && sent == []
      case Some(notes) =>
        if Doomed(notes) == [] || dryRun then outcome == Returned(true) && sent == []
        else (sent == [DeleteNotes(JArr(Doomed(notes)))]
              && outcome == Returned(CollapseToBool(ask(DeleteNotes(JArr(Doomed(notes)))))))
  {
    sent := [];
    var items := Iterate(notesInfo);
    if items.None? {
      return Raised, sent;
    }
    var ok, order, groups := GroupByFront(items.value);
    if !ok {
      return Raised, sent;
    }
    ghost var notes := DecodeAll(items.value).value;
    var toDelete, uniqueFronts, duplicateGroups := SelectDeletions(notes, order, groups);
    if toDelete != [] && !dryRun {
      var delete := DeleteNotes(JArr(toDelete));
      sent := [delete];
      outcome := Returned(CollapseToBool(ask(delete)));
    } else {
      outcome := Returned(true);
    }
  }

  // Properties of the selection.

  /** One group splits into its kept note and its deleted notes. */
  lemma SplitGroup(g: seq<NoteEntry>)
    requires g != []
    ensures multiset(Dropped(g)) + multiset(Retained(g)) == multiset(g)
    ensures |Retained(g)| == 1
  {
  }

  /** Every group splits into its kept note and its deleted notes. */
  lemma {:induction false} DeletedKeptSplitGroups(notes: seq<NoteEntry>, keys: seq<string>)
    requires forall k :: k in keys ==> Group(notes, k) != []
    ensures multiset(Deleted(notes, keys)) + multiset(Kept(notes, keys)) == multiset(GroupsConcat(notes, keys))
    ensures |Kept(notes, keys)| == |keys|
    decreases |keys|
  {
    if keys != [] {
      var init := keys[..|keys| - 1];
      var k := keys[|keys| - 1];
      assert forall k :: k in init ==> k in keys;
      DeletedKeptSplitGroups(notes, init);
      var g := Group(notes, k);
      assert k in keys;
      SplitGroup(g);
      var d, r, c := Deleted(notes, init), Kept(notes, init), GroupsConcat(notes, init);
      assert Deleted(notes, keys) == d + Dropped(g);
      assert Kept(notes, keys) == r + Retained(g);
      assert GroupsConcat(notes, keys) == c + g;
      MultisetSplitStep(d, r, c, Dropped(g), Retained(g), g);
    }
  }

  lemma MultisetSplitStep<T>(d: seq<T>, r: seq<T>, c: seq<T>, d': seq<T>, r': seq<T>, c': seq<T>)
    requires multiset(d) + multiset(r) == multiset(c)
    requires multiset(d') + multiset(r') == multiset(c')
    ensures multiset(d + d') + multiset(r + r') == multiset(c + c')
  {
  }

  /** The last key of a list of distinct keys is not among the others, which stay distinct. */
  lemma DistinctInit<T>(keys: seq<T>)
    requires Distinct(keys) && keys != []
    ensures Distinct(keys[..|keys| - 1])
    ensures keys[|keys| - 1] !in keys[..|keys| - 1]
  {
  }

  /** Adding one note adds it to exactly the group of its front, if that is a key. */
  lemma {:induction false} GroupsConcatSnoc(notes: seq<NoteEntry>, e: NoteEntry, keys: seq<string>)
    requires Distinct(keys)
    ensures multiset(GroupsConcat(notes + [e], keys))
      == multiset(GroupsConcat(notes, keys)) + (if e.front in keys then multiset{e} else multiset{})
    decreases |keys|
  {
    if keys != [] {
      var init := keys[..|keys| - 1];
      var k := keys[|keys| - 1];
      DistinctInit(keys);
      GroupsConcatSnoc(notes, e, init);
      GroupSnoc(notes, e);
      var c, c' := GroupsConcat(notes, init), GroupsConcat(notes + [e], init);
      var g, g' := Group(notes, k), Group(notes + [e], k);
      assert GroupsConcat(notes + [e], keys) == c' + g';
      assert GroupsConcat(notes, keys) == c + g;
      var inInit: multiset<NoteEntry> := if e.front in init then multiset{e} else multiset{};
      var inLast: multiset<NoteEntry> := if e.front == k then multiset{e} else multiset{};
      assert multiset(g') == multiset(g) + inLast;
      MultisetConcatStep(c, c', g, g', inInit, inLast);
      assert e.front in keys <==> e.front in init || e.front == k;
    }
  }

  lemma MultisetConcatStep<T>(c: seq<T>, c': seq<T>, g: seq<T>, g': seq<T>, x: multiset<T>, y: multiset<T>)
    requires multiset(c') == multiset(c) + x
    requires multiset(g') == multiset(g) + y
    ensures multiset(c' + g') == multiset(c + g) + x + y
  {
  }

  /** The groups of distinct non-empty keys covering every non-empty front partition the eligible notes. */
  lemma {:induction false} GroupsPartitionEligible(notes: seq<NoteEntry>, keys: seq<string>)
    requires Distinct(keys)
    requires forall k :: k in keys ==> k != ""
    requires forall i :: 0 <= i < |notes| && notes[i].front != "" ==> notes[i].front in keys
    ensures multiset(GroupsConcat(notes, keys)) == multiset(Eligible(notes))
    decreases |notes|
  {
    if notes == [] {
      GroupsConcatEmpty(keys);
    } else {
      var prefix := notes[..|notes| - 1];
      var e := notes[|notes| - 1];
      assert notes == prefix + [e];
      assert forall i :: 0 <= i < |prefix| ==> prefix[i] == notes[i];
      GroupsPartitionEligible(prefix, keys);
      GroupsConcatSnoc(prefix, e, keys);
      assert e.front in keys <==> e.front != "";
    }
  }

  lemma {:induction false} GroupsConcatEmpty(keys: seq<string>)
    ensures GroupsConcat([], keys) == []
    decreases |keys|
  {
    if keys != [] {
      GroupsConcatEmpty(keys[..|keys| - 1]);
    }
  }

  /**
   * Every note with a non-empty front is either kept or deleted, exactly
   * once; notes with an empty front are neither.
   */
  lemma PartitionOfEligible(notes: seq<NoteEntry>)
    ensures multiset(Deleted(notes, Keys(notes))) + multiset(Kept(notes, Keys(notes))) == multiset(Eligible(notes))
    ensures |Kept(notes, Keys(notes))| == |Keys(notes)|
  {
    var keys := Keys(notes);
    forall i | 0 <= i < |notes| && notes[i].front != ""
      ensures notes[i].front in keys
    {
      HasFrontAt(notes, i);
    }
    DeletedKeptSplitGroups(notes, keys);
    GroupsPartitionEligible(notes, keys);
  }

  /** The delete list has one entry per eligible note beyond the first of each front. */
  lemma DeletionCount(notes: seq<NoteEntry>)
    ensures |Deleted(notes, Keys(notes))| == |Eligible(notes)| - |Keys(notes)|
  {
    PartitionOfEligible(notes);
    assert |multiset(Deleted(notes, Keys(notes)))| + |multiset(Kept(notes, Keys(notes)))| == |multiset(Eligible(notes))|;
  }

  /** A note with an empty (or missing) front is never deleted. */
  lemma EmptyFrontNeverDeleted(notes: seq<NoteEntry>, e: NoteEntry)
    requires e in notes && e.front == ""
    ensures e !in Deleted(notes, Keys(notes))
  {
    var deleted := Deleted(notes, Keys(notes));
    PartitionOfEligible(notes);
    if e in deleted {
      InPartition(deleted, Kept(notes, Keys(notes)), Eligible(notes), e);
    }
  }

  lemma InPartition(a: seq<NoteEntry>, b: seq<NoteEntry>, whole: seq<NoteEntry>, e: NoteEntry)
    requires multiset(a) + multiset(b) == multiset(whole)
    requires e in a || e in b
    ensures e in whole
  {
    assert multiset(whole)[e] > 0;
  }

  lemma {:induction false} EligibleSubMultiset(notes: seq<NoteEntry>)
    ensures multiset(Eligible(notes)) <= multiset(notes)
    decreases |notes|
  {
    if notes != [] {
      var prefix := notes[..|notes| - 1];
      assert notes == prefix + [notes[|notes| - 1]];
      EligibleSubMultiset(prefix);
    }
  }

  lemma {:induction false} TwiceInSeq(s: seq<NoteEntry>, x: NoteEntry)
    requires multiset(s)[x] >= 2
    ensures exists i, j :: 0 <= i < j < |s| && s[i] == x && s[j] == x
    decreases |s|
  {
    var prefix := s[..|s| - 1];
    assert s == prefix + [s[|s| - 1]];
    if s[|s| - 1] == x {
      assert multiset(prefix)[x] >= 1;
      assert x in prefix;
      var i :| 0 <= i < |prefix| && prefix[i] == x;
      assert s[i] == x && s[|s| - 1] == x;
    } else {
      TwiceInSeq(prefix, x);
      var i, j :| 0 <= i < j < |prefix| && prefix[i] == x && prefix[j] == x;
      assert s[i] == x && s[j] == x;
    }
  }

  /** A note both kept and deleted would occur twice among the eligible notes. */
  lemma CountTwo(a: seq<NoteEntry>, b: seq<NoteEntry>, whole: seq<NoteEntry>, x: NoteEntry)
    requires multiset(a) + multiset(b) == multiset(whole)
    requires x in a && x in b
    ensures multiset(whole)[x] >= 2
  {
    assert multiset(a)[x] >= 1 && multiset(b)[x] >= 1;
  }

  /** With distinct ids, no note occurs twice. */
  lemma OnceWithDistinctIds(notes: seq<NoteEntry>, x: NoteEntry)
    requires forall i, j :: 0 <= i < j < |notes| ==> notes[i].noteId != notes[j].noteId
    ensures multiset(notes)[x] <= 1
  {
    if multiset(notes)[x] >= 2 {
      TwiceInSeq(notes, x);
    }
  }

  /** With distinct ids, two notes of the deck with the same id are the same note. */
  lemma SameIdSameNote(notes: seq<NoteEntry>, x: NoteEntry, d: NoteEntry)
    requires forall i, j :: 0 <= i < j < |notes| ==> notes[i].noteId != notes[j].noteId
    requires x in notes && d in notes && x.noteId == d.noteId
    ensures x == d
  {
    var i :| 0 <= i < |notes| && notes[i] == x;
    var j :| 0 <= j < |notes| && notes[j] == d;
    assert i == j;
  }

  /** When the deck's note ids are distinct, no kept note's id is in the delete list. */
  lemma KeptIdNeverDeleted(notes: seq<NoteEntry>)
    requires forall i, j :: 0 <= i < j < |notes| ==> notes[i].noteId != notes[j].noteId
    ensures forall x, d :: x in Kept(notes, Keys(notes)) && d in Deleted(notes, Keys(notes)) ==> x.noteId != d.noteId
  {
    var kept := Kept(notes, Keys(notes));
    var deleted := Deleted(notes, Keys(notes));
    var eligible := Eligible(notes);
    PartitionOfEligible(notes);
    EligibleSubMultiset(notes);
    forall x, d | x in kept && d in deleted
      ensures x.noteId != d.noteId
    {
      InPartition(deleted, kept, eligible, x);
      InPartition(deleted, kept, eligible, d);
      if x.noteId == d.noteId {
        SameIdSameNote(notes, x, d);
        CountTwo(deleted, kept, eligible, x);
        OnceWithDistinctIds(notes, x);
      }
    }
  }

  /** The kept note of the group for a key is the group's first newest note. */
  lemma KeptIsNewest(notes: seq<NoteEntry>, k: string)
    requires k in Keys(notes)
    ensures var g := Group(notes, k);
      g != [] && Retained(g) == [g[FirstMax(g)]]
      && (forall e :: e in g ==> e.mod <= g[FirstMax(g)].mod)
  {
    var g := Group(notes, k);
    SortHeadIsFirstMax(g);
  }
}
