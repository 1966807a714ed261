# grammarpt flashcard core, in Dafny

grammarpt is a set of desktop and phone scripts. They send text to a
language model and turn the reply into Anki flashcards through
AnkiConnect, the HTTP add-on that listens on `localhost:8765`. This project
models the parts of those scripts that do the deciding. Each script is
modelled in its own module.

- **Note submission.** `AnkiConnector` models the verifying connector in
  `ai_tutor_anki/AnkiConnector.py`. It builds the `addNote` payload with an
  optional image tag and then a source citation. It reads the
  `{result, error}` envelope and reports success only after a `notesInfo`
  round-trip finds the new note id. `LegacyConnector` models the older
  root `AnkiConnector.py`, which posts the note and always returns `None`.
- **Whole-deck deduplication.** `RemoveDuplicates` groups the deck's notes
  by stripped Front and keeps the newest note of each group. It queues the
  rest into one batched `deleteNotes`. The notes kept and the notes deleted
  are proved to partition the notes whose front is non-empty.
- **Ghost-duplicate search.** `DuplicateCleaner` models
  `anki_duplicate_cleaner.py`. It searches the deck once per card and
  collects every matching record. It deletes only in live mode, all in one
  call.
- **JSON-file deduplication.** `CleanJsonDuplicates` keeps the first card
  for each stripped front. The result is proved idempotent, and the input
  count is proved to equal kept + duplicates + skipped.
- **Card files and batches.** `CardFiles`, `CardBatch`, `JsonToAnki` and
  `FixDuplicateCards` model the card-file loaders and the deck check. The
  loaders strip the code fence, match brackets and keep the valid cards.
  The batch loop counts successes and failures.
- **Reply parsing.** `FrontBack`, `PhoneAnkiMaker`, `ClipboardToAnki` and
  `DesktopAssistant` model how a model reply becomes a card. They split on
  the Front/Back markers, split fact files into chunks and facts, and
  prefix URL schemes. They also model the code-assistant text transforms
  of `main.py`.

Shared modules:

- `Json` models Python values after `json.loads`. Where Python would
  raise, the operation yields `None`.
- `Optional` is the conventional optional value.
- `PyText` models the string builtins the scripts use.
- `AnkiApi` models the requests and replies.

The outside world enters as parameters:

- the server is a function from request to reply (`Request -> Http`);
- the language model's replies are a function from chunk index to text in
  `PhoneAnkiMaker`, one text parameter (`content`) in `DesktopAssistant`,
  and the HTTP reply itself in `ClipboardToAnki`;
- file contents, `argv` and the result of `ensure_anki_running()` are
  plain values.

Methods that post requests return the requests in the order they were sent.

## Model

| member | source | states |
|---|---|---|
| AnkiConnector.MediaStem | ai_tutor_anki/AnkiConnector.py:36-37 | the stored image stem contains no `/` |
| AnkiConnector.MediaFilenameOf | ai_tutor_anki/AnkiConnector.py:36-46 | for `dir/name.ext` the stored media file is `name.jpg`, whatever the directory |
| AnkiConnector.Citation | ai_tutor_anki/AnkiConnector.py:33 | the citation is empty exactly when the source is empty |
| AnkiConnector.CitationInjective | ai_tutor_anki/AnkiConnector.py:33 | two sources with the same citation are the same source |
| AnkiConnector.Payload | ai_tutor_anki/AnkiConnector.py:18-53 | deck, model and allowDuplicate come from the connector; Front is `front`, whatever value it is; tags are empty; Back is `back` extended by `+=` with the image tag, if an image is set, and then the citation; no note exists when Back is neither a string nor a list |
| Json.AppendText | ai_tutor_anki/AnkiConnector.py:50-52 | `+=` with a string extends a string, adds one element per character to a list, and raises for any other value |
| AnkiConnector.MediaRequests | ai_tutor_anki/AnkiConnector.py:35-49 | one `storeMediaFile` request when an image is configured, none otherwise |
| AnkiConnector.InterpretAddNote | ai_tutor_anki/AnkiConnector.py:64-96 | a non-JSON reply and a truthy `error` stop before verification; verification runs exactly when `result` is present and `int()` accepts it, with that id |
| AnkiConnector.VerifyCardCreated | ai_tutor_anki/AnkiConnector.py:98-132 | a truthy `error` or a falsy `result` gives False; otherwise True iff the id's decimal text is in a value of the first record or in the raw text; a non-JSON reply gives True iff the id is in the raw text |
| AnkiConnector.AddCardResult | ai_tutor_anki/AnkiConnector.py:18-132 | a Back that `+=` cannot extend raises; True only when the note was posted, accepted and its id read back by `notesInfo` |
| AnkiConnector.AddCard | ai_tutor_anki/AnkiConnector.py:18-96 | the imperative `add_card`: an unreadable image raises before any post; the media post comes first; a Back that `+=` cannot extend raises after it and before `addNote`; otherwise `addNote` with `Payload`, then at most one `notesInfo`; the result is `AddCardResult` |
| LegacyConnector.Payload | AnkiConnector.py:13-46 | same fields as the verifying connector; with an image Back gets the image tag and the bare `source: ` text even for an empty source; without one Back stays `back` |
| LegacyConnector.AddCardResult | AnkiConnector.py:13-60 | the legacy `add_card` returns `None` unless opening the image or a post raises |
| LegacyConnector.AddCard | AnkiConnector.py:13-60 | the imperative legacy `add_card`: the requests it posts and its `None` result |
| LegacyConnector.SourceIgnoredWithoutImage | AnkiConnector.py:28-46 | without an image the source has no effect on the note |
| LegacyConnector.BackDiffersFromLinkedCitation | AnkiConnector.py:46 | with an image and a source the legacy Back differs from the verifying connector's linked citation |
| AnkiApi.CollapseToList | ai_tutor_anki/remove_duplicate_cards.py:12-60 | a non-empty list comes back only from an accepted reply, and is its `result` |
| AnkiApi.CollapseToBool | ai_tutor_anki/remove_duplicate_cards.py:62-85 | `delete_notes` is True exactly when status is 200, the body is an object and `error` is falsy |
| RemoveDuplicates.DecodeNote | ai_tutor_anki/remove_duplicate_cards.py:111-115 | the decoded entry keeps the record's `noteId`; a note with an empty front has mod 0 |
| RemoveDuplicates.DecodeNoteReads | ai_tutor_anki/remove_duplicate_cards.py:111-117 | a decoded entry's front is the stripped `fields.Front.value`, with `{}` and `''` for a missing level; a missing `mod` is 0 and a grouped note's mod is its integer `mod`; a record without `fields` or `Front` has an empty front, so it is never grouped; a note with a readable front and an integer `mod` always decodes |
| RemoveDuplicates.DecodeAllSpec | ai_tutor_anki/remove_duplicate_cards.py:111-122 | the loop decodes every record in place, or fails if one record fails |
| RemoveDuplicates.DeckQuery | ai_tutor_anki/remove_duplicate_cards.py:19 | the deck name is quoted as it is |
| RemoveDuplicates.Eligible | ai_tutor_anki/remove_duplicate_cards.py:117-122 | only notes with a non-empty stripped front are grouped |
| RemoveDuplicates.Keys | ai_tutor_anki/remove_duplicate_cards.py:109-122 | the `front_to_notes` keys are distinct and are exactly the non-empty fronts that occur |
| RemoveDuplicates.Group | ai_tutor_anki/remove_duplicate_cards.py:109-122 | a group holds only notes of the deck with that front, and is non-empty iff the front occurs |
| RemoveDuplicates.Insert | ai_tutor_anki/remove_duplicate_cards.py:134 | inserting keeps the list descending by mod and adds exactly the one note |
| RemoveDuplicates.SortByModDesc | ai_tutor_anki/remove_duplicate_cards.py:134 | the sort is a permutation of the group, descending by mod |
| RemoveDuplicates.DescendingPairwise | ai_tutor_anki/remove_duplicate_cards.py:134 | a list descending step by step is descending between any two positions |
| RemoveDuplicates.FirstMax | ai_tutor_anki/remove_duplicate_cards.py:134-137 | the index of the first note with the largest mod |
| RemoveDuplicates.SortHeadIsFirstMax | ai_tutor_anki/remove_duplicate_cards.py:134-137 | the stable sort puts the first newest note at the head: ties keep the earliest-listed note |
| RemoveDuplicates.KeptIsNewest | ai_tutor_anki/remove_duplicate_cards.py:134-137 | the kept note of each group has the maximum mod and no earlier note of the group has it |
| RemoveDuplicates.Dropped | ai_tutor_anki/remove_duplicate_cards.py:137-146 | a group of k notes queues k-1 of them: all but the kept note |
| RemoveDuplicates.Retained | ai_tutor_anki/remove_duplicate_cards.py:137 | a non-empty group keeps exactly its sorted head |
| RemoveDuplicates.SplitGroup | ai_tutor_anki/remove_duplicate_cards.py:137-146 | kept and dropped notes together are the group |
| RemoveDuplicates.Ids | ai_tutor_anki/remove_duplicate_cards.py:144-146 | the queued ids are the notes' `noteId`s, in order |
| RemoveDuplicates.GroupByFront | ai_tutor_anki/remove_duplicate_cards.py:108-122 | the grouping loop builds exactly `Keys` in first-seen order and `Group` for each key, or fails where the records cannot be read |
| RemoveDuplicates.SelectDeletions | ai_tutor_anki/remove_duplicate_cards.py:124-146 | the counters are the number of fronts and of duplicate groups; the delete list is the ids of the dropped notes, group after group |
| RemoveDuplicates.QueueDropped | ai_tutor_anki/remove_duplicate_cards.py:131-146 | sorting one group and appending all but its head adds `Dropped(group)`'s ids |
| RemoveDuplicates.AppendIds | ai_tutor_anki/remove_duplicate_cards.py:144-146 | the append loop adds each note's id in order |
| RemoveDuplicates.Deleted | ai_tutor_anki/remove_duplicate_cards.py:129-146 | only notes of the deck whose front is one of the keys are queued |
| RemoveDuplicates.DuplicateGroups | ai_tutor_anki/remove_duplicate_cards.py:127-132 | there are at most as many duplicate groups as fronts |
| RemoveDuplicates.DeletedKeptSplitGroups | ai_tutor_anki/remove_duplicate_cards.py:129-146 | over all groups, deleted plus kept notes are the concatenated groups, one kept per key |
| RemoveDuplicates.GroupsPartitionEligible | ai_tutor_anki/remove_duplicate_cards.py:109-146 | the groups of the keys together are exactly the eligible notes |
| RemoveDuplicates.PartitionOfEligible | ai_tutor_anki/remove_duplicate_cards.py:109-146 | every note with a non-empty front is kept or deleted, exactly once; one note is kept per front |
| RemoveDuplicates.DeletionCount | ai_tutor_anki/remove_duplicate_cards.py:129-146 | the delete list has one entry per eligible note beyond the first of each front |
| RemoveDuplicates.EmptyFrontNeverDeleted | ai_tutor_anki/remove_duplicate_cards.py:117-122 | a note with an empty or missing front is never deleted |
| RemoveDuplicates.KeptIdNeverDeleted | ai_tutor_anki/remove_duplicate_cards.py:134-146 | with distinct note ids, no kept note's id is in the delete list |
| RemoveDuplicates.DeduplicateRecords | ai_tutor_anki/remove_duplicate_cards.py:108-169 | grouping, selection, then one `deleteNotes` with every queued id only in live mode with something to delete; a dry run returns True |
| RemoveDuplicates.FindAndRemoveDuplicates | ai_tutor_anki/remove_duplicate_cards.py:87-169 | the first request is `findNotes` for `deck:"<deck>"`; no ids gives True after that one call; an empty info fetch gives False; a dry run never deletes |
| DuplicateCleaner.Query | ai_tutor_anki/anki_duplicate_cleaner.py:21 | the deck name and the front text are placed between quotes unescaped |
| DuplicateCleaner.QueryDeterminesParts | ai_tutor_anki/anki_duplicate_cleaner.py:21 | without quotes in the deck names, equal queries mean equal decks and equal fronts |
| DuplicateCleaner.QueryCollides | ai_tutor_anki/anki_duplicate_cleaner.py:21 | nothing is escaped: for every deck `d` and texts `m`, `f`, the deck `d" Front:"m` with front `f` and the deck `d` with front `m" Front:"f` send the same query |
| DuplicateCleaner.ReadRecord | ai_tutor_anki/anki_duplicate_cleaner.py:110-125 | an entry keeps the record's `noteId` and the card that found it |
| DuplicateCleaner.ReadAllSpec | ai_tutor_anki/anki_duplicate_cleaner.py:110-125 | one entry per record, in record order |
| DuplicateCleaner.CollectRecords | ai_tutor_anki/anki_duplicate_cleaner.py:110-125 | the inner loop appends exactly `ReadAll` to `found_duplicates`, or stops where a record raises |
| DuplicateCleaner.CheckCard | ai_tutor_anki/anki_duplicate_cleaner.py:97-127 | one pass of the outer loop: its requests, whether it raised and its entries are those of `CardScan` |
| DuplicateCleaner.FindAndCleanDuplicates | ai_tutor_anki/anki_duplicate_cleaner.py:89-149 | finding nothing or a dry run gives True without deleting; live mode with findings returns exactly the single `deleteNotes` result for all found ids |
| DuplicateCleaner.NoteIds | ai_tutor_anki/anki_duplicate_cleaner.py:135 | the delete list is the `note_id`s of `found_duplicates`, in order |
| DuplicateCleaner.CardScan | ai_tutor_anki/anki_duplicate_cleaner.py:97-127 | one card posts at most its front's search and one info fetch; entries come only after both and without a raise |
| DuplicateCleaner.ScanCards | ai_tutor_anki/anki_duplicate_cleaner.py:97-127 | the scan posts at most two requests per card |
| DuplicateCleaner.ScanStops | ai_tutor_anki/anki_duplicate_cleaner.py:97-127 | once a card raises, later cards are not scanned |
| DuplicateCleaner.ScanOnlyReads | ai_tutor_anki/anki_duplicate_cleaner.py:97-127 | scanning posts only searches and info fetches |
| DuplicateCleaner.ScanAppend | ai_tutor_anki/anki_duplicate_cleaner.py:97-125 | entries come card by card: scanning two lists is scanning the second after the first |
| DuplicateCleaner.RepeatedCardRepeatsMatches | ai_tutor_anki/anki_duplicate_cleaner.py:97-125 | a card listed twice contributes its matches twice |
| DuplicateCleaner.CardEntries | ai_tutor_anki/anki_duplicate_cleaner.py:102-125 | a card's entries come from the search for its front, one per record, naming that record's id |
| DuplicateCleaner.DryRunNeverDeletes | ai_tutor_anki/anki_duplicate_cleaner.py:133-149 | no `deleteNotes` is ever posted while scanning |
| DuplicateCleaner.LoadJsonCards | ai_tutor_anki/anki_duplicate_cleaner.py:151-169 | the loader keeps the items with both keys in order, `None` where loading raises |
| DuplicateCleaner.NoValidCardLoadsEmpty | ai_tutor_anki/anki_duplicate_cleaner.py:158-165 | a list without a valid card loads as the empty list, not `None` |
| DuplicateCleaner.DeckArg | ai_tutor_anki/anki_duplicate_cleaner.py:181 | the deck is `argv[2]` unless absent or starting with `--`, never a `--` flag |
| DuplicateCleaner.ParseArgs | ai_tutor_anki/anki_duplicate_cleaner.py:173-182 | fewer than two arguments is the usage exit; otherwise path `argv[1]`, the deck, and dry run unless `--live` is anywhere |
| DuplicateCleaner.FileAndDeckIsDryRun | ai_tutor_anki/anki_duplicate_cleaner.py:180-182 | every three-argument call naming a file and a deck (no `--live`) is a dry run on that deck |
| DuplicateCleaner.LiveFlagInDeckPosition | ai_tutor_anki/anki_duplicate_cleaner.py:181-182 | every three-argument call ending in `--live` is a live run on the default deck |
| CleanJsonDuplicates.CardKey | ai_tutor_anki/clean_json_duplicates.py:31-35 | a card's key is its stripped front |
| CleanJsonDuplicates.CardKeys | ai_tutor_anki/clean_json_duplicates.py:30-35 | one key per card, in order |
| CleanJsonDuplicates.Kept | ai_tutor_anki/clean_json_duplicates.py:37-48 | no more cards are kept than were read, and every kept card is one of the input cards |
| CleanJsonDuplicates.KeptPositionsFirstSeen | ai_tutor_anki/clean_json_duplicates.py:37-45 | a position is kept iff its key is a front not seen at an earlier position; kept positions increase |
| CleanJsonDuplicates.KeptAtPositions | ai_tutor_anki/clean_json_duplicates.py:45-48 | the kept cards are the cards at the kept positions, in order |
| CleanJsonDuplicates.KeptIffFirstSeen | ai_tutor_anki/clean_json_duplicates.py:30-48 | a card is kept iff its key is a front not seen at an earlier position, and the kept cards keep file order |
| CleanJsonDuplicates.FirstOccurrences | ai_tutor_anki/clean_json_duplicates.py:27-48 | the cleaned list is no longer than the input and holds only input cards |
| CleanJsonDuplicates.SeenFrontsKeys | ai_tutor_anki/clean_json_duplicates.py:37-45 | the OrderedDict's keys are exactly the fronts that occur |
| CleanJsonDuplicates.SeenFrontsValues | ai_tutor_anki/clean_json_duplicates.py:45-48 | its values are the first card seen for each front, in order of first appearance, the original objects |
| CleanJsonDuplicates.KeptDistinct | ai_tutor_anki/clean_json_duplicates.py:37-45 | no two kept cards have equal stripped fronts |
| CleanJsonDuplicates.DistinctFrontsKept | ai_tutor_anki/clean_json_duplicates.py:37-48 | cards with distinct fronts are all kept and no duplicate is reported |
| CleanJsonDuplicates.KeysOfKept | ai_tutor_anki/clean_json_duplicates.py:37-48 | the keys of the kept cards are the kept keys |
| CleanJsonDuplicates.CleaningIsIdempotent | ai_tutor_anki/clean_json_duplicates.py:27-48 | cleaning the output again changes nothing and reports no duplicate |
| CleanJsonDuplicates.CardsAccountedFor | ai_tutor_anki/clean_json_duplicates.py:30-51 | input count = kept + duplicates + skipped cards without `front` |
| CleanJsonDuplicates.Preview | ai_tutor_anki/clean_json_duplicates.py:41 | the reported front: up to 60 characters as they are, else the first 60 and `...` |
| CleanJsonDuplicates.RemoveDuplicates | ai_tutor_anki/clean_json_duplicates.py:27-48 | the loop succeeds iff every card can be read; it returns the first occurrences and one report per duplicate |
| CleanJsonDuplicates.ReadKey | ai_tutor_anki/clean_json_duplicates.py:31-35 | the `front` test and lookup computed step by step give the card's key |
| CleanJsonDuplicates.Visit | ai_tutor_anki/clean_json_duplicates.py:37-45 | one loop pass extends `seen_fronts` with a new front, or records a duplicate, as the reference over one more card does |
| CleanJsonDuplicates.BackupOfPlainName | ai_tutor_anki/clean_json_duplicates.py:61 | for `stem.json` with no `.json` in the stem, the backup is `stem_backup.json` |
| CleanJsonDuplicates.BackupName | ai_tutor_anki/clean_json_duplicates.py:61 | a path without `.json` is its own backup name |
| CleanJsonDuplicates.CleanJsonDuplicates | ai_tutor_anki/clean_json_duplicates.py:12-78 | succeeds iff every step does; writes the first occurrences to the output file, or to the input path after a rename to the backup name when no output file is given |
| CardFiles.HasFrontBack | ai_tutor_anki/ai_tutor_json_to_anki.py:62 | the `"front" in item and "back" in item` test, including where `in` raises |
| CardFiles.ValidCards | ai_tutor_anki/ai_tutor_json_to_anki.py:60-65 | validation keeps no more items than it reads, and every kept item passed the `front`/`back` test |
| CardFiles.SelectCards | ai_tutor_anki/ai_tutor_json_to_anki.py:60-65 | the validation loop computes `ValidCards` |
| CardFiles.ValidCardsSpec | ai_tutor_anki/ai_tutor_json_to_anki.py:60-65 | validation succeeds iff no membership test raises |
| CardFiles.ValidCardsMembers | ai_tutor_anki/ai_tutor_json_to_anki.py:60-65 | the kept items are exactly the items with both keys |
| CardFiles.ValidCardsAppend | ai_tutor_anki/ai_tutor_json_to_anki.py:60-65 | validation keeps file order: validating two lists concatenates the results |
| CardFiles.DeckListed | ai_tutor_anki/ai_tutor_json_to_anki.py:84-91 | the deck list is read only from a 200 reply with an object body |
| CardFiles.CreateDeckIfNotExists | ai_tutor_anki/ai_tutor_json_to_anki.py:80-122 | a listed deck gives True after one request; `createDeck` is sent iff the deck is not listed, and its acceptance is the result; a failed list gives False |
| CardBatch.CardFields | ai_tutor_anki/ai_tutor_json_to_anki.py:142-147 | the fields are read iff `front` and `back` are present and the front can be sliced |
| CardBatch.SourceText | ai_tutor_anki/AnkiConnector.py:33 | a missing or falsy source becomes the empty string; a string is kept |
| CardBatch.CardOutcome | ai_tutor_anki/ai_tutor_json_to_anki.py:149-159 | a bad source or a Back that is neither a string nor a list raises; True only when the connector reports the note added and read back |
| CardBatch.CountTrue | ai_tutor_anki/ai_tutor_json_to_anki.py:139-166 | the count is at most the length, and equal iff every entry is true |
| CardBatch.Flags | ai_tutor_anki/ai_tutor_json_to_anki.py:142-159 | one flag per card: whether `add_card` returned True for it |
| CardBatch.BatchOutcome | ai_tutor_anki/ai_tutor_json_to_anki.py:139-166 | the batch raises exactly when some card's fields cannot be read; True means every card was added and read back |
| CardBatch.BatchOutcomeMeaning | ai_tutor_anki/ai_tutor_json_to_anki.py:139-166 | the batch returns True exactly when every card was added and read back |
| CardBatch.AddOne | ai_tutor_anki/ai_tutor_json_to_anki.py:142-159 | one loop pass reads the card and reports `add_card`'s success, a raise counting as failure; the note is posted, with the card's front as it is, exactly when the source is usable and the back is a string or a list |
| CardBatch.AddAll | ai_tutor_anki/ai_tutor_json_to_anki.py:139-166 | success + failed = number of cards; the result is `failed_count == 0`; every posted note uses the connector's deck |
| JsonToAnki.NoFenceUnchanged | ai_tutor_anki/ai_tutor_json_to_anki.py:24-32 | text without an opening fence is unchanged |
| JsonToAnki.UnclosedFenceUnchanged | ai_tutor_anki/ai_tutor_json_to_anki.py:26-32 | an opening fence with no closing fence after it leaves the text unchanged |
| JsonToAnki.StripFence | ai_tutor_anki/ai_tutor_json_to_anki.py:24-32 | the text is left alone or cut down to a shorter, stripped fenced body |
| JsonToAnki.FencedBody | ai_tutor_anki/ai_tutor_json_to_anki.py:26-32 | a fenced body is recovered, stripped, whatever surrounds the fence |
| JsonToAnki.CloseFrom | ai_tutor_anki/ai_tutor_json_to_anki.py:41-50 | the scan finds a `]` or nothing |
| JsonToAnki.ArrayEnd | ai_tutor_anki/ai_tutor_json_to_anki.py:40-54 | the end found is -1 or a `]` at or after the start |
| JsonToAnki.FindArrayEnd | ai_tutor_anki/ai_tutor_json_to_anki.py:41-50 | the bracket-counting loop computes `ArrayEnd` |
| JsonToAnki.ArrayEndBalanced | ai_tutor_anki/ai_tutor_json_to_anki.py:41-56 | the end is the first index where the depth from the start returns to 0, and the slice is balanced; with no end the depth stays positive |
| JsonToAnki.ParsedSliceBalanced | ai_tutor_anki/ai_tutor_json_to_anki.py:34-56 | the parsed slice starts at the first `[`, ends at the matching `]` and is balanced, brackets in strings included |
| JsonToAnki.LoadedCards | ai_tutor_anki/ai_tutor_json_to_anki.py:14-78 | cards come only from a file that exists and was read, and never as an empty list |
| JsonToAnki.LoadJsonCards | ai_tutor_anki/ai_tutor_json_to_anki.py:14-78 | the loader computes `LoadedCards`, which is `None` or a non-empty list |
| JsonToAnki.LoadedAreValid | ai_tutor_anki/ai_tutor_json_to_anki.py:59-71 | every loaded card has both `front` and `back` |
| JsonToAnki.AddCardsToAnki | ai_tutor_anki/ai_tutor_json_to_anki.py:124-166 | Anki not running gives False with no request; an unready deck gives False with no note posted; otherwise the batch result, with notes for the deck, `Basic`, no duplicates |
| FixDuplicateCards.LoadJsonCards | ai_tutor_anki/fix_duplicate_cards.py:14-43 | the loader is `None` or a non-empty list of the valid items |
| FixDuplicateCards.ListWithACardLoads | ai_tutor_anki/fix_duplicate_cards.py:24-36 | a list holding a valid card, with no item on which `in` raises, loads and contains that card |
| FixDuplicateCards.AddCardsWithDuplicatesAllowed | ai_tutor_anki/fix_duplicate_cards.py:89-139 | as the importer's batch, but every posted note has `allowDuplicate` set and note type `Basic`; an unready deck gives False before any card |
| FrontBack.CutAnswer | clipboard_to_anki.py:65-68 | the answer is cut before the first `---`, else before the first `###`, else kept whole |
| FrontBack.SplitCard | clipboard_to_anki.py:61-68 | a card read from one marker pair has a stripped question and no `---` in the answer |
| FrontBack.ParseCard | clipboard_to_anki.py:60-86 | a reply with neither marker pair yields nothing |
| FrontBack.StripIdempotent | clipboard_to_anki.py:64 | stripping twice equals stripping once |
| FrontBack.SplitCardRoundTrip | clipboard_to_anki.py:61-68 | a reply pre + Front + q + Back + a gives back strip(q) and the cut answer |
| FrontBack.MarkdownRoundTrip | clipboard_to_anki.py:60-68 | a reply in the `**Front:**`/`**Back:**` form is read as such |
| FrontBack.PlainRoundTrip | clipboard_to_anki.py:72-80 | a reply in the plain form, without both markdown markers, is read as such |
| FrontBack.BackBeforeFrontFails | clipboard_to_anki.py:61-71 | a Back marker only before the Front marker yields nothing |
| FrontBack.MarkdownFailureDoesNotFallBack | clipboard_to_anki.py:60-72 | when both markdown markers occur but that split fails, the plain form is not tried |
| PhoneAnkiMaker.Chunks | phone_auto_anki_maker.py:118-123 | the stripped content split on blank lines, at least one chunk |
| PhoneAnkiMaker.FactAndUrl | phone_auto_anki_maker.py:134-140 | split at the first `|` only, both sides stripped; without `|`, the stripped chunk and no url |
| PhoneAnkiMaker.SourceUrl | phone_auto_anki_maker.py:183-185 | a non-empty url without an http(s) scheme gets `http://`; the result is empty or has a scheme |
| PhoneAnkiMaker.SourceUrlIdempotent | phone_auto_anki_maker.py:183-185 | prefixing twice is prefixing once |
| PhoneAnkiMaker.ReadCard | phone_auto_anki_maker.py:149-182 | an `ERROR:` reply gives no card; a card is the parsed reply with a non-empty front and back |
| PhoneAnkiMaker.ChunkStep | phone_auto_anki_maker.py:126-198 | a blank chunk is skipped; a fact outside 10 < len < 1000 fails; only a parsed card reaches `add_card` |
| PhoneAnkiMaker.Steps | phone_auto_anki_maker.py:126-198 | one step per chunk, in order |
| PhoneAnkiMaker.Processed | phone_auto_anki_maker.py:200-208 | only a file with text can be cleared |
| PhoneAnkiMaker.ProcessChunk | phone_auto_anki_maker.py:127-198 | one loop pass computes `ChunkStep`, and asks the model only for facts inside the window |
| PhoneAnkiMaker.MainProcessing | phone_auto_anki_maker.py:103-208 | the file is cleared iff it had text and no chunk failed; only in-window facts are sent |
| PhoneAnkiMaker.FirstChunkNotBlank | phone_auto_anki_maker.py:118-130 | the first chunk of non-blank content is not blank |
| PhoneAnkiMaker.LegacyNeverOk | phone_auto_anki_maker.py:191-192 | no chunk counts as added through the legacy `add_card` |
| PhoneAnkiMaker.LegacyAddNeverClears | phone_auto_anki_maker.py:190-208 | with the legacy connector it imports, the file is never cleared |
| PhoneAnkiMaker.VerifiedClearsIffAllAdded | phone_auto_anki_maker.py:190-208 | with the verifying connector, the file is cleared iff every non-blank chunk gave a card that was added and read back |
| ClipboardToAnki.KeyStep | clipboard_to_anki.py:57 | a dict looks the key up, a missing key is a caught KeyError, any other value raises TypeError |
| ClipboardToAnki.FirstStep | clipboard_to_anki.py:57 | `[0]` on an empty list or string raises IndexError, on a dict it is a caught KeyError, on a non-sequence it raises TypeError |
| ClipboardToAnki.ReplyContent | clipboard_to_anki.py:52-98 | a failed request, an error status or a non-JSON body is caught; a found content is stripped |
| ClipboardToAnki.GenerateQa | clipboard_to_anki.py:52-98 | it raises exactly when reading the content raises something the `except`s do not handle; a caught failure gives nothing; a card has a stripped question and no `---` in the answer |
| ClipboardToAnki.WellFormedReplyParsed | clipboard_to_anki.py:55-88 | a well-formed reply is parsed from its stripped content |
| ClipboardToAnki.UncaughtReplies | clipboard_to_anki.py:57-98 | an empty `choices`, a list body and a null `content` raise out of `generate_qa` |
| ClipboardToAnki.MissingChoicesCaught | clipboard_to_anki.py:96-98 | a body without `choices` is a caught KeyError and gives nothing |
| ClipboardToAnki.Sender | clipboard_to_anki.py:102 | the connector has no image, no duplicates and note type `Basic` |
| ClipboardToAnki.CreateAnkiCard | clipboard_to_anki.py:100-103 | the legacy `add_card` with an empty source: `None`, or a raise iff the `addNote` post raises |
| ClipboardToAnki.Main | clipboard_to_anki.py:105-131 | a card is created iff there is a key, a non-empty fact and both parts of a card; a raise out of `generate_qa` ends the run; the notification follows the truthiness of what `create_anki_card` returns |
| ClipboardToAnki.LegacyNeverNotifiesSuccess | clipboard_to_anki.py:127-131 | as written, success is never announced |
| ClipboardToAnki.VerifiedNotifiesSuccessIffReadBack | clipboard_to_anki.py:127-131 | with the verifying connector, success is announced iff the card was posted and read back |
| DesktopAssistant.Corrected | main.py:93 | the model's text loses every newline and is stripped |
| DesktopAssistant.SpaceRun | main.py:138 | the length of the run of spaces at the start |
| DesktopAssistant.ReplaceSpaces | main.py:137-138 | a length bound: the result is no shorter than the text and at most one character longer per four; the content is proved by `ReplaceSpacesBreaksRuns` |
| DesktopAssistant.ReplaceSpacesFrom | main.py:137-138 | the regex scan equals the reference from any point outside a run of four |
| DesktopAssistant.RunCopied | main.py:137-138 | inside a run, the reference copies the spaces |
| DesktopAssistant.BreakRunAt | main.py:137-138 | at a run of four or more spaces the reference gives a newline and the whole groups of four, leaving fewer than four spaces |
| DesktopAssistant.ReplaceSpacesBreaksRuns | main.py:137-138 | `replace_spaces` puts one newline before each maximal run of four or more spaces and changes nothing else |
| DesktopAssistant.ReplaceSpacesNoRun | main.py:137-138 | text with no four spaces in a row is unchanged |
| DesktopAssistant.Indentation | main.py:104-105 | the indentation is the leading whitespace of the first line: a prefix, all whitespace, maximal |
| DesktopAssistant.CommentLine | main.py:106 | a commented line is one character longer, with `#` right after its leading whitespace |
| DesktopAssistant.CommentRoundTrip | main.py:106 | commenting a line loses nothing: uncommenting gives it back |
| DesktopAssistant.CommentKeepsLine | main.py:106 | a commented line gains no newline |
| DesktopAssistant.CommentLines | main.py:106 | one commented line per line |
| DesktopAssistant.PreText | main.py:106 | `pre_text` ends in a newline |
| DesktopAssistant.PreTextLines | main.py:106 | `pre_text` ends in a newline and has one commented line per selection line |
| DesktopAssistant.IndentLines | main.py:110 | one indented line per reply line |
| DesktopAssistant.Indent | main.py:110 | the re-indented reply starts with the indentation |
| DesktopAssistant.IndentKeepsLines | main.py:110 | re-indenting keeps the line count, prefixes each line with the indentation, and removing it gives the reply back |
| DesktopAssistant.IndentOneLine | main.py:110 | a reply without newlines is indented once |
| DesktopAssistant.CodingAssistant | main.py:99-131 | under 5000 characters the paste is `pre_text`, then the indented reply, after `replace_spaces` for the new assistant; otherwise nothing |
| DesktopAssistant.GrammarRequest | main.py:155-164 | a request exactly under the limit; it is the prompt followed by the selection with each newline made a space, position by position, then stripped, so it holds no newline and is its own strip |
| DesktopAssistant.AutoGrammar | main.py:152-160 | the whole-box fix sends only under 1000 characters |
| DesktopAssistant.HighlightGrammar | main.py:161-166 | the highlight fix sends only under 10000 characters |
| DesktopAssistant.CardSplit | main.py:177-178 | no `Front: ` means the split raises; parts are stripped |
| DesktopAssistant.SplitAbsentIffSingle | main.py:177 | a split has one part iff the separator is absent |
| DesktopAssistant.SplitAtOnly | main.py:177 | splitting at the only occurrence gives the two sides |
| DesktopAssistant.CardSplitRoundTrip | main.py:177-178 | pre + `Front: ` + q + `Back: ` + a with single markers gives strip(q) and strip(a) |
| DesktopAssistant.CardSource | main.py:179-181 | the browser url, blanked when it holds `Front: ` |
| DesktopAssistant.ImageFileName | main.py:196 | the JPEG name is the path without its extension, each space made `_` position by position, then `.jpg`; so it has no spaces |
| DesktopAssistant.MakeAnki | main.py:171-212 | the card split from the reply goes to the legacy connector with the url source and, in image mode, the JPEG; a failed split raises; the length guard is under 1000 |

## Left out

- HTTP transport, the language-model clients (Groq, OpenAI, DeepSeek) and file reads and writes are not modelled. They enter as parameters: replies as values, file contents as `Option`s, and success flags for renames and writes.
- The image bytes and their base64 encoding are opaque, so the media request carries only the filename.
- `ai_tutor_anki/anki_utils.py` is process control, so `ensure_anki_running()` is a boolean parameter.
- `json_to_anki.py` is a PyQt reviewer widget driven by the UI event loop.
- `define_selected.py`, `test_pydict.py` and `download_wordnet.py` wrap dictionary libraries.
- `selected_to_research.py` and the Obsidian-inbox branch of `main.py` are clipboard capture, clock reads and file prepends.
- The desktop plumbing of `main.py` is not modelled: xdotool, xclip, pyautogui key presses, `pyperclip`, the PIL conversion, screenshot selection by ctime, and `asyncio`.
- The flag dispatch of `main.py`'s `main` (several flags may run in turn) is not modelled. Each branch is its own function.
- `notify`, printing and logging to `response.txt` have no effect on any result and are not modelled.
- `argv` handling in each script's `main` is not modelled, except the mode and deck selection of `anki_duplicate_cleaner.py`.
- `sys.exit` codes are not modelled.
- The server is a fixed function from request to reply, so changes to the collection between two requests of one run are not modelled.
- The language model's reply for each chunk is a function of the chunk's index.
- `AnkiConnector.VerifyCardCreated` consults the raw-text fallback only when `result` is a non-empty list, as the code nests it. An empty or missing `result` gives False even if the id occurs in the raw text.
- `AnkiConnector.InterpretAddNote`: `int()` accepts ASCII digits with an optional sign and surrounding whitespace. Underscores and non-ASCII digits are not modelled.
- `Json.PyStr` renders strings inside lists and dicts single-quoted without escaping. It approximates Python's `repr`, which matters only for the substring search of verification.
- JSON numbers are integers; floats are not modelled.
- `RemoveDuplicates.DecodeNote`: the model raises for any `mod` that is not an integer or a bool on a note with a non-empty front. Python raises only when the sort compares two values of types that cannot be ordered (a str with an int, None with anything, a dict). It never sorts a group of one, and it sorts a group whose mods are all strings, or all lists, without raising. Python's comparison order across types is not modelled, so such runs raise in the model.
- `JsonToAnki.LoadJsonCards` takes `json.loads` as a parameter (`parse`), so JSON syntax itself is not modelled.
- `DesktopAssistant.MakeAnki` sends the fixed fact `main.py` hard-codes for `--makeanki`, as the code does. The selection's length guard therefore applies only to `--makeankiimage`.
- `DesktopAssistant.CodingAssistant` takes the text the model returned, which `send_request` puts on the clipboard before the assistant reads it back.
- `PhoneAnkiMaker.MainProcessing` does not model the file-exists and size checks separately. A missing file and an empty file both appear as content that does not clear.

## Findings

| source | as written | input that shows it | evidently intended | confidence | as-written member | corrected member |
|---|---|---|---|---|---|---|
| phone_auto_anki_maker.py:190-208 | `if not connector.add_card(...)` tests the result of the root connector's `add_card`, which always returns `None`, so every added card sets `card_creation_failed` | a file holding `Polar bears have black skin \| example.com` and a model reply `Front: Q Back: A` | clear the file once every chunk's card was added | high; not executed | PhoneAnkiMaker.LegacyAddNeverClears | PhoneAnkiMaker.VerifiedClearsIffAllAdded |
| clipboard_to_anki.py:127-131 | `if result:` tests the `None` returned by the root connector's `add_card`, so "Failed to create Anki card." is shown after every card | a clipboard fact with a model reply `Front: Q Back: A` | announce success when the card was added | high; not executed | ClipboardToAnki.LegacyNeverNotifiesSuccess | ClipboardToAnki.VerifiedNotifiesSuccessIffReadBack |
