/**
 * ai_tutor_anki/clean_json_duplicates.py: drop the cards of a JSON file
 * whose stripped front was already seen, keeping the first card for each
 * front in the order of the file, and write the result back (after
 * moving the original aside) or to a second file.
 */
module CleanJsonDuplicates {
  import opened Optional
  import opened PyText
  import opened Json
  import FrontBack

  /** What the loop makes of one card. */
  datatype Key =
    | Missing              // `'front' not in card`: skipped with a warning
    | Front(text: string)  // `card['front'].strip()`
    | Bad                  // the test, the lookup or `.strip()` raises

  function CardKey(card: Json): (k: Key)
    ensures k.Front? ==> k.text == Strip(k.text)
  {
    match In("front", card)
    case None => Bad
    case Some(present) =>
      if !present then Missing
      else match Subscript(card, "front")
        case Some(JStr(s)) => FrontBack.StripIdempotent(s); Front(Strip(s))
        case _ => Bad
  }

  /** The key of every card, in order. */
  function CardKeys(cards: seq<Json>): (keys: seq<Key>)
    ensures |keys| == |cards|
  {
    seq(|cards|, i requires 0 <= i < |cards| => CardKey(cards[i]))
  }

  /** Position `i` has a front, and no earlier position has the same one. */
  predicate FirstSeen(keys: seq<Key>, i: int)
    requires 0 <= i < |keys|
  {
    keys[i].Front? && keys[i] !in keys[..i]
  }

  /** The items at the first-seen positions of `keys`, in order. */
  function Kept<T>(items: seq<T>, keys: seq<Key>): (r: seq<T>)
    requires |items| == |keys|
    ensures |r| <= |items|
    ensures forall j :: 0 <= j < |r| ==> r[j] in items
  {
    if items == [] then []
    else
      var n := |items| - 1;
      Kept(items[..n], keys[..n]) + (if FirstSeen(keys, n) then [items[n]] else [])
  }

  /** The reference result: the first card for each stripped front, in the order of the file. */
  function FirstOccurrences(cards: seq<Json>): (r: seq<Json>)
    ensures |r| <= |cards| && forall j :: 0 <= j < |r| ==> r[j] in cards
  {
    Kept(cards, CardKeys(cards))
  }

  /** The number of positions with a front that was seen before. */
  function Duplicates(keys: seq<Key>): nat {
    if keys == [] then 0
    else
      var n := |keys| - 1;
      Duplicates(keys[..n]) + (if keys[n].Front? && !FirstSeen(keys, n) then 1 else 0)
  }

  /** The number of positions without a `front`. */
  function Skipped(keys: seq<Key>): nat {
    if keys == [] then 0
    else
      var n := |keys| - 1;
      Skipped(keys[..n]) + (if keys[n] == Missing then 1 else 0)
  }

  /** No card makes the loop raise. */
  predicate Readable(cards: seq<Json>) {
    Bad !in CardKeys(cards)
  }

  /**
   * `seen_fronts` after the loop has visited `cards` with these keys: each
   * stripped front once, with the first card that had it, in order of
   * first appearance.
   */
  function SeenFronts(cards: seq<Json>, keys: seq<Key>): seq<(string, Json)>
    requires |cards| == |keys|
  {
    if cards == [] then []
    else
      var n := |cards| - 1;
      var seen := SeenFronts(cards[..n], keys[..n]);
      match keys[n]
      case Front(k) => if k in Keys(seen) then seen else seen + [(k, cards[n])]
      case _ => seen
  }

  /** A front is in `seen_fronts` exactly when some visited card had it. */
  lemma {:induction false} SeenFrontsKeys(cards: seq<Json>, keys: seq<Key>, k: string)
    requires |cards| == |keys|
    ensures k in Keys(SeenFronts(cards, keys)) <==> Front(k) in keys
    decreases |cards|
  {
    if cards != [] {
      var n := |cards| - 1;
      SeenFrontsKeys(cards[..n], keys[..n], k);
      var seen := SeenFronts(cards[..n], keys[..n]);
      assert keys == keys[..n] + [keys[n]];
      if keys[n].Front? && keys[n].text !in Keys(seen) {
        assert Keys(seen + [(keys[n].text, cards[n])]) == Keys(seen) + [keys[n].text];
      }
    }
  }

  /** The kept cards, `list(seen_fronts.values())`, are the first-seen cards. */
  lemma {:induction false} SeenFrontsValues(cards: seq<Json>, keys: seq<Key>)
    requires |cards| == |keys|
    ensures Values(SeenFronts(cards, keys)) == Kept(cards, keys)
    decreases |cards|
  {
    if cards != [] {
      var n := |cards| - 1;
      SeenFrontsValues(cards[..n], keys[..n]);
      var seen := SeenFronts(cards[..n], keys[..n]);
      match keys[n]
      case Front(k) =>
        SeenFrontsKeys(cards[..n], keys[..n], k);
        if k !in Keys(seen) {
          assert Values(seen + [(k, cards[n])]) == Values(seen) + [cards[n]];
        }
      case _ =>
    }
  }

  /** The positions `0 .. n-1`, in order. */
  function Positions(n: nat): (ps: seq<int>)
    ensures |ps| == n && forall i :: 0 <= i < n ==> ps[i] == i
  {
    seq(n, i requires 0 <= i < n => i)
  }

  /** The positions whose items `Kept` keeps, in order. */
  function KeptPositions(keys: seq<Key>): seq<int> {
    Kept(Positions(|keys|), keys)
  }

  /** Two positions below `n` are first-seen in `keys[..n]` exactly when they are in `keys`. */
  lemma FirstSeenPrefix(keys: seq<Key>, n: int, i: int)
    requires 0 <= i < n <= |keys|
    ensures FirstSeen(keys[..n], i) <==> FirstSeen(keys, i)
  {
    assert keys[..n][..i] == keys[..i];
  }

  /**
   * A position is kept exactly when its key is a front that no earlier
   * position has, and the kept positions come in increasing order.
   */
  lemma {:induction false} KeptPositionsFirstSeen(keys: seq<Key>)
    ensures var ps := KeptPositions(keys);
      && (forall j :: 0 <= j < |ps| ==> 0 <= ps[j] < |keys| && FirstSeen(keys, ps[j]))
      && (forall i :: 0 <= i < |keys| && FirstSeen(keys, i) ==> i in ps)
      && (forall j, j' :: 0 <= j < j' < |ps| ==> ps[j] < ps[j'])
    decreases |keys|
  {
    if keys != [] {
      var n := |keys| - 1;
      var init := keys[..n];
      KeptPositionsFirstSeen(init);
      assert Positions(|keys|)[..n] == Positions(n);
      var prev := KeptPositions(init);
      var ps := KeptPositions(keys);
      assert ps == prev + (if FirstSeen(keys, n) then [n] else []);
      forall j | 0 <= j < |prev|
        ensures ps[j] == prev[j] && 0 <= ps[j] < n && FirstSeen(keys, ps[j])
      {
        FirstSeenPrefix(keys, n, prev[j]);
      }
      forall i | 0 <= i < |keys| && FirstSeen(keys, i)
        ensures i in ps
      {
        if i < n {
          FirstSeenPrefix(keys, n, i);
          assert i in prev;
        } else {
          assert ps[|ps| - 1] == n;
        }
      }
    }
  }

  /** `Kept` takes the item at each kept position. */
  lemma {:induction false} KeptAtPositions<T>(items: seq<T>, keys: seq<Key>)
    requires |items| == |keys|
    ensures var ps := KeptPositions(keys);
      && |Kept(items, keys)| == |ps|
      && forall j :: 0 <= j < |ps| ==> 0 <= ps[j] < |items| && Kept(items, keys)[j] == items[ps[j]]
    decreases |items|
  {
    KeptPositionsFirstSeen(keys);
    if items != [] {
      var n := |items| - 1;
      KeptAtPositions(items[..n], keys[..n]);
      assert Positions(|keys|)[..n] == Positions(n);
      var prev := KeptPositions(keys[..n]);
      var ps := KeptPositions(keys);
      assert ps == prev + (if FirstSeen(keys, n) then [n] else []);
      assert forall j :: 0 <= j < |prev| ==> Kept(items, keys)[j] == Kept(items[..n], keys[..n])[j];
    }
  }

  /**
   * A card is kept exactly when its key is a front not seen at an earlier
   * position: the kept cards are the cards at those positions, in the
   * order of the file.
   */
  lemma KeptIffFirstSeen<T>(items: seq<T>, keys: seq<Key>)
    requires |items| == |keys|
    ensures var ps := KeptPositions(keys);
      && |Kept(items, keys)| == |ps|
      && (forall j :: 0 <= j < |ps| ==> 0 <= ps[j] < |items| && Kept(items, keys)[j] == items[ps[j]])
      && (forall i :: 0 <= i < |keys| ==> (i in ps <==> FirstSeen(keys, i)))
      && (forall j, j' :: 0 <= j < j' < |ps| ==> ps[j] < ps[j'])
  {
    KeptPositionsFirstSeen(keys);
    KeptAtPositions(items, keys);
  }

  /** Every position has a front, and no two have the same one. */
  predicate DistinctFronts(keys: seq<Key>) {
    (forall i :: 0 <= i < |keys| ==> keys[i].Front?)
    && forall i, j :: 0 <= i < j < |keys| ==> keys[i] != keys[j]
  }

  /** The kept keys all are fronts, no two the same. */
  lemma {:induction false} KeptDistinct(keys: seq<Key>)
    ensures DistinctFronts(Kept(keys, keys))
    decreases |keys|
  {
    if keys != [] {
      var n := |keys| - 1;
      var init := keys[..n];
      KeptDistinct(init);
      var p := Kept(init, init);
      if FirstSeen(keys, n) {
        var r := p + [keys[n]];
        forall i | 0 <= i < |p|
          ensures p[i] != keys[n]
        {
          assert p[i] in init;
        }
        forall i, j | 0 <= i < j < |r|
          ensures r[i] != r[j]
        {
          assert r[i] == p[i];
        }
        assert forall i :: 0 <= i < |p| ==> r[i] == p[i];
      }
    }
  }

  /** Items whose keys are distinct fronts are all kept, none counted as duplicates. */
  lemma {:induction false} DistinctFrontsKept<T>(items: seq<T>, keys: seq<Key>)
    requires |items| == |keys|
    requires DistinctFronts(keys)
    ensures Kept(items, keys) == items
    ensures Duplicates(keys) == 0
    decreases |items|
  {
    if items != [] {
      var n := |items| - 1;
      assert DistinctFronts(keys[..n]);
      DistinctFrontsKept(items[..n], keys[..n]);
      assert keys[n] !in keys[..n] by {
        forall j | 0 <= j < n ensures keys[..n][j] != keys[n] {
          assert keys[..n][j] == keys[j];
        }
      }
      assert FirstSeen(keys, n);
      assert items[..n] + [items[n]] == items;
    }
  }

  /** The keys of the kept cards are the kept keys. */
  lemma {:induction false} KeysOfKept(cards: seq<Json>, keys: seq<Key>)
    requires keys == CardKeys(cards)
    ensures CardKeys(Kept(cards, keys)) == Kept(keys, keys)
    decreases |cards|
  {
    if cards != [] {
      var n := |cards| - 1;
      assert keys[..n] == CardKeys(cards[..n]);
      KeysOfKept(cards[..n], keys[..n]);
      var p := Kept(cards[..n], keys[..n]);
      if FirstSeen(keys, n) {
        assert CardKeys(p + [cards[n]]) == CardKeys(p) + [keys[n]];
      }
    }
  }

  /** Cleaning the cleaned cards again removes nothing. */
  lemma CleaningIsIdempotent(cards: seq<Json>)
    ensures FirstOccurrences(FirstOccurrences(cards)) == FirstOccurrences(cards)
    ensures Duplicates(CardKeys(FirstOccurrences(cards))) == 0
  {
    var keys := CardKeys(cards);
    KeysOfKept(cards, keys);
    KeptDistinct(keys);
    DistinctFrontsKept(FirstOccurrences(cards), CardKeys(FirstOccurrences(cards)));
  }

  /** Every card is kept, counted as a duplicate, or skipped. */
  lemma {:induction false} CardsAccountedFor<T>(items: seq<T>, keys: seq<Key>)
    requires |items| == |keys|
    requires Bad !in keys
    ensures |Kept(items, keys)| + Duplicates(keys) + Skipped(keys) == |keys|
    decreases |items|
  {
    if items != [] {
      var n := |items| - 1;
      assert keys[n] in keys;
      assert Bad !in keys[..n];
      CardsAccountedFor(items[..n], keys[..n]);
    }
  }

  /** The `front` of a `duplicates_found` entry: at most 60 characters, then `...`. */
  function Preview(front: string): (p: string)
    ensures |front| <= 60 ==> p == front
    ensures |front| > 60 ==> |p| == 63 && p[..60] == front[..60]
  {
    if |front| > 60 then front[..60] + "..." else front
  }

  /**
   * The loop of `clean_json_duplicates` over the loaded cards.  `ok` is
   * false where it raises; `duplicatesFound` holds the 1-based index and
   * preview of each duplicate.
   */
  method RemoveDuplicates(cards: seq<Json>) returns (ok: bool, uniqueCards: seq<Json>, duplicatesFound: seq<(nat, string)>)
    ensures ok <==> Readable(cards)
    ensures ok ==> uniqueCards == FirstOccurrences(cards)
    ensures ok ==> |duplicatesFound| == Duplicates(CardKeys(cards))
    ensures ok ==> |uniqueCards| + |duplicatesFound| + Skipped(CardKeys(cards)) == |cards|
  {
    ghost var keys := CardKeys(cards);
    var seenFronts: seq<(string, Json)> := [];
    duplicatesFound := [];
    uniqueCards := [];
    var i := 0;
    while i < |cards|
      invariant 0 <= i <= |cards|
      invariant Bad !in keys[..i]
      invariant seenFronts == SeenFronts(cards[..i], keys[..i])
      invariant |duplicatesFound| == Duplicates(keys[..i])
    {
      var key := ReadKey(cards[i]);
      assert key == keys[i];
      if key == Bad {
        assert Bad in keys;
        return false, uniqueCards, duplicatesFound;
      }
      seenFronts, duplicatesFound := Visit(cards, keys, i, key, seenFronts, duplicatesFound);
      i := i + 1;
    }
    assert cards[..i] == cards && keys[..i] == keys;
    uniqueCards := Values(seenFronts);
    SeenFrontsValues(cards, keys);
    CardsAccountedFor(cards, keys);
    ok := true;
  }

  /** The test on `'front'` and `card['front'].strip()` for one card. */
  method ReadKey(card: Json) returns (key: Key)
    ensures key == CardKey(card)
  {
    var present := In("front", card);
    if present.None? {
      return Bad;
    }
    if !present.value {
      return Missing;
    }
    var front := Subscript(card, "front");
    if front.Some? && front.value.JStr? {
      key := Front(Strip(front.value.s));
    } else {
      key := Bad;
    }
  }

  /** The body of the loop for card `i`, whose key is not `Bad`. */
  method Visit(cards: seq<Json>, ghost keys: seq<Key>, i: nat, key: Key,
               seenFronts: seq<(string, Json)>, duplicatesFound: seq<(nat, string)>)
    returns (seen: seq<(string, Json)>, found: seq<(nat, string)>)
    requires |cards| == |keys| && i < |cards| && keys[i] == key && key != Bad
    requires Bad !in keys[..i]
    requires seenFronts == SeenFronts(cards[..i], keys[..i])
    requires |duplicatesFound| == Duplicates(keys[..i])
    ensures Bad !in keys[..i + 1]
    ensures seen == SeenFronts(cards[..i + 1], keys[..i + 1])
    ensures |found| == Duplicates(keys[..i + 1])
  {
    LoopStep(cards, keys, i);
    seen, found := seenFronts, duplicatesFound;
    if key.Front? {
      var frontText := key.text;
      if frontText in Keys(seenFronts) {
        found := duplicatesFound + [(i + 1, Preview(frontText))];
      } else {
        seen := seenFronts + [(frontText, cards[i])];
      }
    }
  }

  /** One pass of the loop, in terms of the prefix already visited. */
  lemma LoopStep(cards: seq<Json>, keys: seq<Key>, i: int)
    requires |cards| == |keys|
    requires 0 <= i < |cards|
    ensures var k := keys[i];
      var seen := SeenFronts(cards[..i], keys[..i]);
      && SeenFronts(cards[..i + 1], keys[..i + 1])
           == (if k.Front? && k.text !in Keys(seen) then seen + [(k.text, cards[i])] else seen)
      && Duplicates(keys[..i + 1])
           == Duplicates(keys[..i]) + (if k.Front? && k.text in Keys(seen) then 1 else 0)
      && keys[..i + 1] == keys[..i] + [k]
  {
    assert cards[..i + 1][..i] == cards[..i];
    assert keys[..i + 1][..i] == keys[..i];
    if keys[i].Front? {
      SeenFrontsKeys(cards[..i], keys[..i], keys[i].text);
    }
  }

  /** The backup path: every `.json` in the input path becomes `_backup.json`. */
  function BackupName(inputFile: string): (b: string)
    // A path without `.json` is its own backup name.
    ensures !Contains(inputFile, ".json") ==> b == inputFile
  {
    ReplaceAll(inputFile, ".json", "_backup.json")
  }

  /** `name.json`, with no other `.json` in `name`, is backed up as `name_backup.json`. */
  lemma BackupOfPlainName(stem: string)
    requires forall i :: 0 <= i < |stem| ==> !OccursAt(stem, ".json", i)
    ensures BackupName(stem + ".json") == stem + "_backup.json"
  {
    var p := stem + ".json";
    forall i | 0 <= i < |stem|
      ensures !OccursAt(p, ".json", i)
    {
      // An occurrence overlapping the final `.json` would need a `.` among
      // `json`, so only occurrences inside the stem need ruling out.
      if i + 5 <= |stem| {
        assert !OccursAt(stem, ".json", i);
        assert p[i..i + 5] == stem[i..i + 5];
        assert !OccursAt(p, ".json", i);
      } else if i + 5 <= |p| {
        assert p[i..i + 5][|stem| - i] == '.' != ".json"[|stem| - i];
      }
    }
    assert OccursAt(p, ".json", |stem|) by { assert p[|stem|..|stem| + 5] == ".json"; }
    FindIs(p, ".json", |stem|);
    assert p[..|stem|] == stem;
    assert p[|stem| + 5..] == [];
    assert Find([], ".json") == -1;
    assert ReplaceAll([], ".json", "_backup.json") == [];
    assert ReplaceAll(p, ".json", "_backup.json") == p[..|stem|] + "_backup.json" + ReplaceAll(p[|stem| + 5..], ".json", "_backup.json");
  }

  /** What `clean_json_duplicates` leaves behind: its result, the backup made, and the file written. */
  datatype Cleaning = Cleaning(ok: bool, backup: Option<string>, written: Option<(string, seq<Json>)>)

  /**
   * `clean_json_duplicates(input_file, output_file)`.  `data` is what
   * `json.load` reads (`None` when opening or decoding fails); `renameOk`
   * and `writeOk` say whether moving the input aside and writing the
   * output succeed.  Every exception is caught and gives False.
   */
  method CleanJsonDuplicates(inputExists: bool, data: Option<Json>, inputFile: string, outputFile: Option<string>,
                             renameOk: bool, writeOk: bool)
    returns (result: Cleaning)
    ensures result.ok ==> inputExists && data.Some? && Iterate(data.value).Some? && Readable(Iterate(data.value).value)
    ensures result.ok <==> (inputExists && data.Some? && Iterate(data.value).Some? && Readable(Iterate(data.value).value)
      && (outputFile.Some? || renameOk) && writeOk)
    // The file written holds the first card for each front, in order.
    ensures result.written.Some? ==>
      result.ok && result.written.value.1 == FirstOccurrences(Iterate(data.value).value)
      && result.written.value.0 == (if outputFile.Some? then outputFile.value else inputFile)
    ensures result.ok ==> result.written.Some?
    // Without an output file the input is first moved to its backup name.
    ensures result.backup.Some? <==>
      inputExists && data.Some? && Iterate(data.value).Some? && Readable(Iterate(data.value).value) && outputFile.None? && renameOk
    ensures result.backup.Some? ==> result.backup.value == BackupName(inputFile)
  {
    if !inputExists || data.None? {
      return Cleaning(false, None, None);
    }
    var cards := Iterate(data.value);
    if cards.None? {
      return Cleaning(false, None, None);
    }
    var ok, uniqueCards, duplicatesFound := RemoveDuplicates(cards.value);
    if !ok {
      return Cleaning(false, None, None);
    }
    var output := inputFile;
    var backup: Option<string> := None;
    if outputFile.None? {
      var backupFile := BackupName(inputFile);
      if !renameOk {
        return Cleaning(false, None, None);
      }
      backup := Some(backupFile);
    } else {
      output := outputFile.value;
    }
    if !writeOk {
      return Cleaning(false, backup, None);
    }
    result := Cleaning(true, backup, Some((output, uniqueCards)));
  }
}
