/**
 * The older connector in the repository root (AnkiConnector.py), which
 * phone_auto_anki_maker.py and clipboard_to_anki.py import.  It posts the
 * note without reading the reply and always returns `None`.
 */
module LegacyConnector {
  import opened Optional
  import opened PyText
  import opened Json
  import opened AnkiApi
  import AnkiConnector

  /** The text appended to Back when an image is configured. */
  function ImageSuffix(filename: string, source: string): string {
    "<br><img src=\"" + filename + "\"><br><br>source: " + source
  }

  /** The note the legacy `add_card` posts. */
  function Payload(c: Connector, front: string, back: string, source: string): (n: NotePayload)
    ensures n.deckName == c.deckName && n.modelName == c.noteType && n.allowDuplicate == c.allowDuplicate
    ensures n.front == JStr(front) && n.tags == []
    // With an image the source follows the tag, even when it is empty; without one it is dropped.
    ensures HasImage(c) ==> n.back == JStr(back + ImageSuffix(AnkiConnector.MediaFilename(c.backImage.value), source))
    ensures !HasImage(c) ==> n.back == JStr(back)
  {
    var suffix := if HasImage(c) then ImageSuffix(AnkiConnector.MediaFilename(c.backImage.value), source) else "";
    assert !HasImage(c) ==> back + suffix == back;
    NotePayload(c.deckName, c.noteType, JStr(front), JStr(back + suffix), c.allowDuplicate, [])
  }

  /**
   * The value the legacy `add_card` gives back: `None` whatever the reply
   * says, unless opening the image or a post raises.
   */
  function AddCardResult(c: Connector, front: string, back: string, source: string, imageReadable: bool, ask: Request -> Http): (o: Outcome<Json>)
    ensures o == Raised || o == Returned(JNull)
    ensures o == Raised <==> !AnkiConnector.PostsNote(c, imageReadable, ask) || ask(AddNote(Payload(c, front, back, source))).Failed?
  {
    if !AnkiConnector.PostsNote(c, imageReadable, ask) then Raised
    else if ask(AddNote(Payload(c, front, back, source))).Failed? then Raised
    else Returned(JNull)
  }

  /**
   * `add_card(front, back, source)`.  The reply status is only printed, so
   * the call returns `None` unless opening the image or a post raises.
   */
  method AddCard(c: Connector, front: string, back: string, source: string, imageReadable: bool, ask: Request -> Http)
    returns (outcome: Outcome<Json>, sent: seq<Request>)
    ensures outcome == AddCardResult(c, front, back, source, imageReadable, ask)
    ensures HasImage(c) && !imageReadable ==> outcome == Raised && sent == []
    ensures HasImage(c) && imageReadable && ask(AnkiConnector.MediaRequests(c)[0]).Failed? ==>
      outcome == Raised && sent == AnkiConnector.MediaRequests(c)
    ensures AnkiConnector.PostsNote(c, imageReadable, ask) ==>
      var add := AddNote(Payload(c, front, back, source));
      sent == AnkiConnector.MediaRequests(c) + [add] && (outcome == Raised <==> ask(add).Failed?)
  {
    var note := NotePayload(c.deckName, c.noteType, JStr(front), JStr(back), c.allowDuplicate, []);
    sent := [];
    if HasImage(c) {
      var filename := AnkiConnector.MediaStem(c.backImage.value);
      if !imageReadable {
        return Raised, sent;
      }
      var store := StoreMediaFile(filename + ".jpg");
      sent := sent + [store];
      if ask(store).Failed? {
        return Raised, sent;
      }
      note := note.(back := JStr(note.back.s + ImageSuffix(filename + ".jpg", source)));
    }
    assert note == Payload(c, front, back, source);
    var add := AddNote(note);
    sent := sent + [add];
    if ask(add).Failed? {
      outcome := Raised;
    } else {
      outcome := Returned(JNull);
    }
  }

  /** Without an image the legacy note ignores the source entirely. */
  lemma SourceIgnoredWithoutImage(c: Connector, front: string, back: string, s1: string, s2: string)
    requires !HasImage(c)
    ensures Payload(c, front, back, s1) == Payload(c, front, back, s2)
  {
  }

  /**
   * With an image and a non-empty source the two connectors build
   * different Back fields: the legacy one writes the bare source, the
   * newer one a link.
   */
  lemma {:induction false} BackDiffersFromLinkedCitation(c: Connector, front: string, back: string, source: string)
    requires HasImage(c) && source != ""
    ensures Payload(c, front, back, source).back != AnkiConnector.Payload(c, JStr(front), JStr(back), source).value.back
  {
    var name := AnkiConnector.MediaFilename(c.backImage.value);
    var legacy := Payload(c, front, back, source).back;
    var linked := AnkiConnector.Payload(c, JStr(front), JStr(back), source).value.back;
    assert legacy == JStr(back + ImageSuffix(name, source));
    assert linked == JStr(back + AnkiConnector.ImagePart(c) + AnkiConnector.Citation(source));
    assert |ImageSuffix(name, source)| == 32 + |name| + |source|;
    assert |AnkiConnector.ImagePart(c)| == 16 + |name|;
    assert |AnkiConnector.Citation(source)| == 31 + 2 * |source|;
  }
}
