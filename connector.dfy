/**
 * The verifying connector of ai_tutor_anki/AnkiConnector.py: it builds the
 * `addNote` payload (optional image tag, then the source citation), posts
 * it, reads the `{result, error}` envelope, and reports success only after
 * a second `notesInfo` round-trip finds the new note id.
 */
module AnkiConnector {
  import opened Optional
  import opened PyText
  import opened Json
  import opened AnkiApi

  /** The last index of `c` in `s`, or -1 (`s.rfind(c)`). */
  function LastIndex(s: string, c: char): (r: int)
    ensures -1 <= r < |s|
    ensures r >= 0 ==> s[r] == c
    ensures forall k :: r < k < |s| ==> s[k] != c
  {
    if s == [] then -1
    else if s[|s| - 1] == c then |s| - 1
    else LastIndex(s[..|s| - 1], c)
  }

  /**
   * `os.path.splitext(p)[0]` for POSIX paths: drop the text from the last
   * dot of the last component, unless that component is only dots before it.
   */
  function SplitExtRoot(p: string): string {
    var sep := LastIndex(p, '/');
    var dot := LastIndex(p, '.');
    if dot > sep && exists k :: sep + 1 <= k < dot && p[k] != '.' then p[..dot] else p
  }

  /** `filename.split('/')[-1]` after `splitext`: the media file's stem. */
  function MediaStem(path: string): (stem: string)
    ensures '/' !in stem
  {
    var root := SplitExtRoot(path);
    root[LastIndex(root, '/') + 1..]
  }

  /** The name the image is stored under with `storeMediaFile`. */
  function MediaFilename(path: string): string {
    MediaStem(path) + ".jpg"
  }

  /** The HTML appended for the source; nothing for an empty source. */
  function Citation(source: string): (r: string)
    ensures r == "" <==> source == ""
  {
    if source != "" then "<br><br>source: <a href=\"" + source + "\">" + source + "</a>" else ""
  }

  function ImageTag(filename: string): string {
    "<br><img src=\"" + filename + "\">"
  }

  /** What `add_card` appends to the Back field, before the citation. */
  function ImagePart(c: Connector): string {
    if HasImage(c) then ImageTag(MediaFilename(c.backImage.value)) else ""
  }

  /**
   * The note `add_card` posts for `(front, back, source)`: Front as given,
   * Back extended by `+=` with the image tag and the citation, or `None`
   * where that `+=` raises (a Back that is neither a string nor a list).
   */
  function Payload(c: Connector, front: Json, back: Json, source: string): (n: Option<NotePayload>)
    ensures n.Some? <==> back.JStr? || back.JArr?
    ensures n.Some? ==>
      && n.value.deckName == c.deckName && n.value.modelName == c.noteType && n.value.allowDuplicate == c.allowDuplicate
      && n.value.front == front && n.value.tags == []
      && Some(n.value.back) == AppendText(back, ImagePart(c) + Citation(source))
    ensures back.JStr? ==> n.value.back == JStr(back.s + ImagePart(c) + Citation(source))
  {
    var suffix := ImagePart(c) + Citation(source);
    assert back.JStr? ==> back.s + suffix == back.s + ImagePart(c) + Citation(source);
    match AppendText(back, suffix)
    case Some(extended) => Some(NotePayload(c.deckName, c.noteType, front, extended, c.allowDuplicate, []))
    case None => None
  }

  /** How `add_card` reads the `addNote` reply. */
  datatype AddStep =
    | NotJson         // `response.json()` raised ValueError
    | ApiError        // a truthy `error`
    | NoResult        // `result` missing or null
    | BadNoteId       // `int(result)` raised ValueError
    | Crashed         // the post raised, or `.get`/`int` raised something other than ValueError
    | Verify(id: int) // go on to `verify_card_created(id)`

  function InterpretAddNote(r: Http): (step: AddStep)
    ensures step.Verify? <==>
      r.Reply? && r.body.Some? && r.body.value.JObj? && !Truthy(Get(r.body.value, "error"))
      && IntOf(Get(r.body.value, "result")).IntOk?
    ensures step.Verify? ==> step.id == IntOf(Get(r.body.value, "result")).n
    ensures step == ApiError <==> r.Reply? && r.body.Some? && r.body.value.JObj? && Truthy(Get(r.body.value, "error"))
    ensures step == NotJson <==> r.Reply? && r.body.None?
  {
    match r
    case Failed => Crashed
    case Reply(_, _, body) =>
      match body
      case None => NotJson
      case Some(b) =>
        if !b.JObj? then Crashed
        else if Truthy(Get(b, "error")) then ApiError
        else
          var result := Get(b, "result");
          if result == JNull then NoResult
          else match IntOf(result)
            case IntOk(n) => Verify(n)
            case IntValueError => BadNoteId
            case IntTypeError => Crashed
  }

  /** `any(str(id) in str(v) for v in record.values())` */
  predicate AnyValueMentions(record: seq<(string, Json)>, id: int) {
    exists k :: 0 <= k < |record| && Contains(PyStr(record[k].1), DecimalString(id))
  }

  /** The request `verify_card_created(id)` posts. */
  function VerifyRequest(id: int): Request {
    NotesInfo(JArr([JInt(id)]))
  }

  /**
   * `verify_card_created(id)` given the `notesInfo` reply.  The raw-text
   * fallback is consulted only when `result` is a non-empty list.
   */
  function VerifyCardCreated(id: int, r: Http): (o: Outcome<bool>)
    ensures r.Reply? && r.body.None? ==> o == Returned(Contains(r.text, DecimalString(id)))
    ensures r.Reply? && r.body.Some? && r.body.value.JObj? && Truthy(Get(r.body.value, "error")) ==> o == Returned(false)
    ensures r.Reply? && r.body.Some? && r.body.value.JObj? && !Truthy(Get(r.body.value, "result")) ==> o == Returned(false)
    ensures r.Reply? && r.body.Some? && r.body.value.JObj? ==>
      (o == Returned(true) <==>
        && !Truthy(Get(r.body.value, "error"))
        && Get(r.body.value, "result").JArr?
        && |Get(r.body.value, "result").items| > 0
        && Get(r.body.value, "result").items[0].JObj?
        && (AnyValueMentions(Get(r.body.value, "result").items[0].entries, id) || Contains(r.text, DecimalString(id))))
    ensures o == Raised <==>
      (|| r.Failed?
       || (r.body.Some? && !r.body.value.JObj?)
       || (r.body.Some? && r.body.value.JObj? && !Truthy(Get(r.body.value, "error")) && Truthy(Get(r.body.value, "result"))
           && (!Get(r.body.value, "result").JArr? || !Get(r.body.value, "result").items[0].JObj?)))
  {
    match r
    case Failed => Raised
    case Reply(_, text, body) =>
      match body
      case None => Returned(Contains(text, DecimalString(id)))
      case Some(b) =>
        if !b.JObj? then Raised
        else if Truthy(Get(b, "error")) then Returned(false)
        else
          var result := Get(b, "result");
          if !Truthy(result) then Returned(false)
          else if !result.JArr? then Raised
          else if !result.items[0].JObj? then Raised
          else Returned(AnyValueMentions(result.items[0].entries, id) || Contains(text, DecimalString(id)))
  }

  /** The `storeMediaFile` request `add_card` posts first, when an image is configured. */
  function MediaRequests(c: Connector): (rs: seq<Request>)
    ensures |rs| == (if HasImage(c) then 1 else 0)
  {
    if HasImage(c) then [StoreMediaFile(MediaFilename(c.backImage.value))] else []
  }

  /** Whether `add_card` gets as far as posting `addNote`. */
  predicate PostsNote(c: Connector, imageReadable: bool, ask: Request -> Http) {
    !HasImage(c) || (imageReadable && !ask(MediaRequests(c)[0]).Failed?)
  }

  /** The value `add_card` returns, or `Raised`, given the server's replies. */
  function AddCardResult(c: Connector, front: Json, back: Json, source: string, imageReadable: bool, ask: Request -> Http): (o: Outcome<bool>)
    // A Back that `+=` cannot extend raises.
    ensures Payload(c, front, back, source).None? ==> o == Raised
    // True only when the note was posted and the notesInfo read-back found it.
    ensures o == Returned(true) ==>
      PostsNote(c, imageReadable, ask) && Payload(c, front, back, source).Some?
      && InterpretAddNote(ask(AddNote(Payload(c, front, back, source).value))).Verify?
      && VerifyCardCreated(InterpretAddNote(ask(AddNote(Payload(c, front, back, source).value))).id,
                           ask(VerifyRequest(InterpretAddNote(ask(AddNote(Payload(c, front, back, source).value))).id))) == Returned(true)
  {
    if !PostsNote(c, imageReadable, ask) then Raised
    else match Payload(c, front, back, source)
      case None => Raised
      case Some(note) =>
        match InterpretAddNote(ask(AddNote(note)))
        case Verify(id) => VerifyCardCreated(id, ask(VerifyRequest(id)))
        case Crashed => Raised
        case _ => Returned(false)
  }

  /**
   * `add_card(front, back, source)`.  `imageReadable` says whether opening
   * the image file succeeds; `ask` gives the server's reply to each request.
   * `sent` lists the requests posted, in order.
   */
  method AddCard(c: Connector, front: Json, back: Json, source: string, imageReadable: bool, ask: Request -> Http)
    returns (outcome: Outcome<bool>, sent: seq<Request>)
    ensures HasImage(c) && !imageReadable ==> outcome == Raised && sent == []
    ensures HasImage(c) && imageReadable && ask(MediaRequests(c)[0]).Failed? ==>
      outcome == Raised && sent == MediaRequests(c)
    // The `+=` on Back raises after the image is stored and before the note is posted.
    ensures PostsNote(c, imageReadable, ask) && Payload(c, front, back, source).None? ==>
      outcome == Raised && sent == MediaRequests(c)
    ensures PostsNote(c, imageReadable, ask) && Payload(c, front, back, source).Some? ==>
      var add := AddNote(Payload(c, front, back, source).value);
      var step := InterpretAddNote(ask(add));
      step.Verify? ==> sent == MediaRequests(c) + [add, VerifyRequest(step.id)] && outcome == VerifyCardCreated(step.id, ask(VerifyRequest(step.id)))
    ensures PostsNote(c, imageReadable, ask) && Payload(c, front, back, source).Some? ==>
      var add := AddNote(Payload(c, front, back, source).value);
      InterpretAddNote(ask(add)) == Crashed ==> sent == MediaRequests(c) + [add] && outcome == Raised
    ensures PostsNote(c, imageReadable, ask) && Payload(c, front, back, source).Some? ==>
      var add := AddNote(Payload(c, front, back, source).value);
      var step := InterpretAddNote(ask(add));
      !step.Verify? && step != Crashed ==> sent == MediaRequests(c) + [add] && outcome == Returned(false)
    ensures outcome == AddCardResult(c, front, back, source, imageReadable, ask)
    // Success is never reported without the notesInfo read-back.
    ensures outcome == Returned(true) ==> |sent| >= 2 && sent[|sent| - 1].NotesInfo?
    // The only note posted is the one built from the arguments.
    ensures forall r :: r in sent && r.AddNote? ==> Some(r.note) == Payload(c, front, back, source)
  {
    var note := NotePayload(c.deckName, c.noteType, front, back, c.allowDuplicate, []);
    var formattedSource := Citation(source);
    sent := [];
    var suffix := formattedSource;
    if HasImage(c) {
      var filename := MediaStem(c.backImage.value);
      if !imageReadable {
        return Raised, sent;
      }
      var store := StoreMediaFile(filename + ".jpg");
      sent := sent + [store];
      if ask(store).Failed? {
        return Raised, sent;
      }
      suffix := ImageTag(filename + ".jpg") + formattedSource;
    } else {
      assert suffix == ImagePart(c) + formattedSource;
    }
    var extended := AppendText(note.back, suffix);
    if extended.None? {
      return Raised, sent;
    }
    note := note.(back := extended.value);
    assert Some(note) == Payload(c, front, back, source);
    var add := AddNote(note);
    sent := sent + [add];
    var step := InterpretAddNote(ask(add));
    match step {
      case Verify(id) =>
        var check := VerifyRequest(id);
        sent := sent + [check];
        outcome := VerifyCardCreated(id, ask(check));
      case Crashed =>
        outcome := Raised;
      case _ =>
        outcome := Returned(false);
    }
  }

  /** Different sources never give the same citation. */
  lemma CitationInjective(a: string, b: string)
    requires Citation(a) == Citation(b)
    ensures a == b
  {
    if a != "" && b != "" {
      var prefix := "<br><br>source: <a href=\"";
      var ca := Citation(a);
      var cb := Citation(b);
      assert ca == prefix + a + "\">" + a + "</a>";
      assert cb == prefix + b + "\">" + b + "</a>";
      assert |a| == |b|;
      assert ca[|prefix|..|prefix| + |a|] == a;
      assert cb[|prefix|..|prefix| + |b|] == b;
    }
  }

  /**
   * The stored image name is the file's base name with its extension
   * replaced by `.jpg`, whatever directory it sits in.
   */
  lemma MediaFilenameOf(dir: string, name: string, ext: string)
    requires dir == "" || dir[|dir| - 1] == '/'
    requires '/' !in name && '/' !in ext && '.' !in ext
    requires exists k :: 0 <= k < |name| && name[k] != '.'
    ensures MediaFilename(dir + name + "." + ext) == name + ".jpg"
  {
    var p := dir + name + "." + ext;
    var dot := |dir| + |name|;
    assert p[dot] == '.';
    assert forall k :: dot < k < |p| ==> p[k] == ext[k - dot - 1];
    assert LastIndex(p, '.') == dot;
    assert forall k :: |dir| <= k < |p| ==> p[k] != '/';
    var sep := LastIndex(p, '/');
    assert sep == |dir| - 1 by {
      if dir != "" { assert p[|dir| - 1] == '/'; }
    }
    var k :| 0 <= k < |name| && name[k] != '.';
    assert p[|dir| + k] == name[k];
    var root := SplitExtRoot(p);
    assert root == p[..dot];
    assert root == dir + name;
    assert forall i :: |dir| <= i < |root| ==> root[i] == name[i - |dir|];
    assert LastIndex(root, '/') == |dir| - 1 by {
      if dir != "" { assert root[|dir| - 1] == '/'; }
    }
    assert MediaStem(p) == name;
  }
}
