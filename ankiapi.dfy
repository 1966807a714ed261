/**
 * The AnkiConnect protocol as the scripts use it: the requests they post
 * to the local endpoint, the replies they get back, the configuration of
 * a connector object, and the helpers that collapse every failure of a
 * call into an empty list or `False`.
 */
module AnkiApi {
  import opened Optional
  import opened Json

  /**
   * The result of one `requests.post`: either the call raised (connection
   * refused, timeout), or a reply with its status, its raw text and its
   * body as JSON (`None` when `response.json()` raises).
   */
  datatype Http = Failed | Reply(status: int, text: string, body: Option<Json>)

  /**
   * The note object sent with `addNote`; `fields` holds exactly Front and
   * Back, each whatever JSON value the caller passed (normally a string).
   */
  datatype NotePayload = NotePayload(
    deckName: string,
    modelName: string,
    front: Json,
    back: Json,
    allowDuplicate: bool,
    tags: seq<string>)

  /** The actions posted to AnkiConnect, with their parameters. */
  datatype Request =
    | StoreMediaFile(filename: string)
    | AddNote(note: NotePayload)
    | NotesInfo(notes: Json)
    | FindNotes(query: string)
    | DeleteNotes(notes: Json)
    | DeckNames
    | CreateDeck(deck: string)

  /** What a Python call does: return a value, or raise out of it. */
  datatype Outcome<+T> = Returned(value: T) | Raised

  /** The fields `AnkiConnector.__init__` stores; they never change afterwards. */
  datatype Connector = Connector(deckName: string, noteType: string, allowDuplicate: bool, backImage: Option<string>)

  /** `AnkiConnector()` with every default. */
  const DEFAULT_CONNECTOR := Connector("Default", "Basic", false, None)

  /** `if self.back_image:` */
  predicate HasImage(c: Connector) {
    c.backImage.Some? && c.backImage.value != ""
  }

  /** A reply with status 200 whose body is a JSON object with no truthy `error`. */
  predicate Accepted(r: Http) {
    r.Reply? && r.status == 200 && r.body.Some? && r.body.value.JObj? && !Truthy(Get(r.body.value, "error"))
  }

  /**
   * `get_all_notes_in_deck`, `get_notes_info`, `find_notes_by_content`:
   * the reply's `result` (default `[]`) when the call was accepted, `[]`
   * on a non-200 status, an API error, or any exception.
   */
  function CollapseToList(r: Http): (j: Json)
    ensures j != JArr([]) ==> Accepted(r) && j == GetOr(r.body.value, "result", JArr([]))
    ensures Accepted(r) ==> j == GetOr(r.body.value, "result", JArr([]))
  {
    match r
    case Failed => JArr([])
    case Reply(status, _, body) =>
      if status != 200 then JArr([])
      else match body
        case None => JArr([])
        case Some(b) =>
          if !b.JObj? then JArr([])
          else if Truthy(Get(b, "error")) then JArr([])
          else GetOr(b, "result", JArr([]))
  }

  /** `delete_notes`: `True` exactly when the call was accepted. */
  function CollapseToBool(r: Http): (ok: bool)
    ensures ok <==> Accepted(r)
  {
    match r
    case Failed => false
    case Reply(status, _, body) =>
      if status != 200 then false
      else match body
        case None => false
        case Some(b) => b.JObj? && !Truthy(Get(b, "error"))
  }
}
