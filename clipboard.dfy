/**
 * clipboard_to_anki.py: turn the fact on the clipboard into a flashcard.
 * The reply of the language model is read with the shared Front/Back
 * parser, and the card goes to the legacy connector with an empty source.
 */
module ClipboardToAnki {
  import opened Optional
  import opened PyText
  import opened Json
  import opened AnkiApi
  import opened FrontBack
  import AnkiConnector
  import LegacyConnector

  const DECK := "...MyDiscoveries2"

  /**
   * A step of `response_json["choices"][0]["message"]["content"]`: the
   * value reached, a KeyError (which `generate_qa` catches), or any other
   * exception (IndexError, TypeError, AttributeError), which escapes.
   */
  datatype Access = Found(v: Json) | Caught | Escaped

  /** `x[key]` for a string `key`: a dict looks it up, anything else raises TypeError. */
  function KeyStep(a: Access, key: string): (r: Access)
    ensures !a.Found? ==> r == a
    ensures a.Found? && !a.v.JObj? ==> r == Escaped
    ensures a.Found? && a.v.JObj? ==>
      (r == Caught <==> Lookup(a.v.entries, key).None?)
      && (r.Found? <==> Lookup(a.v.entries, key).Some?)
      && (r.Found? ==> r.v == Lookup(a.v.entries, key).value)
  {
    if !a.Found? then a
    else if !a.v.JObj? then Escaped
    else match Lookup(a.v.entries, key)
      case Some(v) => Found(v)
      case None => Caught
  }

  /**
   * `x[0]`: the first element of a list or the first character of a
   * string; IndexError when they are empty; KeyError on a dict, whose
   * keys are strings; TypeError on anything else.
   */
  function FirstStep(a: Access): (r: Access)
    ensures !a.Found? ==> r == a
    ensures a.Found? && a.v.JObj? ==> r == Caught
    ensures a.Found? && a.v.JArr? ==> (if a.v.items == [] then r == Escaped else r == Found(a.v.items[0]))
    ensures a.Found? && a.v.JStr? ==> (if a.v.s == [] then r == Escaped else r == Found(JStr([a.v.s[0]])))
    ensures a.Found? && !a.v.JObj? && !a.v.JArr? && !a.v.JStr? ==> r == Escaped
  {
    if !a.Found? then a
    else match a.v
      case JObj(_) => Caught
      case JArr(items) => if items == [] then Escaped else Found(items[0])
      case JStr(s) => if s == [] then Escaped else Found(JStr([s[0]]))
      case _ => Escaped
  }

  /** `raise_for_status()`: statuses 400 to 599 raise HTTPError. */
  predicate ErrorStatus(status: int) {
    400 <= status < 600
  }

  /**
   * The stripped message content of the model's reply, as line 57 reads
   * it: `Caught` where the request, `raise_for_status`, the JSON decoding
   * or a key lookup fails (each is handled by an `except`), `Escaped`
   * where another exception leaves `generate_qa`.
   */
  function ReplyContent(r: Http): (c: Access)
    ensures r.Failed? || ErrorStatus(r.status) || r.body.None? ==> c == Caught
    ensures c.Found? ==> c.v.JStr? && c.v.s == Strip(c.v.s)
  {
    if r.Failed? || ErrorStatus(r.status) || r.body.None? then Caught
    else
      var content := KeyStep(KeyStep(FirstStep(KeyStep(Found(r.body.value), "choices")), "message"), "content");
      if !content.Found? then content
      else if content.v.JStr? then
        StripIdempotent(content.v.s);
        Found(JStr(Strip(content.v.s)))
      else Escaped  // `.strip()` on a non-string: AttributeError
  }

  /**
   * `generate_qa(fact, key)` given the model's reply: `None` for a failure
   * it catches, `Raised` for one that escapes, else the card read from the
   * content.
   */
  function GenerateQa(reply: Http): (qa: Outcome<Option<(string, string)>>)
    ensures qa == Raised <==> ReplyContent(reply) == Escaped
    ensures ReplyContent(reply) == Caught ==> qa == Returned(None)
    ensures qa.Returned? && qa.value.Some? ==>
      ReplyContent(reply).Found? && !Contains(qa.value.value.1, "---") && qa.value.value.0 == Strip(qa.value.value.0)
  {
    match ReplyContent(reply)
    case Found(content) => Returned(ParseCard(content.s))
    case Caught => Returned(None)
    case Escaped => Raised
  }

  /** A chat-completions body whose first choice carries `content`. */
  function ChatBody(content: Json): Json {
    JObj([("choices", JArr([JObj([("message", JObj([("content", content)]))])]))])
  }

  /** A well-formed reply is read as its stripped content. */
  lemma WellFormedReplyParsed(status: int, text: string, content: string)
    requires !ErrorStatus(status)
    ensures GenerateQa(Reply(status, text, Some(ChatBody(JStr(content))))) == Returned(ParseCard(Strip(content)))
  {
    var body := ChatBody(JStr(content));
    var choices := JArr([JObj([("message", JObj([("content", JStr(content))]))])]);
    assert KeyStep(Found(body), "choices") == Found(choices);
  }

  /**
   * Three reply shapes that no `except` of `generate_qa` handles: an empty
   * `choices` (IndexError), a list body (TypeError) and a null `content`
   * (AttributeError on `.strip()`).
   */
  lemma UncaughtReplies(status: int, text: string, items: seq<Json>)
    requires !ErrorStatus(status)
    ensures GenerateQa(Reply(status, text, Some(JObj([("choices", JArr([]))])))) == Raised
    ensures GenerateQa(Reply(status, text, Some(JArr(items)))) == Raised
    ensures GenerateQa(Reply(status, text, Some(ChatBody(JNull)))) == Raised
  {
    var choices := JArr([JObj([("message", JObj([("content", JNull)]))])]);
    assert KeyStep(Found(ChatBody(JNull)), "choices") == Found(choices);
  }

  /** A body without `choices` is a KeyError, which is caught. */
  lemma MissingChoicesCaught(status: int, text: string, entries: seq<(string, Json)>)
    requires !ErrorStatus(status) && Lookup(entries, "choices").None?
    ensures GenerateQa(Reply(status, text, Some(JObj(entries)))) == Returned(None)
  {
  }

  /** The connector `create_anki_card` builds. */
  function Sender(): (c: Connector)
    ensures !HasImage(c) && !c.allowDuplicate && c.noteType == "Basic"
  {
    Connector(DECK, "Basic", false, None)
  }

  /** `create_anki_card(question, answer)`: the legacy `add_card` with an empty source. */
  function CreateAnkiCard(question: string, answer: string, ask: Request -> Http): (o: Outcome<Json>)
    ensures o == Raised || o == Returned(JNull)
    ensures o == Raised <==> ask(AddNote(NotePayload(DECK, "Basic", JStr(question), JStr(answer), false, []))).Failed?
  {
    LegacyConnector.AddCardResult(Sender(), question, answer, "", true, ask)
  }

  /** How a run of `main` ends. */
  datatype Ending =
    | NoApiKey           // the key file is missing
    | EmptyClipboard     // nothing on the clipboard
    | NoCard             // no question or no answer could be read
    | Crashed            // `generate_qa` or creating the card raised
    | Notified(success: bool)  // the closing notification: success or failure

  /** `generate_qa` returned a non-empty question and a non-empty answer. */
  predicate HasCard(reply: Http) {
    GenerateQa(reply).Returned? && GenerateQa(reply).value.Some?
    && GenerateQa(reply).value.value.0 != "" && GenerateQa(reply).value.value.1 != ""
  }

  /**
   * `main()`, with what it reads as parameters: whether the key file
   * exists, the clipboard text, the model's reply, and `create` for
   * `create_anki_card`, whose returned value decides the notification.
   */
  function Main(keyFound: bool, fact: string, reply: Http, create: (string, string) -> Outcome<Json>): (e: Ending)
    // No card is created unless there is a key, a fact and both parts of a card.
    ensures e.Notified? || (e == Crashed && GenerateQa(reply) != Raised) <==>
      keyFound && fact != "" && HasCard(reply)
    ensures e.Notified? ==>
      var (q, a) := GenerateQa(reply).value.value;
      create(q, a).Returned? && e.success == Truthy(create(q, a).value)
    ensures e == EmptyClipboard <==> keyFound && fact == ""
    // A failure `generate_qa` does not catch ends the run before any card.
    ensures keyFound && fact != "" && GenerateQa(reply) == Raised ==> e == Crashed
    ensures e == NoCard <==> keyFound && fact != "" && GenerateQa(reply).Returned? && !HasCard(reply)
  {
    if !keyFound then NoApiKey
    else if fact == "" then EmptyClipboard
    else match GenerateQa(reply)
      case Raised => Crashed
      case Returned(None) => NoCard
      case Returned(Some((question, answer))) =>
        if question == "" || answer == "" then NoCard
        else match create(question, answer)
          case Raised => Crashed
          case Returned(result) => Notified(Truthy(result))
  }

  /** `create_anki_card` as written, over the server's replies. */
  function LegacyCreate(ask: Request -> Http): (string, string) -> Outcome<Json> {
    (q: string, a: string) => CreateAnkiCard(q, a, ask)
  }

  /**
   * As written, the legacy connector returns `None`, so `main` announces
   * a failure after every card it creates and never a success.
   */
  lemma LegacyNeverNotifiesSuccess(keyFound: bool, fact: string, reply: Http, ask: Request -> Http)
    ensures Main(keyFound, fact, reply, LegacyCreate(ask)) != Notified(true)
  {
  }

  /**
   * The card created through the verifying connector, whose `add_card`
   * returns True only after the note is read back.
   */
  function VerifiedCreate(ask: Request -> Http): (string, string) -> Outcome<Json> {
    (q: string, a: string) =>
      match AnkiConnector.AddCardResult(Sender(), JStr(q), JStr(a), "", true, ask)
      case Returned(ok) => Returned(JBool(ok))
      case Raised => Raised
  }

  /**
   * With the verifying connector, success is announced exactly when a
   * card was read from the reply, posted, and found again by `notesInfo`.
   */
  lemma VerifiedNotifiesSuccessIffReadBack(keyFound: bool, fact: string, reply: Http, ask: Request -> Http)
    ensures Main(keyFound, fact, reply, VerifiedCreate(ask)) == Notified(true) <==>
      keyFound && fact != "" && HasCard(reply)
      && AnkiConnector.AddCardResult(Sender(), JStr(GenerateQa(reply).value.value.0), JStr(GenerateQa(reply).value.value.1), "", true, ask) == Returned(true)
  {
  }
}
