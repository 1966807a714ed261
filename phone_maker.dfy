/**
 * phone_auto_anki_maker.py: read the "cards to make" file, split it into
 * blank-line separated chunks of `fact | url`, ask the language model for
 * a card per fact, add each card, and clear the file only when every
 * chunk went through.
 */
module PhoneAnkiMaker {
  import opened Optional
  import opened PyText
  import opened Json
  import opened AnkiApi
  import opened FrontBack
  import AnkiConnector
  import LegacyConnector

  const DECK := "...MyDiscoveries2"

  /** The chunks of the file: its stripped text split on blank lines. */
  function Chunks(content: string): (chunks: seq<string>)
    ensures |chunks| >= 1
  {
    Split(Strip(content), "\n\n")
  }

  /**
   * The fact and the url of a chunk: split at the first `|` only, both
   * sides stripped; without `|`, the stripped chunk and no url.
   */
  function FactAndUrl(chunk: string): (fu: (string, string))
    ensures !Contains(chunk, "|") ==> fu == (Strip(chunk), "")
    ensures Contains(chunk, "|") ==>
      exists head, tail :: chunk == head + "|" + tail && !Contains(head, "|") && fu == (Strip(head), Strip(tail))
  {
    if Contains(chunk, "|") then
      var parts := SplitFirst(chunk, "|");
      (Strip(parts[0]), Strip(parts[1]))
    else (Strip(chunk), "")
  }

  /** The length window on the fact, strict at both ends. */
  predicate FactInRange(fact: string) {
    10 < |fact| < 1000
  }

  /** The source handed to `add_card`: a non-empty url without an http(s) scheme gets `http://`. */
  function SourceUrl(url: string): (s: string)
    ensures url == "" ==> s == ""
    ensures StartsWith(url, "http://") || StartsWith(url, "https://") ==> s == url
    ensures url != "" && !StartsWith(url, "http://") && !StartsWith(url, "https://") ==> s == "http://" + url
    ensures s == "" || StartsWith(s, "http://") || StartsWith(s, "https://")
  {
    if url != "" && !StartsWith(url, "http://") && !StartsWith(url, "https://") then "http://" + url else url
  }

  /** Prefixing the scheme once is enough: applying it again changes nothing. */
  lemma SourceUrlIdempotent(url: string)
    ensures SourceUrl(SourceUrl(url)) == SourceUrl(url)
  {
    var s := SourceUrl(url);
    if url != "" && !StartsWith(url, "http://") && !StartsWith(url, "https://") {
      assert s[..7] == "http://";
    }
  }

  /** What one chunk comes to. */
  datatype Step =
    | Skip    // blank chunk: no effect
    | Fail    // sets `card_creation_failed`
    | Ok      // the card was added and `add_card` returned a truthy value
    | Crash   // `add_card` raised, which nothing catches

  /** The card read from the reply to a fact, when it has a non-empty front and back. */
  function ReadCard(reply: string): (card: Option<(string, string)>)
    // An `ERROR:` reply never gives a card; a card has both parts non-empty.
    ensures StartsWith(reply, "ERROR:") ==> card.None?
    ensures card.Some? ==> card.value.0 != "" && card.value.1 != "" && ParseCard(reply) == card
  {
    if StartsWith(reply, "ERROR:") then None
    else match ParseCard(reply)
      case None => None
      case Some((front, back)) => if front != "" && back != "" then Some((front, back)) else None
  }

  /**
   * One pass of the chunk loop.  `reply` is what `construct_request`
   * returns for the fact (a text starting with `ERROR:` when the request
   * failed); `add` gives what `add_card(front, back, source)` returns.
   */
  function ChunkStep(chunk: string, reply: string, add: (string, string, string) -> Outcome<Json>): (st: Step)
    ensures Strip(chunk) == "" <==> st == Skip
    ensures st == Ok || st == Crash ==> FactInRange(FactAndUrl(chunk).0) && ReadCard(reply).Some?
    ensures !FactInRange(FactAndUrl(chunk).0) && Strip(chunk) != "" ==> st == Fail
  {
    if Strip(chunk) == "" then Skip
    else
      var (fact, url) := FactAndUrl(chunk);
      if !FactInRange(fact) then Fail
      else match ReadCard(reply)
        case None => Fail
        case Some((front, back)) =>
          match add(front, back, SourceUrl(url))
          case Raised => Crash
          case Returned(v) => if Truthy(v) then Ok else Fail
  }

  /** What each chunk comes to, in order. */
  function Steps(chunks: seq<string>, reply: nat -> string, add: (string, string, string) -> Outcome<Json>): (steps: seq<Step>)
    ensures |steps| == |chunks|
    ensures forall i :: 0 <= i < |chunks| ==> steps[i] == ChunkStep(chunks[i], reply(i), add)
  {
    seq(|chunks|, i requires 0 <= i < |chunks| => ChunkStep(chunks[i], reply(i), add))
  }

  /**
   * The outcome of `main_processing`: `Returned(true)` when it clears the
   * file, `Returned(false)` when it leaves it, `Raised` when `add_card`
   * raised.  `content` is the file's text, `None` when it does not exist.
   */
  function Processed(content: Option<string>, reply: nat -> string, add: (string, string, string) -> Outcome<Json>): (o: Outcome<bool>)
    // Only a file with text can be cleared.
    ensures o == Returned(true) ==> content.Some? && Strip(content.value) != ""
  {
    if content.None? || Strip(content.value) == "" then Returned(false)
    else
      var steps := Steps(Chunks(content.value), reply, add);
      if Crash in steps then Raised else Returned(Fail !in steps)
  }

  /**
   * `main_processing()`.  `reply(i)` is the model's answer for chunk `i`;
   * `asked` lists the facts sent to the model, in order.
   */
  method MainProcessing(content: Option<string>, reply: nat -> string, add: (string, string, string) -> Outcome<Json>)
    returns (outcome: Outcome<bool>, asked: seq<string>)
    ensures outcome == Processed(content, reply, add)
    // Only facts inside the length window reach the model.
    ensures forall f :: f in asked ==> FactInRange(f)
  {
    asked := [];
    if content.None? || content.value == "" {
      return Returned(false), asked;
    }
    var text := Strip(content.value);
    if text == "" {
      return Returned(false), asked;
    }
    var chunks := Split(text, "\n\n");
    ghost var steps := Steps(chunks, reply, add);
    var processedContent := true;
    var cardCreationFailed := false;
    var i := 0;
    while i < |chunks|
      invariant 0 <= i <= |chunks|
      invariant Crash !in steps[..i]
      invariant cardCreationFailed <==> Fail in steps[..i]
      invariant forall f :: f in asked ==> FactInRange(f)
    {
      var step, fact := ProcessChunk(chunks[i], reply(i), add);
      assert steps[i] == step;
      StepsPrefix(steps, i);
      if fact.Some? {
        asked := asked + [fact.value];
      }
      if step == Crash {
        assert Crash in steps;
        return Raised, asked;
      }
      if step == Fail {
        cardCreationFailed := true;
      }
      i := i + 1;
    }
    assert steps[..i] == steps;
    outcome := Returned(processedContent && !cardCreationFailed);
  }

  lemma StepsPrefix(steps: seq<Step>, i: int)
    requires 0 <= i < |steps|
    ensures steps[..i + 1] == steps[..i] + [steps[i]]
    ensures (Crash in steps[..i + 1]) <==> (Crash in steps[..i] || steps[i] == Crash)
    ensures (Fail in steps[..i + 1]) <==> (Fail in steps[..i] || steps[i] == Fail)
  {
  }

  /**
   * The body of the chunk loop: what the chunk comes to, and the fact
   * sent to the model, if the chunk got that far.
   */
  method ProcessChunk(chunk: string, reply: string, add: (string, string, string) -> Outcome<Json>)
    returns (step: Step, asked: Option<string>)
    ensures step == ChunkStep(chunk, reply, add)
    ensures asked.Some? ==> FactInRange(asked.value)
  {
    asked := None;
    if Strip(chunk) == "" {
      return Skip, asked;
    }
    var (fact, url) := FactAndUrl(chunk);
    if !(10 < |fact| < 1000) {
      return Fail, asked;
    }
    asked := Some(fact);
    var card := ReadCard(reply);
    if card.None? {
      return Fail, asked;
    }
    var (front, back) := card.value;
    var added := add(front, back, SourceUrl(url));
    if added.Raised? {
      step := Crash;
    } else if Truthy(added.value) {
      step := Ok;
    } else {
      step := Fail;
    }
  }

  /** The first chunk of a file with non-blank text is never blank. */
  lemma FirstChunkNotBlank(content: string)
    requires Strip(content) != ""
    ensures Strip(Chunks(content)[0]) != ""
  {
    var t := Strip(content);
    StripEnds(content);
    var k := Find(t, "\n\n");
    var c0 := Chunks(content)[0];
    if k == 0 {
      assert t[0..2] == "\n\n";
      assert IsSpace(t[0]);
    }
    assert c0[0] == t[0] && !IsSpace(c0[0]);
    assert LStrip(c0) == c0;
    assert |RStrip(c0)| > 0;
  }

  /** `add_card` of the legacy connector the script imports, over the server's replies. */
  function LegacyAdd(ask: Request -> Http): (string, string, string) -> Outcome<Json> {
    (front: string, back: string, source: string) =>
      LegacyConnector.AddCardResult(Connector(DECK, "Basic", false, None), front, back, source, true, ask)
  }

  /**
   * As written the file is never cleared: the legacy `add_card` returns
   * `None`, so every chunk that reaches it sets the failure flag, and the
   * first chunk of a non-blank file always reaches it or fails earlier.
   */
  lemma LegacyAddNeverClears(content: Option<string>, reply: nat -> string, ask: Request -> Http)
    ensures Processed(content, reply, LegacyAdd(ask)) != Returned(true)
  {
    if content.Some? && Strip(content.value) != "" {
      var chunks := Chunks(content.value);
      var steps := Steps(chunks, reply, LegacyAdd(ask));
      FirstChunkNotBlank(content.value);
      LegacyNeverOk(chunks[0], reply(0), ask);
      assert steps[0] == Fail || steps[0] == Crash;
      assert steps[0] in steps;
    }
  }

  /** No chunk counts as added through the legacy `add_card`, whose `None` is falsy. */
  lemma LegacyNeverOk(chunk: string, reply: string, ask: Request -> Http)
    ensures ChunkStep(chunk, reply, LegacyAdd(ask)) != Ok
  {
  }

  /** `add_card` of the verifying connector: True only once `notesInfo` finds the new note. */
  function VerifiedAdd(ask: Request -> Http): (string, string, string) -> Outcome<Json> {
    (front: string, back: string, source: string) =>
      match AnkiConnector.AddCardResult(Connector(DECK, "Basic", false, None), JStr(front), JStr(back), source, true, ask)
      case Returned(ok) => Returned(JBool(ok))
      case Raised => Raised
  }

  /** The chunk produced a card that was posted and read back. */
  predicate ChunkAdded(chunk: string, reply: string, ask: Request -> Http) {
    var (fact, url) := FactAndUrl(chunk);
    FactInRange(fact) && ReadCard(reply).Some?
    && AnkiConnector.AddCardResult(Connector(DECK, "Basic", false, None),
         JStr(ReadCard(reply).value.0), JStr(ReadCard(reply).value.1), SourceUrl(url), true, ask) == Returned(true)
  }

  /**
   * With the verifying connector the file is cleared exactly when it had
   * text and every non-blank chunk gave a card that was added and read back.
   */
  lemma {:induction false} VerifiedClearsIffAllAdded(content: Option<string>, reply: nat -> string, ask: Request -> Http)
    ensures Processed(content, reply, VerifiedAdd(ask)) == Returned(true) <==>
      content.Some? && Strip(content.value) != ""
      && forall i :: 0 <= i < |Chunks(content.value)| ==>
           Strip(Chunks(content.value)[i]) == "" || ChunkAdded(Chunks(content.value)[i], reply(i), ask)
  {
    if content.Some? && Strip(content.value) != "" {
      var chunks := Chunks(content.value);
      var steps := Steps(chunks, reply, VerifiedAdd(ask));
      NoFailureMeansAllPassed(steps);
      forall i | 0 <= i < |chunks|
        ensures Passed(steps[i]) <==> Strip(chunks[i]) == "" || ChunkAdded(chunks[i], reply(i), ask)
      {
        VerifiedStep(chunks[i], reply(i), ask);
      }
    }
  }

  /** A chunk that neither failed nor raised. */
  predicate Passed(st: Step) {
    st == Skip || st == Ok
  }

  lemma NoFailureMeansAllPassed(steps: seq<Step>)
    ensures Crash !in steps && Fail !in steps <==> forall i :: 0 <= i < |steps| ==> Passed(steps[i])
  {
  }

  lemma VerifiedStep(chunk: string, reply: string, ask: Request -> Http)
    ensures Passed(ChunkStep(chunk, reply, VerifiedAdd(ask))) <==> Strip(chunk) == "" || ChunkAdded(chunk, reply, ask)
  {
  }
}
