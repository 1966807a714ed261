/**
 * main.py: the desktop assistant behind keyboard shortcuts.  It reads the
 * selected text, checks its length, sends it with a prompt to the language
 * model, and pastes what comes back: a grammar fix, condensed code under
 * the commented-out selection, or a flashcard for the legacy connector.
 */
module DesktopAssistant {
  import opened Optional
  import opened PyText
  import opened Json
  import opened AnkiApi
  import FrontBack
  import AnkiConnector
  import LegacyConnector

  /** The strict length limits on the selection. */
  const CODE_LIMIT := 5000
  const GRAMMAR_LIMIT := 1000
  const HIGHLIGHT_LIMIT := 10000
  const ANKI_LIMIT := 1000

  const GRAMMAR_PROMPT := "Fix the grammar, only respond with the corrected text.\n\n"

  /** The fact `makeanki` uses in place of the selection. */
  const MAKEANKI_FACT := "dogs are usually bigger than cats"
  const LEGACY_DECK := "...MyDiscoveries"

  /**
   * What `send_request` returns, and leaves on the clipboard, for the
   * model's message content: every newline removed, then stripped.
   */
  function Corrected(content: string): (r: string)
    ensures '\n' !in r
    ensures Strip(r) == r
  {
    var flat := ReplaceAll(content, "\n", "");
    ReplaceDropsChar(content, '\n', "");
    CharContains(flat, '\n');
    StripNoContains(flat, "\n");
    CharContains(Strip(flat), '\n');
    FrontBack.StripIdempotent(flat);
    Strip(flat)
  }

  // ---- replace_spaces ----

  /** The number of spaces at the start of `t`. */
  function SpaceRun(t: string): (n: nat)
    ensures n <= |t|
    ensures forall i :: 0 <= i < n ==> t[i] == ' '
    ensures n < |t| ==> t[n] != ' '
  {
    if t != [] && t[0] == ' ' then 1 + SpaceRun(t[1..]) else 0
  }

  /**
   * `re.sub(r'( {4})+', lambda m: '\n' + m.group(0), text)`: scanning
   * from the left, a place where four spaces start takes the longest run
   * of whole groups of four, which is put back after a newline; the scan
   * resumes after it.
   */
  function ReplaceSpaces(t: string): (r: string)
    // A length bound only: at most one newline is added per four characters.
    // What the result holds is proved by `ReplaceSpacesBreaksRuns`.
    ensures |t| <= |r| <= |t| + |t| / 4
    decreases |t|
  {
    if t == [] then []
    else
      var n := SpaceRun(t);
      if n >= 4 then "\n" + t[..4 * (n / 4)] + ReplaceSpaces(t[4 * (n / 4)..])
      else [t[0]] + ReplaceSpaces(t[1..])
  }

  /**
   * The reference reading: one newline before every maximal run of at
   * least four spaces, everything else copied.  `afterSpace` says the
   * previous character was a space.
   */
  function BreakRuns(t: string, afterSpace: bool): string
    decreases |t|
  {
    if t == [] then []
    else if t[0] == ' ' && !afterSpace && SpaceRun(t) >= 4 then "\n" + [t[0]] + BreakRuns(t[1..], true)
    else [t[0]] + BreakRuns(t[1..], t[0] == ' ')
  }

  /** Inside a run, the reference copies the spaces. */
  lemma {:induction false} RunCopied(t: string, j: nat)
    requires j <= SpaceRun(t)
    ensures BreakRuns(t, true) == t[..j] + BreakRuns(t[j..], true)
    decreases j
  {
    if j > 0 {
      assert SpaceRun(t[1..]) == SpaceRun(t) - 1;
      RunCopied(t[1..], j - 1);
      assert t[..j] == [t[0]] + t[1..][..j - 1];
      assert t[1..][j - 1..] == t[j..];
    }
  }

  lemma {:induction false} ReplaceSpacesFrom(t: string, afterSpace: bool)
    requires afterSpace ==> SpaceRun(t) < 4
    ensures ReplaceSpaces(t) == BreakRuns(t, afterSpace)
    decreases |t|
  {
    if t != [] {
      var n := SpaceRun(t);
      if n >= 4 {
        BreakRunAt(t);
        ReplaceSpacesFrom(t[4 * (n / 4)..], true);
      } else {
        if t[0] == ' ' {
          assert SpaceRun(t[1..]) == n - 1;
        }
        ReplaceSpacesFrom(t[1..], t[0] == ' ');
      }
    }
  }

  /** A run of four or more spaces: the reference breaks it, then copies the whole groups of four. */
  lemma BreakRunAt(t: string)
    requires SpaceRun(t) >= 4
    ensures var m := 4 * (SpaceRun(t) / 4);
      BreakRuns(t, false) == "\n" + t[..m] + BreakRuns(t[m..], true) && SpaceRun(t[m..]) < 4
  {
    var n := SpaceRun(t);
    var m := 4 * (n / 4);
    RunCopied(t[1..], m - 1);
    assert SpaceRun(t[1..]) == n - 1;
    assert t[1..][m - 1..] == t[m..];
    assert t[..m] == [t[0]] + t[1..][..m - 1];
    assert SpaceRun(t[m..]) == n - m;
  }

  /** `replace_spaces` puts one newline before each maximal run of four or more spaces, and changes nothing else. */
  lemma ReplaceSpacesBreaksRuns(t: string)
    ensures ReplaceSpaces(t) == BreakRuns(t, false)
  {
    ReplaceSpacesFrom(t, false);
  }

  /** Text without four spaces in a row comes back unchanged. */
  lemma {:induction false} ReplaceSpacesNoRun(t: string)
    requires !Contains(t, "    ")
    ensures ReplaceSpaces(t) == t
    decreases |t|
  {
    if t != [] {
      NotContainsSlice(t, "    ", 1, |t|);
      assert t[1..|t|] == t[1..];
      ReplaceSpacesNoRun(t[1..]);
    }
  }

  // ---- coding_assistant / coding_assistant_new ----

  /** The leading whitespace of the selection's first line. */
  function Indentation(selection: string): (ind: string)
    ensures StartsWith(selection, ind)
    ensures forall i :: 0 <= i < |ind| ==> IsSpace(ind[i])
    ensures '\n' !in ind
    ensures var first := Split(selection, "\n")[0];
      |ind| <= |first| && (|ind| == |first| || !IsSpace(first[|ind|]))
  {
    var first := Split(selection, "\n")[0];
    SplitHeadPrefix(selection, "\n");
    SplitPartsLackSep(selection, "\n");
    CharContains(first, '\n');
    LStripSuffix(first);
    var ind := LeadingSpace(first);
    assert forall i :: 0 <= i < |ind| ==> ind[i] == first[i];
    assert selection[..|ind|] == first[..|ind|];
    ind
  }

  /** One selection line as `pre_text` has it: `#` after its leading whitespace. */
  function CommentLine(line: string): (c: string)
    ensures |c| == |line| + 1 && c[|LeadingSpace(line)|] == '#'
  {
    LeadingSpace(line) + "#" + LStrip(line)
  }

  /** Removing the first character after the leading whitespace. */
  function Uncomment(line: string): string {
    var lead := LeadingSpace(line);
    if |lead| < |line| then lead + line[|lead| + 1..] else line
  }

  /** Commenting a line loses nothing: uncommenting gives it back. */
  lemma CommentRoundTrip(line: string)
    ensures Uncomment(CommentLine(line)) == line
  {
    var lead := LeadingSpace(line);
    var rest := LStrip(line);
    LStripSuffix(line);
    assert forall i :: 0 <= i < |lead| ==> lead[i] == line[i];
    LStripPadding(lead, "#" + rest);
    assert lead + "#" + rest == lead + ("#" + rest);
    assert lead + rest == line;
  }

  /** A line without a newline is commented without one. */
  lemma CommentKeepsLine(line: string)
    requires '\n' !in line
    ensures '\n' !in CommentLine(line)
  {
    LStripSuffix(line);
    assert forall i :: 0 <= i < |LeadingSpace(line)| ==> LeadingSpace(line)[i] == line[i];
    assert forall i :: 0 <= i < |LStrip(line)| ==> LStrip(line)[i] == line[|line| - |LStrip(line)| + i];
  }

  function CommentLines(lines: seq<string>): (cs: seq<string>)
    ensures |cs| == |lines|
  {
    seq(|lines|, i requires 0 <= i < |lines| => CommentLine(lines[i]))
  }

  /** `pre_text`: every line of the selection commented out, and a final newline. */
  function PreText(selection: string): (pt: string)
    ensures |pt| >= 1 && pt[|pt| - 1] == '\n'
  {
    Join("\n", CommentLines(Split(selection, "\n"))) + "\n"
  }

  /**
   * `pre_text` ends in a newline; before it, it has one line per selection
   * line, each that line commented out.
   */
  lemma PreTextLines(selection: string)
    ensures var pt := PreText(selection);
      |pt| >= 1 && pt[|pt| - 1] == '\n'
      && Split(pt[..|pt| - 1], "\n") == CommentLines(Split(selection, "\n"))
    ensures forall k :: 0 <= k < |Split(selection, "\n")| ==>
      Uncomment(CommentLines(Split(selection, "\n"))[k]) == Split(selection, "\n")[k]
  {
    var lines := Split(selection, "\n");
    var cs := CommentLines(lines);
    SplitPartsLackSep(selection, "\n");
    forall k | 0 <= k < |cs|
      ensures !Contains(cs[k], "\n")
      ensures Uncomment(cs[k]) == lines[k]
    {
      CharContains(lines[k], '\n');
      CommentKeepsLine(lines[k]);
      CharContains(cs[k], '\n');
      CommentRoundTrip(lines[k]);
    }
    SplitJoin("\n", cs);
    var pt := PreText(selection);
    assert pt[..|pt| - 1] == Join("\n", cs);
  }

  function IndentLines(indentation: string, lines: seq<string>): (r: seq<string>)
    ensures |r| == |lines|
  {
    seq(|lines|, i requires 0 <= i < |lines| => indentation + lines[i])
  }

  /** The reply with every line put after the selection's indentation. */
  function Indent(indentation: string, reply: string): (r: string)
    ensures StartsWith(r, indentation)
  {
    Join("\n", IndentLines(indentation, Split(reply, "\n")))
  }

  /**
   * Re-indenting keeps the reply's lines: as many of them, each prefixed
   * with the indentation, and cutting the indentation off again gives the
   * reply back.
   */
  lemma IndentKeepsLines(indentation: string, reply: string)
    requires '\n' !in indentation
    ensures Split(Indent(indentation, reply), "\n") == IndentLines(indentation, Split(reply, "\n"))
    ensures var lines := Split(Indent(indentation, reply), "\n");
      |lines| == |Split(reply, "\n")|
      && (forall k :: 0 <= k < |lines| ==> StartsWith(lines[k], indentation))
      && Join("\n", seq(|lines|, k requires 0 <= k < |lines| => lines[k][|indentation|..])) == reply
  {
    var parts := Split(reply, "\n");
    var lines := IndentLines(indentation, parts);
    SplitPartsLackSep(reply, "\n");
    forall k | 0 <= k < |lines|
      ensures !Contains(lines[k], "\n")
    {
      CharContains(parts[k], '\n');
      CharContains(lines[k], '\n');
    }
    SplitJoin("\n", lines);
    assert forall k :: 0 <= k < |lines| ==> lines[k][..|indentation|] == indentation;
    assert seq(|lines|, k requires 0 <= k < |lines| => lines[k][|indentation|..]) == parts;
    JoinSplit(reply, "\n");
  }

  /** A reply without newlines, as `send_request` leaves it, is indented as one line. */
  lemma IndentOneLine(indentation: string, reply: string)
    requires '\n' !in reply
    ensures Indent(indentation, reply) == indentation + reply
  {
    CharContains(reply, '\n');
    SplitAbsent(reply, "\n");
  }

  /**
   * What a code assistant pastes, given the model's message content;
   * `None` when the selection is too long (a notification instead).
   * `spaced` is `coding_assistant_new`, which also applies `replace_spaces`.
   */
  function CodingAssistant(selection: string, content: string, spaced: bool): (paste: Option<string>)
    ensures paste.Some? <==> |selection| < CODE_LIMIT
    // The reply arrives as a single line, so it is pasted right after the
    // commented-out selection, behind the first line's indentation.
    ensures paste.Some? && !spaced ==> paste.value == PreText(selection) + Indentation(selection) + Corrected(content)
    ensures paste.Some? && spaced ==>
      paste.value == PreText(selection) + BreakRuns(Indentation(selection) + Corrected(content), false)
  {
    if |selection| >= CODE_LIMIT then None
    else
      var indented := Indent(Indentation(selection), Corrected(content));
      IndentOneLine(Indentation(selection), Corrected(content));
      ReplaceSpacesBreaksRuns(indented);
      Some(PreText(selection) + if spaced then ReplaceSpaces(indented) else indented)
  }

  // ---- grammar ----

  /**
   * The text sent for a grammar fix, `None` when the selection is not
   * shorter than `limit`: the prompt, then the selection with newlines
   * turned into spaces, stripped.
   */
  function GrammarRequest(selection: string, limit: nat): (request: Option<string>)
    ensures request.Some? <==> |selection| < limit
    ensures request.Some? ==>
      exists text :: request.value == GRAMMAR_PROMPT + text && '\n' !in text && Strip(text) == text
    // The text sent is the selection, each newline made a space, position by
    // position, and then stripped.
    ensures request.Some? ==>
      var flat := ReplaceAll(selection, "\n", " ");
      && request.value == GRAMMAR_PROMPT + Strip(flat)
      && |flat| == |selection|
      && (forall i :: 0 <= i < |selection| ==> flat[i] == if selection[i] == '\n' then ' ' else selection[i])
  {
    if |selection| >= limit then None
    else
      var flat := ReplaceAll(selection, "\n", " ");
      var text := Strip(flat);
      ReplaceCharPointwise(selection, '\n', ' ');
      ReplaceDropsChar(selection, '\n', " ");
      CharContains(flat, '\n');
      StripNoContains(flat, "\n");
      CharContains(text, '\n');
      FrontBack.StripIdempotent(flat);
      Some(GRAMMAR_PROMPT + text)
  }

  /** `--grammar`: the whole text box, under 1000 characters. */
  function AutoGrammar(selection: string): (request: Option<string>)
    ensures request.Some? <==> |selection| < GRAMMAR_LIMIT
  {
    GrammarRequest(selection, GRAMMAR_LIMIT)
  }

  /** `--grammaarhighlight`: the highlighted text, under 10000 characters. */
  function HighlightGrammar(selection: string): (request: Option<string>)
    ensures request.Some? <==> |selection| < HIGHLIGHT_LIMIT
  {
    GrammarRequest(selection, HIGHLIGHT_LIMIT)
  }

  // ---- makeanki / makeankiimage ----

  /**
   * `reply.split("Front: ")[1].split("Back: ")` unpacked into exactly two
   * stripped parts; `None` where the script raises (no `Front: `, or not
   * exactly one `Back: ` in the piece after it).
   */
  function CardSplit(reply: string): (card: Option<(string, string)>)
    ensures !Contains(reply, "Front: ") ==> card.None?
    ensures card.Some? ==> Strip(card.value.0) == card.value.0 && Strip(card.value.1) == card.value.1
  {
    var pieces := Split(reply, "Front: ");
    if |pieces| < 2 then
      SplitAbsentIffSingle(reply, "Front: ");
      None
    else
      var parts := Split(pieces[1], "Back: ");
      if |parts| != 2 then None
      else
        FrontBack.StripIdempotent(parts[0]);
        FrontBack.StripIdempotent(parts[1]);
        Some((Strip(parts[0]), Strip(parts[1])))
  }

  lemma SplitAbsentIffSingle(s: string, sep: string)
    requires |sep| > 0
    ensures |Split(s, sep)| < 2 <==> !Contains(s, sep)
  {
  }

  /** Splitting at the one occurrence of `sep` gives the text on either side. */
  lemma SplitAtOnly(pre: string, sep: string, post: string)
    requires |sep| > 0
    requires forall i :: 0 <= i < |pre| ==> !OccursAt(pre + sep, sep, i)
    requires !Contains(post, sep)
    ensures Split(pre + sep + post, sep) == [pre, post]
  {
    var s := pre + sep + post;
    FirstOccurrence(pre, sep, post);
    var i := Find(s, sep);
    assert s[..i] == pre && s[i + |sep|..] == post;
    SplitAbsent(post, sep);
  }

  /**
   * A reply of the form `pre`, `Front: `, question, `Back: `, answer gives
   * the stripped question and answer, when `Front: ` occurs only once and
   * `Back: ` only once after it.
   */
  lemma CardSplitRoundTrip(pre: string, q: string, a: string)
    requires forall i :: 0 <= i < |pre| ==> !OccursAt(pre + "Front: ", "Front: ", i)
    requires !Contains(q + "Back: " + a, "Front: ")
    requires forall i :: 0 <= i < |q| ==> !OccursAt(q + "Back: ", "Back: ", i)
    requires !Contains(a, "Back: ")
    ensures CardSplit(pre + "Front: " + q + "Back: " + a) == Some((Strip(q), Strip(a)))
  {
    assert pre + "Front: " + q + "Back: " + a == pre + "Front: " + (q + "Back: " + a);
    SplitAtOnly(pre, "Front: ", q + "Back: " + a);
    SplitAtOnly(q, "Back: ", a);
  }

  /** The source of a generated card: the browser url, blanked when it holds `Front: `. */
  function CardSource(url: Option<string>): (source: string)
    ensures !Contains(source, "Front: ")
    ensures url.Some? && !Contains(url.value, "Front: ") ==> source == url.value
    ensures url.None? ==> source == ""
  {
    var source := if url.Some? then url.value else "";
    if Contains(source, "Front: ") then "" else source
  }

  /** The JPEG the latest screenshot is saved as: its path without extension, spaces made `_`, plus `.jpg`. */
  function ImageFileName(screenshot: string): (name: string)
    ensures ' ' !in name
    ensures |name| >= 4 && name[|name| - 4..] == ".jpg"
    // Position by position, the name is the path without its extension,
    // each space made `_`.
    ensures var root := AnkiConnector.SplitExtRoot(screenshot);
      && |name| == |root| + 4
      && (forall i :: 0 <= i < |root| ==> name[i] == if root[i] == ' ' then '_' else root[i])
  {
    ReplaceCharPointwise(AnkiConnector.SplitExtRoot(screenshot), ' ', '_');
    ReplaceDropsChar(AnkiConnector.SplitExtRoot(screenshot), ' ', "_");
    ReplaceAll(AnkiConnector.SplitExtRoot(screenshot), " ", "_") + ".jpg"
  }

  /**
   * `--makeanki` (`screenshot` is `None`) and `--makeankiimage`: the card
   * read from the model's reply goes to the legacy connector, with the
   * JPEG as back image in the second mode.  `None` when the selection is
   * too long; `Raised` when the split raises or `add_card` does.  The
   * first mode sends the fixed fact, not the selection.
   */
  function MakeAnki(selection: string, content: string, url: Option<string>, screenshot: Option<string>,
                    ask: Request -> Http): (o: Option<Outcome<Json>>)
    ensures screenshot.None? ==> o.Some?
    ensures o.Some? <==> screenshot.None? || |selection| < ANKI_LIMIT
    ensures o.Some? && CardSplit(Corrected(content)).None? ==> o.value == Raised
    ensures o.Some? ==> o.value == Raised || o.value == Returned(JNull)
    ensures o.Some? && CardSplit(Corrected(content)).Some? ==>
      var (front, back) := CardSplit(Corrected(content)).value;
      var image := if screenshot.Some? then Some(ImageFileName(screenshot.value)) else None;
      o.value == LegacyConnector.AddCardResult(Connector(LEGACY_DECK, "Basic", false, image),
                                               front, back, CardSource(url), true, ask)
  {
    var fact := if screenshot.None? then MAKEANKI_FACT else selection;
    if |fact| >= ANKI_LIMIT then None
    else
      match CardSplit(Corrected(content))
      case None => Some(Raised)
      case Some((front, back)) =>
        var image := if screenshot.Some? then Some(ImageFileName(screenshot.value)) else None;
        Some(LegacyConnector.AddCardResult(Connector(LEGACY_DECK, "Basic", false, image),
                                           front, back, CardSource(url), true, ask))
  }
}
