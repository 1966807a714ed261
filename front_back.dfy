/**
 * Reading a flashcard out of a language model's reply, as both
 * clipboard_to_anki.py (`generate_qa`) and phone_auto_anki_maker.py
 * (`main_processing`) do it: the markdown markers `**Front:**`/`**Back:**`
 * are tried first, then the plain `Front: `/`Back: `; the question is the
 * stripped text between the first Front marker and the first Back marker
 * after it, and the answer is cut before the first `---`, else before the
 * first `###`.
 */
module FrontBack {
  import opened Optional
  import opened PyText

  const MD_FRONT := "**Front:**"
  const MD_BACK := "**Back:**"
  const PLAIN_FRONT := "Front: "
  const PLAIN_BACK := "Back: "

  /** Both markers of a pair occur somewhere in the reply. */
  predicate HasMarkers(reply: string, front: string, back: string) {
    Contains(reply, front) && Contains(reply, back)
  }

  /**
   * The answer from the stripped text after the Back marker: the stripped
   * text before the first `---`, else the stripped text before the first
   * `###`, else all of it.
   */
  function CutAnswer(backContent: string): (a: string)
    ensures !Contains(a, "---")
    ensures !Contains(backContent, "---") ==> !Contains(a, "###")
    ensures !Contains(backContent, "---") && !Contains(backContent, "###") ==> a == backContent
    ensures Contains(backContent, "---") ==>
      exists head, rest :: backContent == head + "---" + rest && !Contains(head, "---") && a == Strip(head)
    ensures !Contains(backContent, "---") && Contains(backContent, "###") ==>
      exists head, rest :: backContent == head + "###" + rest && !Contains(head, "###") && a == Strip(head)
  {
    if Contains(backContent, "---") then
      var parts := SplitFirst(backContent, "---");
      StripNoContains(parts[0], "---");
      Strip(parts[0])
    else if Contains(backContent, "###") then
      var parts := SplitFirst(backContent, "###");
      StripNoContains(parts[0], "###");
      NotContainsSlice(backContent, "---", 0, |parts[0]|);
      assert backContent[0..|parts[0]|] == parts[0];
      StripNoContains(parts[0], "---");
      Strip(parts[0])
    else backContent
  }

  /**
   * `reply.split(front, 1)[1].split(back, 1)`, then the stripped question
   * and the cut answer; `None` where indexing `[1]` raises IndexError (the
   * Back marker does not follow the first Front marker), which both
   * scripts catch.
   */
  function SplitCard(reply: string, front: string, back: string): (r: Option<(string, string)>)
    requires |front| > 0 && |back| > 0
    ensures r.Some? ==> !Contains(r.value.1, "---")
    ensures r.Some? ==> r.value.0 == Strip(r.value.0)
  {
    var afterFront := SplitFirst(reply, front);
    if |afterFront| < 2 then None
    else
      var parts := SplitFirst(afterFront[1], back);
      if |parts| < 2 then None
      else
        StripIdempotent(parts[0]);
        Some((Strip(parts[0]), CutAnswer(Strip(parts[1]))))
  }

  /**
   * The card read from a reply: the markdown markers when both occur
   * (even if that parse then fails), else the plain markers when both
   * occur, else nothing.
   */
  function ParseCard(reply: string): (r: Option<(string, string)>)
    ensures !HasMarkers(reply, MD_FRONT, MD_BACK) && !HasMarkers(reply, PLAIN_FRONT, PLAIN_BACK) ==> r.None?
    ensures r.Some? ==> !Contains(r.value.1, "---")
  {
    if HasMarkers(reply, MD_FRONT, MD_BACK) then SplitCard(reply, MD_FRONT, MD_BACK)
    else if HasMarkers(reply, PLAIN_FRONT, PLAIN_BACK) then SplitCard(reply, PLAIN_FRONT, PLAIN_BACK)
    else None
  }

  lemma StripIdempotent(s: string)
    ensures Strip(Strip(s)) == Strip(s)
  {
    StripEnds(s);
    StripOfStripped(Strip(s));
  }

  /**
   * A reply laid out as `pre`, Front marker, question, Back marker,
   * answer gives back the question and the answer, provided the Front
   * marker does not occur earlier and the Back marker does not occur
   * inside the question.
   */
  lemma SplitCardRoundTrip(pre: string, front: string, q: string, back: string, a: string)
    requires |front| > 0 && |back| > 0
    requires forall i :: 0 <= i < |pre| ==> !OccursAt(pre + front, front, i)
    requires forall i :: 0 <= i < |q| ==> !OccursAt(q + back, back, i)
    ensures SplitCard(pre + front + q + back + a, front, back) == Some((Strip(q), CutAnswer(Strip(a))))
  {
    assert pre + front + q + back + a == pre + front + (q + back + a);
    FirstOccurrence(pre, front, q + back + a);
    FirstOccurrence(q, back, a);
  }

  /** A reply in the markdown form is read as such. */
  lemma MarkdownRoundTrip(pre: string, q: string, a: string)
    requires forall i :: 0 <= i < |pre| ==> !OccursAt(pre + MD_FRONT, MD_FRONT, i)
    requires forall i :: 0 <= i < |q| ==> !OccursAt(q + MD_BACK, MD_BACK, i)
    ensures ParseCard(pre + MD_FRONT + q + MD_BACK + a) == Some((Strip(q), CutAnswer(Strip(a))))
  {
    var reply := pre + MD_FRONT + q + MD_BACK + a;
    assert OccursAt(reply, MD_FRONT, |pre|);
    OccursContains(reply, MD_FRONT, |pre|);
    assert OccursAt(reply, MD_BACK, |pre| + |MD_FRONT| + |q|);
    OccursContains(reply, MD_BACK, |pre| + |MD_FRONT| + |q|);
    SplitCardRoundTrip(pre, MD_FRONT, q, MD_BACK, a);
  }

  /** A reply in the plain form, without both markdown markers, is read as such. */
  lemma PlainRoundTrip(pre: string, q: string, a: string)
    requires !HasMarkers(pre + PLAIN_FRONT + q + PLAIN_BACK + a, MD_FRONT, MD_BACK)
    requires forall i :: 0 <= i < |pre| ==> !OccursAt(pre + PLAIN_FRONT, PLAIN_FRONT, i)
    requires forall i :: 0 <= i < |q| ==> !OccursAt(q + PLAIN_BACK, PLAIN_BACK, i)
    ensures ParseCard(pre + PLAIN_FRONT + q + PLAIN_BACK + a) == Some((Strip(q), CutAnswer(Strip(a))))
  {
    var reply := pre + PLAIN_FRONT + q + PLAIN_BACK + a;
    assert OccursAt(reply, PLAIN_FRONT, |pre|);
    OccursContains(reply, PLAIN_FRONT, |pre|);
    assert OccursAt(reply, PLAIN_BACK, |pre| + |PLAIN_FRONT| + |q|);
    OccursContains(reply, PLAIN_BACK, |pre| + |PLAIN_FRONT| + |q|);
    SplitCardRoundTrip(pre, PLAIN_FRONT, q, PLAIN_BACK, a);
  }

  /**
   * When the Back marker occurs only before the first Front marker the
   * split raises and nothing is read.
   */
  lemma BackBeforeFrontFails(pre: string, front: string, back: string, post: string)
    requires |front| > 0 && |back| > 0
    requires forall i :: 0 <= i < |pre| ==> !OccursAt(pre + front, front, i)
    requires !Contains(post, back)
    ensures SplitCard(pre + front + post, front, back).None?
  {
    FirstOccurrence(pre, front, post);
  }

  /**
   * The markdown form takes precedence: when both of its markers occur
   * but its split fails, the plain markers are not tried, whatever
   * follows.
   */
  lemma MarkdownFailureDoesNotFallBack(pre: string, post: string)
    requires Contains(pre, MD_BACK)
    requires forall i :: 0 <= i < |pre| ==> !OccursAt(pre + MD_FRONT, MD_FRONT, i)
    requires !Contains(post, MD_BACK)
    ensures ParseCard(pre + MD_FRONT + post).None?
  {
    var reply := pre + MD_FRONT + post;
    assert OccursAt(reply, MD_FRONT, |pre|);
    OccursContains(reply, MD_FRONT, |pre|);
    var k := Find(pre, MD_BACK);
    assert reply[k..k + |MD_BACK|] == pre[k..k + |MD_BACK|];
    OccursContains(reply, MD_BACK, k);
    BackBeforeFrontFails(pre, MD_FRONT, MD_BACK, post);
  }
}
