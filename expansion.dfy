/**
  Content expansion for one subchapter: the `while True` retry loop around the generation
  request. An attempt either raises in the request or in `.text` (the service failed) or
  returns text; the text is split on blank lines and each segment becomes a paragraph.
  Building a paragraph can raise as well: the rendering library parses the paragraph's
  markup when the paragraph is constructed, and `renders(t)` says whether it accepts `t`.
  Any exception leads to a 5-second sleep and a new attempt.

  The loop as the source writes it appends paragraphs one at a time, so an attempt that
  raises at a later segment leaves the paragraphs of its earlier segments in the element list
  and the next attempt appends its section again (`AsWrittenElements`, `ExpandAsWritten`).
  `GenerateSection` builds the section first and hands it over only once the whole attempt
  has succeeded; the book assembly uses it.

  The service is outside the model: its replies are a finite list of attempts, and the loop
  is only run on lists that contain an accepted attempt (the source retries forever
  otherwise).
 */
module Expansion {
  import opened Wrappers
  import opened PyStr
  import opened Document

  /** The blank line: the separator of `sections_text.split('\n\n')`, and the end of every
      line of the plain-text export. */
  const PARAGRAPH_BREAK := "\n\n"

  /** One try of the loop body: the request or `.text` raised, or text came back. */
  datatype Attempt = CallFailed | Returned(text: string)

  /** `sections_text.split('\n\n')`. */
  function Segments(text: string): (segments: seq<string>)
    ensures |segments| >= 1
  {
    Split(text, PARAGRAPH_BREAK)
  }

  /** The first segment whose paragraph the rendering library rejects, if any. */
  function FirstRejected(segments: seq<string>, renders: string -> bool): (r: Option<nat>)
    ensures r.Some? ==> r.value < |segments| && !renders(segments[r.value])
    ensures forall i :: 0 <= i < |segments| && (r.None? || i < r.value) ==> renders(segments[i])
    decreases |segments|
  {
    if segments == [] then None
    else if !renders(segments[0]) then Some(0)
    else match FirstRejected(segments[1..], renders)
      case None => None
      case Some(i) => Some(i + 1)
  }

  /** The first rejected segment is the one before which every segment renders. */
  lemma FirstRejectedUnique(segments: seq<string>, renders: string -> bool, r: Option<nat>)
    requires r.Some? ==> r.value < |segments| && !renders(segments[r.value])
    requires forall i :: 0 <= i < |segments| && (r.None? || i < r.value) ==> renders(segments[i])
    ensures FirstRejected(segments, renders) == r
  {
  }

  /** The attempt gets through the whole `try` block: text came back and every segment of it
      makes a paragraph. */
  predicate Accepted(a: Attempt, renders: string -> bool) {
    a.Returned? && FirstRejected(Segments(a.text), renders).None?
  }

  /** Some attempt of the list is accepted, so the retry loop ends. */
  predicate EventuallyAccepted(attempts: seq<Attempt>, renders: string -> bool)
    decreases |attempts|
  {
    attempts != [] && (Accepted(attempts[0], renders) || EventuallyAccepted(attempts[1..], renders))
  }

  /** The position of the first accepted attempt: the number of failed attempts, and so of
      5-second sleeps, before the loop breaks. */
  function FirstAccepted(attempts: seq<Attempt>, renders: string -> bool): (r: Option<nat>)
    ensures r.Some? ==> r.value < |attempts| && Accepted(attempts[r.value], renders)
    ensures forall k :: 0 <= k < |attempts| && (r.None? || k < r.value) ==> !Accepted(attempts[k], renders)
    decreases |attempts|
  {
    if attempts == [] then None
    else if Accepted(attempts[0], renders) then Some(0)
    else match FirstAccepted(attempts[1..], renders)
      case None => None
      case Some(k) => Some(k + 1)
  }

  /** The retry loop ends exactly when some attempt is accepted, and then at the first
      such attempt. */
  lemma {:induction false} EventuallyAcceptedFirst(attempts: seq<Attempt>, renders: string -> bool)
    ensures EventuallyAccepted(attempts, renders) <==> FirstAccepted(attempts, renders).Some?
    ensures EventuallyAccepted(attempts, renders) <==>
      exists k :: 0 <= k < |attempts| && Accepted(attempts[k], renders)
    decreases |attempts|
  {
    if attempts != [] {
      EventuallyAcceptedFirst(attempts[1..], renders);
      if !Accepted(attempts[0], renders) && EventuallyAccepted(attempts[1..], renders) {
        var k := FirstAccepted(attempts[1..], renders).value;
        assert attempts[1..][k] == attempts[k + 1];
      }
    }
  }

  /** The contract of `FirstAccepted` determines it. */
  lemma FirstAcceptedAt(attempts: seq<Attempt>, renders: string -> bool, k: nat)
    requires k < |attempts| && Accepted(attempts[k], renders)
    requires forall j :: 0 <= j < k ==> !Accepted(attempts[j], renders)
    ensures FirstAccepted(attempts, renders) == Some(k)
  {
  }

  /** Up to the first accepted attempt, an attempt is accepted exactly when it is that one. */
  lemma FirstAcceptedBound(attempts: seq<Attempt>, renders: string -> bool, first: nat, r: nat)
    requires FirstAccepted(attempts, renders) == Some(first) && r <= first
    ensures first < |attempts|
    ensures Accepted(attempts[r], renders) <==> r == first
  {
  }

  /** The text of the first accepted attempt: the content the subchapter ends up with. */
  function AcceptedText(attempts: seq<Attempt>, renders: string -> bool): string {
    match FirstAccepted(attempts, renders)
    case Some(k) => attempts[k].text
    case None => ""
  }

  /** What one attempt appends to the element list when paragraphs are appended as they
      are built: nothing for a failed request, the elements of the segments before the first
      rejected one, or the whole section. */
  function Appended(a: Attempt, renders: string -> bool): (elements: seq<Element>)
    ensures Accepted(a, renders) ==> elements == SectionElements(Segments(a.text))
  {
    match a
    case CallFailed => []
    case Returned(text) =>
      var segments := Segments(text);
      match FirstRejected(segments, renders)
      case None => SectionElements(segments)
      case Some(b) => PartialSection(segments, b)
  }

  /** The body of the `try` block for one attempt: split the returned text and build its
      section. `section` is what the paragraph loop appended before it ended, whole when the
      attempt is accepted; `exported` is the stripped text line 168 appends then. */
  method TryAttempt(a: Attempt, renders: string -> bool)
    returns (ok: bool, section: seq<Element>, exported: string)
    ensures ok <==> Accepted(a, renders)
    ensures section == Appended(a, renders)
    ensures ok ==> exported == Strip(a.text) + PARAGRAPH_BREAK
  {
    ok, section, exported := false, [], "";
    if a.Returned? {
      var segments := Split(a.text, PARAGRAPH_BREAK);
      var rejected;
      rejected, section := BuildSection(segments, renders);
      FirstRejectedUnique(segments, renders, rejected);
      if rejected.None? {
        ok, exported := true, Strip(a.text) + PARAGRAPH_BREAK;
      }
    }
  }

  /** The subchapter's retry loop, with the section handed over only once the attempt has
      succeeded: failed attempts contribute nothing, the first accepted attempt's section
      and stripped text are returned, and `retries` counts the sleeps before it. */
  method GenerateSection(attempts: seq<Attempt>, renders: string -> bool)
    returns (retries: nat, section: seq<Element>, exported: string)
    requires EventuallyAccepted(attempts, renders)
    ensures retries < |attempts| && Accepted(attempts[retries], renders)
    ensures forall k :: 0 <= k < retries ==> !Accepted(attempts[k], renders)
    ensures FirstAccepted(attempts, renders) == Some(retries)
    ensures AcceptedText(attempts, renders) == attempts[retries].text
    ensures section == SectionElements(Segments(AcceptedText(attempts, renders)))
    ensures exported == Strip(AcceptedText(attempts, renders)) + PARAGRAPH_BREAK
  {
    EventuallyAcceptedFirst(attempts, renders);
    ghost var first := FirstAccepted(attempts, renders).value;
    retries := 0;
    while true
      invariant FirstAccepted(attempts, renders) == Some(first) && retries <= first
      decreases first - retries
    {
      FirstAcceptedBound(attempts, renders, first, retries);
      var ok, built, text := TryAttempt(attempts[retries], renders);
      if ok {
        section, exported := built, text;
        return;
      }
      retries := retries + 1;
    }
  }

  // ---------------------------------------------------------------------------------------
  // The loop as written
  // ---------------------------------------------------------------------------------------

  /** What the first `n` attempts append, one after the other, when paragraphs are appended
      as they are built. */
  function AppendedBefore(attempts: seq<Attempt>, renders: string -> bool, n: nat): seq<Element>
    requires n <= |attempts|
  {
    if n == 0 then [] else AppendedBefore(attempts, renders, n - 1) + Appended(attempts[n - 1], renders)
  }

  /** What the attempts before the first accepted one leave in the element list when
      paragraphs are appended as they are built. */
  function LeftBehind(attempts: seq<Attempt>, renders: string -> bool): seq<Element> {
    match FirstAccepted(attempts, renders)
    case Some(k) => AppendedBefore(attempts, renders, k)
    case None => AppendedBefore(attempts, renders, |attempts|)
  }

  /** What the source's loop appends to the element list for one subchapter: every attempt
      up to and including the first accepted one leaves what it appended behind, so the
      accepted section comes after what the earlier attempts left. */
  function AsWrittenElements(attempts: seq<Attempt>, renders: string -> bool): (elements: seq<Element>)
    ensures FirstAccepted(attempts, renders).Some? ==>
      elements == LeftBehind(attempts, renders) + SectionElements(Segments(AcceptedText(attempts, renders)))
  {
    match FirstAccepted(attempts, renders)
    case Some(k) =>
      assert AppendedBefore(attempts, renders, k + 1) ==
        AppendedBefore(attempts, renders, k) + SectionElements(Segments(attempts[k].text));
      AppendedBefore(attempts, renders, k + 1)
    case None => AppendedBefore(attempts, renders, |attempts|)
  }

  /** The source's retry loop: each attempt's paragraphs are appended as they are built, and
      the text export is appended once, after the loop over the segments. */
  method ExpandAsWritten(attempts: seq<Attempt>, renders: string -> bool)
    returns (retries: nat, appended: seq<Element>, exported: string)
    requires EventuallyAccepted(attempts, renders)
    ensures FirstAccepted(attempts, renders) == Some(retries)
    ensures appended == AsWrittenElements(attempts, renders)
    ensures exported == Strip(attempts[retries].text) + PARAGRAPH_BREAK
  {
    EventuallyAcceptedFirst(attempts, renders);
    ghost var first := FirstAccepted(attempts, renders).value;
    retries := 0;
    appended := [];
    while true
      invariant FirstAccepted(attempts, renders) == Some(first) && retries <= first
      invariant appended == AppendedBefore(attempts, renders, retries)
      decreases first - retries
    {
      var ok, text;
      ok, appended, text := AppendAttempt(attempts, renders, first, retries, appended);
      if ok {
        exported := text;
        return;
      }
      retries := retries + 1;
    }
  }

  /** One pass of the source's loop body: the attempt's paragraphs are appended to what the
      earlier attempts left behind, and the pass breaks out exactly at the first accepted
      attempt. */
  method AppendAttempt(attempts: seq<Attempt>, renders: string -> bool, ghost first: nat, retries: nat,
                       appended: seq<Element>)
    returns (ok: bool, after: seq<Element>, exported: string)
    requires FirstAccepted(attempts, renders) == Some(first) && retries <= first
    requires appended == AppendedBefore(attempts, renders, retries)
    ensures retries < |attempts| && after == AppendedBefore(attempts, renders, retries + 1)
    ensures ok <==> retries == first
    ensures ok ==> exported == Strip(attempts[retries].text) + PARAGRAPH_BREAK
  {
    FirstAcceptedBound(attempts, renders, first, retries);
    var built;
    ok, built, exported := TryAttempt(attempts[retries], renders);
    after := appended + built;
  }

  /** Failed requests append nothing: when every attempt before the `n`-th is one, nothing was
      appended before it. */
  lemma {:induction false} NothingBeforeFailures(attempts: seq<Attempt>, renders: string -> bool, n: nat)
    requires n <= |attempts|
    requires forall k :: 0 <= k < n ==> attempts[k].CallFailed?
    ensures AppendedBefore(attempts, renders, n) == []
  {
    if n > 0 {
      NothingBeforeFailures(attempts, renders, n - 1);
    }
  }

  /** Where every failure before the accepted attempt is a failed request, the loop as
      written appends exactly the accepted attempt's section. */
  lemma AsWrittenWithoutRejections(attempts: seq<Attempt>, renders: string -> bool)
    requires EventuallyAccepted(attempts, renders)
    requires forall k :: 0 <= k < |attempts| && !Accepted(attempts[k], renders) ==> attempts[k].CallFailed?
    ensures LeftBehind(attempts, renders) == []
    ensures AsWrittenElements(attempts, renders) == SectionElements(Segments(AcceptedText(attempts, renders)))
  {
    EventuallyAcceptedFirst(attempts, renders);
    var first := FirstAccepted(attempts, renders).value;
    forall k | 0 <= k < first ensures attempts[k].CallFailed? {
      FirstAcceptedBound(attempts, renders, first, k);
    }
    NothingBeforeFailures(attempts, renders, first);
    AppendedAccepted(attempts, renders, first);
  }

  /** The accepted attempt appends its whole section. */
  lemma AppendedAccepted(attempts: seq<Attempt>, renders: string -> bool, first: nat)
    requires FirstAccepted(attempts, renders) == Some(first)
    requires AppendedBefore(attempts, renders, first) == []
    ensures AsWrittenElements(attempts, renders) == SectionElements(Segments(AcceptedText(attempts, renders)))
  {
    assert AppendedBefore(attempts, renders, first + 1) == [] + Appended(attempts[first], renders);
  }

  // ---------------------------------------------------------------------------------------
  // The discrepancy, on a concrete input
  // ---------------------------------------------------------------------------------------

  lemma SplitTwo(a: string, b: string)
    requires Find(a + PARAGRAPH_BREAK, PARAGRAPH_BREAK) == Some(|a|)
    requires Find(b, PARAGRAPH_BREAK) == None
    ensures Segments(a + PARAGRAPH_BREAK + b) == [a, b]
  {
    var parts := [a, b];
    assert SplitShaped(parts, PARAGRAPH_BREAK);
    assert parts[1..] == [b];
    assert Join(parts, PARAGRAPH_BREAK) == a + PARAGRAPH_BREAK + b;
    SplitJoin(parts, PARAGRAPH_BREAK);
  }

  predicate NoNewline(s: string) {
    forall i :: 0 <= i < |s| ==> s[i] != '\n'
  }

  /** Two lines without a line break, joined by a blank line, split back into the two. */
  lemma SegmentsOfTwo(a: string, b: string)
    requires NoNewline(a) && NoNewline(b)
    ensures Segments(a + PARAGRAPH_BREAK + b) == [a, b]
  {
    var s := a + PARAGRAPH_BREAK;
    assert s[|a|..|a| + 2] == PARAGRAPH_BREAK;
    forall k: nat | k < |a| ensures !OccursAt(s, PARAGRAPH_BREAK, k) {
      assert s[k..k + 2][0] == a[k];
    }
    FindUnique(s, PARAGRAPH_BREAK, Some(|a|));
    forall k: nat ensures !OccursAt(b, PARAGRAPH_BREAK, k) {
      if k + 2 <= |b| {
        assert b[k..k + 2][0] == b[k];
      }
    }
    FindUnique(b, PARAGRAPH_BREAK, None);
    SplitTwo(a, b);
  }

  /** Two replies of two segments each, sharing their first segment `a`: the first reply's
      second segment `x` is rejected, the second reply's `b` is accepted. */
  predicate RejectedThenAccepted(t1: string, t2: string, a: string, x: string, b: string,
                                 renders: string -> bool) {
    Segments(t1) == [a, x] && Segments(t2) == [a, b] && renders(a) && !renders(x) && renders(b)
  }

  /** The loop stops at the second reply, after one sleep. */
  lemma SecondAccepted(t1: string, t2: string, a: string, x: string, b: string, renders: string -> bool)
    requires RejectedThenAccepted(t1, t2, a, x, b, renders)
    ensures FirstRejected([a, x], renders) == Some(1) && FirstRejected([a, b], renders) == None
    ensures FirstAccepted([Returned(t1), Returned(t2)], renders) == Some(1)
    ensures AcceptedText([Returned(t1), Returned(t2)], renders) == t2
  {
    FirstRejectedUnique([a, x], renders, Some(1));
    FirstRejectedUnique([a, b], renders, None);
    var attempts := [Returned(t1), Returned(t2)];
    assert !Accepted(attempts[0], renders) && Accepted(attempts[1], renders);
    FirstAcceptedAt(attempts, renders, 1);
  }

  /** What each reply leaves behind when paragraphs are appended as they are built. */
  lemma SecondAcceptedAppended(t1: string, t2: string, a: string, x: string, b: string,
                               renders: string -> bool)
    requires RejectedThenAccepted(t1, t2, a, x, b, renders)
    ensures Appended(Returned(t1), renders) == [Paragraph(a, FirstParagraph), GAP]
    ensures Appended(Returned(t2), renders) == [Paragraph(a, FirstParagraph), GAP, Paragraph(b, BodyText)]
  {
    SecondAccepted(t1, t2, a, x, b, renders);
    TwoSegmentSection(a, b);
    var partial := PartialSection([a, x], 1);
    assert partial[0] == Paragraph(a, FirstParagraph) && partial[1] == GAP;
  }

  /** The loop as written leaves the rejected reply's first paragraph and its spacer in front
      of the accepted reply's section. */
  lemma SecondAcceptedAsWritten(t1: string, t2: string, a: string, x: string, b: string,
                                renders: string -> bool)
    requires RejectedThenAccepted(t1, t2, a, x, b, renders)
    ensures AsWrittenElements([Returned(t1), Returned(t2)], renders) ==
      [Paragraph(a, FirstParagraph), GAP] + [Paragraph(a, FirstParagraph), GAP, Paragraph(b, BodyText)]
  {
    var attempts := [Returned(t1), Returned(t2)];
    SecondAccepted(t1, t2, a, x, b, renders);
    SecondAcceptedAppended(t1, t2, a, x, b, renders);
    assert AppendedBefore(attempts, renders, 1) == [] + Appended(attempts[0], renders);
  }

  /** The paragraphs of the two element lists. */
  lemma DuplicateCounts(a: string, b: string)
    ensures var intended := [Paragraph(a, FirstParagraph), GAP, Paragraph(b, BodyText)];
      var asWritten := [Paragraph(a, FirstParagraph), GAP] + intended;
      CountStyle(asWritten, FirstParagraph) == 2 && CountStyle(intended, FirstParagraph) == 1 &&
      ParagraphTexts(asWritten) == [a, a, b] && ParagraphTexts(intended) == [a, b]
  {
    var head := [Paragraph(a, FirstParagraph), GAP];
    var tail := [GAP, Paragraph(b, BodyText)];
    PairCounts(a, FirstParagraph);
    PairCounts(b, BodyText);
    assert [Paragraph(a, FirstParagraph)] + [GAP] == head;
    assert [Paragraph(a, FirstParagraph)] + tail == [Paragraph(a, FirstParagraph), GAP, Paragraph(b, BodyText)];
    assert [GAP][..0] == [];
    assert CountStyle([GAP], FirstParagraph) == 0 && ParagraphTexts([GAP]) == [];
    CountsAppend([Paragraph(a, FirstParagraph)], [GAP]);
    CountsAppend([Paragraph(a, FirstParagraph)], tail);
    CountsAppend(head, [Paragraph(a, FirstParagraph)] + tail);
  }

  /** A reply whose second paragraph is rejected, then a reply that is accepted. The loop as
      written leaves the rejected reply's first paragraph (and its spacer) in the element
      list, so the section holds two first paragraphs and its paragraph texts no longer
      match the accepted text, which the text export holds once. Appending only after
      success gives the accepted section alone. */
  lemma AsWrittenDuplicates(t1: string, t2: string, a: string, x: string, b: string,
                            renders: string -> bool)
    requires RejectedThenAccepted(t1, t2, a, x, b, renders)
    ensures var attempts := [Returned(t1), Returned(t2)];
      var asWritten := AsWrittenElements(attempts, renders);
      var intended := SectionElements(Segments(AcceptedText(attempts, renders)));
      intended == [Paragraph(a, FirstParagraph), GAP, Paragraph(b, BodyText)] &&
      asWritten == [Paragraph(a, FirstParagraph), GAP] + intended &&
      CountStyle(asWritten, FirstParagraph) == 2 && CountStyle(intended, FirstParagraph) == 1 &&
      ParagraphTexts(asWritten) == [a, a, b] && ParagraphTexts(intended) == [a, b]
  {
    SecondAccepted(t1, t2, a, x, b, renders);
    SecondAcceptedAppended(t1, t2, a, x, b, renders);
    SecondAcceptedAsWritten(t1, t2, a, x, b, renders);
    DuplicateCounts(a, b);
  }

  /** A sample markup check: a paragraph is rejected when it holds a '<'. */
  function NoAngle(t: string): bool {
    forall i :: 0 <= i < |t| ==> t[i] != '<'
  }

  /** The concrete input: "A\n\n<b" (its second paragraph holds an unclosed tag), then
      "A\n\nB". */
  lemma SampleInput()
    ensures RejectedThenAccepted("A\n\n<b", "A\n\nB", "A", "<b", "B", NoAngle)
  {
    assert "A" + PARAGRAPH_BREAK + "<b" == "A\n\n<b";
    assert "A" + PARAGRAPH_BREAK + "B" == "A\n\nB";
    assert NoNewline("A") && NoNewline("B");
    assert NoNewline("<b") by { assert "<b"[0] == '<' && "<b"[1] == 'b'; }
    SegmentsOfTwo("A", "<b");
    SegmentsOfTwo("A", "B");
    assert !NoAngle("<b") by { assert "<b"[0] == '<'; }
    assert NoAngle("A") && NoAngle("B");
  }

  /** On that input the loop as written appends the first paragraph twice. */
  lemma AsWrittenDuplicatesParagraphs()
    ensures var attempts := [Returned("A\n\n<b"), Returned("A\n\nB")];
      var asWritten := AsWrittenElements(attempts, NoAngle);
      var intended := SectionElements(Segments(AcceptedText(attempts, NoAngle)));
      AcceptedText(attempts, NoAngle) == "A\n\nB" &&
      intended == [Paragraph("A", FirstParagraph), GAP, Paragraph("B", BodyText)] &&
      asWritten == [Paragraph("A", FirstParagraph), GAP] + intended &&
      CountStyle(asWritten, FirstParagraph) == 2 && CountStyle(intended, FirstParagraph) == 1 &&
      ParagraphTexts(asWritten) == ["A", "A", "B"] && ParagraphTexts(intended) == ["A", "B"]
  {
    SampleInput();
    SecondAccepted("A\n\n<b", "A\n\nB", "A", "<b", "B", NoAngle);
    AsWrittenDuplicates("A\n\n<b", "A\n\nB", "A", "<b", "B", NoAngle);
  }

  /** Two failed requests, then a reply. The loop sleeps
      twice before it breaks. */
  lemma TwoFailuresThenSuccess(text: string, renders: string -> bool)
    requires FirstRejected(Segments(text), renders).None?
    ensures FirstAccepted([CallFailed, CallFailed, Returned(text)], renders) == Some(2)
    ensures AcceptedText([CallFailed, CallFailed, Returned(text)], renders) == text
  {
    var attempts := [CallFailed, CallFailed, Returned(text)];
    assert Accepted(attempts[2], renders);
    assert FirstAccepted(attempts[2..], renders) == Some(0);
    assert attempts[1..][1..] == attempts[2..];
    assert FirstAccepted(attempts[1..], renders) == Some(1);
  }
}
