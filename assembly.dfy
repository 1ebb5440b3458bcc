/**
  The book assembly pass: after the outline has come back, one traversal over its chapters
  and subchapters fills two accumulators in lock-step, the list of presentation elements
  handed to the rendering library and the markdown-like plain-text export.

  Each step of the traversal is an `Entry`: the book title, a numbered chapter heading, a
  subchapter heading, or a subchapter's accepted content together with the paragraphs its
  failed attempts left in the element list (the retry loop appends paragraphs as it builds
  them and does not take them back when a later one raises). `Render` and `Export` say what one
  entry appends to each accumulator, and `BookEntries` is the sequence of entries the
  traversal produces, so that the elements are `RenderAll(BookEntries(...))` and the text is
  `ExportAll(BookEntries(...))`: neither side can reorder or drop what the other holds.

  The generation service is outside the model: `gen(c, s)` is the list of attempts the
  retry loop makes for subchapter `s` of chapter `c` (both counted from 0), and `renders`
  is the rendering library's markup check. The two readings of the clock are parameters.
 */
module Assembly {
  import opened Wrappers
  import opened PyStr
  import opened Filename
  import opened Outline
  import opened Document
  import opened Expansion

  /** One step of the traversal. */
  datatype Entry =
    | BookTitle(title: string)
    | ChapterHeading(number: nat, title: string)
    | SubchapterHeading(title: string)
    | Section(content: string, leftover: seq<Element>)

  /** `f"Chapter {chapter_index + 1}: {chapter_title}"`: the number reads back from its
      place in the label, and the title ends it. */
  function ChapterLabel(number: nat, title: string): (name: string)
    ensures var k := |NatToString(number)|;
      |name| == 10 + k + |title| && name[..8] == "Chapter " &&
      AllDigits(name[8..8 + k]) && ParseNat(name[8..8 + k]) == number &&
      name[8 + k..10 + k] == ": " && name[10 + k..] == title
  {
    var digits := NatToString(number);
    ParseNatToString(number);
    var name := "Chapter " + digits + ": " + title;
    assert name[8..8 + |digits|] == digits;
    name
  }

  /** What one entry appends to the element list. A heading is one paragraph in a heading
      style; a section is what the failed attempts left behind, then the accepted reply's
      paragraphs and spacers. */
  function Render(e: Entry): (elements: seq<Element>)
    ensures !e.Section? ==>
      |elements| == 1 && elements[0].Paragraph? && elements[0].style in {Title, Heading1, Heading2}
    ensures e.Section? ==>
      |elements| == |e.leftover| + 2 * |Segments(e.content)| - 1 && elements[..|e.leftover|] == e.leftover
  {
    match e
    case BookTitle(t) => [Paragraph(t, Title)]
    case ChapterHeading(n, t) => [Paragraph(ChapterLabel(n, t), Heading1)]
    case SubchapterHeading(t) => [Paragraph(t, Heading2)]
    case Section(t, l) => l + SectionElements(Segments(t))
  }

  /** What one entry appends to the plain-text export: a line ended by a blank line, with
      one, two or three `#` for the book title, a chapter and a subchapter. */
  function Export(e: Entry): (line: string)
    ensures |line| >= 2 && line[|line| - 2..] == PARAGRAPH_BREAK
    ensures e.BookTitle? ==> |line| >= 4 && line[..2] == "# "
    ensures e.ChapterHeading? ==> |line| >= 5 && line[..3] == "## "
    ensures e.SubchapterHeading? ==> |line| >= 6 && line[..4] == "### "
  {
    match e
    case BookTitle(t) => "# " + t + PARAGRAPH_BREAK
    case ChapterHeading(n, t) => "## " + ChapterLabel(n, t) + PARAGRAPH_BREAK
    case SubchapterHeading(t) => "### " + t + PARAGRAPH_BREAK
    case Section(t, _) => Strip(t) + PARAGRAPH_BREAK
  }

  function RenderAll(entries: seq<Entry>): seq<Element> {
    if entries == [] then [] else RenderAll(entries[..|entries| - 1]) + Render(entries[|entries| - 1])
  }

  function ExportAll(entries: seq<Entry>): string {
    if entries == [] then [] else ExportAll(entries[..|entries| - 1]) + Export(entries[|entries| - 1])
  }

  lemma SectionEntry(t: string, leftover: seq<Element>)
    ensures Render(Section(t, leftover)) == leftover + SectionElements(Segments(t))
    ensures Export(Section(t, leftover)) == Strip(t) + PARAGRAPH_BREAK
  {
  }

  /** The two accumulators mirror each other on a section: its paragraphs in the element list
      are the segments of the reply after what failed attempts left; without leftovers they
      join back, with blank lines, into the reply whose stripped form the text export holds. */
  lemma SectionMirrors(t: string, leftover: seq<Element>)
    ensures ParagraphTexts(Render(Section(t, leftover))) == ParagraphTexts(leftover) + Segments(t)
    ensures Join(ParagraphTexts(Render(Section(t, []))), PARAGRAPH_BREAK) == t
    ensures Export(Section(t, leftover)) == Strip(t) + PARAGRAPH_BREAK
  {
    var section := SectionElements(Segments(t));
    SectionCounts(Segments(t));
    CountsAppend(leftover, section);
    assert [] + section == section;
    JoinSplit(t, PARAGRAPH_BREAK);
  }

  /** Appending one entry appends its rendering and its export. */
  lemma AllSnoc(entries: seq<Entry>, e: Entry)
    ensures RenderAll(entries + [e]) == RenderAll(entries) + Render(e)
    ensures ExportAll(entries + [e]) == ExportAll(entries) + Export(e)
  {
    assert (entries + [e])[..|entries|] == entries;
  }

  /** The element list distributes over a concatenation of entries. */
  lemma {:induction false} RenderAppend(a: seq<Entry>, b: seq<Entry>)
    ensures RenderAll(a + b) == RenderAll(a) + RenderAll(b)
    decreases |b|
  {
    if b == [] {
      assert a + b == a;
    } else {
      var init := b[..|b| - 1];
      var last := b[|b| - 1];
      assert b == init + [last];
      Assoc(a, init, [last]);
      RenderAppend(a, init);
      AllSnoc(a + init, last);
      AllSnoc(init, last);
      Assoc(RenderAll(a), RenderAll(init), Render(last));
    }
  }

  /** The plain text distributes over a concatenation of entries. */
  lemma {:induction false} ExportAppend(a: seq<Entry>, b: seq<Entry>)
    ensures ExportAll(a + b) == ExportAll(a) + ExportAll(b)
    decreases |b|
  {
    if b == [] {
      assert a + b == a;
    } else {
      var init := b[..|b| - 1];
      var last := b[|b| - 1];
      assert b == init + [last];
      Assoc(a, init, [last]);
      ExportAppend(a, init);
      AllSnoc(a + init, last);
      AllSnoc(init, last);
      Assoc(ExportAll(a), ExportAll(init), Export(last));
    }
  }

  // ---------------------------------------------------------------------------------------
  // The traversal
  // ---------------------------------------------------------------------------------------

  /** Every subchapter of the outline has an accepted attempt among those the retry loop
      makes for it. */
  predicate Generates(chapters: seq<Chapter>, gen: (nat, nat) -> seq<Attempt>, renders: string -> bool) {
    forall c, s :: 0 <= c < |chapters| && 0 <= s < |chapters[c].subchapters| ==>
      EventuallyAccepted(gen(c, s), renders)
  }

  /** What the retry loop settles on for subchapter `s` of chapter `c`: the stripped text
      of the accepted attempt. */
  function Contents(gen: (nat, nat) -> seq<Attempt>, renders: string -> bool): (nat, nat) -> string {
    (c: nat, s: nat) => AcceptedText(gen(c, s), renders)
  }

  /** What the failed attempts for subchapter `s` of chapter `c` leave behind in the
      document. */
  function Leftovers(gen: (nat, nat) -> seq<Attempt>, renders: string -> bool): (nat, nat) -> seq<Element> {
    (c: nat, s: nat) => LeftBehind(gen(c, s), renders)
  }

  /** The entries of the first `m` subchapters of chapter `c`: each heading, then its
      section, whose text is `content(c, s)` and whose leftover paragraphs are
      `leftover(c, s)`. */
  function SubchaptersSpan(chapters: seq<Chapter>, c: nat, m: nat, content: (nat, nat) -> string,
                           leftover: (nat, nat) -> seq<Element>): (span: seq<Entry>)
    requires c < |chapters| && m <= |chapters[c].subchapters|
    ensures |span| == 2 * m
  {
    if m == 0 then []
    else
      SubchaptersSpan(chapters, c, m - 1, content, leftover) +
      [SubchapterHeading(chapters[c].subchapters[m - 1].subchapterTitle),
       Section(content(c, m - 1), leftover(c, m - 1))]
  }

  /** The entries of chapter `c`: its numbered heading, then its subchapters. */
  function ChapterSpan(chapters: seq<Chapter>, c: nat, content: (nat, nat) -> string,
                       leftover: (nat, nat) -> seq<Element>): seq<Entry>
    requires c < |chapters|
  {
    [ChapterHeading(c + 1, chapters[c].chapterTitle)] +
    SubchaptersSpan(chapters, c, |chapters[c].subchapters|, content, leftover)
  }

  /** The entries of the first `n` chapters. */
  function ChaptersSpan(chapters: seq<Chapter>, n: nat, content: (nat, nat) -> string,
                        leftover: (nat, nat) -> seq<Element>): seq<Entry>
    requires n <= |chapters|
  {
    if n == 0 then [] else ChaptersSpan(chapters, n - 1, content, leftover) + ChapterSpan(chapters, n - 1, content, leftover)
  }

  /** The title, then every chapter in outline order. */
  function BookSpan(title: string, chapters: seq<Chapter>, content: (nat, nat) -> string,
                    leftover: (nat, nat) -> seq<Element>): seq<Entry> {
    [BookTitle(title)] + ChaptersSpan(chapters, |chapters|, content, leftover)
  }

  /** The whole traversal, with the sections the retry loops settle on. */
  function BookEntries(title: string, chapters: seq<Chapter>, gen: (nat, nat) -> seq<Attempt>,
                       renders: string -> bool): seq<Entry> {
    BookSpan(title, chapters, Contents(gen, renders), Leftovers(gen, renders))
  }

  /** What the retry loop as written appends to the two accumulators is the section it
      settles on, leftovers first. */
  lemma SettledSection(attempts: seq<Attempt>, renders: string -> bool, retries: nat)
    requires FirstAccepted(attempts, renders) == Some(retries)
    ensures AsWrittenElements(attempts, renders) ==
      Render(Section(AcceptedText(attempts, renders), LeftBehind(attempts, renders)))
    ensures Strip(attempts[retries].text) + PARAGRAPH_BREAK ==
      Export(Section(AcceptedText(attempts, renders), LeftBehind(attempts, renders)))
  {
    SectionEntry(AcceptedText(attempts, renders), LeftBehind(attempts, renders));
  }

  /** One more subchapter of chapter `c`: its heading and its section follow the entries
      of the earlier ones. */
  lemma SubchaptersSpanStep(before: seq<Entry>, chapters: seq<Chapter>, c: nat, s: nat,
                            content: (nat, nat) -> string, leftover: (nat, nat) -> seq<Element>)
    requires c < |chapters| && s < |chapters[c].subchapters|
    ensures before + SubchaptersSpan(chapters, c, s + 1, content, leftover) ==
      before + SubchaptersSpan(chapters, c, s, content, leftover) +
      [SubchapterHeading(chapters[c].subchapters[s].subchapterTitle)] +
      [Section(content(c, s), leftover(c, s))]
  {
    var span := SubchaptersSpan(chapters, c, s, content, leftover);
    var h := SubchapterHeading(chapters[c].subchapters[s].subchapterTitle);
    var x := Section(content(c, s), leftover(c, s));
    assert [h, x] == [h] + [x];
    Assoc(span, [h], [x]);
    Assoc(before, span, [h, x]);
    Assoc(before + span, [h], [x]);
  }

  /** One more chapter: its entries follow those of the earlier ones. */
  lemma ChaptersSpanStep(head: seq<Entry>, chapters: seq<Chapter>, c: nat,
                         content: (nat, nat) -> string, leftover: (nat, nat) -> seq<Element>)
    requires c < |chapters|
    ensures head + ChaptersSpan(chapters, c + 1, content, leftover) ==
      head + ChaptersSpan(chapters, c, content, leftover) + ChapterSpan(chapters, c, content, leftover)
  {
    Assoc(head, ChaptersSpan(chapters, c, content, leftover), ChapterSpan(chapters, c, content, leftover));
  }

  /** Subchapter `s` of chapter `c`: its `Heading2` paragraph and `### ` line, then the retry
      loop as written: what every attempt appended up to the first one that gets through, and
      that attempt's stripped text.
      `before` is everything the traversal appended before the chapter's first subchapter. */
  method AddSubchapter(chapters: seq<Chapter>, c: nat, s: nat, gen: (nat, nat) -> seq<Attempt>,
                       renders: string -> bool, ghost before: seq<Entry>,
                       elementsBefore: seq<Element>, textBefore: string)
    returns (elements: seq<Element>, text: string)
    requires c < |chapters| && s < |chapters[c].subchapters|
    requires EventuallyAccepted(gen(c, s), renders)
    requires elementsBefore == RenderAll(before + SubchaptersSpan(chapters, c, s, Contents(gen, renders), Leftovers(gen, renders)))
    requires textBefore == ExportAll(before + SubchaptersSpan(chapters, c, s, Contents(gen, renders), Leftovers(gen, renders)))
    ensures elements == RenderAll(before + SubchaptersSpan(chapters, c, s + 1, Contents(gen, renders), Leftovers(gen, renders)))
    ensures text == ExportAll(before + SubchaptersSpan(chapters, c, s + 1, Contents(gen, renders), Leftovers(gen, renders)))
  {
    ghost var entries := before + SubchaptersSpan(chapters, c, s, Contents(gen, renders), Leftovers(gen, renders));
    var subchapterTitle := chapters[c].subchapters[s].subchapterTitle;
    var headingLine := "### " + subchapterTitle + PARAGRAPH_BREAK;
    elements := elementsBefore + [Paragraph(subchapterTitle, Heading2)];
    text := textBefore + headingLine;
    AllSnoc(entries, SubchapterHeading(subchapterTitle));
    ghost var withHeading := entries + [SubchapterHeading(subchapterTitle)];

    var retries, appended, exported := ExpandAsWritten(gen(c, s), renders);
    elements := elements + appended;
    text := text + exported;
    ghost var section := Section(Contents(gen, renders)(c, s), Leftovers(gen, renders)(c, s));
    assert appended == Render(section) && exported == Export(section) by {
      SettledSection(gen(c, s), renders, retries);
    }
    assert elements == RenderAll(withHeading + [section]) && text == ExportAll(withHeading + [section]) by {
      AllSnoc(withHeading, section);
    }
    assert before + SubchaptersSpan(chapters, c, s + 1, Contents(gen, renders), Leftovers(gen, renders)) ==
      withHeading + [section] by {
      SubchaptersSpanStep(before, chapters, c, s, Contents(gen, renders), Leftovers(gen, renders));
    }
  }

  /** The loop over the subchapters of chapter `c`, in order. */
  method AddSubchapters(chapters: seq<Chapter>, c: nat, gen: (nat, nat) -> seq<Attempt>, renders: string -> bool,
                        ghost before: seq<Entry>, elementsBefore: seq<Element>, textBefore: string)
    returns (elements: seq<Element>, text: string)
    requires c < |chapters|
    requires forall s :: 0 <= s < |chapters[c].subchapters| ==> EventuallyAccepted(gen(c, s), renders)
    requires elementsBefore == RenderAll(before) && textBefore == ExportAll(before)
    ensures elements == RenderAll(before + SubchaptersSpan(chapters, c, |chapters[c].subchapters|, Contents(gen, renders), Leftovers(gen, renders)))
    ensures text == ExportAll(before + SubchaptersSpan(chapters, c, |chapters[c].subchapters|, Contents(gen, renders), Leftovers(gen, renders)))
  {
    elements, text := elementsBefore, textBefore;
    assert before + SubchaptersSpan(chapters, c, 0, Contents(gen, renders), Leftovers(gen, renders)) == before;
    var s := 0;
    while s < |chapters[c].subchapters|
      invariant s <= |chapters[c].subchapters|
      invariant elements == RenderAll(before + SubchaptersSpan(chapters, c, s, Contents(gen, renders), Leftovers(gen, renders)))
      invariant text == ExportAll(before + SubchaptersSpan(chapters, c, s, Contents(gen, renders), Leftovers(gen, renders)))
    {
      elements, text := AddSubchapter(chapters, c, s, gen, renders, before, elements, text);
      s := s + 1;
    }
  }

  /** Chapter `c` of the traversal: its `Heading1` paragraph and `## Chapter N: ` line,
      then each of its subchapters in order. */
  method AddChapter(chapters: seq<Chapter>, c: nat, gen: (nat, nat) -> seq<Attempt>, renders: string -> bool,
                    ghost entries: seq<Entry>, elementsBefore: seq<Element>, textBefore: string)
    returns (elements: seq<Element>, text: string)
    requires c < |chapters|
    requires forall s :: 0 <= s < |chapters[c].subchapters| ==> EventuallyAccepted(gen(c, s), renders)
    requires elementsBefore == RenderAll(entries) && textBefore == ExportAll(entries)
    ensures elements == RenderAll(entries + ChapterSpan(chapters, c, Contents(gen, renders), Leftovers(gen, renders)))
    ensures text == ExportAll(entries + ChapterSpan(chapters, c, Contents(gen, renders), Leftovers(gen, renders)))
  {
    var chapter := chapters[c];
    var heading := ChapterLabel(c + 1, chapter.chapterTitle);
    var headingLine := "## " + heading + PARAGRAPH_BREAK;
    text := textBefore + headingLine;
    elements := elementsBefore + [Paragraph(heading, Heading1)];
    AllSnoc(entries, ChapterHeading(c + 1, chapter.chapterTitle));
    ghost var before := entries + [ChapterHeading(c + 1, chapter.chapterTitle)];
    elements, text := AddSubchapters(chapters, c, gen, renders, before, elements, text);
    Assoc(entries, [ChapterHeading(c + 1, chapter.chapterTitle)],
          SubchaptersSpan(chapters, c, |chapter.subchapters|, Contents(gen, renders), Leftovers(gen, renders)));
  }

  /** The two accumulators of the whole traversal: the title paragraph and `# ` line, then
      every chapter in outline order. */
  method AssembleBook(title: string, chapters: seq<Chapter>, gen: (nat, nat) -> seq<Attempt>,
                      renders: string -> bool)
    returns (elements: seq<Element>, text: string)
    requires Generates(chapters, gen, renders)
    ensures elements == RenderAll(BookEntries(title, chapters, gen, renders))
    ensures text == ExportAll(BookEntries(title, chapters, gen, renders))
  {
    elements := [Paragraph(title, Title)];
    text := "# " + title + PARAGRAPH_BREAK;
    AllSnoc([], BookTitle(title));

    var c := 0;
    while c < |chapters|
      invariant c <= |chapters|
      invariant elements == RenderAll([BookTitle(title)] + ChaptersSpan(chapters, c, Contents(gen, renders), Leftovers(gen, renders)))
      invariant text == ExportAll([BookTitle(title)] + ChaptersSpan(chapters, c, Contents(gen, renders), Leftovers(gen, renders)))
    {
      elements, text := AddChapter(chapters, c, gen, renders,
                                   [BookTitle(title)] + ChaptersSpan(chapters, c, Contents(gen, renders), Leftovers(gen, renders)), elements, text);
      ChaptersSpanStep([BookTitle(title)], chapters, c, Contents(gen, renders), Leftovers(gen, renders));
      c := c + 1;
    }
  }

  /** The assembly pass: the title the outline settles on, the document's name, the two
      accumulators, and the text file's name, for which the clock is read a second time. */
  method BuildBook(outline: BookOutline, configured: string, gen: (nat, nat) -> seq<Attempt>,
                   renders: string -> bool, pdfTime: DateTime, txtTime: DateTime)
    returns (title: string, pdfName: string, elements: seq<Element>, text: string, txtName: string)
    requires ValidDateTime(pdfTime) && ValidDateTime(txtTime)
    requires Generates(outline.chapters, gen, renders)
    ensures title == ResolveTitle(outline, configured)
    ensures pdfName == DynamicFilename(title, pdfTime) + ".pdf"
    ensures txtName == DynamicFilename(title, txtTime) + ".txt"
    ensures elements == RenderAll(BookEntries(title, outline.chapters, gen, renders))
    ensures text == ExportAll(BookEntries(title, outline.chapters, gen, renders))
  {
    title := ResolveTitle(outline, configured);
    pdfName := DynamicFilename(title, pdfTime) + ".pdf";
    elements, text := AssembleBook(title, outline.chapters, gen, renders);
    txtName := DynamicFilename(title, txtTime) + ".txt";
  }
}
