/**
  A whole run on a small outline: one chapter "Origins" with the subchapters "Early Work"
  and "Key Breakthrough", a service that answers every content request at once with
  "Para A.\n\nPara B.", and a rendering library that accepts every paragraph. The plain
  text and the element list are worked out in full.
 */
module Scenario {
  import opened PyStr
  import opened Outline
  import opened Document
  import opened Expansion
  import opened Assembly

  const CONTENT := "Para A.\n\nPara B."

  function Chapters(): seq<Chapter> {
    [Chapter("Origins", [Subchapter("Early Work"), Subchapter("Key Breakthrough")])]
  }

  /** Every content request succeeds on its first attempt. */
  function Service(c: nat, s: nat): seq<Attempt> {
    [Returned(CONTENT)]
  }

  function AcceptAll(t: string): bool {
    true
  }

  /** The reply splits into its two paragraphs. */
  lemma ContentSegments()
    ensures Segments(CONTENT) == ["Para A.", "Para B."]
  {
    assert "Para A." + PARAGRAPH_BREAK + "Para B." == CONTENT;
    SegmentsOfTwo("Para A.", "Para B.");
  }

  /** The reply is accepted at once. */
  lemma ContentAccepted(c: nat, s: nat)
    ensures AcceptedText(Service(c, s), AcceptAll) == CONTENT
    ensures LeftBehind(Service(c, s), AcceptAll) == []
  {
    var a := Service(c, s);
    assert FirstRejected(Segments(CONTENT), AcceptAll).None?;
    assert Accepted(a[0], AcceptAll);
    FirstAcceptedAt(a, AcceptAll, 0);
  }

  /** `strip()` leaves the reply unchanged. */
  lemma ContentStrip()
    ensures Strip(CONTENT) == CONTENT
  {
    StripUnchanged(CONTENT);
  }

  /** The reply's section: a first paragraph, a spacer and a body paragraph. */
  lemma ContentElements()
    ensures SectionElements(Segments(CONTENT)) ==
      [Paragraph("Para A.", FirstParagraph), GAP, Paragraph("Para B.", BodyText)]
  {
    ContentSegments();
    TwoSegmentSection("Para A.", "Para B.");
  }

  lemma FirstSubchapter()
    ensures SubchaptersSpan(Chapters(), 0, 1, Contents(Service, AcceptAll), Leftovers(Service, AcceptAll)) ==
      [SubchapterHeading("Early Work"), Section(CONTENT, [])]
  {
    ContentAccepted(0, 0);
    assert SubchaptersSpan(Chapters(), 0, 0, Contents(Service, AcceptAll), Leftovers(Service, AcceptAll)) == [];
  }

  lemma BothSubchapters()
    ensures SubchaptersSpan(Chapters(), 0, 2, Contents(Service, AcceptAll), Leftovers(Service, AcceptAll)) ==
      [SubchapterHeading("Early Work"), Section(CONTENT, []), SubchapterHeading("Key Breakthrough"), Section(CONTENT, [])]
  {
    assert [SubchapterHeading("Early Work"), Section(CONTENT, [])] +
      [SubchapterHeading("Key Breakthrough"), Section(CONTENT, [])] ==
      [SubchapterHeading("Early Work"), Section(CONTENT, []), SubchapterHeading("Key Breakthrough"), Section(CONTENT, [])];
    FirstSubchapter();
    ContentAccepted(0, 1);
  }

  /** The entries of the run, in order. */
  lemma ScenarioEntries(title: string)
    ensures BookEntries(title, Chapters(), Service, AcceptAll) ==
      [BookTitle(title), ChapterHeading(1, "Origins"),
       SubchapterHeading("Early Work"), Section(CONTENT, []),
       SubchapterHeading("Key Breakthrough"), Section(CONTENT, [])]
  {
    var subs := [SubchapterHeading("Early Work"), Section(CONTENT, []),
                 SubchapterHeading("Key Breakthrough"), Section(CONTENT, [])];
    assert [BookTitle(title)] + ([] + ([ChapterHeading(1, "Origins")] + subs)) ==
      [BookTitle(title), ChapterHeading(1, "Origins"),
       SubchapterHeading("Early Work"), Section(CONTENT, []),
       SubchapterHeading("Key Breakthrough"), Section(CONTENT, [])];
    BothSubchapters();
    assert ChapterSpan(Chapters(), 0, Contents(Service, AcceptAll), Leftovers(Service, AcceptAll)) == [ChapterHeading(1, "Origins")] + subs;
    assert ChaptersSpan(Chapters(), 1, Contents(Service, AcceptAll), Leftovers(Service, AcceptAll)) == [] + ChapterSpan(Chapters(), 0, Contents(Service, AcceptAll), Leftovers(Service, AcceptAll));
  }

  lemma AllOne(x: Entry)
    ensures ExportAll([x]) == Export(x) && RenderAll([x]) == Render(x)
  {
    AllSnoc([], x);
    assert [] + [x] == [x];
  }

  lemma AllCons(x: Entry, rest: seq<Entry>)
    ensures ExportAll([x] + rest) == Export(x) + ExportAll(rest)
    ensures RenderAll([x] + rest) == Render(x) + RenderAll(rest)
  {
    AllOne(x);
    ExportAppend([x], rest);
    RenderAppend([x], rest);
  }

  lemma Regroup<T>(a: seq<T>, b: seq<T>, c: seq<T>, d: seq<T>, e: seq<T>, f: seq<T>)
    ensures a + (b + (c + (d + (e + f)))) == a + b + c + d + e + f
  {
    Assoc(a + b + c + d, e, f);
    Assoc(a + b + c, d, e + f);
    Assoc(a + b, c, d + (e + f));
    Assoc(a, b, c + (d + (e + f)));
  }

  lemma Conses<T>(x0: T, x1: T, x2: T, x3: T, x4: T, x5: T)
    ensures [x4] + [x5] == [x4, x5]
    ensures [x3] + [x4, x5] == [x3, x4, x5]
    ensures [x2] + [x3, x4, x5] == [x2, x3, x4, x5]
    ensures [x1] + [x2, x3, x4, x5] == [x1, x2, x3, x4, x5]
    ensures [x0] + [x1, x2, x3, x4, x5] == [x0, x1, x2, x3, x4, x5]
  {
  }

  /** The exported and rendered entries of a six-entry list, entry by entry. */
  lemma AllSix(x0: Entry, x1: Entry, x2: Entry, x3: Entry, x4: Entry, x5: Entry)
    ensures ExportAll([x0, x1, x2, x3, x4, x5]) ==
      Export(x0) + Export(x1) + Export(x2) + Export(x3) + Export(x4) + Export(x5)
    ensures RenderAll([x0, x1, x2, x3, x4, x5]) ==
      Render(x0) + Render(x1) + Render(x2) + Render(x3) + Render(x4) + Render(x5)
  {
    Regroup(Export(x0), Export(x1), Export(x2), Export(x3), Export(x4), Export(x5));
    Regroup(Render(x0), Render(x1), Render(x2), Render(x3), Render(x4), Render(x5));
    Conses(x0, x1, x2, x3, x4, x5);
    AllOne(x5);
    AllCons(x4, [x5]);
    AllCons(x3, [x4, x5]);
    AllCons(x2, [x3, x4, x5]);
    AllCons(x1, [x2, x3, x4, x5]);
    AllCons(x0, [x1, x2, x3, x4, x5]);
  }

  lemma ChapterOneLabel()
    ensures ChapterLabel(1, "Origins") == "Chapter 1: Origins"
  {
    assert NatToString(1) == "1";
  }

  /** The plain-text lines of the run's entries. */
  lemma ChapterLine()
    ensures Export(ChapterHeading(1, "Origins")) == "## Chapter 1: Origins\n\n"
  {
    ChapterOneLabel();
    assert "## " + "Chapter 1: Origins" + "\n\n" == "## Chapter 1: Origins\n\n";
  }

  lemma EarlyWorkLine()
    ensures Export(SubchapterHeading("Early Work")) == "### Early Work\n\n"
  {
    assert "### " + "Early Work" + "\n\n" == "### Early Work\n\n";
  }

  lemma KeyBreakthroughLine()
    ensures Export(SubchapterHeading("Key Breakthrough")) == "### Key Breakthrough\n\n"
  {
    assert "### " + "Key Breakthrough" + "\n\n" == "### Key Breakthrough\n\n";
  }

  lemma SectionLine()
    ensures Export(Section(CONTENT, [])) == "Para A.\n\nPara B.\n\n"
  {
    ContentStrip();
  }

  /** The elements of the run's entries. */
  lemma ChapterParagraph()
    ensures Render(ChapterHeading(1, "Origins")) == [Paragraph("Chapter 1: Origins", Heading1)]
  {
    ChapterOneLabel();
  }

  lemma SectionParagraphs()
    ensures Render(Section(CONTENT, [])) ==
      [Paragraph("Para A.", FirstParagraph), GAP, Paragraph("Para B.", BodyText)]
  {
    ContentElements();
  }

  /** The plain text of the run: the book title, the numbered chapter heading, and each
      subchapter heading followed by both paragraphs, in this order. */
  lemma ScenarioText(title: string)
    ensures ExportAll(BookEntries(title, Chapters(), Service, AcceptAll)) ==
      "# " + title + "\n\n" +
      "## Chapter 1: Origins\n\n" +
      "### Early Work\n\n" + "Para A.\n\nPara B.\n\n" +
      "### Key Breakthrough\n\n" + "Para A.\n\nPara B.\n\n"
  {
    ScenarioEntries(title);
    AllSix(BookTitle(title), ChapterHeading(1, "Origins"),
           SubchapterHeading("Early Work"), Section(CONTENT, []),
           SubchapterHeading("Key Breakthrough"), Section(CONTENT, []));
    ChapterLine();
    EarlyWorkLine();
    KeyBreakthroughLine();
    SectionLine();
  }

  lemma Flatten<T>(a: T, b: T, c: T, d: T, e: T, f: T, g: T, h: T, i: T, j: T)
    ensures [a] + [b] + [c] + [d, e, f] + [g] + [h, i, j] == [a, b, c, d, e, f, g, h, i, j]
  {
  }

  /** The element list of the run. */
  lemma ScenarioElements(title: string)
    ensures RenderAll(BookEntries(title, Chapters(), Service, AcceptAll)) ==
      [Paragraph(title, Title), Paragraph("Chapter 1: Origins", Heading1),
       Paragraph("Early Work", Heading2),
       Paragraph("Para A.", FirstParagraph), GAP, Paragraph("Para B.", BodyText),
       Paragraph("Key Breakthrough", Heading2),
       Paragraph("Para A.", FirstParagraph), GAP, Paragraph("Para B.", BodyText)]
  {
    ScenarioEntries(title);
    AllSix(BookTitle(title), ChapterHeading(1, "Origins"),
           SubchapterHeading("Early Work"), Section(CONTENT, []),
           SubchapterHeading("Key Breakthrough"), Section(CONTENT, []));
    ChapterParagraph();
    SectionParagraphs();
    Flatten(Paragraph(title, Title), Paragraph("Chapter 1: Origins", Heading1),
            Paragraph("Early Work", Heading2),
            Paragraph("Para A.", FirstParagraph), GAP, Paragraph("Para B.", BodyText),
            Paragraph("Key Breakthrough", Heading2),
            Paragraph("Para A.", FirstParagraph), GAP, Paragraph("Para B.", BodyText));
  }
}
