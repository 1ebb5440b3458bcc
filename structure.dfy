/**
  What the traversal of the book assembly pass produces, stated about its sequence of
  entries and hence about both accumulators at once: the title comes first and only once,
  the chapters are numbered 1..N in outline order, the subchapter headings are the
  outline's subchapters in reading order, every subchapter heading is directly followed by
  its section. Removing what failed attempts left behind changes none of this and not the text
  export; the element list then holds one `Title`, N `Heading1`, one `Heading2` and one
  `FirstParagraph` per subchapter, and so does the source's when no reply is rejected
  part-way.
 */
module Structure {
  import opened Wrappers
  import opened PyStr
  import opened Outline
  import opened Document
  import opened Expansion
  import opened Assembly

  // ---------------------------------------------------------------------------------------
  // Views of a sequence of entries
  // ---------------------------------------------------------------------------------------

  /** The book titles among `entries`, in order. */
  function BookTitles(entries: seq<Entry>): seq<string> {
    if entries == [] then []
    else
      var last := entries[|entries| - 1];
      BookTitles(entries[..|entries| - 1]) + (if last.BookTitle? then [last.title] else [])
  }

  /** The chapter headings among `entries`, in order. */
  function ChapterHeadings(entries: seq<Entry>): seq<Entry> {
    if entries == [] then []
    else
      var last := entries[|entries| - 1];
      ChapterHeadings(entries[..|entries| - 1]) + (if last.ChapterHeading? then [last] else [])
  }

  /** The titles of the subchapter headings among `entries`, in order. */
  function SubchapterHeadingTitles(entries: seq<Entry>): seq<string> {
    if entries == [] then []
    else
      var last := entries[|entries| - 1];
      SubchapterHeadingTitles(entries[..|entries| - 1]) + (if last.SubchapterHeading? then [last.title] else [])
  }

  /** The contents of the sections among `entries`, in order. */
  function SectionContents(entries: seq<Entry>): seq<string> {
    if entries == [] then []
    else
      var last := entries[|entries| - 1];
      SectionContents(entries[..|entries| - 1]) + (if last.Section? then [last.content] else [])
  }

  /** No entry is the book title. */
  predicate NoBookTitle(entries: seq<Entry>) {
    forall i :: 0 <= i < |entries| ==> !entries[i].BookTitle?
  }

  /** A subchapter heading is exactly an entry followed by a section. */
  predicate Paired(entries: seq<Entry>) {
    forall i :: 0 <= i < |entries| ==>
      (entries[i].SubchapterHeading? <==> (i + 1 < |entries| && entries[i + 1].Section?))
  }

  /** The views of a single entry. */
  lemma ViewsOne(e: Entry)
    ensures BookTitles([e]) == (if e.BookTitle? then [e.title] else [])
    ensures ChapterHeadings([e]) == (if e.ChapterHeading? then [e] else [])
    ensures SubchapterHeadingTitles([e]) == (if e.SubchapterHeading? then [e.title] else [])
    ensures SectionContents([e]) == (if e.Section? then [e.content] else [])
  {
    assert [e][..0] == [];
  }

  lemma {:induction false} BookTitlesAppend(a: seq<Entry>, b: seq<Entry>)
    ensures BookTitles(a + b) == BookTitles(a) + BookTitles(b)
    decreases |b|
  {
    if b == [] {
      assert a + b == a;
    } else {
      BookTitlesAppend(a, b[..|b| - 1]);
      assert (a + b)[..|a + b| - 1] == a + b[..|b| - 1];
    }
  }

  lemma {:induction false} ChapterHeadingsAppend(a: seq<Entry>, b: seq<Entry>)
    ensures ChapterHeadings(a + b) == ChapterHeadings(a) + ChapterHeadings(b)
    decreases |b|
  {
    if b == [] {
      assert a + b == a;
    } else {
      ChapterHeadingsAppend(a, b[..|b| - 1]);
      assert (a + b)[..|a + b| - 1] == a + b[..|b| - 1];
    }
  }

  lemma {:induction false} SubchapterHeadingTitlesAppend(a: seq<Entry>, b: seq<Entry>)
    ensures SubchapterHeadingTitles(a + b) == SubchapterHeadingTitles(a) + SubchapterHeadingTitles(b)
    decreases |b|
  {
    if b == [] {
      assert a + b == a;
    } else {
      SubchapterHeadingTitlesAppend(a, b[..|b| - 1]);
      assert (a + b)[..|a + b| - 1] == a + b[..|b| - 1];
    }
  }

  lemma {:induction false} SectionContentsAppend(a: seq<Entry>, b: seq<Entry>)
    ensures SectionContents(a + b) == SectionContents(a) + SectionContents(b)
    decreases |b|
  {
    if b == [] {
      assert a + b == a;
    } else {
      SectionContentsAppend(a, b[..|b| - 1]);
      assert (a + b)[..|a + b| - 1] == a + b[..|b| - 1];
    }
  }

  /** The four views distribute over a concatenation. */
  lemma ViewsAppend(a: seq<Entry>, b: seq<Entry>)
    ensures BookTitles(a + b) == BookTitles(a) + BookTitles(b)
    ensures ChapterHeadings(a + b) == ChapterHeadings(a) + ChapterHeadings(b)
    ensures SubchapterHeadingTitles(a + b) == SubchapterHeadingTitles(a) + SubchapterHeadingTitles(b)
    ensures SectionContents(a + b) == SectionContents(a) + SectionContents(b)
  {
    BookTitlesAppend(a, b);
    ChapterHeadingsAppend(a, b);
    SubchapterHeadingTitlesAppend(a, b);
    SectionContentsAppend(a, b);
  }

  lemma NoBookTitleAppend(a: seq<Entry>, b: seq<Entry>)
    requires NoBookTitle(a) && NoBookTitle(b)
    ensures NoBookTitle(a + b)
  {
    forall i | 0 <= i < |a + b| ensures !(a + b)[i].BookTitle? {
      if i >= |a| {
        assert (a + b)[i] == b[i - |a|];
      }
    }
  }

  /** Two paired runs stay paired when the second does not start with a section. */
  lemma PairedAppend(a: seq<Entry>, b: seq<Entry>)
    requires Paired(a) && Paired(b)
    requires b == [] || !b[0].Section?
    ensures Paired(a + b)
  {
    var e := a + b;
    forall i | 0 <= i < |e|
      ensures e[i].SubchapterHeading? <==> (i + 1 < |e| && e[i + 1].Section?)
    {
      if i < |a| {
        assert e[i] == a[i];
        assert a[i].SubchapterHeading? <==> (i + 1 < |a| && a[i + 1].Section?);
        if i + 1 < |a| {
          assert e[i + 1] == a[i + 1];
        } else if i + 1 < |e| {
          assert e[i + 1] == b[0];
        }
      } else {
        var j := i - |a|;
        assert e[i] == b[j];
        assert b[j].SubchapterHeading? <==> (j + 1 < |b| && b[j + 1].Section?);
        if i + 1 < |e| {
          assert e[i + 1] == b[j + 1];
        }
      }
    }
  }

  // ---------------------------------------------------------------------------------------
  // Reference definitions
  // ---------------------------------------------------------------------------------------

  /** The accepted texts of the first `m` subchapters of chapter `c`, in order. */
  function ChapterTexts(chapters: seq<Chapter>, c: nat, m: nat, content: (nat, nat) -> string): (texts: seq<string>)
    requires c < |chapters| && m <= |chapters[c].subchapters|
    ensures |texts| == m
  {
    if m == 0 then [] else ChapterTexts(chapters, c, m - 1, content) + [content(c, m - 1)]
  }

  /** The accepted texts of every subchapter of the first `n` chapters, in reading order. */
  function AcceptedTexts(chapters: seq<Chapter>, n: nat, content: (nat, nat) -> string): (texts: seq<string>)
    requires n <= |chapters|
    ensures |texts| == SubchapterCount(chapters, n)
  {
    if n == 0 then []
    else AcceptedTexts(chapters, n - 1, content) +
         ChapterTexts(chapters, n - 1, |chapters[n - 1].subchapters|, content)
  }

  /** The chapter headings the outline calls for: chapter `i` numbered `i + 1`. */
  function NumberedHeadings(chapters: seq<Chapter>, n: nat): (headings: seq<Entry>)
    requires n <= |chapters|
    ensures |headings| == n
  {
    seq(n, i requires 0 <= i < n => ChapterHeading(i + 1, chapters[i].chapterTitle))
  }

  lemma NumberedHeadingsStep(chapters: seq<Chapter>, n: nat)
    requires n < |chapters|
    ensures NumberedHeadings(chapters, n + 1) ==
      NumberedHeadings(chapters, n) + [ChapterHeading(n + 1, chapters[n].chapterTitle)]
  {
  }

  lemma TitlesStep(chapter: Chapter, m: nat)
    requires 0 < m <= |chapter.subchapters|
    ensures chapter.Titles()[..m] == chapter.Titles()[..m - 1] + [chapter.subchapters[m - 1].subchapterTitle]
  {
  }

  // ---------------------------------------------------------------------------------------
  // The views of the traversal
  // ---------------------------------------------------------------------------------------

  /** The views of a subchapter's heading and section. */
  lemma PairViews(t: string, content: string, leftover: seq<Element>)
    ensures var pair := [SubchapterHeading(t), Section(content, leftover)];
      BookTitles(pair) == [] && ChapterHeadings(pair) == [] && SubchapterHeadingTitles(pair) == [t] &&
      SectionContents(pair) == [content]
  {
    var pair := [SubchapterHeading(t), Section(content, leftover)];
    ViewsOne(SubchapterHeading(t));
    assert pair[..1] == [SubchapterHeading(t)];
  }

  /** The shape of a subchapter's heading and section. */
  lemma PairShape(t: string, content: string, leftover: seq<Element>)
    ensures var pair := [SubchapterHeading(t), Section(content, leftover)];
      NoBookTitle(pair) && Paired(pair)
  {
  }

  lemma {:induction false} SubchaptersSpanViews(chapters: seq<Chapter>, c: nat, m: nat,
                                                content: (nat, nat) -> string, leftover: (nat, nat) -> seq<Element>)
    requires c < |chapters| && m <= |chapters[c].subchapters|
    ensures var span := SubchaptersSpan(chapters, c, m, content, leftover);
      BookTitles(span) == [] && ChapterHeadings(span) == [] &&
      SubchapterHeadingTitles(span) == chapters[c].Titles()[..m] &&
      SectionContents(span) == ChapterTexts(chapters, c, m, content)
  {
    if m > 0 {
      SubchaptersSpanViews(chapters, c, m - 1, content, leftover);
      var init := SubchaptersSpan(chapters, c, m - 1, content, leftover);
      var t := chapters[c].subchapters[m - 1].subchapterTitle;
      PairViews(t, content(c, m - 1), leftover(c, m - 1));
      ViewsAppend(init, [SubchapterHeading(t), Section(content(c, m - 1), leftover(c, m - 1))]);
      TitlesStep(chapters[c], m);
    }
  }

  lemma {:induction false} SubchaptersSpanShape(chapters: seq<Chapter>, c: nat, m: nat,
                                                content: (nat, nat) -> string, leftover: (nat, nat) -> seq<Element>)
    requires c < |chapters| && m <= |chapters[c].subchapters|
    ensures var span := SubchaptersSpan(chapters, c, m, content, leftover);
      NoBookTitle(span) && Paired(span) && (span == [] || span[0].SubchapterHeading?)
  {
    if m > 0 {
      var init := SubchaptersSpan(chapters, c, m - 1, content, leftover);
      var pair := [SubchapterHeading(chapters[c].subchapters[m - 1].subchapterTitle),
                   Section(content(c, m - 1), leftover(c, m - 1))];
      assert NoBookTitle(init) && Paired(init) && (init == [] || init[0].SubchapterHeading?) by {
        SubchaptersSpanShape(chapters, c, m - 1, content, leftover);
      }
      assert NoBookTitle(pair) && Paired(pair) by { PairShape(pair[0].title, pair[1].content, pair[1].leftover); }
      assert NoBookTitle(init + pair) by { NoBookTitleAppend(init, pair); }
      assert Paired(init + pair) by { PairedAppend(init, pair); }
      assert (init + pair)[0] == if init == [] then pair[0] else init[0];
    }
  }

  /** The views of one chapter's entries. */
  lemma ChapterSpanViews(chapters: seq<Chapter>, c: nat, content: (nat, nat) -> string,
                         leftover: (nat, nat) -> seq<Element>)
    requires c < |chapters|
    ensures var span := ChapterSpan(chapters, c, content, leftover);
      BookTitles(span) == [] && ChapterHeadings(span) == [ChapterHeading(c + 1, chapters[c].chapterTitle)] &&
      SubchapterHeadingTitles(span) == chapters[c].Titles() &&
      SectionContents(span) == ChapterTexts(chapters, c, |chapters[c].subchapters|, content)
  {
    var m := |chapters[c].subchapters|;
    var head := [ChapterHeading(c + 1, chapters[c].chapterTitle)];
    var subs := SubchaptersSpan(chapters, c, m, content, leftover);
    SubchaptersSpanViews(chapters, c, m, content, leftover);
    ViewsOne(head[0]);
    ViewsAppend(head, subs);
    assert chapters[c].Titles()[..m] == chapters[c].Titles();
  }

  /** The shape of one chapter's entries. */
  lemma ChapterSpanShape(chapters: seq<Chapter>, c: nat, content: (nat, nat) -> string,
                         leftover: (nat, nat) -> seq<Element>)
    requires c < |chapters|
    ensures var span := ChapterSpan(chapters, c, content, leftover);
      NoBookTitle(span) && Paired(span) && span[0].ChapterHeading?
  {
    var m := |chapters[c].subchapters|;
    var head := [ChapterHeading(c + 1, chapters[c].chapterTitle)];
    var subs := SubchaptersSpan(chapters, c, m, content, leftover);
    SubchaptersSpanShape(chapters, c, m, content, leftover);
    assert Paired(head) && NoBookTitle(head);
    NoBookTitleAppend(head, subs);
    PairedAppend(head, subs);
    assert (head + subs)[0] == head[0];
  }

  lemma {:induction false} ChaptersSpanViews(chapters: seq<Chapter>, n: nat,
                                             content: (nat, nat) -> string, leftover: (nat, nat) -> seq<Element>)
    requires n <= |chapters|
    ensures var span := ChaptersSpan(chapters, n, content, leftover);
      BookTitles(span) == [] && ChapterHeadings(span) == NumberedHeadings(chapters, n) &&
      SubchapterHeadingTitles(span) == SubchapterTitles(chapters, n) &&
      SectionContents(span) == AcceptedTexts(chapters, n, content)
  {
    if n > 0 {
      ChaptersSpanViews(chapters, n - 1, content, leftover);
      ChapterSpanViews(chapters, n - 1, content, leftover);
      ViewsAppend(ChaptersSpan(chapters, n - 1, content, leftover), ChapterSpan(chapters, n - 1, content, leftover));
      NumberedHeadingsStep(chapters, n - 1);
    }
  }

  lemma {:induction false} ChaptersSpanShape(chapters: seq<Chapter>, n: nat,
                                             content: (nat, nat) -> string, leftover: (nat, nat) -> seq<Element>)
    requires n <= |chapters|
    ensures var span := ChaptersSpan(chapters, n, content, leftover);
      NoBookTitle(span) && Paired(span) && (span == [] || span[0].ChapterHeading?)
  {
    if n > 0 {
      ChaptersSpanShape(chapters, n - 1, content, leftover);
      ChapterSpanShape(chapters, n - 1, content, leftover);
      ChaptersShapeAppend(ChaptersSpan(chapters, n - 1, content, leftover), ChapterSpan(chapters, n - 1, content, leftover));
    }
  }

  /** A chapter's entries after the entries of the earlier chapters. */
  lemma ChaptersShapeAppend(prev: seq<Entry>, chapter: seq<Entry>)
    requires NoBookTitle(prev) && Paired(prev) && (prev == [] || prev[0].ChapterHeading?)
    requires NoBookTitle(chapter) && Paired(chapter) && chapter != [] && chapter[0].ChapterHeading?
    ensures var span := prev + chapter;
      NoBookTitle(span) && Paired(span) && span[0].ChapterHeading?
  {
    NoBookTitleAppend(prev, chapter);
    PairedAppend(prev, chapter);
    assert (prev + chapter)[0] == if prev == [] then chapter[0] else prev[0];
  }

  // ---------------------------------------------------------------------------------------
  // The properties of the whole traversal
  // ---------------------------------------------------------------------------------------

  /** The title entry comes first and nowhere else; every subchapter heading is directly
      followed by a section and every section directly follows a subchapter heading. */
  lemma BookShape(title: string, chapters: seq<Chapter>, gen: (nat, nat) -> seq<Attempt>,
                  renders: string -> bool)
    ensures var e := BookEntries(title, chapters, gen, renders);
      e[0] == BookTitle(title) && (forall i :: 1 <= i < |e| ==> !e[i].BookTitle?) &&
      (forall i :: 0 <= i < |e| ==> (e[i].SubchapterHeading? <==> (i + 1 < |e| && e[i + 1].Section?))) &&
      (forall i :: 0 <= i < |e| && e[i].Section? ==> 1 <= i && e[i - 1].SubchapterHeading?)
  {
    var span := ChaptersSpan(chapters, |chapters|, Contents(gen, renders), Leftovers(gen, renders));
    var head := [BookTitle(title)];
    var e := BookEntries(title, chapters, gen, renders);
    ChaptersSpanShape(chapters, |chapters|, Contents(gen, renders), Leftovers(gen, renders));
    assert Paired(head);
    PairedAppend(head, span);
    assert e[0] == BookTitle(title);
    forall i | 1 <= i < |e| ensures !e[i].BookTitle? {
      assert e[i] == span[i - 1];
    }
  }

  /** The one book title is the resolved title; the chapter headings are the outline's
      chapters numbered from 1 in outline order; the
      subchapter headings are the outline's subchapters in reading order, one per
      subchapter; the sections are the accepted texts in the same order. */
  lemma BookOrder(title: string, chapters: seq<Chapter>, gen: (nat, nat) -> seq<Attempt>,
                  renders: string -> bool)
    ensures var e := BookEntries(title, chapters, gen, renders);
      BookTitles(e) == [title] && ChapterHeadings(e) == NumberedHeadings(chapters, |chapters|) &&
      SubchapterHeadingTitles(e) == SubchapterTitles(chapters, |chapters|) &&
      |SubchapterHeadingTitles(e)| == TotalSubchapters(BookOutline(None, chapters)) &&
      SectionContents(e) == AcceptedTexts(chapters, |chapters|, Contents(gen, renders))
  {
    var span := ChaptersSpan(chapters, |chapters|, Contents(gen, renders), Leftovers(gen, renders));
    ChaptersSpanViews(chapters, |chapters|, Contents(gen, renders), Leftovers(gen, renders));
    ViewsOne(BookTitle(title));
    ViewsAppend([BookTitle(title)], span);
  }

  // ---------------------------------------------------------------------------------------
  // Leftovers of failed attempts
  // ---------------------------------------------------------------------------------------

  /** No section carries paragraphs left behind by a failed attempt. */
  predicate NoLeftovers(entries: seq<Entry>) {
    forall i :: 0 <= i < |entries| && entries[i].Section? ==> entries[i].leftover == []
  }

  /** An entry as it would be if sections were handed over only once the attempt succeeds. */
  function Intended(e: Entry): Entry {
    if e.Section? then Section(e.content, []) else e
  }

  /** The entries with every leftover removed. */
  function Corrected(entries: seq<Entry>): (corrected: seq<Entry>)
    ensures |corrected| == |entries|
  {
    seq(|entries|, i requires 0 <= i < |entries| => Intended(entries[i]))
  }

  /** Every failed attempt of every subchapter is a failed request, never a reply whose
      paragraphs were rejected part-way. */
  predicate NoPartialSections(chapters: seq<Chapter>, gen: (nat, nat) -> seq<Attempt>, renders: string -> bool) {
    forall c, s, k ::
      (0 <= c < |chapters| && 0 <= s < |chapters[c].subchapters| && 0 <= k < |gen(c, s)| &&
       !Accepted(gen(c, s)[k], renders)) ==> gen(c, s)[k].CallFailed?
  }

  lemma NoLeftoversAppend(a: seq<Entry>, b: seq<Entry>)
    requires NoLeftovers(a) && NoLeftovers(b)
    ensures NoLeftovers(a + b)
  {
    var e := a + b;
    forall i | 0 <= i < |e| && e[i].Section? ensures e[i].leftover == [] {
      if i < |a| { assert e[i] == a[i]; } else { assert e[i] == b[i - |a|]; }
    }
  }

  /** Removing the leftovers changes neither the views nor the text export, and leaves none. */
  lemma {:induction false} CorrectedViews(entries: seq<Entry>)
    ensures var corrected := Corrected(entries);
      NoLeftovers(corrected) &&
      BookTitles(corrected) == BookTitles(entries) && ChapterHeadings(corrected) == ChapterHeadings(entries) &&
      SubchapterHeadingTitles(corrected) == SubchapterHeadingTitles(entries) &&
      SectionContents(corrected) == SectionContents(entries) &&
      ExportAll(corrected) == ExportAll(entries)
    decreases |entries|
  {
    if entries != [] {
      var n := |entries|;
      var init := entries[..n - 1];
      var last := entries[n - 1];
      var corrected := Corrected(entries);
      CorrectedViews(init);
      assert corrected == Corrected(init) + [Intended(last)] by { CorrectedSnoc(entries); }
      assert entries == init + [last] by { Snoc(entries); }
      ViewsStep(init, last, Corrected(init), Intended(last));
      assert NoLeftovers(corrected) by {
        assert NoLeftovers([Intended(last)]);
        NoLeftoversAppend(Corrected(init), [Intended(last)]);
      }
      assert ExportAll(corrected) == ExportAll(entries) by {
        AllSnoc(Corrected(init), Intended(last));
        AllSnoc(init, last);
      }
    }
  }

  lemma CorrectedSnoc(entries: seq<Entry>)
    requires entries != []
    ensures Corrected(entries) == Corrected(entries[..|entries| - 1]) + [Intended(entries[|entries| - 1])]
  {
  }

  /** Two entries with the same views, each appended to entries with the same views. */
  lemma ViewsStep(a: seq<Entry>, x: Entry, b: seq<Entry>, y: Entry)
    requires BookTitles(a) == BookTitles(b) && ChapterHeadings(a) == ChapterHeadings(b)
    requires SubchapterHeadingTitles(a) == SubchapterHeadingTitles(b) && SectionContents(a) == SectionContents(b)
    requires y == Intended(x)
    ensures BookTitles(a + [x]) == BookTitles(b + [y]) && ChapterHeadings(a + [x]) == ChapterHeadings(b + [y])
    ensures SubchapterHeadingTitles(a + [x]) == SubchapterHeadingTitles(b + [y])
    ensures SectionContents(a + [x]) == SectionContents(b + [y])
  {
    ViewsOne(x);
    ViewsOne(y);
    ViewsAppend(a, [x]);
    ViewsAppend(b, [y]);
  }

  /** Without leftovers, removing them changes nothing. */
  lemma CorrectedUnchanged(entries: seq<Entry>)
    requires NoLeftovers(entries)
    ensures Corrected(entries) == entries
  {
    var corrected := Corrected(entries);
    forall i | 0 <= i < |entries| ensures corrected[i] == entries[i] {
      if entries[i].Section? { assert entries[i].leftover == []; }
    }
  }

  /** Subchapters whose sections carry no leftovers. */
  lemma {:induction false} SubchaptersSpanClean(chapters: seq<Chapter>, c: nat, m: nat,
                                                content: (nat, nat) -> string, leftover: (nat, nat) -> seq<Element>)
    requires c < |chapters| && m <= |chapters[c].subchapters|
    requires forall s :: 0 <= s < m ==> leftover(c, s) == []
    ensures NoLeftovers(SubchaptersSpan(chapters, c, m, content, leftover))
  {
    if m > 0 {
      var pair := [SubchapterHeading(chapters[c].subchapters[m - 1].subchapterTitle),
                   Section(content(c, m - 1), leftover(c, m - 1))];
      assert NoLeftovers(pair);
      SubchaptersSpanClean(chapters, c, m - 1, content, leftover);
      NoLeftoversAppend(SubchaptersSpan(chapters, c, m - 1, content, leftover), pair);
    }
  }

  lemma {:induction false} ChaptersSpanClean(chapters: seq<Chapter>, n: nat,
                                             content: (nat, nat) -> string, leftover: (nat, nat) -> seq<Element>)
    requires n <= |chapters|
    requires forall c, s :: 0 <= c < n && 0 <= s < |chapters[c].subchapters| ==> leftover(c, s) == []
    ensures NoLeftovers(ChaptersSpan(chapters, n, content, leftover))
  {
    if n > 0 {
      var head := [ChapterHeading(n, chapters[n - 1].chapterTitle)];
      var subs := SubchaptersSpan(chapters, n - 1, |chapters[n - 1].subchapters|, content, leftover);
      SubchaptersSpanClean(chapters, n - 1, |chapters[n - 1].subchapters|, content, leftover);
      assert NoLeftovers(head);
      NoLeftoversAppend(head, subs);
      ChaptersSpanClean(chapters, n - 1, content, leftover);
      NoLeftoversAppend(ChaptersSpan(chapters, n - 1, content, leftover), ChapterSpan(chapters, n - 1, content, leftover));
    }
  }

  /** The source's retry loop lifted to the whole book: when no reply is rejected part-way,
      the element list is exactly the one of sections handed over only on success. */
  lemma BookWithoutRejections(title: string, chapters: seq<Chapter>, gen: (nat, nat) -> seq<Attempt>,
                              renders: string -> bool)
    requires Generates(chapters, gen, renders) && NoPartialSections(chapters, gen, renders)
    ensures var e := BookEntries(title, chapters, gen, renders);
      NoLeftovers(e) && Corrected(e) == e
  {
    var head := [BookTitle(title)];
    var leftover := Leftovers(gen, renders);
    forall c, s | 0 <= c < |chapters| && 0 <= s < |chapters[c].subchapters|
      ensures leftover(c, s) == []
    {
      var attempts := gen(c, s);
      assert EventuallyAccepted(attempts, renders);
      assert forall k :: 0 <= k < |attempts| && !Accepted(attempts[k], renders) ==> attempts[k].CallFailed?;
      AsWrittenWithoutRejections(attempts, renders);
    }
    ChaptersSpanClean(chapters, |chapters|, Contents(gen, renders), leftover);
    assert NoLeftovers(head);
    NoLeftoversAppend(head, ChaptersSpan(chapters, |chapters|, Contents(gen, renders), leftover));
    CorrectedUnchanged(BookEntries(title, chapters, gen, renders));
  }

  // ---------------------------------------------------------------------------------------
  // What the element list holds
  // ---------------------------------------------------------------------------------------

  /** What one entry without leftovers renders to: a paragraph in its heading style, or for
      a section one first paragraph and no heading. */
  lemma EntryCounts(e: Entry)
    requires e.Section? ==> e.leftover == []
    ensures CountStyle(Render(e), Title) == (if e.BookTitle? then 1 else 0)
    ensures CountStyle(Render(e), Heading1) == (if e.ChapterHeading? then 1 else 0)
    ensures CountStyle(Render(e), Heading2) == (if e.SubchapterHeading? then 1 else 0)
    ensures CountStyle(Render(e), FirstParagraph) == (if e.Section? then 1 else 0)
  {
    match e
    case BookTitle(t) => PairCounts(t, Title);
    case ChapterHeading(n, t) => PairCounts(ChapterLabel(n, t), Heading1);
    case SubchapterHeading(t) => PairCounts(t, Heading2);
    case Section(t, l) =>
      assert Render(e) == SectionElements(Segments(t)) by { assert [] + SectionElements(Segments(t)) == SectionElements(Segments(t)); }
      SectionCounts(Segments(t));
  }

  /** The element list of entries without leftovers holds one `Title` per book title, one
      `Heading1` per chapter heading, one `Heading2` per subchapter heading and one
      `FirstParagraph` per section. */
  lemma {:induction false} RenderCounts(entries: seq<Entry>)
    requires NoLeftovers(entries)
    ensures var elements := RenderAll(entries);
      CountStyle(elements, Title) == |BookTitles(entries)| &&
      CountStyle(elements, Heading1) == |ChapterHeadings(entries)| &&
      CountStyle(elements, Heading2) == |SubchapterHeadingTitles(entries)| &&
      CountStyle(elements, FirstParagraph) == |SectionContents(entries)|
    decreases |entries|
  {
    if entries != [] {
      var init := entries[..|entries| - 1];
      var last := entries[|entries| - 1];
      assert NoLeftovers(init) by {
        forall i | 0 <= i < |init| && init[i].Section? ensures init[i].leftover == [] {
          assert init[i] == entries[i];
        }
      }
      RenderCounts(init);
      EntryCounts(last);
      CountsAppend(RenderAll(init), Render(last));
    }
  }

  /** With sections handed over only on success, the element list holds exactly one `Title`
      paragraph, one `Heading1` per chapter, and one `Heading2` and one `FirstParagraph` per
      subchapter: every subchapter's content is appended exactly once, and the text export
      is the same as the source's. */
  lemma CorrectedCounts(title: string, chapters: seq<Chapter>, gen: (nat, nat) -> seq<Attempt>,
                        renders: string -> bool)
    ensures var e := BookEntries(title, chapters, gen, renders);
      var elements := RenderAll(Corrected(e));
      var total := TotalSubchapters(BookOutline(None, chapters));
      CountStyle(elements, Title) == 1 && CountStyle(elements, Heading1) == |chapters| &&
      CountStyle(elements, Heading2) == total && CountStyle(elements, FirstParagraph) == total &&
      ExportAll(Corrected(e)) == ExportAll(e)
  {
    var e := BookEntries(title, chapters, gen, renders);
    BookOrder(title, chapters, gen, renders);
    CorrectedViews(e);
    RenderCounts(Corrected(e));
  }

  /** The source's element list has the same counts when no reply is rejected part-way. */
  lemma ElementCounts(title: string, chapters: seq<Chapter>, gen: (nat, nat) -> seq<Attempt>,
                      renders: string -> bool)
    requires Generates(chapters, gen, renders) && NoPartialSections(chapters, gen, renders)
    ensures var elements := RenderAll(BookEntries(title, chapters, gen, renders));
      var total := TotalSubchapters(BookOutline(None, chapters));
      CountStyle(elements, Title) == 1 && CountStyle(elements, Heading1) == |chapters| &&
      CountStyle(elements, Heading2) == total && CountStyle(elements, FirstParagraph) == total
  {
    BookWithoutRejections(title, chapters, gen, renders);
    CorrectedCounts(title, chapters, gen, renders);
  }
}
