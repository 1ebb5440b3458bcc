/**
  The book outline returned by the outline request, already parsed: the book title (a key
  the response may leave out), then the chapters in presentation order, each with its
  subchapters in presentation order. The outline carries titles only; content is generated
  per subchapter later.
 */
module Outline {
  import opened Wrappers

  datatype Subchapter = Subchapter(subchapterTitle: string)

  datatype Chapter = Chapter(chapterTitle: string, subchapters: seq<Subchapter>) {

    /** The titles of the chapter's subchapters, in order. */
    function Titles(): (titles: seq<string>)
      ensures |titles| == |subchapters|
    {
      seq(|subchapters|, s requires 0 <= s < |subchapters| => subchapters[s].subchapterTitle)
    }
  }

  /** `bookTitle` is `None` when the response has no `book_title` key. */
  datatype BookOutline = BookOutline(bookTitle: Option<string>, chapters: seq<Chapter>)

  /** `chapter_titles.get("book_title", book_title)`: the outline's own title when the key
      is present (even an empty one), otherwise the configured title. */
  function ResolveTitle(outline: BookOutline, configured: string): (title: string)
    ensures outline.bookTitle.Some? ==> title == outline.bookTitle.value
    ensures outline.bookTitle.None? ==> title == configured
  {
    outline.bookTitle.GetOr(configured)
  }

  /** The number of subchapters in the first `n` chapters. */
  function SubchapterCount(chapters: seq<Chapter>, n: nat): nat
    requires n <= |chapters|
  {
    if n == 0 then 0 else SubchapterCount(chapters, n - 1) + |chapters[n - 1].subchapters|
  }

  /** The number of subchapters in the whole outline. */
  function TotalSubchapters(outline: BookOutline): nat {
    SubchapterCount(outline.chapters, |outline.chapters|)
  }

  /** The subchapter titles of the first `n` chapters, in reading order. */
  function SubchapterTitles(chapters: seq<Chapter>, n: nat): (titles: seq<string>)
    requires n <= |chapters|
    ensures |titles| == SubchapterCount(chapters, n)
  {
    if n == 0 then [] else SubchapterTitles(chapters, n - 1) + chapters[n - 1].Titles()
  }

  /** The configured title matters exactly when the outline has no title of its own. */
  lemma ConfiguredTitleMatters(outline: BookOutline)
    ensures outline.bookTitle.None? <==>
      (forall other: string :: ResolveTitle(outline, other) == other)
  {
    if outline.bookTitle.Some? {
      var t := outline.bookTitle.value;
      assert ResolveTitle(outline, t + "!") != t + "!";
    }
  }
}
