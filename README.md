# bookgen in Dafny

A model of the book generator `bookgen.py`. It first asks a generative model for a book
outline: a title and chapters, each with subchapters. It then asks for the prose of every
subchapter in turn, retrying each request until it gets through. While it does so it builds
two things in lock-step: the list of presentation elements handed to the PDF library, and a
markdown-like plain-text export. Both files are named after the sanitised title and the time
of the call.

The model is split into modules that follow the program:

- `PyStr`: the Python string operations the program uses: `isspace`, `rstrip`, `strip`,
  `find`, `split`, and integer formatting.
- `Filename`: `create_dynamic_filename`, with the clock reading as a parameter.
- `Outline`: the parsed outline and the `book_title` fallback.
- `Document`: presentation elements, and the loop that turns one subchapter's segments
  into paragraphs and spacers.
- `Expansion`: the retry loop around the content request. It comes in two forms. The loop as
  written appends paragraphs as it builds them. The corrected loop hands a section over only
  once the whole attempt has succeeded.
- `Assembly`: the nested traversal over chapters and subchapters that fills both accumulators.
  It is imperative, with loop invariants, and runs the retry loop as written. It is specified
  by the sequence of entries the traversal produces. A section entry carries the paragraphs
  that failed attempts left behind before the accepted one.
- `Structure`: what the assembled book consists of, and in what order. It also states what
  the book would be with those leftovers removed, and when the source's book already is that.
- `Scenario`: one small outline worked through to the exact text export and element list.
- `Wrappers`: the `Option` type.

The generation service is outside the model. For each subchapter, `gen(c, s)` is the finite
list of attempts the retry loop makes. `renders(t)` says whether the PDF library's paragraph
constructor accepts the markup of `t`.

The code replaces every space of the filtered title with an underscore, leading spaces
included. It does not replace only the internal ones. The model follows the code.

## Model

| member | source | states |
|---|---|---|
| PyStr.RStrip | bookgen.py:49 | the result is a prefix of the input; only whitespace was cut; and it does not end in whitespace |
| PyStr.LStrip | bookgen.py:168 | the result is a suffix of the input; only whitespace was cut; and it does not start with whitespace |
| PyStr.Strip | bookgen.py:168 | the result is the input with leading and trailing whitespace cut, and neither end is whitespace; whitespace is what Python's `str.isspace` accepts, Unicode spaces and separators included |
| PyStr.StripIdempotent | bookgen.py:168 | stripping twice gives the same as stripping once |
| PyStr.StripUnchanged | bookgen.py:168 | stripping leaves a string unchanged exactly when it is empty or neither end is whitespace |
| PyStr.Find | bookgen.py:155 | the result is an occurrence of the separator with none before it, or None when there is no occurrence |
| PyStr.Split | bookgen.py:155 | splitting always gives at least one part |
| PyStr.JoinSplit | bookgen.py:155 | joining the parts of a split with the separator gives back the original text |
| PyStr.SplitIsShaped | bookgen.py:155 | every part but the last holds no separator up to the one that ends it, and the last holds none at all |
| PyStr.SplitJoin | bookgen.py:155 | splitting the join of such parts gives back the parts |
| PyStr.NatToString | bookgen.py:129 | decimal digits with no leading zero |
| PyStr.ParseNatToString | bookgen.py:129 | reading the decimal form back gives the number |
| Filename.KeepAllowed | bookgen.py:49 | the filtered title is no longer than the title and holds only letters, digits, space, '.', '-' and '_' |
| Filename.KeepAllowedCounts | bookgen.py:49 | the filter keeps every occurrence of an allowed character and removes every occurrence of any other |
| Filename.KeepAllowedSubsequence | bookgen.py:49 | the filter keeps characters in their original order |
| Filename.KeepAllowedIdentity | bookgen.py:49 | a string of allowed characters passes the filter unchanged |
| Filename.KeepAllowedAppend | bookgen.py:49 | filtering a concatenation concatenates the filtered pieces |
| Filename.FilteredTitle | bookgen.py:49 | the filtered, stripped title is a subsequence of the title, does not end in whitespace, and only whitespace was cut from it |
| Filename.Sanitize | bookgen.py:49-50 | the sanitised title has as many characters as the filtered, stripped title, and holds only lowercase letters, digits, '.', '-' and '_' |
| Filename.SanitizeAt | bookgen.py:49-50 | character by character, a space becomes '_' and any other character becomes its lowercase form |
| Filename.SanitizedLowercaseNoSpace | bookgen.py:50 | no space and no uppercase letter survives |
| Filename.SanitizeIdempotent | bookgen.py:49-50 | sanitising a sanitised title changes nothing |
| Filename.SanitizeEmpty | bookgen.py:49-50 | the sanitised title is empty exactly when every allowed character of the title is a space |
| Filename.SanitizeExample | bookgen.py:49-50 | "Test: Time? Compute!" sanitises to "test_time_compute" |
| Filename.PadFits | bookgen.py:54 | a number below 10^w pads to exactly w digits that read back as the number |
| Filename.FormatTimestamp | bookgen.py:53-54 | the timestamp is eight digits, an underscore and six digits |
| Filename.TimestampFields | bookgen.py:54 | year, month, day, hour, minute and second each read back from their place in the timestamp |
| Filename.DynamicFilename | bookgen.py:37-59 | the name starts with the sanitised title and has exactly 21 more characters |
| Filename.FilenameLayout | bookgen.py:37-59 | the name is the sanitised title, then "_book_", then an eight-digit, underscore, six-digit timestamp; the last 21 characters are always "_book_" and the timestamp |
| Filename.FilenameAlphabet | bookgen.py:37-59 | the whole name is made of lowercase letters, digits, '.', '-' and '_' |
| Filename.EmptyTitleFilename | bookgen.py:37-59 | a title with nothing left after sanitising gives "_book_" and the timestamp alone |
| Outline.ResolveTitle | bookgen.py:86 | the outline's own title when it has the key (even an empty one), otherwise the configured title |
| Outline.ConfiguredTitleMatters | bookgen.py:86 | the configured title decides the result exactly when the outline has no title |
| Outline.Chapter.Titles | bookgen.py:133-134 | one title per subchapter |
| Outline.SubchapterTitles | bookgen.py:127-134 | one title per subchapter of the first n chapters |
| Document.BuildSection | bookgen.py:157-166 | no rejection exactly when every segment renders, and then the whole section is built; otherwise the first rejected segment, with every earlier one rendering, and exactly the elements of the earlier segments built |
| Document.PartialSectionStep | bookgen.py:157-166 | handling one more segment appends its paragraph in its style, and a spacer unless it is the last segment |
| Document.TwoSegmentSection | bookgen.py:157-166 | two segments give first paragraph, spacer, body paragraph |
| Document.SectionElementsSnoc | bookgen.py:157-166 | one more segment adds a spacer and a body paragraph at the end of the section |
| Document.SectionCounts | bookgen.py:157-166 | k segments give one first paragraph, k-1 body paragraphs, k-1 spacers and no heading; the paragraphs are the segments in order |
| Document.SectionShape | bookgen.py:157-166 | the section starts with its first paragraph and ends with a paragraph; spacers sit exactly at odd positions; paragraphs and spacers alternate |
| Expansion.Segments | bookgen.py:155 | a reply always has at least one segment |
| Expansion.FirstRejected | bookgen.py:157-162 | the first segment the PDF library rejects, with every earlier segment rendering; None when all render |
| Expansion.FirstAccepted | bookgen.py:143-173 | the first attempt that gets through the whole try block, with every earlier attempt failing |
| Expansion.EventuallyAcceptedFirst | bookgen.py:143-173 | the retry loop ends exactly when some attempt is accepted, and then at the first such attempt |
| Expansion.Appended | bookgen.py:157-170 | an accepted attempt appends its whole section |
| Expansion.TryAttempt | bookgen.py:144-169 | ok exactly when the attempt is accepted; what was appended; and, when ok, the stripped text followed by a blank line |
| Expansion.GenerateSection | bookgen.py:143-173 | the number of sleeps is the position of the first accepted attempt; that attempt's section and stripped text are returned |
| Expansion.AppendAttempt | bookgen.py:144-173 | one pass appends the attempt's elements after what earlier attempts left, and breaks exactly at the first accepted attempt |
| Expansion.ExpandAsWritten | bookgen.py:143-173 | the loop as written stops at the first accepted attempt; every attempt up to it leaves its elements behind; the export is the accepted text stripped |
| Expansion.NothingBeforeFailures | bookgen.py:143-173 | failed requests append nothing |
| Expansion.AsWrittenElements | bookgen.py:143-173 | once an attempt is accepted, the loop as written has appended what the earlier attempts left behind, then the accepted section |
| Expansion.AsWrittenWithoutRejections | bookgen.py:143-173 | when every failure is a failed request, the earlier attempts leave nothing behind and the loop as written appends exactly the accepted section |
| Expansion.SegmentsOfTwo | bookgen.py:155 | two lines without a line break, joined by a blank line, split back into the two |
| Expansion.AsWrittenDuplicates | bookgen.py:157-173 | a reply rejected at its second segment, then an accepted one: the loop as written leaves two first paragraphs and the texts a, a, b, where the accepted section holds one first paragraph and a, b |
| Expansion.AsWrittenDuplicatesParagraphs | bookgen.py:157-173 | the same on the replies "A\n\n<b" and "A\n\nB" with a check that rejects '<' |
| Expansion.TwoFailuresThenSuccess | bookgen.py:143-173 | two failed requests and then a reply: the loop sleeps twice and keeps the reply |
| Assembly.ChapterLabel | bookgen.py:129-130 | the heading is "Chapter ", the decimal chapter number (which reads back as the number), ": " and the chapter title |
| Assembly.Render | bookgen.py:124-166 | a heading renders to one paragraph in the Title, Heading1 or Heading2 style; a section renders to its leftovers, then one paragraph per segment with a spacer between each two |
| Assembly.Export | bookgen.py:125-168 | every entry exports to text ending in a blank line; the title line starts with "# ", a chapter line with "## ", a subchapter line with "### " |
| Assembly.SectionMirrors | bookgen.py:155-168 | the paragraphs a section renders to are its leftovers' paragraphs and then its reply's segments; without leftovers they join back, with blank lines, into the reply, whose stripped form is what the text export holds |
| Assembly.SettledSection | bookgen.py:143-168 | what the loop as written appends for one subchapter is exactly the rendering of the section entry it settles on, and the export is that entry's export |
| Assembly.RenderAppend | bookgen.py:124-168 | the elements of a concatenation of entries are the concatenation of their elements |
| Assembly.ExportAppend | bookgen.py:124-168 | the same for the text export |
| Assembly.SubchaptersSpan | bookgen.py:133-168 | two entries per subchapter |
| Assembly.AddSubchapter | bookgen.py:133-173 | one subchapter appends its heading, then what the retry loop as written appends (leftovers and the accepted section), to the elements; and its heading line and the accepted text, stripped, to the export |
| Assembly.AddSubchapters | bookgen.py:133-168 | the subchapters of a chapter, each in order |
| Assembly.AddChapter | bookgen.py:127-168 | the numbered chapter heading, then its subchapters, in both accumulators |
| Assembly.AssembleBook | bookgen.py:123-168 | the elements and the text are the rendering and the export of the same traversal entries |
| Assembly.BuildBook | bookgen.py:86-177 | the resolved title; names of the PDF and text files from two clock readings; both accumulators |
| Structure.BookShape | bookgen.py:124-168 | the title comes first and only there; a subchapter heading is always directly followed by a section and every section directly follows one |
| Structure.BookOrder | bookgen.py:124-168 | chapter headings are numbered from 1 in outline order; subchapter headings are the outline's subchapters in reading order; sections are the accepted texts in the same order |
| Structure.CorrectedViews | bookgen.py:157-173 | removing the leftovers leaves none, and changes neither the titles, headings and section texts of the book nor its text export |
| Structure.BookWithoutRejections | bookgen.py:143-173 | when every failed attempt is a failed request, the book has no leftovers, so removing them changes nothing |
| Structure.EntryCounts | bookgen.py:124-166 | an entry without leftovers renders to one paragraph of its heading style, or for a section to exactly one FirstParagraph and no heading |
| Structure.RenderCounts | bookgen.py:124-168 | entries without leftovers render to one Title per title entry, one Heading1 per chapter, and one Heading2 and one FirstParagraph per subchapter heading and section |
| Structure.CorrectedCounts | bookgen.py:124-173 | with the leftovers removed, the book holds one Title, one Heading1 per chapter, and one Heading2 and one FirstParagraph per subchapter, and its text export is the source's |
| Structure.ElementCounts | bookgen.py:124-173 | the source's book holds one Title, one Heading1 per chapter, and one Heading2 and one FirstParagraph per subchapter, when every failed attempt is a failed request |
| Scenario.ScenarioEntries | bookgen.py:124-168 | one chapter of two subchapters gives the six expected entries |
| Scenario.ScenarioText | bookgen.py:124-168 | the exact text export of that outline |
| Scenario.ScenarioElements | bookgen.py:124-168 | the exact ten-element list of that outline |

## Left out

- The generative model calls (outline and content), `eval` of the outline reply and its JSON schema: the outline arrives already parsed, and the content replies come as a list of attempts.
- Expansion.GenerateSection: the source retries forever. The model takes a finite list of attempts and requires that one of them is accepted (`EventuallyAccepted`); a list without one is the non-terminating case.
- Assembly.AssembleBook and Assembly.BuildBook: for the same reason they require `Generates`, that every subchapter's list of attempts holds an accepted one; Expansion.ExpandAsWritten requires the same of its one list.
- The 5-second `time.sleep` and the debug prints: `retries` counts the sleeps.
- `datetime.datetime.now()`: each of the two calls of `create_dynamic_filename`, for the PDF (line 93) and the text file (line 177), takes its own clock reading as a parameter.
- Filename.Sanitize: `isalnum` and `lower` are modelled on ASCII only; other Unicode letters and digits, and Unicode case mapping, are not modelled. `isspace` follows Python's full set of whitespace characters.
- Filename.FormatTimestamp: years before 1000 are zero-padded to four digits, which the platform's `strftime("%Y")` need not do.
- The PDF library's styles (fonts, sizes, alignment, margins, page size) and `doc.build`: an element keeps only its text and style name; a spacer keeps its size.
- The PDF library's markup parser: it is the `renders` parameter.
- A heading paragraph that the PDF library rejects raises outside the try block and ends the run; the model assumes headings render.
- Writing the files to disk and the final message.

## Findings

| source | as written | input that shows it | evidently intended | confidence | as-written member | corrected member |
|---|---|---|---|---|---|---|
| bookgen.py:157-173 | paragraphs are appended to the element list one by one inside the try block; when a later paragraph's markup raises, the retry does not remove the ones already appended | replies "A\n\n<b" then "A\n\nB", with a markup check that rejects '<': the element list gets "A", a spacer, then "A", a spacer, "B" (two first paragraphs), while the text export holds the reply once | each subchapter contributes only the section of the reply that is finally accepted | not executed | Expansion.ExpandAsWritten, Expansion.AsWrittenDuplicatesParagraphs, Assembly.AssembleBook | Expansion.GenerateSection, Structure.CorrectedCounts |
