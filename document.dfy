/**
  The typed presentation elements handed to the rendering library, and how one generated
  section (its text already split into segments) becomes elements: the first segment in the
  first-paragraph style, every later one in the body style, with a spacer between two
  segments and none after the last. Only the style tag of a paragraph is kept; fonts,
  indents and alignment belong to the rendering library.
 */
module Document {
  import opened Wrappers

  datatype Style = Title | Heading1 | Heading2 | FirstParagraph | BodyText

  /** `Paragraph(text, styles[...])` or `Spacer(width, height)`. */
  datatype Element = Paragraph(text: string, style: Style) | Spacer(width: nat, height: nat)

  /** `Spacer(1, 6)`, the gap between two segments of a section. */
  const GAP: Element := Spacer(1, 6)

  /** The style of segment `i` of a section. */
  function SegmentStyle(i: nat): Style {
    if i == 0 then FirstParagraph else BodyText
  }

  /** A section of `n` segments renders as `n` paragraphs and `n - 1` spacers. */
  function SectionLength(n: nat): nat {
    if n == 0 then 0 else 2 * n - 1
  }

  /** Position `m` of a rendered section: segment `m / 2` at even positions, a spacer at odd
      ones. */
  function SectionElementAt(segments: seq<string>, m: nat): Element
    requires m / 2 < |segments|
  {
    if m % 2 == 0 then Paragraph(segments[m / 2], SegmentStyle(m / 2)) else GAP
  }

  /** What the loop over the segments has appended once it has handled the first `i` of
      them: each with its style and, unless it is the last segment, the spacer after it. */
  function PartialSection(segments: seq<string>, i: nat): seq<Element>
    requires i <= |segments|
  {
    var len := if i == |segments| then SectionLength(i) else 2 * i;
    seq(len, m requires 0 <= m < len => SectionElementAt(segments, m))
  }

  /** The whole rendered section. */
  function SectionElements(segments: seq<string>): seq<Element> {
    PartialSection(segments, |segments|)
  }

  /** One more segment handled: its paragraph and, unless it is the last one, a spacer. */
  lemma PartialSectionStep(segments: seq<string>, i: nat)
    requires i < |segments|
    ensures PartialSection(segments, i + 1) ==
      PartialSection(segments, i) + [Paragraph(segments[i], SegmentStyle(i))] +
      (if i < |segments| - 1 then [GAP] else [])
  {
    var lhs := PartialSection(segments, i + 1);
    var rhs := PartialSection(segments, i) + [Paragraph(segments[i], SegmentStyle(i))] +
      (if i < |segments| - 1 then [GAP] else []);
    assert |lhs| == |rhs|;
    forall m | 0 <= m < |lhs| ensures lhs[m] == rhs[m] {
      if m < 2 * i {
        assert rhs[m] == PartialSection(segments, i)[m];
      }
    }
  }

  /** The loop `for i, section in enumerate(sections)` building one section's elements.
      `renders(t)` says whether the rendering library's paragraph constructor accepts the
      markup of `t`; the first segment it rejects raises, which ends the loop with the
      elements of the earlier segments already appended. */
  method BuildSection(segments: seq<string>, renders: string -> bool)
    returns (rejected: Option<nat>, section: seq<Element>)
    ensures rejected.None? ==> section == SectionElements(segments)
    ensures rejected.None? <==> forall i :: 0 <= i < |segments| ==> renders(segments[i])
    ensures rejected.Some? ==>
      rejected.value < |segments| && !renders(segments[rejected.value]) &&
      (forall i :: 0 <= i < rejected.value ==> renders(segments[i])) &&
      section == PartialSection(segments, rejected.value)
  {
    section := [];
    for i := 0 to |segments|
      invariant forall j :: 0 <= j < i ==> renders(segments[j])
      invariant section == PartialSection(segments, i)
    {
      if !renders(segments[i]) {
        return Some(i), section;
      }
      if i == 0 {
        section := section + [Paragraph(segments[i], FirstParagraph)];
      } else {
        section := section + [Paragraph(segments[i], BodyText)];
      }
      if i < |segments| - 1 {
        section := section + [GAP];
      }
      PartialSectionStep(segments, i);
    }
    rejected := None;
  }

  /** A section of two segments: first paragraph, spacer, body paragraph. */
  lemma TwoSegmentSection(a: string, b: string)
    ensures SectionElements([a, b]) == [Paragraph(a, FirstParagraph), GAP, Paragraph(b, BodyText)]
  {
    assert SectionElementAt([a, b], 0) == Paragraph(a, FirstParagraph);
    assert SectionElementAt([a, b], 1) == GAP;
    assert SectionElementAt([a, b], 2) == Paragraph(b, BodyText);
  }

  // ---------------------------------------------------------------------------------------
  // What a rendered section consists of
  // ---------------------------------------------------------------------------------------

  /** How many paragraphs of `elements` have style `style`. */
  function CountStyle(elements: seq<Element>, style: Style): nat {
    if elements == [] then 0
    else
      var last := elements[|elements| - 1];
      CountStyle(elements[..|elements| - 1], style) + (if last.Paragraph? && last.style == style then 1 else 0)
  }

  /** How many `Spacer`s `elements` holds. */
  function CountSpacers(elements: seq<Element>): nat {
    if elements == [] then 0
    else
      var last := elements[|elements| - 1];
      CountSpacers(elements[..|elements| - 1]) + (if last.Spacer? then 1 else 0)
  }

  /** The texts of the paragraphs of `elements`, in order. */
  function ParagraphTexts(elements: seq<Element>): seq<string> {
    if elements == [] then []
    else
      var last := elements[|elements| - 1];
      ParagraphTexts(elements[..|elements| - 1]) + (if last.Paragraph? then [last.text] else [])
  }

  /** The counts and the texts distribute over concatenation. */
  lemma {:induction false} CountsAppend(a: seq<Element>, b: seq<Element>)
    ensures forall style :: CountStyle(a + b, style) == CountStyle(a, style) + CountStyle(b, style)
    ensures CountSpacers(a + b) == CountSpacers(a) + CountSpacers(b)
    ensures ParagraphTexts(a + b) == ParagraphTexts(a) + ParagraphTexts(b)
    decreases |b|
  {
    if b == [] {
      assert a + b == a;
    } else {
      CountsAppend(a, b[..|b| - 1]);
      assert (a + b)[..|a + b| - 1] == a + b[..|b| - 1];
      assert (a + b)[|a + b| - 1] == b[|b| - 1];
    }
  }

  /** Adding a segment after the last one turns the old last paragraph into a non-last one:
      a spacer and the new body paragraph follow. */
  lemma SectionElementsSnoc(segments: seq<string>, x: string)
    requires |segments| >= 1
    ensures SectionElements(segments + [x]) ==
      SectionElements(segments) + [GAP, Paragraph(x, BodyText)]
  {
    var s := segments + [x];
    var lhs := SectionElements(s);
    var rhs := SectionElements(segments) + [GAP, Paragraph(x, BodyText)];
    assert |lhs| == |rhs|;
    forall m | 0 <= m < |lhs| ensures lhs[m] == rhs[m] {
      if m < 2 * |segments| - 1 {
        assert rhs[m] == SectionElements(segments)[m];
        assert s[m / 2] == segments[m / 2];
      }
    }
  }

  /** The counts of one paragraph of style `st`, alone or after a spacer. */
  lemma PairCounts(x: string, st: Style)
    ensures var one := [Paragraph(x, st)];
      CountSpacers(one) == 0 && ParagraphTexts(one) == [x] &&
      forall style :: CountStyle(one, style) == (if style == st then 1 else 0)
    ensures var two := [GAP, Paragraph(x, st)];
      CountSpacers(two) == 1 && ParagraphTexts(two) == [x] &&
      forall style :: CountStyle(two, style) == (if style == st then 1 else 0)
  {
    var one := [Paragraph(x, st)];
    var two := [GAP, Paragraph(x, st)];
    assert one[..0] == [] && two[..1] == [GAP] && [GAP][..0] == [];
    forall style ensures CountStyle(one, style) == (if style == st then 1 else 0) {
      assert CountStyle(one, style) == CountStyle([], style) + (if style == st then 1 else 0);
    }
    forall style ensures CountStyle(two, style) == (if style == st then 1 else 0) {
      assert CountStyle([GAP], style) == CountStyle([], style);
      assert CountStyle(two, style) == CountStyle([GAP], style) + (if style == st then 1 else 0);
    }
    assert CountSpacers([GAP]) == 1;
    assert ParagraphTexts([GAP]) == [];
  }

  /** `e` holds the paragraphs `segments`, the first of them in the first-paragraph style
      and the others in the body style, with a spacer between two of them. */
  predicate CountedSection(e: seq<Element>, segments: seq<string>) {
    |segments| >= 1 &&
    CountStyle(e, FirstParagraph) == 1 && CountStyle(e, BodyText) == |segments| - 1 &&
    CountSpacers(e) == |segments| - 1 &&
    CountStyle(e, Title) == 0 && CountStyle(e, Heading1) == 0 && CountStyle(e, Heading2) == 0 &&
    ParagraphTexts(e) == segments
  }

  lemma CountedSectionStep(e: seq<Element>, segments: seq<string>, x: string)
    requires CountedSection(e, segments)
    ensures CountedSection(e + [GAP, Paragraph(x, BodyText)], segments + [x])
  {
    PairCounts(x, BodyText);
    CountsAppend(e, [GAP, Paragraph(x, BodyText)]);
  }

  /** A section of `k` segments holds exactly one first paragraph, `k - 1` body paragraphs
      and `k - 1` spacers, and its paragraphs are the segments in order. */
  lemma SectionCounts(segments: seq<string>)
    requires |segments| >= 1
    ensures var e := SectionElements(segments);
      CountStyle(e, FirstParagraph) == 1 && CountStyle(e, BodyText) == |segments| - 1 &&
      CountSpacers(e) == |segments| - 1 &&
      CountStyle(e, Title) == 0 && CountStyle(e, Heading1) == 0 && CountStyle(e, Heading2) == 0 &&
      ParagraphTexts(e) == segments
  {
    SectionCounted(segments);
  }

  lemma {:induction false} SectionCounted(segments: seq<string>)
    requires |segments| >= 1
    ensures CountedSection(SectionElements(segments), segments)
    decreases |segments|
  {
    var n := |segments|;
    if n == 1 {
      assert SectionElements(segments) == [Paragraph(segments[0], FirstParagraph)];
      PairCounts(segments[0], FirstParagraph);
    } else {
      var init := segments[..n - 1];
      var x := segments[n - 1];
      var tail := [GAP, Paragraph(x, BodyText)];
      assert SectionElements(segments) == SectionElements(init) + tail by {
        assert init + [x] == segments;
        SectionElementsSnoc(init, x);
      }
      SectionCounted(init);
      CountedSectionStep(SectionElements(init), init, x);
      assert init + [x] == segments;
    }
  }

  /** The shape of a section: it starts with its first paragraph, paragraphs and spacers
      strictly alternate, and it ends with a paragraph, never with a spacer. */
  lemma SectionShape(segments: seq<string>)
    requires |segments| >= 1
    ensures var e := SectionElements(segments);
      |e| == 2 * |segments| - 1 &&
      e[0] == Paragraph(segments[0], FirstParagraph) &&
      e[|e| - 1] == Paragraph(segments[|segments| - 1], SegmentStyle(|segments| - 1)) &&
      (forall m :: 0 <= m < |e| ==> (e[m] == GAP <==> m % 2 == 1)) &&
      (forall m :: 0 <= m < |e| - 1 ==> e[m].Paragraph? != e[m + 1].Paragraph?)
  {
    var e := SectionElements(segments);
    assert e[|e| - 1] == SectionElementAt(segments, 2 * |segments| - 2);
  }
}
