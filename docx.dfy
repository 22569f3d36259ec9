/** `create_docx` (app.py:68-121): set half-inch margins, clean the markdown
    tokens, and append one styled paragraph per kept line. The word-processor
    library is reduced to a document object that records its margin and the
    paragraphs appended to it; serialising to bytes is not modelled. */
module Docx {
  import opened PyStr
  import opened TextLayout

  /** The paragraph style: the default one, or 'List Bullet'. */
  datatype Style = Normal | ListBullet

  datatype Alignment = Left | Center

  /** One paragraph as the renderer configures it. `None` is a property the
      code leaves unset (the style's default applies); sizes and spacings are
      in points; `bold` is set only on the runs of headers and sub-headers. */
  datatype Paragraph = Paragraph(
    role: Role,
    style: Style,
    text: string,
    bold: bool,
    fontSize: Option<nat>,
    alignment: Option<Alignment>,
    spaceBefore: Option<nat>,
    spaceAfter: Option<nat>)

  /** What the renderer hands back: the page margin (EMU) and the body. */
  datatype DocxFile = DocxFile(margin: nat, paragraphs: seq<Paragraph>)

  /** `Inches(0.5)` in English Metric Units (914400 per inch). */
  const HalfInch: nat := 457200

  /** The document object: one uniform page margin (unset until the renderer
      sets it) and the paragraphs appended so far. */
  class Document {
    var margin: Option<nat>
    var paragraphs: seq<Paragraph>

    constructor ()
      ensures margin == None && paragraphs == []
    {
      margin := None;
      paragraphs := [];
    }

    /** Set the top, bottom, left and right margins of every section. */
    method SetMargins(emu: nat)
      modifies this
      ensures margin == Some(emu) && paragraphs == old(paragraphs)
    {
      margin := Some(emu);
    }

    method AddParagraph(p: Paragraph)
      modifies this
      ensures paragraphs == old(paragraphs) + [p] && margin == old(margin)
    {
      paragraphs := paragraphs + [p];
    }
  }

  /** A bullet's text: every `•` and every `-` removed, wherever they stand,
      then stripped. */
  function BulletText(line: string): (r: string)
    ensures '-' !in r && '\U{2022}' !in r
    ensures IsTrimmed(r)
    ensures forall c :: c in r ==> c in line
  {
    var noGlyph := ReplaceAll(line, "\U{2022}", "");
    RemoveCharGone(line, '\U{2022}');
    RemoveCharGone(noGlyph, '-');
    Strip(ReplaceAll(noGlyph, "-", ""))
  }

  /** The paragraph emitted for one kept (stripped, non-empty) line. */
  function Render(line: string): (p: Paragraph)
    ensures p.role == Classify(Docx, line)
    ensures p.role == SectionHeader ==>
      p.text == StripNumbering(line) && IsUpper(p.text) && |p.text| < MaxHeaderLength
      && '|' !in p.text && p.fontSize == Some(12)
      && p.spaceBefore == Some(12) && p.spaceAfter == Some(6)
      && (p.alignment == Some(Left) <==> Contains(line, "NAME"))
      && (p.alignment == Some(Center) <==> !Contains(line, "NAME"))
    ensures p.role == ContactLine ==> p.alignment == Some(Center) && p.spaceAfter == Some(12)
    ensures p.role == SubHeader ==> p.alignment == Some(Left) && p.fontSize == Some(11) && p.spaceBefore == Some(8)
    ensures p.role == Bullet <==> p.style == ListBullet
    ensures p.role == Bullet ==> '-' !in p.text && '\U{2022}' !in p.text && IsTrimmed(p.text)
    ensures p.role == Bullet ==> p.text == BulletText(line)
    ensures p.role in {ContactLine, SubHeader, Body} ==> p.text == line
    ensures p.bold <==> p.role in {SectionHeader, SubHeader}
  {
    match Classify(Docx, line)
    case SectionHeader =>
      var t := StripNumbering(line);
      assert forall c :: c in t ==> c in line;
      Paragraph(SectionHeader, Normal, t, true, Some(12),
        Some(if !Contains(line, "NAME") then Center else Left), Some(12), Some(6))
    case ContactLine =>
      Paragraph(ContactLine, Normal, line, false, None, Some(Center), None, Some(12))
    case SubHeader =>
      Paragraph(SubHeader, Normal, line, true, Some(11), Some(Left), Some(8), None)
    case Bullet =>
      Paragraph(Bullet, ListBullet, BulletText(line), false, None, None, None, Some(2))
    case Body =>
      Paragraph(Body, Normal, line, false, None, None, None, Some(2))
  }

  /** The body of the document `create_docx` builds from `text`. */
  function DocumentParagraphs(text: string): seq<Paragraph>
  {
    Emit(Docx, Render, Split(MarkdownClean(text), '\n'))
  }

  /** `create_docx`: the loop over the lines appends exactly the paragraphs
      `DocumentParagraphs` describes. */
  method CreateDocx(text: string) returns (file: DocxFile)
    ensures file.margin == HalfInch
    ensures file.paragraphs == DocumentParagraphs(text)
  {
    var doc := new Document();
    doc.SetMargins(HalfInch);
    var lines := Split(MarkdownClean(text), '\n');
    for i := 0 to |lines|
      invariant doc.margin == Some(HalfInch)
      invariant doc.paragraphs == Emit(Docx, Render, lines[..i])
    {
      var line := Strip(lines[i]);
      EmitStep(Docx, Render, lines, i);
      if line != [] {
        doc.AddParagraph(Render(line));
      }
    }
    assert lines[..|lines|] == lines;
    file := DocxFile(doc.margin.value, doc.paragraphs);
  }

  // ---------------------------------------------------------------------
  // Properties of the layout

  /** The bullet text is the line with every `•` and every `-` left out,
      all other characters kept in order, and then stripped. */
  lemma BulletTextKeepsText(line: string)
    ensures BulletText(line) == Strip(Without(Without(line, '\U{2022}'), '-'))
  {
    RemoveCharIsWithout(line, '\U{2022}');
    RemoveCharIsWithout(Without(line, '\U{2022}'), '-');
  }

  /** A bullet led by `-` or the glyph `•` and a space keeps exactly its
      text, whatever characters that text holds besides `-` and `•`. */
  lemma LeadBulletText(x: char, w: string)
    requires x == '-' || x == '\U{2022}'
    requires '-' !in w && '\U{2022}' !in w && IsTrimmed(w)
    ensures BulletText([x, ' '] + w) == w
  {
    BulletTextKeepsText([x, ' '] + w);
    LeadMarkersLeftOut(x, w);
    assert AllSpace(" ") && AllSpace("");
    StripPadded(" ", w, "");
    assert " " + w + "" == [' '] + w;
  }

  /** Leaving out `•` and `-` from a marker and a space before marker-free
      text leaves the space and the text. */
  lemma LeadMarkersLeftOut(x: char, w: string)
    requires x == '-' || x == '\U{2022}'
    requires '-' !in w && '\U{2022}' !in w
    ensures Without(Without([x, ' '] + w, '\U{2022}'), '-') == [' '] + w
  {
    WithoutAbsent(w, '\U{2022}');
    WithoutAbsent(w, '-');
    assert [x, ' '] + w == [x] + ([' '] + w);
    WithoutCons(x, [' '] + w, '\U{2022}');
    WithoutCons(' ', w, '\U{2022}');
    WithoutCons(' ', w, '-');
    var u := Without([x, ' '] + w, '\U{2022}');
    if x == '-' {
      assert u == [x] + ([' '] + w);
      WithoutCons(x, [' '] + w, '-');
      assert Without(u, '-') == [] + ([' '] + w);
    } else {
      assert u == [] + ([' '] + w) == [' '] + w;
      assert Without(u, '-') == [' '] + Without(w, '-');
    }
  }

  /** The document has one paragraph per kept line, in order: the i-th
      paragraph renders the i-th kept line and carries its role. */
  lemma ParagraphsOfKeptLines(text: string)
    ensures var kept := Kept(Docx, Split(MarkdownClean(text), '\n'));
      |DocumentParagraphs(text)| == |kept|
      && forall i | 0 <= i < |kept| ::
           DocumentParagraphs(text)[i] == Render(kept[i])
           && DocumentParagraphs(text)[i].role == Classify(Docx, kept[i])
  {
    var lines := Split(MarkdownClean(text), '\n');
    var kept := Kept(Docx, lines);
    var doc := Emit(Docx, Render, lines);
    assert DocumentParagraphs(text) == doc;
    EmitKept(Docx, Render, lines);
    forall i | 0 <= i < |kept| ensures doc[i] == Render(kept[i]) && doc[i].role == Classify(Docx, kept[i]) {
      assert doc[i] == Render(kept[i]);
    }
  }
}
