/** `create_pdf` (app.py:123-187): clean the markdown tokens, fold the
    typographic characters to ASCII, force the text into Latin-1, and place
    one cell per kept line. The PDF library is reduced to a document object
    that records its pages, its automatic page-break margin and the cells
    placed on it; cursor movement is recorded as the gaps of each cell. */
module Pdf {
  import opened PyStr
  import opened TextLayout

  datatype CellAlign = AlignLeft | AlignCenter | Justify

  /** One placed cell: its text, font (bold, size in points), line height,
      alignment, the `ln` gaps before and after it, whether a rule is drawn
      under it, and whether it is a wrapping multi-line cell. */
  datatype Cell = Cell(
    role: Role,
    text: string,
    bold: bool,
    fontSize: nat,
    lineHeight: nat,
    align: CellAlign,
    gapBefore: nat,
    gapAfter: nat,
    rule: bool,
    wraps: bool)

  /** What the renderer hands back: the number of pages added, the
      page-break margin and the cells. */
  datatype PdfFile = PdfFile(pages: nat, breakMargin: nat, cells: seq<Cell>)

  /** `set_auto_page_break(auto=True, margin=15)`. */
  const PageBreakMargin: nat := 15

  /** `chr(149)`, which the core fonts' Windows-1252 encoding draws as a bullet. */
  const BulletGlyph: char := '\U{95}'

  /** The document object: pages added, the page-break margin (unset until
      the renderer sets it) and the cells placed so far. */
  class Document {
    var pages: nat
    var breakMargin: Option<nat>
    var cells: seq<Cell>

    constructor ()
      ensures pages == 0 && breakMargin == None && cells == []
    {
      pages := 0;
      breakMargin := None;
      cells := [];
    }

    method AddPage()
      modifies this
      ensures pages == old(pages) + 1
      ensures breakMargin == old(breakMargin) && cells == old(cells)
    {
      pages := pages + 1;
    }

    method SetAutoPageBreak(margin: nat)
      modifies this
      ensures breakMargin == Some(margin)
      ensures pages == old(pages) && cells == old(cells)
    {
      breakMargin := Some(margin);
    }

    method Place(c: Cell)
      modifies this
      ensures cells == old(cells) + [c]
      ensures pages == old(pages) && breakMargin == old(breakMargin)
    {
      cells := cells + [c];
    }
  }

  // ---------------------------------------------------------------------
  // The typographic replacements

  /** The `replacements` dictionary in iteration order. Its literal lists
      U+2013 twice (once escaped, once as the character itself), both times
      with '-', so the dictionary holds seven entries. */
  const Replacements: seq<(char, char)> := [
    ('\U{2013}', '-'), ('\U{2014}', '-'), ('\U{2018}', '\''), ('\U{2019}', '\''),
    ('\U{201C}', '"'), ('\U{201D}', '"'), ('\U{2022}', '-')]

  /** The dictionary read as a table: dashes and the bullet become '-',
      curly single quotes '\'', curly double quotes '"'. */
  function Fold(c: char): char
  {
    if c == '\U{2013}' || c == '\U{2014}' || c == '\U{2022}' then '-'
    else if c == '\U{2018}' || c == '\U{2019}' then '\''
    else if c == '\U{201C}' || c == '\U{201D}' then '"'
    else c
  }

  /** The value of the first pair whose key is `c`, or `c` itself. */
  function Lookup(c: char, pairs: seq<(char, char)>): char
    decreases |pairs|
  {
    if pairs == [] then c
    else if pairs[0].0 == c then pairs[0].1
    else Lookup(c, pairs[1..])
  }

  /** What replacing each pair in turn does to one character. */
  function Sequential(c: char, pairs: seq<(char, char)>): char
    decreases |pairs|
  {
    if pairs == [] then c
    else Sequential(if c == pairs[0].0 then pairs[0].1 else c, pairs[1..])
  }

  predicate NoValueIsKey(pairs: seq<(char, char)>) {
    forall i, j | 0 <= i < |pairs| && 0 <= j < |pairs| :: pairs[i].1 != pairs[j].0
  }

  lemma {:induction false} NonKeyUnchanged(c: char, pairs: seq<(char, char)>)
    requires forall j | 0 <= j < |pairs| :: pairs[j].0 != c
    ensures Sequential(c, pairs) == c
    decreases |pairs|
  {
    if pairs != [] {
      NonKeyUnchanged(c, pairs[1..]);
    }
  }

  /** Replacing the pairs one after another is the same as looking each
      character up once, as long as no replacement is itself a key: the
      order the dictionary is walked in does not matter. */
  lemma {:induction false} SequentialIsLookup(c: char, pairs: seq<(char, char)>)
    requires NoValueIsKey(pairs)
    ensures Sequential(c, pairs) == Lookup(c, pairs)
    decreases |pairs|
  {
    if pairs != [] {
      var rest := pairs[1..];
      assert NoValueIsKey(rest) by {
        forall i, j | 0 <= i < |rest| && 0 <= j < |rest| ensures rest[i].1 != rest[j].0 {
          assert rest[i] == pairs[i + 1] && rest[j] == pairs[j + 1];
        }
      }
      if pairs[0].0 == c {
        forall j | 0 <= j < |rest| ensures rest[j].0 != pairs[0].1 {
          assert rest[j] == pairs[j + 1];
        }
        NonKeyUnchanged(pairs[0].1, rest);
      } else {
        SequentialIsLookup(c, rest);
      }
    }
  }

  /** The dictionary is exactly the table `Fold`. */
  lemma ReplacementsAreFold(c: char)
    ensures NoValueIsKey(Replacements)
    ensures Lookup(c, Replacements) == Fold(c)
  {
  }

  /** The dictionary loop's effect on a whole string: each character is
      replaced by its entry. Latin-1 characters are untouched, and every
      character that changes becomes ASCII. */
  function Typography(s: string): (r: string)
    ensures |r| == |s|
    ensures forall i | 0 <= i < |s| :: s[i] as int < 256 ==> r[i] == s[i]
    ensures forall i | 0 <= i < |s| :: r[i] == s[i] || r[i] as int < 128
    ensures '\U{2022}' !in r
  {
    seq(|s|, i requires 0 <= i < |s| => Fold(s[i]))
  }

  /** `for k, v in replacements.items(): text = text.replace(k, v)`. */
  method ReplaceTypography(text: string) returns (out: string)
    ensures out == Typography(text)
  {
    out := text;
    for j := 0 to |Replacements|
      invariant |out| == |text|
      invariant forall i | 0 <= i < |text| ::
        Sequential(out[i], Replacements[j..]) == Sequential(text[i], Replacements)
    {
      var (k, v) := Replacements[j];
      var next := ReplaceAll(out, [k], [v]);
      ReplaceCharPointwise(out, k, v);
      assert Replacements[j..][1..] == Replacements[j + 1..];
      out := next;
    }
    forall i | 0 <= i < |text| ensures out[i] == Fold(text[i]) {
      assert Replacements[|Replacements|..] == [];
      ReplacementsAreFold(text[i]);
      SequentialIsLookup(text[i], Replacements);
    }
  }

  /** `text.encode('latin-1', 'replace').decode('latin-1')`: every character
      outside Latin-1 becomes '?', the rest are kept. */
  function ForceLatin1(s: string): (r: string)
    ensures |r| == |s| && IsLatin1(r)
    ensures forall i | 0 <= i < |s| :: s[i] as int < 256 ==> r[i] == s[i]
    ensures forall i | 0 <= i < |s| :: s[i] as int >= 256 ==> r[i] == '?'
  {
    seq(|s|, i requires 0 <= i < |s| => if s[i] as int < 256 then s[i] else '?')
  }

  /** The text the PDF renderer splits into lines. */
  function Prepass(text: string): (r: string)
    ensures IsLatin1(r)
    ensures '\U{2022}' !in r
  {
    var t := Typography(MarkdownClean(text));
    ForceLatin1(t)
  }

  // ---------------------------------------------------------------------
  // Cells

  /** A bullet's text: every `-` removed, wherever it stands, then stripped. */
  function BulletText(line: string): (r: string)
    ensures '-' !in r && IsTrimmed(r)
    ensures forall c :: c in r ==> c in line
  {
    RemoveCharGone(line, '-');
    Strip(ReplaceAll(line, "-", ""))
  }

  /** The bullet text is the line with every `-` left out, all other
      characters kept in order, and then stripped. */
  lemma BulletTextKeepsText(line: string)
    ensures BulletText(line) == Strip(Without(line, '-'))
  {
    RemoveCharIsWithout(line, '-');
  }

  /** The usual bullet: a dash, a space, and text without dashes that has no
      white space at its ends loses exactly the dash and the space. */
  lemma DashBulletText(w: string)
    requires '-' !in w && IsTrimmed(w)
    ensures BulletText("- " + w) == w
  {
    LeadingDashRemoved(w);
    assert AllSpace(" ") && AllSpace("");
    StripPadded(" ", w, "");
    assert " " + w + "" == " " + w;
  }

  /** Removing every '-' from "- " + w, where w holds none, leaves " " + w. */
  lemma LeadingDashRemoved(w: string)
    requires '-' !in w
    ensures ReplaceAll("- " + w, "-", "") == " " + w
  {
    var line := "- " + w;
    var rest := " " + w;
    assert '-' !in rest;
    ContainsChar(rest, '-');
    ReplaceAbsent(rest, "-", "");
    assert ReplaceAll(rest, "-", "") == rest;
    assert line[..1] == "-" && line[1..] == rest;
  }

  /** The text of a bullet cell: the glyph and a space, then the text. */
  lemma BulletCellText(b: string)
    ensures var t := [BulletGlyph, ' '] + b;
      |t| >= 2 && t[..2] == [BulletGlyph, ' '] && t[2..] == b
      && (IsLatin1(b) ==> IsLatin1(t))
  {
  }

  /** The cell placed for one kept (stripped) line. */
  function Render(line: string): (p: Cell)
    ensures p.role == Classify(Pdf, line)
    ensures p.rule <==> p.role == SectionHeader
    ensures p.role == SectionHeader ==>
      p.text == StripNumbering(line) && IsUpper(p.text) && |p.text| < MaxHeaderLength
      && '|' !in p.text && p.bold && p.fontSize == 12 && p.align == AlignCenter
      && p.gapBefore == 6 && p.gapAfter == 4
    ensures p.role == ContactLine ==> p.align == AlignCenter && p.fontSize == 9 && p.wraps
    ensures p.role == SubHeader ==> p.align == AlignLeft && p.bold && p.fontSize == 10 && !p.wraps
    ensures p.role == Bullet ==>
      StartsWith(line, "-") && |p.text| >= 2 && p.text[..2] == [BulletGlyph, ' ']
      && '-' !in p.text[2..] && IsTrimmed(p.text[2..]) && p.text[2..] == BulletText(line)
    ensures p.role in {ContactLine, SubHeader, Body} ==> p.text == line
    ensures IsLatin1(line) ==> IsLatin1(p.text)
  {
    match Classify(Pdf, line)
    case SectionHeader =>
      var t := StripNumbering(line);
      assert forall c :: c in t ==> c in line;
      Cell(SectionHeader, t, true, 12, 6, AlignCenter, 6, 4, true, false)
    case ContactLine =>
      Cell(ContactLine, line, false, 9, 5, AlignCenter, 0, 4, false, true)
    case SubHeader =>
      Cell(SubHeader, line, true, 10, 6, AlignLeft, 4, 2, false, false)
    case Bullet =>
      BulletCellText(BulletText(line));
      Cell(Bullet, [BulletGlyph, ' '] + BulletText(line), false, 10, 5, Justify, 0, 2, false, true)
    case Body =>
      Cell(Body, line, false, 10, 5, Justify, 0, 1, false, true)
  }

  /** The cells `create_pdf` places for `text`. */
  function DocumentCells(text: string): seq<Cell>
  {
    Emit(Pdf, Render, Split(Prepass(text), '\n'))
  }

  /** `create_pdf`: the loop over the lines places exactly the cells
      `DocumentCells` describes. */
  method CreatePdf(text: string) returns (file: PdfFile)
    ensures file.pages == 1
    ensures file.breakMargin == PageBreakMargin
    ensures file.cells == DocumentCells(text)
  {
    var pdf := new Document();
    pdf.AddPage();
    pdf.SetAutoPageBreak(PageBreakMargin);
    var t := MarkdownClean(text);
    t := ReplaceTypography(t);
    t := ForceLatin1(t);
    assert t == Prepass(text);
    var lines := Split(t, '\n');
    for i := 0 to |lines|
      invariant pdf.pages == 1
      invariant pdf.breakMargin == Some(PageBreakMargin)
      invariant pdf.cells == Emit(Pdf, Render, lines[..i])
    {
      var line := Strip(lines[i]);
      EmitStep(Pdf, Render, lines, i);
      if line != [] && !Contains(line, "___") {
        pdf.Place(Render(line));
      }
    }
    assert lines[..|lines|] == lines;
    file := PdfFile(pdf.pages, pdf.breakMargin.value, pdf.cells);
  }

  // ---------------------------------------------------------------------
  // Properties of the layout

  /** One cell per kept line, in order; each kept line is free of `___`,
      and every cell's text is Latin-1, so the final Latin-1 encoding of the
      document cannot fail on it. */
  lemma CellsOfKeptLines(text: string)
    ensures var kept := Kept(Pdf, Split(Prepass(text), '\n'));
      |DocumentCells(text)| == |kept|
      && forall i | 0 <= i < |kept| ::
           DocumentCells(text)[i] == Render(kept[i])
           && DocumentCells(text)[i].role == Classify(Pdf, kept[i])
           && !Contains(kept[i], "___")
           && IsLatin1(DocumentCells(text)[i].text)
  {
    var lines := Split(Prepass(text), '\n');
    var kept := Kept(Pdf, lines);
    EmitKept(Pdf, Render, lines);
    SplitChars(Prepass(text), '\n');
    KeptChars(Pdf, lines, Prepass(text));
    forall i | 0 <= i < |kept|
      ensures !Contains(kept[i], "___") && IsLatin1(Render(kept[i]).text)
    {
      assert !Dropped(Pdf, kept[i]);
      forall c | c in kept[i] ensures c as int < 256 {
        assert c in Prepass(text);
      }
    }
  }
}
