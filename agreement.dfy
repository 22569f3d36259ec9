/** The two renderers of app.py side by side. On ASCII text whose lines
    hold no `___` they keep the same lines, give them the same roles in the
    same order, and emit the same texts, except that a PDF bullet carries
    the bullet glyph and a space in front. Outside that domain they differ:
    `___` lines exist only in the word-processor output, and a line led by
    an en or em dash is a PDF bullet but a word-processor body paragraph. */
module Agreement {
  import opened PyStr
  import opened TextLayout
  import Docx
  import Pdf

  /** The PDF pre-pass changes nothing in ASCII text. */
  lemma AsciiPrepassIsCleanup(text: string)
    requires IsAscii(text)
    ensures Pdf.Prepass(text) == MarkdownClean(text)
  {
    var m := MarkdownClean(text);
    var t := Pdf.Typography(m);
    assert forall i | 0 <= i < |m| :: m[i] in m;
    assert t == m;
    assert Pdf.ForceLatin1(t) == t;
  }

  /** On one kept ASCII line the two classifications coincide, and so do the
      texts, up to the PDF bullet prefix. */
  lemma LineAgreement(line: string)
    requires IsAscii(line)
    ensures Classify(Docx, line) == Classify(Pdf, line)
    ensures Pdf.Render(line).text ==
      (if Classify(Docx, line) == Bullet then [Pdf.BulletGlyph, ' '] else []) + Docx.Render(line).text
  {
    assert |line| > 0 ==> line[0] in line;
    assert StartsWithMarker(Docx, line) == StartsWithMarker(Pdf, line);
    var role := Classify(Docx, line);
    assert role == Classify(Pdf, line);
    if role == Bullet {
      ContainsChar(line, '\U{2022}');
      ReplaceAbsent(line, "\U{2022}", "");
      assert Docx.BulletText(line) == Pdf.BulletText(line);
    }
  }

  /** Without `___`, both renderers keep the same lines. */
  lemma {:induction false} SameKeptLines(lines: seq<string>)
    requires forall i | 0 <= i < |lines| :: !Contains(Strip(lines[i]), "___")
    ensures Kept(Docx, lines) == Kept(Pdf, lines)
    decreases |lines|
  {
    if lines != [] {
      SameKeptLines(lines[..|lines| - 1]);
    }
  }

  /** For ASCII text none of whose cleaned lines holds `___`, the
      word-processor paragraphs and the PDF cells match one for one: same
      number, same roles in the same order, same texts up to the bullet
      prefix. */
  lemma RenderersAgree(text: string)
    requires IsAscii(text)
    requires forall line | line in Split(MarkdownClean(text), '\n') :: !Contains(Strip(line), "___")
    ensures |Docx.DocumentParagraphs(text)| == |Pdf.DocumentCells(text)|
    ensures forall i | 0 <= i < |Pdf.DocumentCells(text)| ::
      Pdf.DocumentCells(text)[i].role == Docx.DocumentParagraphs(text)[i].role
      && Pdf.DocumentCells(text)[i].text ==
         (if Docx.DocumentParagraphs(text)[i].role == Bullet then [Pdf.BulletGlyph, ' '] else [])
         + Docx.DocumentParagraphs(text)[i].text
  {
    var lines := Split(MarkdownClean(text), '\n');
    AsciiPrepassIsCleanup(text);
    assert Split(Pdf.Prepass(text), '\n') == lines;
    assert Pdf.DocumentCells(text) == Emit(Pdf, Pdf.Render, lines);
    forall i | 0 <= i < |lines| ensures !Contains(Strip(lines[i]), "___") {
      assert lines[i] in lines;
    }
    KeptLinesAscii(text);
    AgreeOnLines(lines);
  }

  /** The kept lines of ASCII text are ASCII. */
  lemma KeptLinesAscii(text: string)
    requires IsAscii(text)
    ensures var kept := Kept(Docx, Split(MarkdownClean(text), '\n'));
      forall i | 0 <= i < |kept| :: IsAscii(kept[i])
  {
    var lines := Split(MarkdownClean(text), '\n');
    var kept := Kept(Docx, lines);
    SplitChars(MarkdownClean(text), '\n');
    KeptChars(Docx, lines, MarkdownClean(text));
    forall i | 0 <= i < |kept| ensures IsAscii(kept[i]) {
      forall c | c in kept[i] ensures c as int < 128 {
        assert c in MarkdownClean(text);
      }
    }
  }

  /** Lines without `___` whose kept lines are ASCII render alike. */
  lemma AgreeOnLines(lines: seq<string>)
    requires forall i | 0 <= i < |lines| :: !Contains(Strip(lines[i]), "___")
    requires forall i | 0 <= i < |Kept(Docx, lines)| :: IsAscii(Kept(Docx, lines)[i])
    ensures |Emit(Docx, Docx.Render, lines)| == |Emit(Pdf, Pdf.Render, lines)|
    ensures forall i | 0 <= i < |Emit(Pdf, Pdf.Render, lines)| ::
      Emit(Pdf, Pdf.Render, lines)[i].role == Emit(Docx, Docx.Render, lines)[i].role
      && Emit(Pdf, Pdf.Render, lines)[i].text ==
         (if Emit(Docx, Docx.Render, lines)[i].role == Bullet then [Pdf.BulletGlyph, ' '] else [])
         + Emit(Docx, Docx.Render, lines)[i].text
  {
    SameKeptLines(lines);
    var kept := Kept(Docx, lines);
    EmitKept(Docx, Docx.Render, lines);
    EmitKept(Pdf, Pdf.Render, lines);
    forall i | 0 <= i < |kept|
      ensures Classify(Docx, kept[i]) == Classify(Pdf, kept[i])
      ensures Pdf.Render(kept[i]).text ==
        (if Classify(Docx, kept[i]) == Bullet then [Pdf.BulletGlyph, ' '] else []) + Docx.Render(kept[i]).text
    {
      LineAgreement(kept[i]);
    }
  }

  /** A line led by an en dash: a body paragraph in the word-processor
      document, a bullet in the PDF, where the dash has become '-'. */
  lemma EnDashLineDiverges()
    ensures Classify(Docx, "\U{2013} Led") == Body
    ensures Pdf.Prepass("\U{2013} Led") == "- Led"
    ensures Classify(Pdf, "- Led") == Bullet
  {
    EnDashLineIsBody();
    EnDashFolded();
    DashLineIsBullet();
  }

  /** Before splitting, the PDF renderer turns the en dash into '-'. */
  lemma EnDashFolded()
    ensures Pdf.Prepass("\U{2013} Led") == "- Led"
  {
    var w := " Led";
    assert forall i | 0 <= i < |w| :: !IsMarker(w[i]) && w[i] as int < 256;
    LeadingDashFolded(w);
    assert ['\U{2013}'] + w == "\U{2013} Led";
    assert ['-'] + w == "- Led";
  }

  /** A line led by an en dash and free of markers and of characters
      outside Latin-1 reaches the line split with the dash turned into '-'
      and nothing else changed. */
  lemma LeadingDashFolded(w: string)
    requires forall i | 0 <= i < |w| :: !IsMarker(w[i]) && w[i] as int < 256
    ensures Pdf.Prepass(['\U{2013}'] + w) == ['-'] + w
  {
    var s := ['\U{2013}'] + w;
    assert forall i | 1 <= i < |s| :: s[i] == w[i - 1];
    CleanKeepsText(s);
    var t := Pdf.Typography(s);
    var d := ['-'] + w;
    assert t == d by {
      assert |t| == |d|;
      forall i | 0 <= i < |t| ensures t[i] == d[i] {
        if i > 0 {
          assert s[i] == d[i];
        }
      }
    }
    var r := Pdf.ForceLatin1(d);
    assert r == d by {
      forall i | 0 <= i < |d| ensures r[i] == d[i] {
        assert d[i] as int < 256;
      }
    }
  }

  lemma EnDashLineIsBody()
    ensures Classify(Docx, "\U{2013} Led") == Body
  {
    var s := "\U{2013} Led";
    assert IsLowerCase(s[3]);
    assert StripNumbering(s) == s;
    assert !IsHeaderLine(s);
    assert forall i | 0 <= i < |s| :: s[i] != '|';
    assert !StartsWith(s, "-") && !StartsWith(s, "\U{2022}");
  }

  lemma DashLineIsBullet()
    ensures Classify(Pdf, "- Led") == Bullet
  {
    var t := "- Led";
    assert IsLowerCase(t[3]);
    assert StripNumbering(t) == t;
    assert !IsHeaderLine(t);
    assert forall i | 0 <= i < |t| :: t[i] != '|';
    assert StartsWith(t, "-");
  }
}
