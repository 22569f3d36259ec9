/** A resume as the rewriting service lays it out: a name line, a contact
    line, section headers, a sub-header and a bullet. The classifier has no
    positional rule: the name line is a section header because it is upper
    case, and it is centered because it does not say "NAME". */
module Scenario {
  import opened PyStr
  import opened TextLayout
  import Docx
  import Pdf

  lemma NameLineIsCenteredHeader()
    ensures Classify(Docx, "JOHN SMITH") == SectionHeader
    ensures Docx.Render("JOHN SMITH").alignment == Some(Docx.Center)
    ensures Pdf.Render("JOHN SMITH").rule
  {
    var s := "JOHN SMITH";
    assert !IsDecimal(s[0]);
    assert StripNumbering(s) == s;
    assert IsUpperCase(s[0]);
    assert forall i | 0 <= i < |s| :: !IsLowerCase(s[i]) && s[i] != '|';
    assert IsHeaderLine(s);
    assert !Contains(s, "NAME") by {
      assert 'A' in "NAME";
      assert 'A' !in s;
      if Contains(s, "NAME") {
        ContainsNeedleChars(s, "NAME");
      }
    }
  }

  lemma ContactAndSubHeader()
    ensures Classify(Pdf, "+1 555 | New York | john@x.com") == ContactLine
    ensures Classify(Pdf, "Senior Dev | Acme | 2020-2023") == SubHeader
  {
    ContactExample();
    SubHeaderExample();
  }

  lemma ContactExample()
    ensures Classify(Pdf, "+1 555 | New York | john@x.com") == ContactLine
  {
  }

  lemma SubHeaderExample()
    ensures Classify(Pdf, "Senior Dev | Acme | 2020-2023") == SubHeader
  {
    var h := "Senior Dev | Acme | 2020-2023";
    assert h[11] == '|';
    assert forall i | 0 <= i < |h| :: h[i] != '@';
  }

  lemma BulletLine()
    ensures Classify(Pdf, "- Shipped 3 products") == Bullet
    ensures Classify(Docx, "- Shipped 3 products") == Bullet
  {
    var b := "- Shipped 3 products";
    assert !IsDecimal(b[0]);
    assert StripNumbering(b) == b;
    assert IsLowerCase(b[3]);
    assert !IsHeaderLine(b);
    assert forall i | 0 <= i < |b| :: b[i] != '|';
    assert StartsWith(b, "-");
  }
}
