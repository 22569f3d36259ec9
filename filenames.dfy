/** The download file names (app.py:322-324): the user's name with every
    character outside [a-zA-Z0-9] replaced by '_', and a fixed suffix per
    format. */
module FileNames {

  predicate IsAsciiAlnum(c: char) {
    ('a' <= c <= 'z') || ('A' <= c <= 'Z') || ('0' <= c <= '9')
  }

  /** `re.sub(r'[^a-zA-Z0-9]', '_', name)`: same length, only ASCII letters,
      digits and '_', each ASCII letter or digit where it was, everything
      else (spaces, slashes, dots, non-Latin letters) turned into '_'. */
  function SafeName(name: string): (r: string)
    ensures |r| == |name|
    ensures forall i | 0 <= i < |r| :: IsAsciiAlnum(r[i]) || r[i] == '_'
    ensures forall i | 0 <= i < |r| :: IsAsciiAlnum(name[i]) ==> r[i] == name[i]
    ensures forall i | 0 <= i < |r| :: !IsAsciiAlnum(name[i]) ==> r[i] == '_'
  {
    seq(|name|, i requires 0 <= i < |name| => if IsAsciiAlnum(name[i]) then name[i] else '_')
  }

  /** Sanitizing a sanitized name changes nothing. */
  lemma SafeNameIdempotent(name: string)
    ensures SafeName(SafeName(name)) == SafeName(name)
  {
  }

  /** `cv_data.get('name', 'User')`: the stored name, or "User" when no name
      was ever stored. An empty stored name stays empty. */
  function DisplayName(cvData: map<string, string>): string
  {
    if "name" in cvData then cvData["name"] else "User"
  }

  /** `f"{safe_name}_CV.pdf"`: the sanitized name, one character per
      character of the name, then the suffix. */
  function PdfFileName(cvData: map<string, string>): (r: string)
    ensures |r| == |DisplayName(cvData)| + 7 && r[|r| - 7..] == "_CV.pdf"
    ensures forall i | 0 <= i < |r| - 7 :: IsAsciiAlnum(r[i]) || r[i] == '_'
    ensures "name" !in cvData ==> r == "User_CV.pdf"
  {
    SafeName(DisplayName(cvData)) + "_CV.pdf"
  }

  /** `f"{safe_name}_CV.docx"`. */
  function DocxFileName(cvData: map<string, string>): (r: string)
    ensures |r| == |DisplayName(cvData)| + 8 && r[|r| - 8..] == "_CV.docx"
    ensures forall i | 0 <= i < |r| - 8 :: IsAsciiAlnum(r[i]) || r[i] == '_'
    ensures "name" !in cvData ==> r == "User_CV.docx"
  {
    SafeName(DisplayName(cvData)) + "_CV.docx"
  }

  /** Both names share the sanitized stem and differ only in the suffix; the
      stem holds no path separator, dot or control character, so each name
      is a single path component whose only dot starts its extension. A
      missing name gives "User_CV.pdf" and "User_CV.docx". */
  lemma FileNamesAreSafe(cvData: map<string, string>)
    ensures var stem := SafeName(DisplayName(cvData));
      PdfFileName(cvData) == stem + "_CV.pdf"
      && DocxFileName(cvData) == stem + "_CV.docx"
      && |stem| == |DisplayName(cvData)|
      && forall c | c in stem :: c != '/' && c != '\\' && c != '.' && c as int >= 32
    ensures "name" !in cvData ==>
      PdfFileName(cvData) == "User_CV.pdf" && DocxFileName(cvData) == "User_CV.docx"
  {
  }
}
