# CV builder layout core, in Dafny

This project models the deterministic part of a resume-builder wizard
(`app.py`). A hosted language model rewrites the user's entries into plain
resume text, and two renderers turn that text into documents:

- `create_docx` builds a word-processor document. It sets half-inch
  margins, deletes every `**` and then every `##`, and splits the text into
  lines. It strips each line and skips blank ones. It gives each remaining
  line one role and appends one styled paragraph.
- `create_pdf` builds a PDF. It deletes the same markdown tokens, folds
  seven typographic characters to ASCII and forces the text into Latin-1.
  It then walks the lines the same way, also skipping lines holding `___`,
  and places one cell per kept line.

The role of a line comes from an ordered rule list:

1. Section header: the line with its leading `1.`-style numbering removed
   is upper case (`str.isupper`) and shorter than 60 characters, and the line
   holds no `|`.
2. Contact line: the line holds both `|` and `@`.
3. Sub-header: the line holds `|` but no `@`.
4. Bullet: the line starts with `-` (the word-processor renderer also
   accepts `•`).
5. Body paragraph: anything else.

Three smaller pieces of the wizard are modelled too:

- the download file names, built from the user's name with every character
  outside `[a-zA-Z0-9]` turned into `_`;
- the contact line, the non-empty contact fields in a fixed order joined by
  `" | "`;
- the step counter of the six-page wizard.

Python's string operations are modelled exactly where the layout depends on
them (`PyStr`), except as listed under "Left out":

- `strip` and `\s` use CPython's white-space set;
- the numbering pattern `^\d+\.\s*` is compiled without `re.MULTILINE`, so
  `^` matches only at the start of the line and `re.sub` removes at most
  one numbering, the leading one;
- `replace` is a left-to-right scan for non-overlapping matches;
- `split` always returns at least one piece.

Modules:

- `PyStr` (pystr.dfy): Python `str` semantics.
- `TextLayout` (textlayout.dfy): cleanup, numbering strip, classifier, the
  shared strip/skip/emit loop.
- `Docx` (docx.dfy): the word-processor renderer, a `Document` class with
  `CreateDocx` proved against `DocumentParagraphs`.
- `Pdf` (pdf.dfy): the PDF renderer, a `Document` class with `CreatePdf`
  proved against `DocumentCells`, and the replacement loop
  `ReplaceTypography` proved against `Typography`.
- `Agreement` (agreement.dfy): how the two renderers relate.
- `Scenario` (scenario.dfy): a typical resume's lines, classified.
- `FileNames` (filenames.dfy), `Contact` (contact.dfy), `Wizard`
  (wizard.dfy).

Where descriptions of this tool and `app.py` differ, the model follows
`app.py`:

- There is no positional title rule. The name line is a section header
  because it is upper case. In the word-processor document it is centered
  unless it contains `NAME`; the PDF centers every header
  (`Scenario.NameLineIsCenteredHeader`).
- There is no `### ` header convention, no right-to-left shaping and no
  font download. The PDF uses the core Latin-1 fonts, and every other
  character becomes `?`.
- The file-name sanitizer keeps only ASCII letters and digits, does not
  collapse or trim, and falls back to `User` only when no name is stored.
  An empty stored name gives `_CV.pdf`.

## Model

| member | source | states |
|---|---|---|
| PyStr.Strip | app.py:81 | the result is a contiguous slice of the line with no white space at either end, starting after the leading white space; it is empty exactly when the line is all white space |
| PyStr.StripChars | app.py:146 | stripping keeps only characters of the line, and keeps every one of them that is not white space |
| PyStr.Split | app.py:80 | splitting on a character gives at least one piece and no piece holds the separator |
| PyStr.SplitJoin | app.py:80 | joining the pieces of a split with the separator gives back the text, so no character is lost or moved |
| PyStr.JoinSplit | app.py:80 | splitting a separator-joined list of separator-free pieces gives back that list |
| PyStr.ReplaceAll | app.py:78 | deleting occurrences never lengthens the text, and replacing one character by one character keeps the length |
| PyStr.UpperIgnoresUncased | app.py:87 | `isupper` ignores uncased characters: appending them keeps the verdict, and a text of only uncased characters is not upper case |
| PyStr.RemoveCharIsWithout | app.py:110 | deleting one character with `replace` leaves every other character, in order |
| PyStr.SplitChars | app.py:145 | every piece of a split holds only characters of the input |
| TextLayout.MarkdownClean | app.py:78 | after deleting `**` and then `##`, no `##` remains, no character is added and the text is never longer; `CleanRemovesBold` adds that no `**` remains in text without `#` |
| TextLayout.CleanRemovesBold | app.py:78 | in text without `#`, no `**` survives the cleanup |
| TextLayout.CleanKeepsText | app.py:78 | the cleanup removes only `*` and `#`: every other character survives, in order; text without either is unchanged |
| TextLayout.MarkdownCanLeaveBold | app.py:133 | the cleanup does not remove all bold markers: `*##*` becomes `**` |
| TextLayout.StripNumbering | app.py:85 | a line starting with one or more digits and a dot loses the digits, the dot and the white space after them; any other line is unchanged; the result never starts with the white space that followed a removed numbering |
| TextLayout.NumberingRemoved | app.py:85 | `digits + "." + spaces + w`, with `w` not starting with white space, becomes exactly `w` |
| TextLayout.NumberingStrippedOnce | app.py:150 | only the first numbering is removed: `1. 2. X` becomes `2. X` |
| TextLayout.Classify | app.py:87-116 | each rule holds exactly when its own condition does: header iff upper-case, short, pipe-free; contact iff `|` and `@`; sub-header iff `|` without `@`; bullet iff no pipe, not a header and a marker; body otherwise |
| TextLayout.CapitalBulletIsHeader | app.py:152-172 | the header rule comes first: `- SQL` is a section header, not a bullet, in both renderers |
| TextLayout.Kept | app.py:145-148 | the kept lines are non-empty, stripped, never dropped, and no more than the input lines |
| TextLayout.KeptSelected | app.py:145-148 | there is one kept line per input line whose stripped form is not dropped, in the input order, each that line stripped |
| TextLayout.KeptHoldsEveryLine | app.py:80-82 | every input line whose stripped form is not dropped appears, stripped, among the kept lines |
| TextLayout.EmitIsComprehension | app.py:80-116 | the strip/skip/emit loop is the comprehension `[render(l.strip()) for l in lines if not dropped(l.strip())]` |
| TextLayout.EmitSelected | app.py:145-184 | the loop emits one element per kept line, at increasing line positions, each the rendering of that line stripped |
| TextLayout.EmitAppend | app.py:80-82 | lines are handled independently: the elements of two runs of lines are the concatenation of each run's elements |
| TextLayout.EmitStep | app.py:145-148 | one more line appends its element after the earlier ones exactly when it is kept |
| TextLayout.DroppedLineEmitsNothing | app.py:146-148 | a blank line (or, in the PDF, a `___` line) contributes nothing wherever it stands |
| TextLayout.EmitKept | app.py:80-116 | the output has one element per kept line, in order, each the rendering of that line |
| TextLayout.KeptChars | app.py:81 | every character of a kept line comes from the text the lines were split from |
| Docx.Document.constructor | app.py:69 | a new document has no margin set and no paragraphs |
| Docx.Document.SetMargins | app.py:70-75 | all four margins take the given value; the paragraphs are unchanged |
| Docx.Document.AddParagraph | app.py:97 | appends exactly one paragraph; the margin is unchanged |
| Docx.BulletText | app.py:110 | the bullet text holds no `•` and no `-`, is stripped, and only holds characters of the line |
| Docx.BulletTextKeepsText | app.py:110 | the bullet text is the line with every `•` and `-` left out, every other character kept in order, then stripped |
| Docx.LeadBulletText | app.py:108-110 | a line of `-` or `•`, a space, and stripped text holding no `-` or `•` gives exactly that text, whatever other characters it holds |
| Docx.Render | app.py:87-116 | the paragraph carries the line's role; headers are the numbering-stripped line, bold, 12 pt, 12/6 pt spacing, left-aligned exactly when the line holds `NAME`; contact lines centered with 12 pt after; sub-headers bold 11 pt left with 8 pt before; bullets and only bullets use `List Bullet`, with the line's bullet text; contact, sub-header and body text is the line itself |
| Docx.CreateDocx | app.py:68-121 | the margins are half an inch (457200 EMU) and the paragraphs are exactly `DocumentParagraphs(text)` |
| Docx.ParagraphsOfKeptLines | app.py:80-116 | the document has one paragraph per kept line, in order, each rendering that line with its role |
| Pdf.Document.constructor | app.py:128 | a new document has no pages, no page-break margin and no cells |
| Pdf.Document.AddPage | app.py:129 | adds one page and changes nothing else |
| Pdf.Document.SetAutoPageBreak | app.py:130 | sets the page-break margin and changes nothing else |
| Pdf.Document.Place | app.py:153-181 | appends exactly one cell and changes nothing else |
| Pdf.NonKeyUnchanged | app.py:138 | a character that is no key passes the replacement loop unchanged |
| Pdf.SequentialIsLookup | app.py:138 | when no replacement value is a key, replacing the pairs one after another equals one lookup per character, so the dictionary order does not matter |
| Pdf.ReplacementsAreFold | app.py:134-137 | the dictionary has no value that is a key, and looking a character up in it is the dash/quote/bullet fold |
| Pdf.Typography | app.py:134-138 | the fold keeps the length, leaves every Latin-1 character alone, turns every changed character into ASCII and leaves no `•` |
| Pdf.ReplaceTypography | app.py:138 | the dictionary loop of `str.replace` calls produces exactly `Typography(text)` |
| Pdf.ForceLatin1 | app.py:140-143 | the Latin-1 round trip keeps the length, keeps every Latin-1 character and turns every other one into `?` |
| Pdf.Prepass | app.py:133-143 | the text the PDF lines come from is Latin-1 and holds no `•` |
| Pdf.BulletText | app.py:174 | the bullet text holds no `-`, is stripped, and only holds characters of the line |
| Pdf.BulletTextKeepsText | app.py:174 | the bullet text is the line with every `-` left out, every other character kept in order, then stripped |
| Pdf.DashBulletText | app.py:174 | a line `- ` followed by stripped, dash-free text keeps exactly that text |
| Pdf.LeadingDashRemoved | app.py:174 | removing every `-` from `- ` plus dash-free text leaves a space and that text |
| Pdf.Render | app.py:152-181 | the cell carries the line's role; only headers get the rule; headers are the numbering-stripped line, bold 12 pt centered with gaps 6/4; contact lines 9 pt centered and wrapping; sub-headers bold 10 pt left; bullets start with `-` and become chr(149), a space, and the line's bullet text; a Latin-1 line gives a Latin-1 cell |
| Pdf.CreatePdf | app.py:123-187 | one page is added, the page-break margin is 15 and the cells are exactly `DocumentCells(text)` |
| Pdf.CellsOfKeptLines | app.py:145-184 | one cell per kept line, in order, with its role; no kept line holds `___`; every cell text is Latin-1, so the final Latin-1 encoding cannot fail on the cell texts |
| Agreement.AsciiPrepassIsCleanup | app.py:133-143 | on ASCII text the PDF pre-pass is just the markdown cleanup |
| Agreement.LineAgreement | app.py:109-175 | on an ASCII line both renderers give the same role and the same text, except that the PDF bullet carries chr(149) and a space in front |
| Agreement.SameKeptLines | app.py:148 | without `___` lines both renderers keep the same lines |
| Agreement.RenderersAgree | app.py:68-187 | on ASCII text without `___` lines, both documents have the same number of elements with the same roles in the same order and the same texts up to the PDF bullet prefix |
| Agreement.EnDashLineDiverges | app.py:109-172 | `– Led` is a body paragraph in the word-processor document, while the PDF pre-pass turns it into `- Led`, which is a bullet |
| Agreement.LeadingDashFolded | app.py:133-143 | a marker-free Latin-1 line led by an en dash reaches the PDF line split with the dash turned into `-` and nothing else changed |
| Scenario.NameLineIsCenteredHeader | app.py:87-94 | a name line such as `JOHN SMITH` is a section header, centered, and gets the rule in the PDF |
| Scenario.ContactAndSubHeader | app.py:161-169 | a phone/city/e-mail line is a contact line, a title/company/years line a sub-header |
| Scenario.BulletLine | app.py:109-172 | a dash-led line with lower-case letters is a bullet in both renderers |
| FileNames.SafeName | app.py:322 | the sanitized name has the same length, only ASCII letters, digits and `_`, keeps each ASCII letter or digit in place and turns every other character into `_` |
| FileNames.SafeNameIdempotent | app.py:322 | sanitizing twice is sanitizing once |
| FileNames.FileNamesAreSafe | app.py:322-324 | both file names share the sanitized stem with suffixes `_CV.pdf` / `_CV.docx`; the stem has no path separator, dot or control character; without a stored name they are `User_CV.pdf` / `User_CV.docx` |
| FileNames.PdfFileName | app.py:323 | the PDF name is one safe character per character of the name, then `_CV.pdf`; `User_CV.pdf` without a stored name |
| FileNames.DocxFileName | app.py:324 | the word-processor name is one safe character per character of the name, then `_CV.docx`; `User_CV.docx` without a stored name |
| Contact.Parts | app.py:334 | every part is non-empty and every non-empty listed field is among the parts |
| Contact.PartsIsComprehension | app.py:334 | the parts are the comprehension `[cv_data[k] for k in keys if cv_data.get(k)]` |
| Contact.PartsSelected | app.py:334 | one part per filled key, at increasing key positions, each the value stored under that key |
| Contact.Line | app.py:335 | the contact line is empty exactly when there are no parts |
| Contact.SplitJoined | app.py:335 | splitting the joined line on `|` gives back each part with its neighbouring separator spaces attached |
| Contact.LineSplitsBack | app.py:334-335 | when the fields hold no `|` and no surrounding white space, splitting the line on `|` and stripping each piece returns exactly the non-empty fields, in order |
| Contact.LineEmptyIffNoField | app.py:334-335 | the contact line is empty exactly when no contact field is set |
| Contact.LineIsClassifiedContact | app.py:335 | a contact line of two or more fields, one holding `@`, is classified as a contact line by both renderers |
| Wizard.Session.constructor | app.py:205-208 | a new session starts on page 1 with no data and nothing generated |
| Wizard.Session.Guard | app.py:210 | a counter above 6 is put back to 1, any other counter is kept, and nothing else changes |
| Wizard.Session.NextStep | app.py:212 | the counter goes up by one and nothing else changes |
| Wizard.Session.PrevStep | app.py:213 | the counter goes down by one and nothing else changes |
| Wizard.Session.StartOver | app.py:415-416 | page 1, the entered data and the resume are cleared; the cover letter and the ATS analysis are kept |
| Wizard.Session.Press | app.py:245-253 | a button press followed by the reload's guard leaves the counter at `StepAfter` of the old counter |
| Wizard.StepAfterInRange | app.py:245-313 | on a page in 1..6, a shown button lands on a page in 1..6: Next moves forward (not from an incomplete page 1), Back moves back, Start Over goes to 1 |
| Wizard.RunStaysInRange | app.py:210-213 | from a page in 1..6, every run of shown buttons keeps the counter in 1..6, so the reset to page 1 never fires |
| Wizard.ResultNeedsPersonalInfo | app.py:245-253 | leaving page 1 requires pressing Next with the name, e-mail and target job filled in |

## Left out

- The Streamlit user interface: forms, columns, tabs, sidebar, progress bar (its `step / 6` value is floating point), spinners, downloads and `st.rerun`. Only the step counter and the three values Start Over touches are modelled.
- The language-model call (`safe_generate`) and the prompt text: they are network I/O and string templates. The resume text the renderers receive is a parameter.
- Serialising the documents to bytes (`doc.save`, `pdf.output`): library internals. The model records each document's margin or page-break margin and its ordered paragraphs or cells. Cursor moves (`ln`), the header rule and multi-line wrapping are recorded as cell attributes, not as coordinates.
- Automatic page breaking and text wrapping: font metrics are not modelled. The PDF's page count is the number of `add_page` calls.
- The `except` fallback around the Latin-1 round trip: encoding with `'replace'` cannot raise on a `str`, so that branch is unreachable.
- PyStr.IsUpper: upper and lower case follow the Unicode properties on Latin-1 only. Characters at or above U+0100 count as uncased. In the word-processor renderer this errs both ways: a line of Greek or Cyrillic capitals is not a header here, and a lower-case letter above U+00FF (such as `ő` in `SZŐLŐSI ő`) does not stop a header here although Python's `isupper()` is then false. In the PDF renderer every character is Latin-1 by then, so that renderer is exact.
- PyStr.IsDecimal: `\d` covers ASCII digits and the two Arabic-Indic digit blocks only, not every Unicode decimal digit.
- Wizard.Session.Press: the data each form writes into the session is not modelled, only whether page 1's required fields were given.
