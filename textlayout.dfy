/** The line classifier shared by the two renderers of app.py: markdown
    cleanup, the numbering strip, the ordered rule list that gives each kept
    line exactly one role, and which lines a renderer keeps at all. */
module TextLayout {
  import opened PyStr

  datatype Option<T> = None | Some(value: T)

  /** The five roles a kept line can take, in the order the rules try them. */
  datatype Role = SectionHeader | ContactLine | SubHeader | Bullet | Body

  /** The two renderers: the word-processor document and the PDF. */
  datatype Target = Docx | Pdf

  /** A section header must be shorter than this, after the numbering strip. */
  const MaxHeaderLength: nat := 60

  predicate IsMarker(c: char) {
    c == '*' || c == '#'
  }

  /** The text with every `*` and `#` taken out: what the markdown cleanup
      must leave alone. */
  function Unmarked(s: string): string
    decreases |s|
  {
    if s == [] then []
    else (if IsMarker(s[0]) then [] else [s[0]]) + Unmarked(s[1..])
  }

  /** Text without markers is its own unmarked form. */
  lemma {:induction false} NoMarkersUnmarked(s: string)
    ensures (forall c | c in s :: !IsMarker(c)) ==> Unmarked(s) == s
    decreases |s|
  {
    if s != [] && forall c | c in s :: !IsMarker(c) {
      assert forall c | c in s[1..] :: c in s;
      NoMarkersUnmarked(s[1..]);
      assert s == [s[0]] + s[1..];
    }
  }

  /** Both renderers first delete every `**` and then every `##`. No `##`
      survives and nothing is added. */
  function MarkdownClean(text: string): (r: string)
    ensures !Contains(r, "##")
    ensures forall c :: c in r ==> c in text
    ensures |r| <= |text|
  {
    var noBold := ReplaceAll(text, "**", "");
    DeleteSubset(text, "**");
    DeleteDoubletGone(noBold, '#');
    DeleteSubset(noBold, "##");
    ReplaceAll(noBold, "##", "")
  }

  /** The cleanup removes markers only: every character other than `*` and
      `#` is kept, in order, and text without markers comes back unchanged. */
  lemma CleanKeepsText(text: string)
    ensures Unmarked(MarkdownClean(text)) == Unmarked(text)
    ensures (forall c | c in text :: !IsMarker(c)) ==> MarkdownClean(text) == text
  {
    var noBold := ReplaceAll(text, "**", "");
    DeleteMarkersKeepsText(text, "**");
    DeleteMarkersKeepsText(noBold, "##");
    NoMarkersUnmarked(text);
    NoMarkersUnmarked(MarkdownClean(text));
  }

  /** Bold markers are removed: without `#` in the text, no `**` is left.
      With a `#` between two stars they can survive (`MarkdownCanLeaveBold`). */
  lemma CleanRemovesBold(text: string)
    ensures '#' !in text ==> !Contains(MarkdownClean(text), "**")
  {
    if '#' !in text {
      var noBold := ReplaceAll(text, "**", "");
      DeleteDoubletGone(text, '*');
      DeleteSubset(text, "**");
      if Contains(noBold, "##") {
        ContainsNeedleChars(noBold, "##");
        assert false;
      }
      ReplaceAbsent(noBold, "##", "");
    }
  }

  lemma {:induction false} UnmarkedAppend(a: string, b: string)
    ensures Unmarked(a + b) == Unmarked(a) + Unmarked(b)
    decreases |a|
  {
    if a != [] {
      assert (a + b)[1..] == a[1..] + b;
      UnmarkedAppend(a[1..], b);
    } else {
      assert a + b == b;
    }
  }

  /** Deleting a pattern made of markers keeps everything else in order. */
  lemma {:induction false} DeleteMarkersKeepsText(s: string, pat: string)
    requires pat != [] && forall c | c in pat :: IsMarker(c)
    ensures Unmarked(ReplaceAll(s, pat, [])) == Unmarked(s)
    decreases |s|
  {
    if |s| >= |pat| {
      var rest := if s[..|pat|] == pat then s[|pat|..] else s[1..];
      DeleteMarkersKeepsText(rest, pat);
      var t := ReplaceAll(rest, pat, []);
      if s[..|pat|] == pat {
        assert ReplaceAll(s, pat, []) == [] + t;
        assert s == pat + rest;
        UnmarkedAppend(pat, rest);
        MarkersOnly(pat);
        assert [] + t == t && [] + Unmarked(rest) == Unmarked(rest);
      } else {
        var u := [s[0]] + t;
        assert ReplaceAll(s, pat, []) == u;
        assert u != [] && u[0] == s[0] && u[1..] == t;
        assert Unmarked(u) == (if IsMarker(s[0]) then [] else [s[0]]) + Unmarked(t);
      }
    }
  }

  lemma {:induction false} MarkersOnly(s: string)
    requires forall c | c in s :: IsMarker(c)
    ensures Unmarked(s) == []
    decreases |s|
  {
    if s != [] {
      assert forall c | c in s[1..] :: c in s;
      MarkersOnly(s[1..]);
    }
  }

  /** The cleanup does not guarantee that no `**` survives: deleting `##`
      can bring two stars together. */
  lemma MarkdownCanLeaveBold()
    ensures MarkdownClean("*##*") == "**"
  {
    assert ReplaceAll("*##*", "**", "") == "*##*" by {
      assert ReplaceAll("*", "**", "") == "*";
      assert "#*"[..2] != "**" && "#*"[1..] == "*";
      assert ReplaceAll("#*", "**", "") == "#*";
      assert "##*"[..2] != "**" && "##*"[1..] == "#*";
      assert ReplaceAll("##*", "**", "") == "##*";
      assert "*##*"[..2] != "**" && "*##*"[1..] == "##*";
    }
    assert ReplaceAll("*##*", "##", "") == "**" by {
      assert ReplaceAll("*", "##", "") == "*";
      assert ReplaceAll("##*", "##", "") == "*";
    }
  }

  /** The number of leading `\d` characters. */
  function LeadingDigits(s: string): (n: nat)
    ensures n <= |s|
    ensures forall i | 0 <= i < n :: IsDecimal(s[i])
    ensures n < |s| ==> !IsDecimal(s[n])
    decreases |s|
  {
    if s != [] && IsDecimal(s[0]) then 1 + LeadingDigits(s[1..]) else 0
  }

  /** `re.sub(r'^\d+\.\s*', '', s)`: when the line starts with one or more
      digits and a dot, those and the white space after them are removed;
      any other line is left alone. */
  function StripNumbering(s: string): (r: string)
    ensures |r| <= |s| && r == s[|s| - |r|..]
    ensures s == [] || !IsDecimal(s[0]) ==> r == s
    ensures |r| < |s| ==> (r == [] || !IsSpace(r[0]))
    ensures |r| < |s| ==> LeadingDigits(s) < |s| && s[LeadingDigits(s)] == '.'
    ensures 0 < LeadingDigits(s) < |s| && s[LeadingDigits(s)] == '.' ==>
      r == TrimLeft(s[LeadingDigits(s) + 1..])
    ensures !(0 < LeadingDigits(s) < |s| && s[LeadingDigits(s)] == '.') ==> r == s
  {
    var k := LeadingDigits(s);
    if 0 < k < |s| && s[k] == '.' then
      var rest := s[k + 1..];
      assert TrimLeft(rest) == s[k + 1 + LeadingSpace(rest)..];
      TrimLeft(rest)
    else s
  }

  /** The numbering is exactly what is removed: digits, a dot and white
      space in front of text that does not start with white space leave
      that text. */
  lemma NumberingRemoved(digits: string, gap: string, w: string)
    requires digits != [] && forall i | 0 <= i < |digits| :: IsDecimal(digits[i])
    requires AllSpace(gap)
    requires w == [] || !IsSpace(w[0])
    ensures StripNumbering(digits + "." + gap + w) == w
  {
    var s := digits + "." + gap + w;
    var rest := gap + w;
    assert s == digits + ("." + rest);
    LeadingDigitsPrefix(digits, "." + rest);
    assert s[|digits|] == '.';
    assert s[|digits| + 1..] == rest;
    LeadingSpacePrefix(gap, w);
    assert rest[|gap|..] == w;
  }

  lemma {:induction false} LeadingDigitsPrefix(digits: string, t: string)
    requires forall i | 0 <= i < |digits| :: IsDecimal(digits[i])
    requires t != [] && !IsDecimal(t[0])
    ensures LeadingDigits(digits + t) == |digits|
    decreases |digits|
  {
    if digits != [] {
      assert (digits + t)[1..] == digits[1..] + t;
      LeadingDigitsPrefix(digits[1..], t);
    } else {
      assert digits + t == t;
    }
  }

  lemma {:induction false} LeadingSpacePrefix(gap: string, w: string)
    requires AllSpace(gap)
    requires w == [] || !IsSpace(w[0])
    ensures LeadingSpace(gap + w) == |gap|
    decreases |gap|
  {
    if gap != [] {
      assert (gap + w)[1..] == gap[1..] + w;
      LeadingSpacePrefix(gap[1..], w);
    } else {
      assert gap + w == w;
    }
  }

  /** The pattern is anchored with `^` and compiled without `re.MULTILINE`,
      so it can only match at the start of the line: a second numbering
      after the first is kept. */
  lemma NumberingStrippedOnce()
    ensures StripNumbering("1. 2. X") == "2. X"
  {
    NumberingRemoved("1", " ", "2. X");
    assert "1" + "." + " " + "2. X" == "1. 2. X";
  }

  /** The section-header test: the numbering-stripped line is upper case and
      shorter than the limit, and the ORIGINAL line has no pipe. */
  predicate IsHeaderLine(line: string) {
    var t := StripNumbering(line);
    IsUpper(t) && |t| < MaxHeaderLength && '|' !in line
  }

  /** The bullet test: the PDF renderer looks for `-` only; the DOCX renderer
      also accepts `•` (U+2022). */
  predicate StartsWithMarker(target: Target, line: string) {
    StartsWith(line, "-") || (target == Docx && StartsWith(line, "\U{2022}"))
  }

  /** The ordered rule list: header, then `|` with `@`, then `|` without `@`,
      then bullet, then body. Because a header never contains `|`, the two
      pipe rules hold exactly when their own conditions do; a bullet or body
      line has no pipe and is not a header. */
  function Classify(target: Target, line: string): (r: Role)
    ensures r == SectionHeader <==> IsHeaderLine(line)
    ensures r == ContactLine <==> '|' in line && '@' in line
    ensures r == SubHeader <==> '|' in line && '@' !in line
    ensures r == Bullet <==> '|' !in line && !IsHeaderLine(line) && StartsWithMarker(target, line)
    ensures r == Body <==> '|' !in line && !IsHeaderLine(line) && !StartsWithMarker(target, line)
  {
    if IsHeaderLine(line) then SectionHeader
    else if '|' in line && '@' in line then ContactLine
    else if '|' in line && '@' !in line then SubHeader
    else if StartsWithMarker(target, line) then Bullet
    else Body
  }

  /** A short all-capitals bullet is a header: the header rule is tried
      first and `-` is neither upper nor lower case. */
  lemma CapitalBulletIsHeader(target: Target)
    ensures Classify(target, "- SQL") == SectionHeader
  {
    var s := "- SQL";
    assert !IsDecimal(s[0]);
    assert StripNumbering(s) == s;
    assert IsUpperCase(s[2]);
    assert forall i | 0 <= i < |s| :: s[i] in {'-', ' ', 'S', 'Q', 'L'};
    assert IsHeaderLine(s);
  }

  /** Whether a renderer skips a stripped line: both skip empty lines, the
      PDF renderer also skips any line holding `___`. */
  predicate Dropped(target: Target, line: string) {
    line == [] || (target == Pdf && Contains(line, "___"))
  }

  /** The test each raw line passes when the renderer keeps it. */
  function KeepsLine(target: Target): string -> bool {
    line => !Dropped(target, Strip(line))
  }

  /** Rendering a line: strip it, then render the stripped line. */
  function Rendered<T>(render: string -> T): string -> T {
    line => render(Strip(line))
  }

  /** What both renderers do with their lines: strip each one, skip it when
      it is dropped, and otherwise emit exactly one element, in order. */
  function Emit<T>(target: Target, render: string -> T, lines: seq<string>): seq<T>
  {
    if lines == [] then []
    else
      var line := Strip(lines[|lines| - 1]);
      Emit(target, render, lines[..|lines| - 1]) + (if Dropped(target, line) then [] else [render(line)])
  }

  /** The loop is the comprehension
      `[render(l.strip()) for l in lines if l.strip() is kept]`. */
  lemma {:induction false} EmitIsComprehension<T>(target: Target, render: string -> T, lines: seq<string>)
    ensures Emit(target, render, lines) == Comprehension(lines, KeepsLine(target), Rendered(render))
    decreases |lines|
  {
    if lines != [] {
      var last := lines[|lines| - 1];
      EmitIsComprehension(target, render, lines[..|lines| - 1]);
      assert KeepsLine(target)(last) == !Dropped(target, Strip(last));
      assert Rendered(render)(last) == render(Strip(last));
    }
  }

  /** The emitted elements are one per line that is not dropped, in the
      order of the lines, each the rendering of that line, stripped. */
  lemma EmitSelected<T>(target: Target, render: string -> T, lines: seq<string>)
    ensures |Emit(target, render, lines)| == |Selected(lines, KeepsLine(target))|
    ensures forall j | 0 <= j < |Emit(target, render, lines)| ::
      Emit(target, render, lines)[j] == render(Strip(lines[Selected(lines, KeepsLine(target))[j]]))
  {
    EmitIsComprehension(target, render, lines);
    ComprehensionSelected(lines, KeepsLine(target), Rendered(render));
  }

  function Identity(line: string): string {
    line
  }

  /** The stripped lines a renderer keeps: each is non-empty, trimmed and
      not dropped, and there are no more of them than lines. */
  function Kept(target: Target, lines: seq<string>): (r: seq<string>)
    ensures |r| <= |lines|
    ensures forall j | 0 <= j < |r| :: r[j] != [] && IsTrimmed(r[j]) && !Dropped(target, r[j])
  {
    EmitSelected(target, Identity, lines);
    KeptNotDropped(target, lines);
    Emit(target, Identity, lines)
  }

  lemma KeptNotDropped(target: Target, lines: seq<string>)
    ensures forall j | 0 <= j < |Selected(lines, KeepsLine(target))| ::
      !Dropped(target, Strip(lines[Selected(lines, KeepsLine(target))[j]]))
  {
  }

  /** The kept lines are one per line that is not dropped, in the order of
      the lines, each that line stripped. */
  lemma KeptSelected(target: Target, lines: seq<string>)
    ensures |Kept(target, lines)| == |Selected(lines, KeepsLine(target))|
    ensures forall j | 0 <= j < |Kept(target, lines)| ::
      Kept(target, lines)[j] == Strip(lines[Selected(lines, KeepsLine(target))[j]])
  {
    EmitSelected(target, Identity, lines);
  }

  /** Nothing is lost: every line that is not dropped is kept, stripped. */
  lemma KeptHoldsEveryLine(target: Target, lines: seq<string>)
    ensures forall i | 0 <= i < |lines| && !Dropped(target, Strip(lines[i])) ::
      Strip(lines[i]) in Kept(target, lines)
  {
    forall i | 0 <= i < |lines| && !Dropped(target, Strip(lines[i]))
      ensures Strip(lines[i]) in Kept(target, lines)
    {
      var idx := Selected(lines, KeepsLine(target));
      KeptSelected(target, lines);
      assert KeepsLine(target)(lines[i]);
      assert i in idx;
      var j :| 0 <= j < |idx| && idx[j] == i;
      assert Kept(target, lines)[j] == Strip(lines[i]);
    }
  }

  /** The lines are handled one at a time: the elements of two runs of lines
      are the elements of each, concatenated. */
  lemma EmitAppend<T>(target: Target, render: string -> T, a: seq<string>, b: seq<string>)
    ensures Emit(target, render, a + b) == Emit(target, render, a) + Emit(target, render, b)
  {
    EmitIsComprehension(target, render, a + b);
    EmitIsComprehension(target, render, a);
    EmitIsComprehension(target, render, b);
    ComprehensionAppend(a, b, KeepsLine(target), Rendered(render));
  }

  /** One more line: its element, if it is kept, follows those of the lines
      before it. */
  lemma EmitStep<T>(target: Target, render: string -> T, lines: seq<string>, i: nat)
    requires i < |lines|
    ensures Emit(target, render, lines[..i + 1]) ==
      Emit(target, render, lines[..i])
      + (if Dropped(target, Strip(lines[i])) then [] else [render(Strip(lines[i]))])
  {
    var prefix := lines[..i + 1];
    assert prefix[..i] == lines[..i] && prefix[i] == lines[i];
  }

  /** A line that is blank after stripping (or, in the PDF, holds `___`)
      emits nothing wherever it stands. */
  lemma DroppedLineEmitsNothing<T>(target: Target, render: string -> T,
                                   before: seq<string>, line: string, after: seq<string>)
    requires Dropped(target, Strip(line))
    ensures Emit(target, render, before + [line] + after) == Emit(target, render, before + after)
  {
    var e := Emit(target, render, before);
    EmitSingle(target, render, line);
    EmitAppend(target, render, before + [line], after);
    EmitAppend(target, render, before, [line]);
    EmitAppend(target, render, before, after);
    assert Emit(target, render, before + [line]) == e + [];
    assert e + [] == e;
  }

  /** A single line emits its element exactly when it is kept. */
  lemma EmitSingle<T>(target: Target, render: string -> T, line: string)
    ensures Emit(target, render, [line]) ==
      if Dropped(target, Strip(line)) then [] else [render(Strip(line))]
  {
    EmitIsComprehension(target, render, [line]);
    ComprehensionSingle(line, KeepsLine(target), Rendered(render));
  }

  /** One element per kept line, in order, each the rendering of that line. */
  lemma EmitKept<T>(target: Target, render: string -> T, lines: seq<string>)
    ensures |Emit(target, render, lines)| == |Kept(target, lines)|
    ensures forall i | 0 <= i < |Kept(target, lines)| ::
      Emit(target, render, lines)[i] == render(Kept(target, lines)[i])
  {
    EmitSelected(target, render, lines);
    KeptSelected(target, lines);
    var e := Emit(target, render, lines);
    var kept := Kept(target, lines);
    var idx := Selected(lines, KeepsLine(target));
    forall i | 0 <= i < |kept| ensures e[i] == render(kept[i]) {
      assert kept[i] == Strip(lines[idx[i]]);
    }
  }

  /** Stripping only removes characters: every character of a kept line
      comes from a string that holds every character of the input lines. */
  lemma KeptChars(target: Target, lines: seq<string>, source: string)
    requires forall i, c | 0 <= i < |lines| && c in lines[i] :: c in source
    ensures forall i, c | 0 <= i < |Kept(target, lines)| && c in Kept(target, lines)[i] :: c in source
  {
    KeptSelected(target, lines);
    StrippedChars(Kept(target, lines), lines, Selected(lines, KeepsLine(target)), source);
  }

  /** Lines stripped from lines drawn from `source` hold only its characters. */
  lemma StrippedChars(stripped: seq<string>, lines: seq<string>, idx: seq<nat>, source: string)
    requires forall i, c | 0 <= i < |lines| && c in lines[i] :: c in source
    requires |stripped| == |idx|
    requires forall j | 0 <= j < |idx| :: idx[j] < |lines| && stripped[j] == Strip(lines[idx[j]])
    ensures forall j, c | 0 <= j < |stripped| && c in stripped[j] :: c in source
  {
    forall j | 0 <= j < |stripped| ensures forall c | c in stripped[j] :: c in source {
      var line := lines[idx[j]];
      StripChars(line);
      assert forall c | c in line :: c in source;
    }
  }
}
