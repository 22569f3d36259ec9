/** Python `str` semantics that the layout code relies on: `strip()`,
    `isupper()`, `replace()`, `split()`, `join()`, substring `in`, and the
    `\s` / `\d` classes of `re` on str patterns. Strings are sequences of
    Unicode scalar values, as Python 3 strings are sequences of code points. */
module PyStr {

  /** `str.isspace()`, which is also what `strip()` and `\s` use: the ASCII
      whitespace characters (tab, line feed, vertical tab, form feed, carriage
      return, the four information separators 0x1C-0x1F, space) and the
      Unicode separators CPython treats as whitespace. */
  predicate IsSpace(c: char) {
    ('\t' <= c <= '\r') || ('\U{1C}' <= c <= ' ')
    || c == '\U{85}' || c == '\U{A0}' || c == '\U{1680}'
    || ('\U{2000}' <= c <= '\U{200A}')
    || c == '\U{2028}' || c == '\U{2029}' || c == '\U{202F}' || c == '\U{205F}'
    || c == '\U{3000}'
  }

  /** Characters with the Unicode `Lowercase` property, restricted to Latin-1:
      a-z, the ordinal indicators, the micro sign, and U+00DF-U+00FF except
      the division sign. */
  predicate IsLowerCase(c: char) {
    ('a' <= c <= 'z') || c == '\U{AA}' || c == '\U{B5}' || c == '\U{BA}'
    || ('\U{DF}' <= c <= '\U{F6}') || ('\U{F8}' <= c <= '\U{FF}')
  }

  /** Characters with the Unicode `Uppercase` property, restricted to Latin-1:
      A-Z and U+00C0-U+00DE except the multiplication sign. */
  predicate IsUpperCase(c: char) {
    ('A' <= c <= 'Z') || ('\U{C0}' <= c <= '\U{D6}') || ('\U{D8}' <= c <= '\U{DE}')
  }

  /** `str.isupper()`: at least one upper-case character and no lower-case one
      (Latin-1 has no title-case characters). Digits and punctuation are
      neither, so "2020" is not upper. */
  predicate IsUpper(s: string) {
    (exists i | 0 <= i < |s| :: IsUpperCase(s[i]))
    && (forall i | 0 <= i < |s| :: !IsLowerCase(s[i]))
  }

  /** The `\d` class: ASCII digits and the Arabic-Indic digit blocks. */
  predicate IsDecimal(c: char) {
    ('0' <= c <= '9') || ('\U{660}' <= c <= '\U{669}') || ('\U{6F0}' <= c <= '\U{6F9}')
  }

  predicate IsAscii(s: string) {
    forall c | c in s :: c as int < 128
  }

  /** Every character is encodable as Latin-1. */
  predicate IsLatin1(s: string) {
    forall c | c in s :: c as int < 256
  }

  /** No white space at either end: what `strip()` leaves. */
  predicate IsTrimmed(s: string) {
    s == [] || (!IsSpace(s[0]) && !IsSpace(s[|s| - 1]))
  }

  predicate AllSpace(s: string) {
    forall i | 0 <= i < |s| :: IsSpace(s[i])
  }

  /** How many white-space characters `strip()` skips at the front. */
  function LeadingSpace(s: string): (n: nat)
    ensures n <= |s|
    ensures forall i | 0 <= i < n :: IsSpace(s[i])
    ensures n < |s| ==> !IsSpace(s[n])
    decreases |s|
  {
    if s != [] && IsSpace(s[0]) then 1 + LeadingSpace(s[1..]) else 0
  }

  /** How many white-space characters `strip()` skips at the back. */
  function TrailingSpace(s: string): (n: nat)
    ensures n <= |s|
    ensures forall i | |s| - n <= i < |s| :: IsSpace(s[i])
    ensures n < |s| ==> !IsSpace(s[|s| - 1 - n])
    decreases |s|
  {
    if s != [] && IsSpace(s[|s| - 1]) then 1 + TrailingSpace(s[..|s| - 1]) else 0
  }

  /** `str.lstrip()`; also what a trailing `\s*` in a regular expression eats. */
  function TrimLeft(s: string): (r: string)
    ensures r == [] || !IsSpace(r[0])
    ensures forall c :: c in r ==> c in s
  {
    s[LeadingSpace(s)..]
  }

  /** `str.strip()`: a contiguous slice of the input, with no white space at
      either end, that keeps every character of the input that is not white
      space; it is empty exactly when the input is all white space. */
  function Strip(s: string): (r: string)
    ensures IsTrimmed(r)
    ensures LeadingSpace(s) + |r| <= |s| && r == s[LeadingSpace(s)..LeadingSpace(s) + |r|]
    ensures LeadingSpace(s) < |s| ==>
      LeadingSpace(s) < |s| - TrailingSpace(s) && r == s[LeadingSpace(s)..|s| - TrailingSpace(s)]
    ensures LeadingSpace(s) == |s| ==> r == []
    ensures r == [] <==> AllSpace(s)
  {
    StripBounds(s);
    var i := LeadingSpace(s);
    if i == |s| then [] else s[i..|s| - TrailingSpace(s)]
  }

  /** What `strip()` keeps: only characters of the input, and every one of
      them that is not white space. */
  lemma StripChars(s: string)
    ensures forall c :: c in Strip(s) ==> c in s
    ensures forall c :: c in s && !IsSpace(c) ==> c in Strip(s)
  {
  }

  lemma StripBounds(s: string)
    ensures LeadingSpace(s) < |s| ==> LeadingSpace(s) < |s| - TrailingSpace(s)
  {
  }

  /** `needle in s` for a `str` needle: some slice of `s` equals `needle`. */
  predicate Contains(s: string, needle: string)
    decreases |s|
  {
    if |s| < |needle| then false
    else s[..|needle|] == needle || Contains(s[1..], needle)
  }

  /** `s.startswith(prefix)`. */
  predicate StartsWith(s: string, prefix: string) {
    |prefix| <= |s| && s[..|prefix|] == prefix
  }

  /** `s.replace(pat, rep)` for a non-empty `pat`: scan from the left and
      replace each non-overlapping occurrence. */
  function ReplaceAll(s: string, pat: string, rep: string): (r: string)
    requires pat != []
    ensures rep == [] ==> |r| <= |s|
    ensures |pat| == 1 && |rep| == 1 ==> |r| == |s|
    decreases |s|
  {
    if |s| < |pat| then s
    else if s[..|pat|] == pat then rep + ReplaceAll(s[|pat|..], pat, rep)
    else [s[0]] + ReplaceAll(s[1..], pat, rep)
  }

  /** `s` with every `c` left out and the other characters in order. */
  function Without(s: string, c: char): string
    decreases |s|
  {
    if s == [] then []
    else (if s[0] == c then [] else [s[0]]) + Without(s[1..], c)
  }

  /** `s.split(sep)` for a one-character separator: the pieces between the
      separators, always at least one. */
  function Split(s: string, sep: char): (r: seq<string>)
    ensures |r| >= 1
    ensures forall i | 0 <= i < |r| :: sep !in r[i]
    decreases |s|
  {
    if s == [] then [[]]
    else
      var rest := Split(s[1..], sep);
      if s[0] == sep then [[]] + rest
      else [[s[0]] + rest[0]] + rest[1..]
  }

  /** Every piece of a split holds only characters of the input. */
  lemma {:induction false} SplitChars(s: string, sep: char)
    ensures forall i, c | 0 <= i < |Split(s, sep)| && c in Split(s, sep)[i] :: c in s
    decreases |s|
  {
    if s != [] {
      SplitChars(s[1..], sep);
      assert forall c | c in s[1..] :: c in s;
    }
  }

  /** `isupper()` looks at cased characters only: appending digits, spaces
      or punctuation does not change it, and such a string on its own is
      not upper case. */
  lemma UpperIgnoresUncased(s: string, t: string)
    requires forall i | 0 <= i < |t| :: !IsUpperCase(t[i]) && !IsLowerCase(t[i])
    ensures IsUpper(s + t) == IsUpper(s)
    ensures !IsUpper(t)
  {
    var st := s + t;
    assert forall i | 0 <= i < |s| :: st[i] == s[i];
    assert forall i | |s| <= i < |st| :: st[i] == t[i - |s|];
  }

  /** The positions of `xs` whose element passes `keep`, in increasing
      order: what the `if` of a list comprehension, or a `continue` in a
      loop, lets through. */
  function Selected<T>(xs: seq<T>, keep: T -> bool): (idx: seq<nat>)
    ensures |idx| <= |xs|
    ensures forall j {:trigger idx[j]} | 0 <= j < |idx| :: idx[j] < |xs| && keep(xs[idx[j]])
    ensures forall j, k | 0 <= j < k < |idx| :: idx[j] < idx[k]
    ensures forall i {:trigger keep(xs[i])} | 0 <= i < |xs| && keep(xs[i]) :: i in idx
    decreases |xs|
  {
    if xs == [] then []
    else
      var init := xs[..|xs| - 1];
      assert forall i | 0 <= i < |init| :: init[i] == xs[i];
      Selected(init, keep) + (if keep(xs[|xs| - 1]) then [|xs| - 1] else [])
  }

  /** `[f(x) for x in xs if keep(x)]`. */
  function Comprehension<T, U>(xs: seq<T>, keep: T -> bool, f: T -> U): seq<U>
    decreases |xs|
  {
    if xs == [] then []
    else
      var x := xs[|xs| - 1];
      Comprehension(xs[..|xs| - 1], keep, f) + (if keep(x) then [f(x)] else [])
  }

  /** A comprehension has one element per selected position, in order, and
      that element is `f` of the element there. */
  lemma {:induction false} ComprehensionSelected<T, U>(xs: seq<T>, keep: T -> bool, f: T -> U)
    ensures |Comprehension(xs, keep, f)| == |Selected(xs, keep)|
    ensures forall j | 0 <= j < |Selected(xs, keep)| ::
      Comprehension(xs, keep, f)[j] == f(xs[Selected(xs, keep)[j]])
    decreases |xs|
  {
    if xs != [] {
      var init := xs[..|xs| - 1];
      ComprehensionSelected(init, keep, f);
      forall j | 0 <= j < |Selected(init, keep)| ensures init[Selected(init, keep)[j]] == xs[Selected(init, keep)[j]] {
      }
    }
  }

  lemma ComprehensionSingle<T, U>(x: T, keep: T -> bool, f: T -> U)
    ensures Comprehension([x], keep, f) == if keep(x) then [f(x)] else []
  {
    assert [x][..0] == [];
  }

  /** The comprehension over two lists is the two comprehensions, joined. */
  lemma {:induction false} ComprehensionAppend<T, U>(a: seq<T>, b: seq<T>, keep: T -> bool, f: T -> U)
    ensures Comprehension(a + b, keep, f) == Comprehension(a, keep, f) + Comprehension(b, keep, f)
    decreases |b|
  {
    if b == [] {
      assert a + b == a;
    } else {
      var b' := b[..|b| - 1];
      assert (a + b)[..|a + b| - 1] == a + b';
      assert (a + b)[|a + b| - 1] == b[|b| - 1];
      ComprehensionAppend(a, b', keep, f);
    }
  }

  /** `sep.join(parts)`. */
  function Join(parts: seq<string>, sep: string): string
    decreases |parts|
  {
    if parts == [] then []
    else if |parts| == 1 then parts[0]
    else parts[0] + sep + Join(parts[1..], sep)
  }

  // ---------------------------------------------------------------------
  // Lemmas about the operations above

  /** Joining the pieces of a split with the separator gives back the text. */
  lemma {:induction false} SplitJoin(s: string, sep: char)
    ensures Join(Split(s, sep), [sep]) == s
    decreases |s|
  {
    if s != [] {
      var rest := Split(s[1..], sep);
      SplitJoin(s[1..], sep);
      if s[0] == sep {
        assert Split(s, sep) == [[]] + rest;
        assert ([[]] + rest)[1..] == rest;
        assert s == [sep] + s[1..];
      } else if |rest| == 1 {
        assert Split(s, sep) == [[s[0]] + rest[0]];
        assert s == [s[0]] + s[1..];
      } else {
        var first := [s[0]] + rest[0];
        var parts := [first] + rest[1..];
        assert Split(s, sep) == parts;
        assert parts[1..] == rest[1..];
        assert Join(rest, [sep]) == rest[0] + [sep] + Join(rest[1..], [sep]);
        assert s == [s[0]] + s[1..];
      }
    }
  }

  /** The pieces of a split are the only separator-free pieces that join
      back to the text: `split` is the inverse of `join`. */
  lemma {:induction false} JoinSplit(parts: seq<string>, sep: char)
    requires parts != []
    requires forall i | 0 <= i < |parts| :: sep !in parts[i]
    ensures Split(Join(parts, [sep]), sep) == parts
    decreases |parts|
  {
    if |parts| == 1 {
      assert parts[0] + [] == parts[0];
      SplitAfterPrefix(parts[0], [], sep);
      assert [parts[0]] == parts;
    } else {
      var rest := parts[1..];
      JoinSplit(rest, sep);
      var j := Join(rest, [sep]);
      assert Join(parts, [sep]) == parts[0] + ([sep] + j);
      SplitAfterPrefix(parts[0], [sep] + j, sep);
      assert ([sep] + j)[1..] == j;
      assert Split([sep] + j, sep) == [[]] + Split(j, sep);
      assert parts[0] + [] == parts[0];
      assert parts == [parts[0]] + rest;
    }
  }

  lemma {:induction false} ContainsChar(s: string, c: char)
    ensures Contains(s, [c]) <==> c in s
    decreases |s|
  {
    if |s| >= 1 {
      ContainsChar(s[1..], c);
      assert s == [s[0]] + s[1..];
    }
  }

  /** A string that holds a needle holds each of its characters. */
  lemma {:induction false} ContainsNeedleChars(s: string, needle: string)
    requires Contains(s, needle)
    ensures forall c | c in needle :: c in s
    decreases |s|
  {
    if s[..|needle|] == needle {
      forall c | c in needle ensures c in s {
        var k :| 0 <= k < |needle| && needle[k] == c;
        assert s[k] == c;
      }
    } else {
      ContainsNeedleChars(s[1..], needle);
      assert forall c | c in s[1..] :: c in s;
    }
  }

  /** Removing every occurrence of one character leaves none of it and adds
      nothing. */
  lemma {:induction false} RemoveCharGone(s: string, c: char)
    ensures c !in ReplaceAll(s, [c], [])
    ensures forall d :: d in ReplaceAll(s, [c], []) ==> d in s
    decreases |s|
  {
    if |s| >= 1 {
      RemoveCharGone(s[1..], c);
    }
  }

  /** Deleting a pattern never introduces a character. */
  lemma {:induction false} DeleteSubset(s: string, pat: string)
    requires pat != []
    ensures forall d :: d in ReplaceAll(s, pat, []) ==> d in s
    decreases |s|
  {
    if |s| >= |pat| {
      if s[..|pat|] == pat {
        DeleteSubset(s[|pat|..], pat);
      } else {
        DeleteSubset(s[1..], pat);
      }
    }
  }

  /** Leaving a character out of a text with one more character in front. */
  lemma WithoutCons(x: char, w: string, c: char)
    ensures Without([x] + w, c) == (if x == c then [] else [x]) + Without(w, c)
  {
    assert ([x] + w)[1..] == w;
  }

  /** `s.replace(c, "")` for one character `c` deletes exactly the
      occurrences of `c`: every other character survives, in order. */
  lemma {:induction false} RemoveCharIsWithout(s: string, c: char)
    ensures ReplaceAll(s, [c], []) == Without(s, c)
    decreases |s|
  {
    if s != [] {
      RemoveCharIsWithout(s[1..], c);
      assert s[..1] == [s[0]];
      if s[0] == c {
        assert ReplaceAll(s, [c], []) == [] + ReplaceAll(s[1..], [c], []);
      }
    }
  }

  /** Leaving out a character the text does not hold changes nothing. */
  lemma {:induction false} WithoutAbsent(s: string, c: char)
    requires c !in s
    ensures Without(s, c) == s
    decreases |s|
  {
    if s != [] {
      assert forall d | d in s[1..] :: d in s;
      WithoutAbsent(s[1..], c);
      assert s == [s[0]] + s[1..];
    }
  }

  /** A string without the pattern is left as it is. */
  lemma {:induction false} ReplaceAbsent(s: string, pat: string, rep: string)
    requires pat != []
    requires !Contains(s, pat)
    ensures ReplaceAll(s, pat, rep) == s
    decreases |s|
  {
    if |s| >= |pat| {
      ReplaceAbsent(s[1..], pat, rep);
    }
  }

  /** Replacing one character by one character is a character-wise map. */
  lemma {:induction false} ReplaceCharPointwise(s: string, k: char, v: char)
    ensures |ReplaceAll(s, [k], [v])| == |s|
    ensures forall i | 0 <= i < |s| :: ReplaceAll(s, [k], [v])[i] == (if s[i] == k then v else s[i])
    decreases |s|
  {
    if |s| >= 1 {
      ReplaceCharPointwise(s[1..], k, v);
      var t := ReplaceAll(s[1..], [k], [v]);
      assert ReplaceAll(s, [k], [v]) == (if s[0] == k then [v] else [s[0]]) + t;
    }
  }

  /** Deleting a doubled character `cc` never leaves `cc` behind: a kept `c`
      is always followed by something other than `c`. */
  lemma {:induction false} DeleteDoubletGone(s: string, c: char)
    ensures !Contains(ReplaceAll(s, [c, c], []), [c, c])
    ensures ReplaceAll(s, [c, c], []) != [] && s != [] && s[0] != c ==> ReplaceAll(s, [c, c], [])[0] == s[0]
    decreases |s|
  {
    var pat := [c, c];
    var r := ReplaceAll(s, pat, []);
    if |s| < 2 {
      if |s| == 1 {
        assert r == s;
      }
    } else if s[..2] == pat {
      DeleteDoubletGone(s[2..], c);
      assert r == ReplaceAll(s[2..], pat, []);
    } else {
      DeleteDoubletGone(s[1..], c);
      var t := ReplaceAll(s[1..], pat, []);
      assert r == [s[0]] + t;
      assert r[1..] == t;
      if s[0] == c {
        assert s[1] != c;
        assert t != [] && t[0] == s[1] by {
          if |s[1..]| < 2 {
            assert t == s[1..];
          } else {
            assert s[1..][..2] != pat;
            assert t == [s[1]] + ReplaceAll(s[2..], pat, []) by {
              assert s[1..][1..] == s[2..];
            }
          }
        }
        assert r[..2] != pat;
      }
    }
  }

  /** Splitting a string that begins with a separator-free prefix glues that
      prefix onto the first piece. */
  lemma {:induction false} SplitAfterPrefix(pre: string, s: string, sep: char)
    requires sep !in pre
    ensures Split(pre + s, sep) == [pre + Split(s, sep)[0]] + Split(s, sep)[1..]
    decreases |pre|
  {
    if pre != [] {
      assert (pre + s)[1..] == pre[1..] + s;
      SplitAfterPrefix(pre[1..], s, sep);
      assert [pre[0]] + (pre[1..] + Split(s, sep)[0]) == pre + Split(s, sep)[0];
    } else {
      assert pre + s == s;
      var r := Split(s, sep);
      assert [] + r[0] == r[0];
      assert [r[0]] + r[1..] == r;
    }
  }

  /** Stripping a trimmed string padded with white space returns it. */
  lemma StripPadded(left: string, s: string, right: string)
    requires AllSpace(left) && AllSpace(right)
    requires IsTrimmed(s)
    ensures Strip(left + s + right) == s
  {
    var x := left + s + right;
    if s == [] {
      assert AllSpace(x) by {
        forall i | 0 <= i < |x| ensures IsSpace(x[i]) {
          if i >= |left| {
            assert x[i] == right[i - |left|];
          }
        }
      }
    } else {
      assert x[|left|] == s[0];
      assert LeadingSpace(x) == |left|;
      assert x[|x| - 1 - |right|] == s[|s| - 1];
      assert TrailingSpace(x) == |right|;
      assert x[|left|..|x| - |right|] == s;
    }
  }
}
