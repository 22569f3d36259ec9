/** The contact line handed to the rewriting service (app.py:334-335): the
    non-empty contact fields, in a fixed order, joined by " | ". */
module Contact {
  import opened PyStr
  import TextLayout

  /** The fields, in the order the line lists them. */
  const ContactKeys: seq<string> := ["phone", "city", "email", "linkedin", "github", "portfolio"]

  /** `cv_data.get(k)` is truthy: the field is present and non-empty. */
  function Filled(cvData: map<string, string>): string -> bool {
    k => k in cvData && cvData[k] != []
  }

  /** The value stored under a key, or "" for a missing one. */
  function Value(cvData: map<string, string>): string -> string {
    k => if k in cvData then cvData[k] else []
  }

  /** `[cv_data[k] for k in keys if cv_data.get(k)]`. Every part is
      non-empty, and every filled field is among them. */
  function Parts(cvData: map<string, string>, keys: seq<string>): (r: seq<string>)
    ensures |r| <= |keys|
    ensures forall p | p in r :: p != []
    ensures forall k | k in keys && k in cvData && cvData[k] != [] :: cvData[k] in r
    decreases |keys|
  {
    if keys == [] then []
    else
      var init := keys[..|keys| - 1];
      var k := keys[|keys| - 1];
      assert forall k' | k' in keys :: k' in init || k' == k;
      Parts(cvData, init) + (if k in cvData && cvData[k] != [] then [cvData[k]] else [])
  }

  lemma {:induction false} PartsIsComprehension(cvData: map<string, string>, keys: seq<string>)
    ensures Parts(cvData, keys) == Comprehension(keys, Filled(cvData), Value(cvData))
    decreases |keys|
  {
    if keys != [] {
      var k := keys[|keys| - 1];
      PartsIsComprehension(cvData, keys[..|keys| - 1]);
      assert Filled(cvData)(k) == (k in cvData && cvData[k] != []);
      assert Filled(cvData)(k) ==> Value(cvData)(k) == cvData[k];
    }
  }

  /** The parts follow the order of `keys`: one per key whose field is
      filled, at increasing positions, each the value of that key. */
  lemma PartsSelected(cvData: map<string, string>, keys: seq<string>)
    ensures |Parts(cvData, keys)| == |Selected(keys, Filled(cvData))|
    ensures forall j | 0 <= j < |Parts(cvData, keys)| ::
      keys[Selected(keys, Filled(cvData))[j]] in cvData
      && Parts(cvData, keys)[j] == cvData[keys[Selected(keys, Filled(cvData))[j]]]
  {
    PartsIsComprehension(cvData, keys);
    ComprehensionSelected(keys, Filled(cvData), Value(cvData));
    var idx := Selected(keys, Filled(cvData));
    forall j | 0 <= j < |idx| ensures keys[idx[j]] in cvData {
      assert Filled(cvData)(keys[idx[j]]);
    }
  }

  function ContactParts(cvData: map<string, string>): seq<string>
  {
    Parts(cvData, ContactKeys)
  }

  /** `" | ".join(contact_parts)`: empty exactly when there are no parts. */
  function Line(cvData: map<string, string>): (r: string)
    ensures r == [] <==> ContactParts(cvData) == []
  {
    var parts := ContactParts(cvData);
    assert parts != [] ==> parts[0] in parts;
    Join(parts, " | ")
  }

  /** What `split('|')` gives back from a " | "-joined line: each part with
      the spaces of its neighbouring separators still attached. */
  function Padded(parts: seq<string>): (r: seq<string>)
    ensures |r| == |parts|
  {
    seq(|parts|, i requires 0 <= i < |parts| =>
      (if i > 0 then " " else "") + parts[i] + (if i < |parts| - 1 then " " else ""))
  }

  lemma {:induction false} SplitJoined(parts: seq<string>)
    requires |parts| >= 1
    requires forall i | 0 <= i < |parts| :: '|' !in parts[i]
    ensures Split(Join(parts, " | "), '|') == Padded(parts)
    decreases |parts|
  {
    if |parts| == 1 {
      var p0 := parts[0];
      assert Join(parts, " | ") == p0;
      assert p0 + [] == p0;
      SplitAfterPrefix(p0, [], '|');
      assert Padded(parts)[0] == p0;
    } else {
      var rest := parts[1..];
      SplitJoined(rest);
      var pr := Padded(rest);
      SplitJoinStep(parts[0], Join(rest, " | "));
      assert Join(parts, " | ") == parts[0] + " | " + Join(rest, " | ");
      PaddedCons(parts);
    }
  }

  /** One separator: the piece before it keeps its trailing space, the piece
      after it gains a leading one. */
  lemma SplitJoinStep(p0: string, j: string)
    requires '|' !in p0
    ensures Split(p0 + " | " + j, '|') == [p0 + " ", " " + Split(j, '|')[0]] + Split(j, '|')[1..]
  {
    var t := " " + j;
    var q := p0 + " ";
    var u := ['|'] + t;
    assert p0 + " | " + j == q + u;
    SplitJoinParts(q, t, j);
  }

  lemma SplitJoinParts(q: string, t: string, j: string)
    requires '|' !in q && t == " " + j
    ensures Split(q + (['|'] + t), '|') == [q, " " + Split(j, '|')[0]] + Split(j, '|')[1..]
  {
    var u := ['|'] + t;
    assert u[1..] == t;
    SplitBeforeSeparator(q, u);
    SplitAfterSpace(j);
  }

  lemma SplitAfterSpace(j: string)
    ensures Split(" " + j, '|') == [" " + Split(j, '|')[0]] + Split(j, '|')[1..]
  {
  }

  /** A separator-free piece followed by a separator: the piece, then the
      pieces after the separator. */
  lemma SplitBeforeSeparator(q: string, u: string)
    requires '|' !in q && u != [] && u[0] == '|'
    ensures Split(q + u, '|') == [q] + Split(u[1..], '|')
  {
    SplitAtSeparator(u[1..], '|');
    assert [u[0]] + u[1..] == u;
    SplitAfterPrefix(q, u, '|');
    var su := Split(u, '|');
    assert q + su[0] == q;
  }

  /** The padding of a list of two or more parts, from the padding of its
      tail. */
  lemma PaddedCons(parts: seq<string>)
    requires |parts| >= 2
    ensures Padded(parts) == [parts[0] + " ", " " + Padded(parts[1..])[0]] + Padded(parts[1..])[1..]
  {
    var pr := Padded(parts[1..]);
    var r := [parts[0] + " ", " " + pr[0]] + pr[1..];
    forall i | 0 <= i < |parts| ensures r[i] == Padded(parts)[i] {
      if i == 0 {
        assert [] + parts[0] + " " == parts[0] + " ";
      } else if i == 1 {
        assert pr[0] == [] + parts[1] + (if 0 < |parts| - 2 then " " else "");
      } else {
        assert r[i] == pr[i - 1];
      }
    }
  }

  /** A string that begins with the separator splits into an empty piece
      followed by the pieces of the rest. */
  lemma SplitAtSeparator(t: string, sep: char)
    ensures Split([sep] + t, sep) == [[]] + Split(t, sep)
  {
  }

  /** The line splits back into its fields: if at least one field is set and
      no field holds a '|' or surrounding white space, splitting on '|' and
      stripping each piece returns exactly the non-empty fields, in order. */
  lemma LineSplitsBack(cvData: map<string, string>)
    requires ContactParts(cvData) != []
    requires forall p | p in ContactParts(cvData) :: '|' !in p && IsTrimmed(p)
    ensures |Split(Line(cvData), '|')| == |ContactParts(cvData)|
    ensures forall i | 0 <= i < |ContactParts(cvData)| ::
      Strip(Split(Line(cvData), '|')[i]) == ContactParts(cvData)[i]
  {
    JoinSplitsBack(ContactParts(cvData));
  }

  lemma JoinSplitsBack(parts: seq<string>)
    requires parts != []
    requires forall p | p in parts :: '|' !in p && IsTrimmed(p)
    ensures |Split(Join(parts, " | "), '|')| == |parts|
    ensures forall i | 0 <= i < |parts| :: Strip(Split(Join(parts, " | "), '|')[i]) == parts[i]
  {
    assert forall i | 0 <= i < |parts| :: parts[i] in parts;
    SplitJoined(parts);
    forall i | 0 <= i < |parts| ensures Strip(Padded(parts)[i]) == parts[i] {
      var left: string := if i > 0 then " " else "";
      var right: string := if i < |parts| - 1 then " " else "";
      assert AllSpace(left) && AllSpace(right);
      StripPadded(left, parts[i], right);
    }
  }

  /** The line is empty exactly when no contact field is set. */
  lemma LineEmptyIffNoField(cvData: map<string, string>)
    ensures Line(cvData) == [] <==>
      forall k | k in ContactKeys :: k !in cvData || cvData[k] == []
  {
    var parts := ContactParts(cvData);
    if parts != [] {
      PartsSelected(cvData, ContactKeys);
      var k := ContactKeys[Selected(ContactKeys, Filled(cvData))[0]];
      assert parts[0] in parts;
      assert k in ContactKeys && k in cvData && cvData[k] != [];
    }
  }

  /** With two or more fields set, one of them holding an '@', the line is
      what the classifier calls a contact line once stripped. */
  lemma LineIsClassifiedContact(cvData: map<string, string>, target: TextLayout.Target)
    requires |ContactParts(cvData)| >= 2
    requires exists p | p in ContactParts(cvData) :: '@' in p
    ensures TextLayout.Classify(target, Strip(Line(cvData))) == TextLayout.ContactLine
  {
    JoinHasPipeAndAt(ContactParts(cvData));
  }

  lemma JoinHasPipeAndAt(parts: seq<string>)
    requires |parts| >= 2
    requires exists p | p in parts :: '@' in p
    ensures '|' in Strip(Join(parts, " | ")) && '@' in Strip(Join(parts, " | "))
  {
    var line := Join(parts, " | ");
    assert line == parts[0] + " | " + Join(parts[1..], " | ");
    assert line[|parts[0]| + 1] == '|';
    var p :| p in parts && '@' in p;
    var i :| 0 <= i < |parts| && parts[i] == p;
    JoinHolds(parts, " | ", i);
    assert '|' in line && '@' in line;
    StripChars(line);
  }

  lemma {:induction false} JoinHolds(parts: seq<string>, sep: string, i: nat)
    requires i < |parts|
    ensures forall c | c in parts[i] :: c in Join(parts, sep)
    decreases |parts|
  {
    if |parts| > 1 {
      var j := Join(parts[1..], sep);
      assert Join(parts, sep) == parts[0] + sep + j;
      if i > 0 {
        JoinHolds(parts[1..], sep, i - 1);
      }
    }
  }
}
