/** Names in any case, and what lines written by hand say. */
module IniNames {
  import opened Bytes
  import opened IniText
  import opened IniQuote
  import opened IniEdit
  import opened IniFile
  import opened IniDrop

  //
  // Names
  //

  /** The same character, or a small letter and its capital, which is 32 below it. */
  predicate SameLetter(c: char, d: char) {
    || c == d
    || ('a' <= c <= 'z' && c as int == d as int + 32)
    || ('a' <= d <= 'z' && d as int == c as int + 32)
  }

  lemma LettersFold(c: char, d: char)
    ensures Upper(c) == Upper(d) <==> SameLetter(c, d)
  {
    if 'a' <= c <= 'z' { assert Upper(c) as int == c as int - 32; }
    if 'a' <= d <= 'z' { assert Upper(d) as int == d as int - 32; }
  }

  lemma SameNameExactly(a: string, b: string)
    ensures SameName(a, b) <==> |a| == |b| && forall i | 0 <= i < |a| :: SameLetter(a[i], b[i])
  {
    hide SameLetter, Upper;
    if |a| == |b| {
      forall i | 0 <= i < |a| ensures Upper(a[i]) == Upper(b[i]) <==> SameLetter(a[i], b[i]) {
        LettersFold(a[i], b[i]);
      }
    }
  }

  lemma SameNameJoins(a: string, b: string, c: string)
    requires SameName(b, c)
    ensures SameName(a, b) <==> SameName(a, c)
  {
    hide Upper;
  }

  lemma SameLines(p: string, section: string, section': string, key: string, key': string)
    requires SameName(section, section') && SameName(key, key')
    ensures IsSection(p, section) <==> IsSection(p, section')
    ensures IsKey(p, key) <==> IsKey(p, key')
  {
    hide SameName;
    var h := SkipLeading(p);
    if IndexOf(h, ']').Some? && IndexOf(h, ']').value >= 1 {
      SameNameJoins(h[1..IndexOf(h, ']').value], section, section');
    }
    if Separator(h).Some? { SameNameJoins(StripTrailing(h[..Separator(h).value]), key, key'); }
  }

  lemma {:induction false} SameSectionFound(ls: seq<string>, section: string, section': string)
    requires SameName(section, section')
    ensures AfterSection(ls, section) == AfterSection(ls, section')
    decreases ls
  {
    hide SameName, IsSection;
    assert section == "" <==> section' == "" by { Lengths(section, section'); }
    if ls != [] {
      SameNameSelf("");
      SameLines(ls[0], section, section', "", "");
      SameSectionFound(ls[1..], section, section');
    }
  }

  lemma SameNameSelf(a: string)
    ensures SameName(a, a)
  {}

  lemma Lengths(a: string, b: string)
    requires SameName(a, b)
    ensures |a| == |b|
  {}

  lemma {:induction false} SameKeyFound(ls: seq<string>, key: string, key': string)
    requires SameName(key, key')
    ensures FindKey(ls, key) == FindKey(ls, key') && KeyCount(ls, key) == KeyCount(ls, key')
    decreases ls
  {
    hide SameName, IsKey;
    if ls != [] {
      SameNameSelf("");
      SameLines(ls[0], "", "", key, key');
      SameKeyFound(ls[1..], key, key');
    }
  }

  /** A file is read the same under any spelling of section and key. */
  lemma GetsIgnoresCase(text: string, section: string, section': string, key: string, key': string, size: nat)
    requires SameName(section, section') && SameName(key, key') && size > 0
    ensures Gets(text, section, key, size) == Gets(text, section', key', size)
  {
    hide SameName, Pieces, FindKey, AfterSection, ValueOf;
    var ls := Pieces(text);
    SameSectionFound(ls, section, section');
    if AfterSection(ls, section).Some? { SameKeyFound(AfterSection(ls, section).value, key, key'); }
  }

  //
  // Edits
  //

  /** The lines of one edit are those of the other, but for the spelling of the line set and of a section added. */
  predicate Respelled(a: string, b: string, section: string, section': string, key: string, key': string,
                      v: Option<string>)
  {
    || a == b
    || (v.Some? && a == KeyLine(key, v.value) && b == KeyLine(key', v.value))
    || (v.Some? && a == SectionLine(section) && b == SectionLine(section'))
  }

  ghost predicate AllRespelled(a: seq<string>, b: seq<string>, section: string, section': string, key: string,
                               key': string, v: Option<string>)
  {
    |a| == |b| && forall i | 0 <= i < |a| :: Respelled(a[i], b[i], section, section', key, key', v)
  }

  lemma RespelledCons(p: string, a: seq<string>, b: seq<string>, section: string, section': string, key: string,
                      key': string, v: Option<string>)
    requires AllRespelled(a, b, section, section', key, key', v)
    ensures AllRespelled([p] + a, [p] + b, section, section', key, key', v)
  {
    hide KeyLine, SectionLine;
  }

  lemma {:induction false} KeySetIgnoresCase(ls: seq<string>, section: string, section': string, key: string,
                                             key': string, v: Option<string>, ended: bool)
    requires SameName(key, key')
    ensures AllRespelled(WithKey(ls, key, v, ended), WithKey(ls, key', v, ended), section, section', key, key', v)
    decreases ls
  {
    hide SameName, IsKey, Opens, KeyLine, SectionLine;
    if ls != [] {
      SameNameSelf("");
      SameLines(ls[0], "", "", key, key');
      if !IsKey(ls[0], key) && !Opens(ls[0]) {
        hide AllRespelled;
        KeySetIgnoresCase(ls[1..], section, section', key, key', v, EndsLine(ls[0]));
        RespelledCons(ls[0], WithKey(ls[1..], key, v, EndsLine(ls[0])), WithKey(ls[1..], key', v, EndsLine(ls[0])),
                      section, section', key, key', v);
      }
    }
  }

  lemma {:induction false} SectionSetIgnoresCase(ls: seq<string>, section: string, section': string, key: string,
                                                 key': string, v: Option<string>, ended: bool, stale: bool)
    requires SameName(section, section') && SameName(key, key')
    ensures AllRespelled(WithSection(ls, section, key, v, ended, stale),
                         WithSection(ls, section', key', v, ended, stale), section, section', key, key', v)
    decreases ls
  {
    hide SameName, IsSection, KeyLine, SectionLine, WithKey;
    if ls != [] {
      var p, rest := ls[0], ls[1..];
      SameLines(p, section, section', key, key');
      hide AllRespelled;
      if IsSection(p, section) {
        KeySetIgnoresCase(rest, section, section', key, key', v, stale);
        RespelledCons(p, WithKey(rest, key, v, stale), WithKey(rest, key', v, stale), section, section', key, key', v);
      } else {
        SectionSetIgnoresCase(rest, section, section', key, key', v, EndsLine(p), stale);
        RespelledCons(p, WithSection(rest, section, key, v, EndsLine(p), stale),
                      WithSection(rest, section', key', v, EndsLine(p), stale), section, section', key, key', v);
      }
    }
  }

  /** An edit under another spelling changes the same lines; what it writes is in that spelling. */
  lemma EditIgnoresCase(ls: seq<string>, section: string, section': string, key: string, key': string,
                        v: Option<string>, stale: bool)
    requires SameName(section, section') && SameName(key, key')
    ensures AllRespelled(Edited(ls, section, Some(key), v, stale), Edited(ls, section', Some(key'), v, stale),
                         section, section', key, key', v)
  {
    hide SameName, WithKey, WithSection, AllRespelled;
    Lengths(section, section');
    if section == "" {
      KeySetIgnoresCase(ls, section, section', key, key', v, stale);
    } else {
      SectionSetIgnoresCase(ls, section, section', key, key', v, stale, stale);
    }
  }

  /** So a dropped key is the same under any spelling, and a dropped section. */
  lemma DropIgnoresCase(ls: seq<string>, section: string, section': string, key: string, key': string, stale: bool)
    requires SameName(section, section') && SameName(key, key')
    ensures Edited(ls, section, Some(key), None, stale) == Edited(ls, section', Some(key'), None, stale)
    ensures Edited(ls, section, None, None, stale) == Edited(ls, section', None, None, stale)
  {
    EditIgnoresCase(ls, section, section', key, key', None, stale);
    Lengths(section, section');
    if section != "" { SectionDropIgnoresCase(ls, section, section'); }
    hide Edited, SameName;
    var a, b := Edited(ls, section, Some(key), None, stale), Edited(ls, section', Some(key'), None, stale);
    assert a == b;
  }

  lemma {:induction false} SectionDropIgnoresCase(ls: seq<string>, section: string, section': string)
    requires SameName(section, section')
    ensures WithoutSection(ls, section) == WithoutSection(ls, section')
    decreases ls
  {
    hide SameName, IsSection, Without;
    if ls != [] {
      SameNameSelf("");
      SameLines(ls[0], section, section', "", "");
      SectionDropIgnoresCase(ls[1..], section, section');
    }
  }

  //
  // A put in another spelling takes the place of the line there is
  //

  lemma {:induction false} SetKeyCounts(ls: seq<string>, key: string, key': string, v: string, ended: bool)
    requires GoodKey(key') && SameName(key', key)
    ensures KeyCount(WithKey(ls, key', Some(v), ended), key) == if KeyCount(ls, key) > 0 then KeyCount(ls, key) else 1
    decreases ls
  {
    var line := KeyLine(key', v);
    KeyLineSays(key', v, key, BUFFER);
    LineEndSays(key);
    hide KeyLine, GoodKey, SameName, IsKey, Opens, Comment, Separator, ValueOf;
    SameNameSelf("");
    assert [line][1..] == [] && ["\n", line][1..] == [line];
    if ls != [] {
      SameLines(ls[0], "", "", key', key);
      if IsKey(ls[0], key') || Opens(ls[0]) {
        var rest := if Opens(ls[0]) then ls else ls[1..];
        assert ([line] + rest)[1..] == rest;
      } else {
        SetKeyCounts(ls[1..], key, key', v, EndsLine(ls[0]));
        var rest := WithKey(ls[1..], key', Some(v), EndsLine(ls[0]));
        assert ([ls[0]] + rest)[1..] == rest;
      }
    }
  }

  lemma {:induction false} SectionBehindSet(ls: seq<string>, section: string, section': string, key: string, v: string,
                                            ended: bool, stale: bool)
    requires section != "" && GoodSection(section') && SameName(section', section)
    ensures var before := AfterSection(ls, section);
      AfterSection(WithSection(ls, section', key, Some(v), ended, stale), section)
      == Some(if before.None? then [KeyLine(key, v)] else WithKey(before.value, key, Some(v), stale))
    decreases ls
  {
    SectionLineSays(section', section);
    hide KeyLine, SectionLine, GoodSection, SameName, IsSection, WithKey;
    if ls == [] {
      var h, p := SectionLine(section'), KeyLine(key, v);
      EndsOnly(ended, [h, p], section, key);
      assert [h, p] == [h] + [p];
      AfterSectionAt(h, [p], section);
    } else {
      SameNameSelf("");
      SameLines(ls[0], section', section, "", "");
      if IsSection(ls[0], section) {
        AfterSectionAt(ls[0], WithKey(ls[1..], key, Some(v), stale), section);
      } else {
        SectionBehindSet(ls[1..], section, section', key, v, EndsLine(ls[0]), stale);
        AfterSectionPast(ls[0], WithSection(ls[1..], section', key, Some(v), EndsLine(ls[0]), stale), section);
      }
    }
  }

  lemma OneLine(key: string, key': string, v: string)
    requires GoodKey(key') && SameName(key', key)
    ensures KeyCount([KeyLine(key', v)], key) == 1
  {
    KeyLineSays(key', v, key, BUFFER);
    hide KeyLine, IsKey, Opens;
    assert [KeyLine(key', v)][1..] == [];
  }

  /**
   * A put under any spelling of section and key leaves as many lines of the key as there were before the next header,
   * and one if there was none: it does not add a second line beside that of another spelling.
   */
  lemma PutLeavesOneLine(ls: seq<string>, section: string, section': string, key: string, key': string, v: string,
                         stale: bool)
    requires SameName(section', section) && SameName(key', key) && GoodKey(key')
    requires section' == "" || GoodSection(section')
    ensures var had := KeyLinesIn(ls, section, key);
      KeyLinesIn(Edited(ls, section', Some(key'), Some(v), stale), section, key) == if had > 0 then had else 1
  {
    Lengths(section', section);
    hide GoodKey, GoodSection, SameName, WithKey, WithSection, KeyCount, KeyLine;
    if section == "" {
      SetKeyCounts(ls, key, key', v, stale);
    } else {
      SectionBehindSet(ls, section, section', key', v, stale, stale);
      var before := AfterSection(ls, section);
      if before.Some? { SetKeyCounts(before.value, key, key', v, stale); } else { OneLine(key, key', v); }
    }
  }

  /** A put of the value that is there leaves the file as it is, however its line is written. */
  lemma PutOfSameValue(text: string, section: string, key: string, v: string, stale: bool)
    requires Gets(text, section, key, 512) == Some(v)
    ensures Puts(text, section, Some(key), Some(v), stale) == text
  {
    hide Gets, Edited;
  }

  //
  // Lines, as they are written and as others write them
  //

  /** Control characters and spaces. */
  predicate AllBlank(s: string) { forall i | 0 <= i < |s| :: s[i] as int <= 32 }

  predicate Inked(s: string) { s != "" && s[0] as int > 32 && s[|s| - 1] as int > 32 }

  lemma {:induction false} SkipBlanks(lead: string, s: string)
    requires AllBlank(lead) && (s == "" || s[0] as int > 32)
    ensures SkipLeading(lead + s) == s
  {
    if lead != "" {
      assert (lead + s)[0] == lead[0] && (lead + s)[1..] == lead[1..] + s;
      assert Blank(lead[0]);
      SkipBlanks(lead[1..], s);
    } else {
      assert lead + s == s;
    }
  }

  lemma {:induction false} StripBlanks(s: string, gap: string)
    requires AllBlank(gap) && (s == "" || s[|s| - 1] as int > 32)
    ensures StripTrailing(s + gap) == s
    decreases |gap|
  {
    var n := |gap|;
    if n > 0 {
      assert (s + gap)[|s| + n - 1] == gap[n - 1] && (s + gap)[..|s| + n - 1] == s + gap[..n - 1];
      assert Blank(gap[n - 1]);
      StripBlanks(s, gap[..n - 1]);
    } else {
      assert s + gap == s;
    }
  }

  lemma {:induction false} IndexNone(s: string, c: char)
    requires c !in s
    ensures IndexOf(s, c) == None
  {}

  /** Blanks, a name, blanks, an equals sign, or a colon where there is none, and anything. */
  predicate Sets(p: string, lead: string, name: string, gap: string, sep: char, rest: string) {
    && p == lead + name + gap + [sep] + rest
    && AllBlank(lead) && AllBlank(gap) && Inked(name) && '=' !in name
    && (sep == '=' || (sep == ':' && ':' !in name && '=' !in rest))
  }

  lemma SeparatorFound(front: string, sep: char, rest: string)
    requires '=' !in front
    requires sep == '=' || (sep == ':' && ':' !in front && '=' !in rest)
    ensures Separator(front + [sep] + rest) == Some(|front|)
  {
    var h := front + [sep] + rest;
    IndexPast(front, sep, rest);
    if sep == ':' {
      assert '=' !in h;
      IndexNone(h, '=');
    }
  }

  /** Such a line sets the name in any case, unless it is a comment, and says what is behind the sign. */
  lemma LineSets(p: string, lead: string, name: string, gap: string, sep: char, rest: string, key: string, size: nat)
    requires Sets(p, lead, name, gap, sep, rest) && size > 0
    ensures Separator(SkipLeading(p)).Some?
    ensures IsKey(p, key) <==> SameName(name, key)
    ensures Comment(p) <==> name[0] == ';' || name[0] == '#'
    ensures Opens(p) <==> name[0] == '['
    ensures ValueOf(p, size) == ReadValue(rest, size)
  {
    hide SameName, ReadValue;
    var front := name + gap;
    var h := front + [sep] + rest;
    assert p == lead + h && h[0] == name[0];
    SkipBlanks(lead, h);
    assert '=' !in front && (sep == ':' ==> ':' !in front) by {
      assert forall i | 0 <= i < |gap| :: gap[i] != '=' && gap[i] != ':';
    }
    SeparatorFound(front, sep, rest);
    assert h[..|front|] == front && h[|front| + 1..] == rest;
    StripBlanks(name, gap);
  }

  /** A header: blanks, a name without a closing bracket in brackets, and anything. */
  lemma LineHeads(p: string, lead: string, name: string, rest: string, section: string)
    requires p == lead + "[" + name + "]" + rest && AllBlank(lead) && ']' !in name
    ensures Opens(p) && (IsSection(p, section) <==> SameName(name, section))
  {
    hide SameName;
    var h := "[" + name + "]" + rest;
    assert p == lead + h;
    SkipBlanks(lead, h);
    IndexPast("[" + name, ']', rest);
    assert h[1..|name| + 1] == name;
  }

  lemma {:induction false} CutAt(v: string, c: char, rest: string)
    requires NoSpecial(v) && c in {';', '#'}
    ensures BeforeComment(v + [c] + rest, false) == v
  {
    var s := v + [c] + rest;
    if v == "" {
      assert s[0] == c;
    } else {
      assert !Special(v[0]) && s[0] == v[0] && s[1..] == v[1..] + [c] + rest;
      assert |v| > 1 ==> !Special(v[1]);
      assert s[1] == if |v| > 1 then v[1] else c;
      assert forall i | 0 <= i < |v[1..]| :: v[1..][i] == v[i + 1];
      CutAt(v[1..], c, rest);
    }
  }

  /** A value ends before the blanks before a comment, or before the end of the line. */
  lemma ValueEnds(lead: string, v: string, gap: string, rest: string, size: nat)
    requires AllBlank(lead) && AllBlank(gap) && Inked(v) && NoSpecial(v) && size > 0
    requires rest == "" || rest[0] == ';' || rest[0] == '#'
    ensures ReadValue(lead + v + gap + rest, size) == v[..Min(|v|, size - 1)]
  {
    var t := v + gap;
    var s := t + rest;
    assert lead + v + gap + rest == lead + s && s[0] == v[0];
    SkipBlanks(lead, s);
    assert NoSpecial(t) by {
      assert forall i | 0 <= i < |gap| :: !Special(gap[i]);
      assert forall i | 0 <= i < |t| :: t[i] == if i < |v| then v[i] else gap[i - |v|];
    }
    if rest == "" {
      assert s == t;
      NothingToCut(t);
    } else {
      assert s == t + [rest[0]] + rest[1..];
      CutAt(t, rest[0], rest[1..]);
    }
    StripBlanks(v, gap);
    assert !Special(v[0]);
  }

  /** A quote, a comment mark, or a space at the end. */
  predicate MustQuote(v: string) {
    '"' in v || ';' in v || '#' in v || (v != "" && v[|v| - 1] == ' ')
  }

  lemma QuotesNeeded(v: string)
    ensures NeedsQuotes(v) <==> MustQuote(v)
  {
    if MustQuote(v) && '"' in v { assert exists i | 0 <= i < |v| :: v[i] == '"' && Special(v[i]); }
    if MustQuote(v) && ';' in v { assert exists i | 0 <= i < |v| :: v[i] == ';' && Special(v[i]); }
    if MustQuote(v) && '#' in v { assert exists i | 0 <= i < |v| :: v[i] == '#' && Special(v[i]); }
  }

  /** Escaping puts a backslash before every quote and leaves the rest alone. */
  lemma {:induction false} EscapePuts(a: string, b: string)
    requires '"' !in a
    ensures Escape(a) == a && Escape(a + "\"" + b) == a + "\\\"" + Escape(b)
  {
    var s := a + "\"" + b;
    if a == "" {
      assert s[0] == '"' && s[1..] == b;
    } else {
      assert s[0] == a[0] && s[1..] == a[1..] + "\"" + b;
      EscapePuts(a[1..], b);
    }
  }

  lemma {:induction false} LengthWithout(s: string, room: nat)
    requires room > 0 && |s| >= room - 1 && '\n' !in s[..room - 1]
    ensures PieceLength(s, room) == room - 1
    decreases room
  {
    if room > 1 {
      assert s[0] == s[..room - 1][0] && s[1..][..room - 2] == s[..room - 1][1..];
      LengthWithout(s[1..], room - 1);
    }
  }

  /** A line of 511 characters and more is read in pieces of that length. */
  lemma LongLineCut(text: string)
    requires |text| >= 511 && '\n' !in text[..511]
    ensures Pieces(text) == [text[..511]] + Pieces(text[511..])
  {
    hide PieceLength;
    LengthWithout(text, 512);
  }

  /** The text of the lines written, as far as there is room for 511 characters. */
  lemma LinesWritten(section: string, key: string, v: string)
    requires GoodSection(section) && GoodKey(key)
    requires |key| + (if MustQuote(v) then |Escape(v)| + 2 else |v|) < 509
    ensures SectionLine(section) == "[" + section + "]\n"
    ensures KeyLine(key, v) == key + "=" + (if MustQuote(v) then "\"" + Escape(v) + "\"" else v) + "\n"
  {
    hide NeedsQuotes, MustQuote, Enquoted, Escape, Fitting;
    assert section[..|section|] == section;
    KeyLineWritten(key, v);
  }

  lemma KeyLineWritten(key: string, v: string)
    requires |key| + (if MustQuote(v) then |Escape(v)| + 2 else |v|) < 509
    ensures KeyLine(key, v) == key + "=" + (if MustQuote(v) then "\"" + Escape(v) + "\"" else v) + "\n"
  {
    hide NeedsQuotes, MustQuote, Enquoted, Escape, Fitting;
    QuotesNeeded(v);
    EnquotedFits(v, 1, KEY_MAX - |key|);
    NothingEscaped();
    assert key[..|key|] == key && v[..|v|] == v;
  }

  lemma NothingEscaped()
    ensures Escape("") == ""
  {}
}
