/** Looking up and editing settings line by line. */
module IniEdit {
  import opened Bytes
  import opened IniText
  import opened IniQuote

  //
  // Looking up
  //

  /** The lines behind the first header of the section; without a name, all of them. */
  function AfterSection(ls: seq<string>, section: string): Option<seq<string>> {
    if section == "" then Some(ls)
    else if ls == [] then None
    else if IsSection(ls[0], section) then Some(ls[1..])
    else AfterSection(ls[1..], section)
  }

  /** The first line with the key, up to the next header. */
  function FindKey(ls: seq<string>, key: string): (p: Option<string>)
    ensures p.Some? ==> Separator(SkipLeading(p.value)).Some?
  {
    if ls == [] || Opens(ls[0]) then None
    else if !Comment(ls[0]) && IsKey(ls[0], key) then Some(ls[0])
    else FindKey(ls[1..], key)
  }

  function Lookup(ls: seq<string>, section: string, key: string): (p: Option<string>)
    ensures p.Some? ==> Separator(SkipLeading(p.value)).Some?
  {
    var found := AfterSection(ls, section);
    if found.None? then None else FindKey(found.value, key)
  }

  /** The value read into `size` characters, if the key is there. */
  function GetKey(ls: seq<string>, section: string, key: string, size: nat): Option<string>
    requires size > 0
  {
    var p := Lookup(ls, section, key);
    if p.None? then None else Some(ValueOf(p.value, size))
  }

  //
  // Editing: what the rewritten file holds
  //

  predicate EndsLine(p: string) { p != "" && p[|p| - 1] == '\n' }

  /** A line end, if what precedes did not have one. */
  function LineEndUnless(ended: bool): seq<string> { if ended then [] else ["\n"] }

  /** A key set, or with no value dropped, in the section the lines begin in. */
  function WithKey(ls: seq<string>, key: string, v: Option<string>, ended: bool): seq<string> {
    var line := if v.Some? then [KeyLine(key, v.value)] else [];
    if ls == [] then (if v.Some? then LineEndUnless(ended) + line else [])
    else if IsKey(ls[0], key) || Opens(ls[0]) then line + if Opens(ls[0]) then ls else ls[1..]
    else [ls[0]] + WithKey(ls[1..], key, v, EndsLine(ls[0]))
  }

  /**
   * The same in a named section, which is added at the end when it is missing. `stale` is whether the memory in front
   * of the line buffer happens to hold a line end.
   */
  function WithSection(ls: seq<string>, section: string, key: string, v: Option<string>, ended: bool, stale: bool)
      : seq<string>
  {
    if ls == [] then
      if v.Some? then LineEndUnless(ended) + [SectionLine(section), KeyLine(key, v.value)] else []
    else if IsSection(ls[0], section) then [ls[0]] + WithKey(ls[1..], key, v, stale)
    else [ls[0]] + WithSection(ls[1..], section, key, v, EndsLine(ls[0]), stale)
  }

  /** Everything up to the next header dropped. */
  function Without(ls: seq<string>): seq<string> {
    if ls == [] || Opens(ls[0]) then ls else Without(ls[1..])
  }

  function WithoutSection(ls: seq<string>, section: string): seq<string> {
    if ls == [] then []
    else if IsSection(ls[0], section) then Without(ls[1..])
    else [ls[0]] + WithoutSection(ls[1..], section)
  }

  /** An edit: a key set, a key dropped (no value), or a section dropped (no key). */
  function Edited(ls: seq<string>, section: string, key: Option<string>, v: Option<string>, stale: bool): seq<string> {
    if key.Some? then
      if section == "" then WithKey(ls, key.value, v, stale)
      else WithSection(ls, section, key.value, v, stale, stale)
    else if section == "" then (if ls == [] then [] else Without(ls[1..]))
    else WithoutSection(ls, section)
  }

  //
  // The lines an edit writes
  //

  /** A key a written line can be found by. */
  predicate GoodKey(key: string) {
    && '=' !in key && '\n' !in key && |key| < KEY_MAX
    && (key != "" ==> !Blank(key[0]) && !Blank(key[|key| - 1]) && key[0] !in {';', '#', '['})
  }

  predicate GoodSection(section: string) {
    section != "" && ']' !in section && '\n' !in section && |section| < SECTION_MAX
  }

  lemma {:induction false} IndexPast(a: string, c: char, rest: string)
    requires c !in a
    ensures IndexOf(a + [c] + rest, c) == Some(|a|)
  {
    var s := a + [c] + rest;
    if a == "" {
      assert s[0] == c;
    } else {
      assert s[0] == a[0] && s[1..] == a[1..] + [c] + rest;
      IndexPast(a[1..], c, rest);
    }
  }

  /** A written line belongs to its key and no other, and opens nothing. */
  lemma KeyLineSays(key: string, v: string, other: string, size: nat)
    requires GoodKey(key) && size > 0
    ensures var p := KeyLine(key, v);
      && !Opens(p) && !Comment(p)
      && (IsKey(p, other) <==> SameName(key, other))
      && Separator(SkipLeading(p)).Some?
      && ValueOf(p, size) == ReadValue(Save(v, KEY_MAX - |key|, QuotingFor(v)) + "\n", size)
  {
    var p, rest := KeyLine(key, v), Save(v, KEY_MAX - |key|, QuotingFor(v)) + "\n";
    assert key[..|key|] == key;
    assert p == key + "=" + rest;
    assert p[0] == if key == "" then '=' else key[0];
    assert SkipLeading(p) == p;
    IndexPast(key, '=', rest);
    assert p[..|key|] == key && p[|key| + 1..] == rest;
    StripKeeps(key);
  }

  lemma SectionLineSays(section: string, other: string)
    requires GoodSection(section)
    ensures Opens(SectionLine(section)) && (IsSection(SectionLine(section), other) <==> SameName(section, other))
  {
    var p := SectionLine(section);
    assert section[..|section|] == section;
    assert p == "[" + section + "]" + "\n";
    IndexPast("[" + section, ']', "\n");
    assert p[1..|section| + 1] == section;
  }

  lemma LineEndSays(key: string)
    ensures !Opens("\n") && !IsKey("\n", key)
  {
    assert "\n"[1..] == "";
    assert SkipLeading("\n") == "";
  }

  lemma FindKeyPast(p: string, rest: seq<string>, key: string)
    requires !Opens(p) && !IsKey(p, key)
    ensures FindKey([p] + rest, key) == FindKey(rest, key)
  {
    assert ([p] + rest)[1..] == rest;
  }

  lemma AfterSectionPast(p: string, rest: seq<string>, section: string)
    requires section != "" && !IsSection(p, section)
    ensures AfterSection([p] + rest, section) == AfterSection(rest, section)
  {
    assert ([p] + rest)[1..] == rest;
  }

  lemma AfterSectionAt(p: string, rest: seq<string>, section: string)
    requires section != "" && IsSection(p, section)
    ensures AfterSection([p] + rest, section) == Some(rest)
  {
    assert ([p] + rest)[1..] == rest;
  }

  lemma EndsOnly(ended: bool, rest: seq<string>, section: string, key: string)
    ensures FindKey(LineEndUnless(ended) + rest, key) == FindKey(rest, key)
    ensures section != "" ==> AfterSection(LineEndUnless(ended) + rest, section) == AfterSection(rest, section)
  {
    LineEndSays(key);
    FindKeyPast("\n", rest, key);
    assert [] + rest == rest;
    if section != "" { AfterSectionPast("\n", rest, section); }
  }

  //
  // The key that was set
  //

  lemma {:induction false} SetKeyFound(ls: seq<string>, key: string, v: string, ended: bool)
    requires GoodKey(key)
    ensures FindKey(WithKey(ls, key, Some(v), ended), key) == Some(KeyLine(key, v))
    decreases ls
  {
    hide KeyLine, GoodKey, Opens, IsKey, Comment, Separator;
    var p := KeyLine(key, v);
    KeyLineSays(key, v, key, BUFFER);
    if ls == [] {
      EndsOnly(ended, [p], "", key);
    } else if !IsKey(ls[0], key) && !Opens(ls[0]) {
      SetKeyFound(ls[1..], key, v, EndsLine(ls[0]));
      FindKeyPast(ls[0], WithKey(ls[1..], key, Some(v), EndsLine(ls[0])), key);
    } else {
      var rest := if Opens(ls[0]) then ls else ls[1..];
      assert ([p] + rest)[0] == p;
    }
  }

  lemma {:induction false} SetKeyInSection(ls: seq<string>, section: string, key: string, v: string, ended: bool,
                                            stale: bool)
    requires GoodKey(key) && GoodSection(section)
    ensures Lookup(WithSection(ls, section, key, Some(v), ended, stale), section, key) == Some(KeyLine(key, v))
    decreases ls
  {
    hide KeyLine, SectionLine, GoodKey, IsSection, Opens, IsKey, Comment, FindKey, WithKey;
    var out := WithSection(ls, section, key, Some(v), ended, stale);
    if ls == [] {
      SectionLineSays(section, section);
      var h, p := SectionLine(section), KeyLine(key, v);
      EndsOnly(ended, [h, p], section, key);
      assert [h, p] == [h] + [p];
      AfterSectionAt(h, [p], section);
      SetKeyFound([], key, v, true);
      OnlyKey(key, v);
    } else if IsSection(ls[0], section) {
      AfterSectionAt(ls[0], WithKey(ls[1..], key, Some(v), stale), section);
      SetKeyFound(ls[1..], key, v, stale);
    } else {
      SetKeyInSection(ls[1..], section, key, v, EndsLine(ls[0]), stale);
      AfterSectionPast(ls[0], WithSection(ls[1..], section, key, Some(v), EndsLine(ls[0]), stale), section);
    }
  }

  lemma OnlyKey(key: string, v: string)
    ensures WithKey([], key, Some(v), true) == [KeyLine(key, v)]
  {
    hide KeyLine;
  }

  //
  // The others
  //

  lemma {:induction false} OtherKeyKept(ls: seq<string>, key: string, v: Option<string>, ended: bool, other: string)
    requires GoodKey(key) && !SameName(key, other)
    ensures FindKey(WithKey(ls, key, v, ended), other) == FindKey(ls, other)
    decreases ls
  {
    if v.Some? { KeyLineSays(key, v.value, other, BUFFER); }
    if ls != [] && IsKey(ls[0], key) && IsKey(ls[0], other) { BothKeys(ls[0], key, other); }
    hide KeyLine, GoodKey, Opens, IsKey, Comment, Separator;
    var line := if v.Some? then [KeyLine(key, v.value)] else [];
    if ls == [] {
      if v.Some? {
        EndsOnly(ended, line, "", other);
        FindKeyPast(line[0], [], other);
        assert line == line + [];
      }
    } else if !IsKey(ls[0], key) && !Opens(ls[0]) {
      OtherKeyKept(ls[1..], key, v, EndsLine(ls[0]), other);
      var rest := WithKey(ls[1..], key, v, EndsLine(ls[0]));
      assert ([ls[0]] + rest)[1..] == rest;
    } else {
      var rest := if Opens(ls[0]) then ls else ls[1..];
      if v.Some? {
        FindKeyPast(line[0], rest, other);
      } else {
        assert line + rest == rest;
      }
    }
  }

  lemma BothKeys(p: string, key: string, other: string)
    requires IsKey(p, key) && IsKey(p, other)
    ensures SameName(key, other)
  {}

  lemma BothSections(p: string, section: string, other: string)
    requires IsSection(p, section) && IsSection(p, other)
    ensures SameName(section, other)
  {}

  /** An edit in the first lines finds the same sections behind them. */
  lemma {:induction false} SectionsBehindKept(ls: seq<string>, key: string, v: Option<string>, ended: bool,
                                              section: string)
    requires GoodKey(key) && section != ""
    ensures AfterSection(WithKey(ls, key, v, ended), section) == AfterSection(ls, section)
    decreases ls
  {
    if v.Some? { KeyLineSays(key, v.value, key, BUFFER); }
    var line := if v.Some? then [KeyLine(key, v.value)] else [];
    assert v.Some? ==> !IsSection(line[0], section);
    assert ls != [] && !Opens(ls[0]) ==> !IsSection(ls[0], section);
    hide KeyLine, GoodKey, Opens, IsKey, IsSection;
    if ls == [] {
      if v.Some? {
        EndsOnly(ended, line, section, key);
        AfterSectionPast(line[0], [], section);
        assert line == line + [];
      }
    } else if !IsKey(ls[0], key) && !Opens(ls[0]) {
      SectionsBehindKept(ls[1..], key, v, EndsLine(ls[0]), section);
      AfterSectionPast(ls[0], WithKey(ls[1..], key, v, EndsLine(ls[0])), section);
    } else {
      var rest := if Opens(ls[0]) then ls else ls[1..];
      if v.Some? {
        AfterSectionPast(line[0], rest, section);
      } else {
        assert line + rest == rest;
      }
    }
  }

  /** Up to the first header nothing changes when a named section is edited. */
  lemma {:induction false} TopKept(ls: seq<string>, section: string, key: string, v: Option<string>, ended: bool,
                                    stale: bool, other: string)
    requires GoodSection(section)
    ensures FindKey(WithSection(ls, section, key, v, ended, stale), other) == FindKey(ls, other)
    decreases ls
  {
    SectionLineSays(section, section);
    assert ls != [] && IsSection(ls[0], section) ==> Opens(ls[0]);
    hide KeyLine, SectionLine, GoodKey, Opens, IsKey, IsSection, WithKey, Comment;
    if ls == [] {
      if v.Some? {
        var tail := [SectionLine(section), KeyLine(key, v.value)];
        EndsOnly(ended, tail, "", other);
      }
    } else if !IsSection(ls[0], section) {
      TopKept(ls[1..], section, key, v, EndsLine(ls[0]), stale, other);
      var rest := WithSection(ls[1..], section, key, v, EndsLine(ls[0]), stale);
      assert ([ls[0]] + rest)[1..] == rest;
    } else {
      assert ([ls[0]] + WithKey(ls[1..], key, v, stale))[0] == ls[0];
    }
  }

  /** Another section, or another key of the same. */
  lemma {:induction false} OtherLookupKept(ls: seq<string>, section: string, key: string, v: Option<string>,
                                           ended: bool, stale: bool, section': string, key': string)
    requires GoodKey(key) && GoodSection(section)
    requires !(SameName(section, section') && SameName(key, key'))
    ensures Lookup(WithSection(ls, section, key, v, ended, stale), section', key') == Lookup(ls, section', key')
    decreases ls
  {
    SectionLineSays(section, section');
    if ls != [] && IsSection(ls[0], section) && IsSection(ls[0], section') { BothSections(ls[0], section, section'); }
    hide KeyLine, SectionLine, GoodKey, GoodSection, Opens, IsKey, IsSection, Comment, FindKey, WithKey, SameName;
    if section' == "" {
      TopKept(ls, section, key, v, ended, stale, key');
    } else if ls == [] {
      if v.Some? { AddedSectionKeeps(section, key, v.value, ended, section', key'); }
    } else if IsSection(ls[0], section) {
      var rest := WithKey(ls[1..], key, v, stale);
      if IsSection(ls[0], section') {
        AfterSectionAt(ls[0], rest, section');
        OtherKeyKept(ls[1..], key, v, stale, key');
      } else {
        AfterSectionPast(ls[0], rest, section');
        SectionsBehindKept(ls[1..], key, v, stale, section');
      }
    } else {
      var rest := WithSection(ls[1..], section, key, v, EndsLine(ls[0]), stale);
      if IsSection(ls[0], section') {
        AfterSectionAt(ls[0], rest, section');
        TopKept(ls[1..], section, key, v, EndsLine(ls[0]), stale, key');
      } else {
        AfterSectionPast(ls[0], rest, section');
        OtherLookupKept(ls[1..], section, key, v, EndsLine(ls[0]), stale, section', key');
      }
    }
  }

  lemma AddedSectionKeeps(section: string, key: string, v: string, ended: bool, section': string, key': string)
    requires GoodKey(key) && GoodSection(section) && section' != ""
    requires !(SameName(section, section') && SameName(key, key'))
    ensures Lookup(LineEndUnless(ended) + [SectionLine(section), KeyLine(key, v)], section', key') == None
  {
    hide KeyLine, SectionLine, GoodKey, GoodSection, Opens, IsKey, IsSection, Comment, SameName, Separator, ValueOf;
    SectionLineSays(section, section');
    KeyLineSays(key, v, key', BUFFER);
    var h, p := SectionLine(section), KeyLine(key, v);
    NotASection(p, section');
    EndsOnly(ended, [h, p], section', key');
    assert [h, p] == [h] + [p] && [p] == [p] + [];
    if !SameName(key, key') { FindKeyPast(p, [], key'); }
    AfterSectionPast(p, [], section');
    if IsSection(h, section') {
      AfterSectionAt(h, [p], section');
    } else {
      AfterSectionPast(h, [p], section');
    }
  }

  lemma NotASection(p: string, section: string)
    requires !Opens(p)
    ensures !IsSection(p, section)
  {}

  //
  // Dropping a section
  //

  lemma {:induction false} WithoutKeepsSections(ls: seq<string>, section: string)
    requires section != ""
    ensures AfterSection(Without(ls), section) == AfterSection(ls, section)
    decreases ls
  {
    if ls != [] && !Opens(ls[0]) { WithoutKeepsSections(ls[1..], section); }
  }

  lemma {:induction false} OpensNext(ls: seq<string>, key: string)
    ensures FindKey(Without(ls), key) == None
    decreases ls
  {
    if ls != [] && !Opens(ls[0]) { OpensNext(ls[1..], key); }
  }

  /** The other sections, and the lines before the first, stay. */
  lemma {:induction false} OtherSectionsStay(ls: seq<string>, section: string, section': string, key': string)
    requires section != "" && !SameName(section, section')
    ensures Lookup(WithoutSection(ls, section), section', key') == Lookup(ls, section', key')
    decreases ls
  {
    if ls != [] && IsSection(ls[0], section) && IsSection(ls[0], section') { BothSections(ls[0], section, section'); }
    assert ls != [] && IsSection(ls[0], section) ==> Opens(ls[0]);
    hide Opens, IsSection, Comment, IsKey, SameName;
    if ls != [] {
      if IsSection(ls[0], section) {
        OpensNext(ls[1..], key');
        if section' != "" { WithoutKeepsSections(ls[1..], section'); }
      } else {
        var rest := WithoutSection(ls[1..], section);
        OtherSectionsStay(ls[1..], section, section', key');
        if section' != "" {
          if IsSection(ls[0], section') {
            AfterSectionAt(ls[0], rest, section');
            TopStays(ls[1..], section, key');
          } else {
            AfterSectionPast(ls[0], rest, section');
          }
        } else {
          assert ([ls[0]] + rest)[1..] == rest;
        }
      }
    }
  }

  lemma {:induction false} TopStays(ls: seq<string>, section: string, key: string)
    ensures FindKey(WithoutSection(ls, section), key) == FindKey(ls, key)
    decreases ls
  {
    assert ls != [] && IsSection(ls[0], section) ==> Opens(ls[0]);
    hide Opens, IsSection, Comment, IsKey;
    if ls != [] {
      if IsSection(ls[0], section) {
        OpensNext(ls[1..], key);
      } else {
        TopStays(ls[1..], section, key);
        var rest := WithoutSection(ls[1..], section);
        assert ([ls[0]] + rest)[1..] == rest;
      }
    }
  }

  /** Dropping the keys before the first section always takes a line more: right unless that line is a header. */
  lemma UnnamedDropExact(ls: seq<string>, v: Option<string>, stale: bool)
    ensures Edited(ls, "", None, v, stale) == Without(ls) <==> ls == [] || !Opens(ls[0])
  {
    if ls != [] { WithoutShorter(ls[1..]); }
  }

  lemma {:induction false} WithoutShorter(ls: seq<string>)
    ensures |Without(ls)| <= |ls|
  {
    if ls != [] && !Opens(ls[0]) { WithoutShorter(ls[1..]); }
  }

  /** Then a section is lost with its header. */
  lemma UnnamedDropLosesSection()
    ensures var ls := ["[a]\n", "k=v\n"];
      Lookup(ls, "a", "k").Some? && Lookup(Edited(ls, "", None, None, false), "a", "k").None?
  {
  }

  //
  // Main results
  //

  /** The lookup of what was set gives the line written for it. */
  lemma PutThenLookup(ls: seq<string>, section: string, key: string, v: string, stale: bool)
    requires GoodKey(key) && (section == "" || GoodSection(section))
    ensures Lookup(Edited(ls, section, Some(key), Some(v), stale), section, key) == Some(KeyLine(key, v))
  {
    if section == "" {
      SetKeyFound(ls, key, v, stale);
    } else {
      SetKeyInSection(ls, section, key, v, stale, stale);
    }
  }

  lemma KeyFits(key: string)
    requires GoodKey(key)
    ensures |key| < KEY_MAX
  {}

  /** And reading it gives the value, exactly for the values that fit and are quoted or have no blanks around them. */
  lemma PutThenGetLine(ls: seq<string>, section: string, key: string, v: string, stale: bool, size: nat)
    requires GoodKey(key) && (section == "" || GoodSection(section)) && size >= BUFFER
    ensures GetKey(Edited(ls, section, Some(key), Some(v), stale), section, key, size) == Some(v)
       <==> Fits(v, KEY_MAX - |key|) && (NeedsQuotes(v) || Trim(v) == v)
  {
    hide Edited, Lookup, KeyLine, GoodKey, GoodSection, ReadValue, Save, Fits, NeedsQuotes, Trim, Opens, Comment, IsKey;
    hide ValueOf, Separator;
    assert |key| < KEY_MAX by { KeyFits(key); }
    PutThenLookup(ls, section, key, v, stale);
    KeyLineSays(key, v, key, size);
    ReadBackExact(v, KEY_MAX - |key|, size);
  }

  /** Setting or dropping a key leaves every other lookup alone. */
  lemma OthersUnchanged(ls: seq<string>, section: string, key: string, v: Option<string>, stale: bool,
                        section': string, key': string)
    requires GoodKey(key) && (section == "" || GoodSection(section))
    requires !(SameName(section, section') && SameName(key, key'))
    ensures Lookup(Edited(ls, section, Some(key), v, stale), section', key') == Lookup(ls, section', key')
  {
    if section != "" {
      OtherLookupKept(ls, section, key, v, stale, stale, section', key');
    } else if section' == "" {
      OtherKeyKept(ls, key, v, stale, key');
    } else {
      SectionsBehindKept(ls, key, v, stale, section');
    }
  }
}
