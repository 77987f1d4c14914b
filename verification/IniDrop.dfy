/** What dropping a key or a section leaves to be found under its name. */
module IniDrop {
  import opened Bytes
  import opened IniText
  import opened IniQuote
  import opened IniEdit
  import opened IniFile

  /** How many lines up to the next header are the key's. */
  function KeyCount(ls: seq<string>, key: string): nat {
    if ls == [] || Opens(ls[0]) then 0
    else (if IsKey(ls[0], key) then 1 else 0) + KeyCount(ls[1..], key)
  }

  function SectionCount(ls: seq<string>, section: string): nat {
    if ls == [] then 0 else (if IsSection(ls[0], section) then 1 else 0) + SectionCount(ls[1..], section)
  }

  /** How many lines an edit of the section finds to be the key's. */
  function KeyLinesIn(ls: seq<string>, section: string, key: string): nat {
    var found := AfterSection(ls, section);
    if found.None? then 0 else KeyCount(found.value, key)
  }

  /** A good key does not begin like a comment, so no comment is taken for its line. */
  lemma KeyIsNoComment(p: string, key: string)
    requires GoodKey(key) && IsKey(p, key)
    ensures !Comment(p)
  {
    var h := SkipLeading(p);
    var n := Separator(h).value;
    StripKeeps(h[..n]);
    if n > 0 && (h[0] == ';' || h[0] == '#') { StripFront(h[..n]); }
  }

  /** What is stripped at the end leaves a front that is not blank. */
  lemma {:induction false} StripFront(s: string)
    requires s != "" && !Blank(s[0])
    ensures StripTrailing(s) != "" && StripTrailing(s)[0] == s[0]
    decreases |s|
  {
    if Blank(s[|s| - 1]) { StripFront(s[..|s| - 1]); }
  }

  lemma {:induction false} FoundExactly(ls: seq<string>, key: string)
    requires GoodKey(key)
    ensures FindKey(ls, key).Some? <==> KeyCount(ls, key) > 0
    decreases ls
  {
    if ls != [] && IsKey(ls[0], key) { KeyIsNoComment(ls[0], key); }
    hide IsKey, Opens, Comment, GoodKey, Separator;
    if ls != [] && !Opens(ls[0]) && !IsKey(ls[0], key) { FoundExactly(ls[1..], key); }
  }

  lemma {:induction false} DropTakesOne(ls: seq<string>, key: string, ended: bool)
    ensures KeyCount(WithKey(ls, key, None, ended), key) == if KeyCount(ls, key) > 0 then KeyCount(ls, key) - 1 else 0
    decreases ls
  {
    hide IsKey, Opens;
    if ls != [] && !Opens(ls[0]) {
      if IsKey(ls[0], key) {
        assert [] + ls[1..] == ls[1..];
      } else {
        DropTakesOne(ls[1..], key, EndsLine(ls[0]));
        var rest := WithKey(ls[1..], key, None, EndsLine(ls[0]));
        assert ([ls[0]] + rest)[1..] == rest;
      }
    } else if ls != [] {
      assert [] + ls == ls;
    }
  }

  lemma {:induction false} SectionBehindDrop(ls: seq<string>, section: string, key: string, ended: bool, stale: bool)
    requires section != ""
    ensures var before := AfterSection(ls, section);
      AfterSection(WithSection(ls, section, key, None, ended, stale), section)
      == if before.None? then None else Some(WithKey(before.value, key, None, stale))
    decreases ls
  {
    hide IsSection, WithKey;
    if ls != [] {
      if IsSection(ls[0], section) {
        AfterSectionAt(ls[0], WithKey(ls[1..], key, None, stale), section);
      } else {
        SectionBehindDrop(ls[1..], section, key, EndsLine(ls[0]), stale);
        AfterSectionPast(ls[0], WithSection(ls[1..], section, key, None, EndsLine(ls[0]), stale), section);
      }
    }
  }

  /**
   * Dropping a key takes one line of it. It is no longer found exactly if there was no other before the next header;
   * a line of the section behind that is not the key's.
   */
  lemma DropThenLookup(ls: seq<string>, section: string, key: string, stale: bool)
    requires GoodKey(key)
    ensures var out := Edited(ls, section, Some(key), None, stale);
      && var had := KeyLinesIn(ls, section, key);
      && KeyLinesIn(out, section, key) == (if had > 0 then had - 1 else 0)
      && (Lookup(out, section, key) == None <==> had <= 1)
  {
    hide GoodKey, KeyCount, WithKey, WithSection, FindKey;
    var before := AfterSection(ls, section);
    if section != "" { SectionBehindDrop(ls, section, key, stale, stale); }
    if before.Some? {
      DropTakesOne(before.value, key, stale);
      FoundExactly(WithKey(before.value, key, None, stale), key);
    }
  }

  lemma {:induction false} SectionFoundExactly(ls: seq<string>, section: string)
    requires section != ""
    ensures AfterSection(ls, section).Some? <==> SectionCount(ls, section) > 0
    ensures AfterSection(ls, section).Some? ==>
      SectionCount(AfterSection(ls, section).value, section) == SectionCount(ls, section) - 1
    decreases ls
  {
    hide IsSection;
    if ls != [] && !IsSection(ls[0], section) { SectionFoundExactly(ls[1..], section); }
  }

  lemma {:induction false} SecondSectionFound(ls: seq<string>, section: string)
    requires section != ""
    ensures var before := AfterSection(ls, section);
      AfterSection(WithoutSection(ls, section), section)
      == if before.None? then None else AfterSection(before.value, section)
    decreases ls
  {
    hide IsSection, Without;
    if ls != [] {
      if IsSection(ls[0], section) {
        WithoutKeepsSections(ls[1..], section);
      } else {
        SecondSectionFound(ls[1..], section);
        AfterSectionPast(ls[0], WithoutSection(ls[1..], section), section);
      }
    }
  }

  /**
   * Dropping a section, its keys are looked up in the next section of the name: none is found exactly if it was the
   * only one.
   */
  lemma DropThenSection(ls: seq<string>, section: string, v: Option<string>, stale: bool, key: string)
    requires section != ""
    ensures var out, before := Edited(ls, section, None, v, stale), AfterSection(ls, section);
      && (AfterSection(out, section) == None <==> SectionCount(ls, section) <= 1)
      && Lookup(out, section, key) == (if before.None? then None else Lookup(before.value, section, key))
  {
    hide WithoutSection, FindKey;
    SecondSectionFound(ls, section);
    SectionFoundExactly(ls, section);
    var before := AfterSection(ls, section);
    if before.Some? { SectionFoundExactly(before.value, section); }
  }

  /** On files: after the drop a reader gets the default exactly if the key had at most one line. */
  lemma DropThenGet(text: string, section: string, key: string, stale: bool, size: nat)
    requires Proper(Pieces(text)) && GoodKey(key) && (section == "" || GoodSection(section)) && size > 0
    ensures Gets(Puts(text, section, Some(key), None, stale), section, key, size) == None
       <==> KeyLinesIn(Pieces(text), section, key) <= 1
  {
    hide Edited, GoodKey, GoodSection, Puts, Proper, Lookup, KeyLinesIn;
    EditedPieces(text, section, key, None, stale);
    DropThenLookup(Pieces(text), section, key, stale);
  }

  lemma {:induction false} DroppedSectionProper(ls: seq<string>, section: string)
    requires Proper(ls)
    ensures Proper(WithoutSection(ls, section))
    decreases ls
  {
    hide ProperLine, IsSection;
    if ls != [] {
      if IsSection(ls[0], section) {
        var j := WithoutExact(ls[1..]);
      } else {
        DroppedSectionProper(ls[1..], section);
      }
    }
  }

  /** And after a section is dropped, what the next section of the name has for the key. */
  lemma DropSectionThenGet(text: string, section: string, v: Option<string>, stale: bool, key: string, size: nat)
    requires Proper(Pieces(text)) && section != "" && size > 0
    ensures var before := AfterSection(Pieces(text), section);
      Gets(Puts(text, section, None, v, stale), section, key, size)
      == if before.None? then None else GetKey(before.value, section, key, size)
  {
    hide WithoutSection, SectionCount;
    var ls := Pieces(text);
    DropThenSection(ls, section, v, stale, key);
    DroppedSectionProper(ls, section);
    PiecesOfLines(WithoutSection(ls, section));
  }
}
