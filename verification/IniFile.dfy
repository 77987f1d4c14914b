/** Settings files as text. */
module IniFile {
  import opened Bytes
  import opened IniText
  import opened IniQuote
  import opened IniEdit

  /** What reading a key into `size` characters gives. */
  function Gets(text: string, section: string, key: string, size: nat): Option<string>
    requires size > 0
  {
    GetKey(Pieces(text), section, key, size)
  }

  /** The file after an edit; setting a key to the value it has leaves it untouched. */
  function Puts(text: string, section: string, key: Option<string>, v: Option<string>, stale: bool): string {
    if key.Some? && v.Some? && Gets(text, section, key.value, BUFFER) == v then text
    else Flatten(Edited(Pieces(text), section, key, v, stale))
  }

  /** The file that is made when there was none. */
  function Fresh(section: string, key: string, v: string): string {
    (if section == "" then "" else SectionLine(section)) + KeyLine(key, v)
  }

  //
  // An edit touches one place
  //

  /** The section's lines begin at `from`: behind its first header, or without a name at the top. */
  predicate Begins(ls: seq<string>, section: string, from: nat) {
    if section == "" then from == 0
    else 0 < from <= |ls| && IsSection(ls[from - 1], section)
         && forall k | 0 <= k < from - 1 :: !IsSection(ls[k], section)
  }

  predicate Missing(ls: seq<string>, section: string) {
    section != "" && forall k | 0 <= k < |ls| :: !IsSection(ls[k], section)
  }

  /**
   * Between `from` and `i` stands neither the key nor a header. At `i` stands the key, and the lines behind `j` are
   * those behind it; or a header or nothing, and `j` is `i`.
   */
  predicate KeyPlace(ls: seq<string>, key: string, from: nat, i: nat, j: nat) {
    && from <= i <= j <= |ls|
    && (forall k | from <= k < i :: !IsKey(ls[k], key) && !Opens(ls[k]))
    && (if i < |ls| && !Opens(ls[i]) then j == i + 1 && IsKey(ls[i], key) else j == i)
  }

  /** The lines that take the key's place: at the end of the file with a line end, if what precedes has none. */
  function KeyLines(ls: seq<string>, key: string, v: Option<string>, from: nat, i: nat, ended: bool): seq<string>
    requires from <= i <= |ls|
  {
    if v.None? then []
    else LineEndUnless(i < |ls| || (if i > from then EndsLine(ls[i - 1]) else ended)) + [KeyLine(key, v.value)]
  }

  /** What a missing section is added with. */
  function AddedLines(ls: seq<string>, section: string, key: string, v: Option<string>, ended: bool): seq<string> {
    if v.None? then []
    else LineEndUnless(if ls == [] then ended else EndsLine(ls[|ls| - 1]))
         + [SectionLine(section), KeyLine(key, v.value)]
  }

  predicate KeyEdit(ls: seq<string>, out: seq<string>, key: string, v: Option<string>, from: nat, i: nat, j: nat,
                    ended: bool)
  {
    KeyPlace(ls, key, from, i, j) && out == ls[..i] + KeyLines(ls, key, v, from, i, ended) + ls[j..]
  }

  lemma PlaceBehind(p: string, ls: seq<string>, key: string, from: nat, i: nat, j: nat)
    requires KeyPlace(ls, key, from, i, j)
    ensures KeyPlace([p] + ls, key, from + 1, i + 1, j + 1)
    ensures from == 0 && !IsKey(p, key) && !Opens(p) ==> KeyPlace([p] + ls, key, 0, i + 1, j + 1)
  {
    hide IsKey, Opens;
    var all := [p] + ls;
    assert forall k | 0 < k < |all| :: all[k] == ls[k - 1];
  }

  lemma LinesBehind(p: string, ls: seq<string>, key: string, v: Option<string>, from: nat, i: nat, ended: bool)
    requires from <= i <= |ls|
    ensures KeyLines([p] + ls, key, v, from + 1, i + 1, ended) == KeyLines(ls, key, v, from, i, ended)
    ensures from == 0 ==> KeyLines([p] + ls, key, v, 0, i + 1, ended) == KeyLines(ls, key, v, 0, i, EndsLine(p))
  {
    hide KeyLine;
    assert i > 0 ==> ([p] + ls)[i] == ls[i - 1];
    assert ([p] + ls)[0] == p;
  }

  lemma ReplacedBehind(p: string, ls: seq<string>, lines: seq<string>, i: nat, j: nat)
    requires i <= j <= |ls|
    ensures [p] + (ls[..i] + lines + ls[j..]) == ([p] + ls)[..i + 1] + lines + ([p] + ls)[j + 1..]
  {
    assert ([p] + ls)[..i + 1] == [p] + ls[..i] && ([p] + ls)[j + 1..] == ls[j..];
  }

  lemma KeyEditBehind(p: string, ls: seq<string>, out: seq<string>, key: string, v: Option<string>, from: nat, i: nat,
                      j: nat, ended: bool)
    requires KeyEdit(ls, out, key, v, from, i, j, ended)
    ensures KeyEdit([p] + ls, [p] + out, key, v, from + 1, i + 1, j + 1, ended)
  {
    KeyPlaceBounds(ls, key, from, i, j);
    PlaceBehind(p, ls, key, from, i, j);
    hide KeyPlace;
    LinesBehind(p, ls, key, v, from, i, ended);
    ReplacedBehind(p, ls, KeyLines(ls, key, v, from, i, ended), i, j);
    hide KeyLines;
  }

  /** A line that is not the place is passed over, and then decides whether a line end is missing. */
  lemma KeyEditFurther(p: string, ls: seq<string>, out: seq<string>, key: string, v: Option<string>, i: nat, j: nat,
                       ended: bool)
    requires KeyEdit(ls, out, key, v, 0, i, j, EndsLine(p)) && !IsKey(p, key) && !Opens(p)
    ensures KeyEdit([p] + ls, [p] + out, key, v, 0, i + 1, j + 1, ended)
  {
    KeyPlaceBounds(ls, key, 0, i, j);
    PlaceBehind(p, ls, key, 0, i, j);
    hide KeyPlace;
    LinesBehind(p, ls, key, v, 0, i, ended);
    ReplacedBehind(p, ls, KeyLines(ls, key, v, 0, i, EndsLine(p)), i, j);
    hide KeyLines;
  }

  lemma {:induction false} WithKeyExact(ls: seq<string>, key: string, v: Option<string>, ended: bool)
      returns (i: nat, j: nat)
    ensures KeyEdit(ls, WithKey(ls, key, v, ended), key, v, 0, i, j, ended)
    decreases ls
  {
    hide KeyLine, IsKey, Opens;
    if ls == [] {
      i, j := 0, 0;
    } else if IsKey(ls[0], key) || Opens(ls[0]) {
      i, j := 0, if Opens(ls[0]) then 0 else 1;
      var line := if v.Some? then [KeyLine(key, v.value)] else [];
      assert LineEndUnless(true) + line == line;
    } else {
      i, j := WithKeyExact(ls[1..], key, v, EndsLine(ls[0]));
      KeyEditFurther(ls[0], ls[1..], WithKey(ls[1..], key, v, EndsLine(ls[0])), key, v, i, j, ended);
      assert ls == [ls[0]] + ls[1..];
      i, j := i + 1, j + 1;
    }
  }

  /** What becomes of the lines of a named section. */
  predicate SectionEdit(ls: seq<string>, out: seq<string>, section: string, key: string, v: Option<string>, from: nat,
                        i: nat, j: nat, ended: bool, stale: bool)
  {
    if Missing(ls, section) then out == ls + AddedLines(ls, section, key, v, ended)
    else Begins(ls, section, from) && KeyEdit(ls, out, key, v, from, i, j, stale)
  }

  lemma {:induction false} WithSectionExact(ls: seq<string>, section: string, key: string, v: Option<string>,
                                            ended: bool, stale: bool)
      returns (from: nat, i: nat, j: nat)
    requires section != ""
    ensures SectionEdit(ls, WithSection(ls, section, key, v, ended, stale), section, key, v, from, i, j, ended, stale)
    decreases ls
  {
    hide KeyLine, SectionLine, IsSection, WithKey, KeyEdit, Missing, Begins;
    from, i, j := 0, 0, 0;
    if ls == [] {
      NothingThere(section);
    } else {
      var p, rest := ls[0], ls[1..];
      assert ls == [p] + rest;
      if IsSection(p, section) {
        BeginsHere(p, rest, section);
        i, j := WithKeyExact(rest, key, v, stale);
        KeyEditBehind(p, rest, WithKey(rest, key, v, stale), key, v, 0, i, j, stale);
        from, i, j := 1, i + 1, j + 1;
      } else {
        var out := WithSection(rest, section, key, v, EndsLine(p), stale);
        from, i, j := WithSectionExact(rest, section, key, v, EndsLine(p), stale);
        MissingFurther(p, rest, section);
        if Missing(rest, section) {
          AddedFurther(p, rest, section, key, v, ended);
        } else {
          KeyEditBehind(p, rest, out, key, v, from, i, j, stale);
          BeginsFurther(p, rest, section, from);
          from, i, j := from + 1, i + 1, j + 1;
        }
      }
    }
  }

  lemma NothingThere(section: string)
    ensures section != "" ==> Missing([], section)
  {}

  lemma BeginsHere(p: string, rest: seq<string>, section: string)
    requires section != "" && IsSection(p, section)
    ensures Begins([p] + rest, section, 1) && !Missing([p] + rest, section)
  {
    hide IsSection;
    assert ([p] + rest)[0] == p;
  }

  lemma AddedFurther(p: string, rest: seq<string>, section: string, key: string, v: Option<string>, ended: bool)
    ensures [p] + (rest + AddedLines(rest, section, key, v, EndsLine(p)))
         == [p] + rest + AddedLines([p] + rest, section, key, v, ended)
  {
    hide KeyLine, SectionLine;
    assert rest != [] ==> ([p] + rest)[|rest|] == rest[|rest| - 1];
  }

  lemma MissingFurther(p: string, rest: seq<string>, section: string)
    requires !IsSection(p, section)
    ensures Missing([p] + rest, section) <==> Missing(rest, section)
  {
    hide IsSection;
    var all := [p] + rest;
    assert forall k | 0 < k < |all| :: all[k] == rest[k - 1];
    assert forall k | 0 <= k < |rest| :: rest[k] == all[k + 1];
  }

  lemma BeginsFurther(p: string, rest: seq<string>, section: string, from: nat)
    requires section != "" && !IsSection(p, section) && Begins(rest, section, from)
    ensures Begins([p] + rest, section, from + 1)
  {
    hide IsSection;
    var all := [p] + rest;
    assert forall k | 0 < k < |all| :: all[k] == rest[k - 1];
  }

  /**
   * Setting or dropping a key, exactly: of a section that is there, all lines stay, in order, but for the first of the
   * key before the next header, if there is one; in its place, or before that header or at the end, stands the key's
   * line, if it has a value. A section that is not there is added at the end, or with no value nothing is.
   */
  lemma KeyEditIsLocal(ls: seq<string>, section: string, key: string, v: Option<string>, stale: bool)
    ensures var out := Edited(ls, section, Some(key), v, stale);
      if Missing(ls, section) then out == ls + AddedLines(ls, section, key, v, stale)
      else exists from: nat, i: nat, j: nat :: Begins(ls, section, from) && KeyEdit(ls, out, key, v, from, i, j, stale)
  {
    hide WithKey, WithSection, KeyEdit;
    if section == "" {
      var i, j := WithKeyExact(ls, key, v, stale);
      assert Begins(ls, section, 0) && KeyEdit(ls, Edited(ls, section, Some(key), v, stale), key, v, 0, i, j, stale);
    } else {
      var from, i, j := WithSectionExact(ls, section, key, v, stale, stale);
      var out := WithSection(ls, section, key, v, stale, stale);
      assert out == Edited(ls, section, Some(key), v, stale);
      assert !Missing(ls, section) ==> Begins(ls, section, from) && KeyEdit(ls, out, key, v, from, i, j, stale);
    }
  }

  /** Dropping a section, exactly: its first header goes, and what follows up to the next header of any section. */
  predicate SectionDropped(ls: seq<string>, out: seq<string>, section: string, i: nat, j: nat) {
    && i < j <= |ls| && out == ls[..i] + ls[j..]
    && IsSection(ls[i], section) && (forall k | 0 <= k < i :: !IsSection(ls[k], section))
    && (forall k | i < k < j :: !Opens(ls[k])) && (j == |ls| || Opens(ls[j]))
  }

  lemma {:induction false} WithoutExact(ls: seq<string>) returns (j: nat)
    ensures j <= |ls| && Without(ls) == ls[j..]
    ensures (forall k | 0 <= k < j :: !Opens(ls[k])) && (j == |ls| || Opens(ls[j]))
    decreases ls
  {
    hide Opens;
    j := 0;
    if ls != [] && !Opens(ls[0]) {
      j := WithoutExact(ls[1..]);
      assert forall k | 0 < k < |ls| :: ls[k] == ls[1..][k - 1];
      j := j + 1;
    }
  }

  lemma {:induction false} SectionDropIsExact(ls: seq<string>, section: string, v: Option<string>, stale: bool)
    requires section != ""
    ensures var out := Edited(ls, section, None, v, stale);
      if Missing(ls, section) then out == ls else exists i: nat, j: nat :: SectionDropped(ls, out, section, i, j)
    decreases ls
  {
    hide IsSection, Opens, Without, SectionDropped, Missing;
    if ls == [] {
      NothingThere(section);
    } else {
      var p, rest := ls[0], ls[1..];
      assert ls == [p] + rest;
      var out := Edited(ls, section, None, v, stale);
      if IsSection(p, section) {
        BeginsHere(p, rest, section);
        var j := WithoutExact(rest);
        DroppedHere(p, rest, section, j);
        assert SectionDropped(ls, out, section, 0, j + 1);
      } else {
        SectionDropIsExact(rest, section, v, stale);
        MissingFurther(p, rest, section);
        var out' := WithoutSection(rest, section);
        assert out' == Edited(rest, section, None, v, stale) && out == [p] + out';
        if !Missing(rest, section) {
          var i: nat, j: nat :| SectionDropped(rest, out', section, i, j);
          DroppedFurther(p, rest, out', section, i, j);
          assert SectionDropped(ls, out, section, i + 1, j + 1);
        }
      }
    }
  }

  lemma DroppedHere(p: string, rest: seq<string>, section: string, j: nat)
    requires IsSection(p, section) && j <= |rest|
    requires (forall k | 0 <= k < j :: !Opens(rest[k])) && (j == |rest| || Opens(rest[j]))
    ensures SectionDropped([p] + rest, rest[j..], section, 0, j + 1)
  {
    hide IsSection, Opens;
    var all := [p] + rest;
    assert forall k | 0 < k < |all| :: all[k] == rest[k - 1];
    assert all[j + 1..] == rest[j..] && all[..0] + rest[j..] == rest[j..];
  }

  lemma DroppedFurther(p: string, rest: seq<string>, out: seq<string>, section: string, i: nat, j: nat)
    requires !IsSection(p, section) && SectionDropped(rest, out, section, i, j)
    ensures SectionDropped([p] + rest, [p] + out, section, i + 1, j + 1)
  {
    hide IsSection, Opens;
    var all := [p] + rest;
    assert forall k | 0 < k < |all| :: all[k] == rest[k - 1];
    assert all[..i + 1] == [p] + rest[..i] && all[j + 1..] == rest[j..];
  }

  //
  // Files of proper lines
  //

  lemma {:induction false} EnquotedRoom(v: string, d: nat, max: nat)
    ensures Enquoted(v, d, max) == "" || d + |Enquoted(v, d, max)| + 2 <= max
    ensures '\n' !in v ==> '\n' !in Enquoted(v, d, max)
  {
    if !(v == "" || d + 2 >= max || (v[0] == '"' && d + 3 >= max)) {
      EnquotedRoom(v[1..], d + if v[0] == '"' then 2 else 1, max);
      assert '\n' !in v ==> '\n' !in v[1..] && v[0] != '\n';
    }
  }

  lemma SavedIsShort(v: string, max: nat)
    requires max > 0
    ensures |Save(v, max, QuotingFor(v))| < max
    ensures '\n' !in v ==> '\n' !in Save(v, max, QuotingFor(v))
  {
    EnquotedRoom(v, 1, max);
  }

  lemma KeyLineProper(key: string, v: string)
    requires GoodKey(key) && '\n' !in v
    ensures ProperLine(KeyLine(key, v))
  {
    var max := KEY_MAX - |key|;
    SavedIsShort(v, max);
    var s := Save(v, max, QuotingFor(v));
    assert key[..|key|] == key;
    var p := key + "=" + s + "\n";
    assert KeyLine(key, v) == p;
    assert p[..|p| - 1] == key + "=" + s;
  }

  lemma SectionLineProper(section: string)
    requires GoodSection(section)
    ensures ProperLine(SectionLine(section))
  {
    assert section[..|section|] == section;
    var p := "[" + section + "]\n";
    assert p[..|p| - 1] == "[" + section + "]";
  }

  lemma BlankLineProper()
    ensures ProperLine("\n")
  {}

  /** An edit of a file of proper lines gives a file of proper lines. */
  lemma EditedProper(ls: seq<string>, section: string, key: string, v: Option<string>, stale: bool)
    requires Proper(ls) && GoodKey(key) && (section == "" || GoodSection(section)) && (v.Some? ==> '\n' !in v.value)
    ensures Proper(Edited(ls, section, Some(key), v, stale))
  {
    hide ProperLine, KeyLine, SectionLine, GoodKey, GoodSection, Edited, KeyPlace, IsSection, Begins, EndsLine;
    KeyEditIsLocal(ls, section, key, v, stale);
    var out := Edited(ls, section, Some(key), v, stale);
    if v.Some? { KeyLineProper(key, v.value); }
    if section != "" { SectionLineProper(section); }
    BlankLineProper();
    if Missing(ls, section) {
      JoinProper(ls, AddedLines(ls, section, key, v, stale), []);
      assert out == ls + AddedLines(ls, section, key, v, stale) + [];
    } else {
      var from: nat, i: nat, j: nat :| Begins(ls, section, from) && KeyEdit(ls, out, key, v, from, i, j, stale);
      assert from <= i <= j <= |ls| by { KeyPlaceBounds(ls, key, from, i, j); }
      JoinProper(ls[..i], KeyLines(ls, key, v, from, i, stale), ls[j..]);
    }
  }

  lemma KeyPlaceBounds(ls: seq<string>, key: string, from: nat, i: nat, j: nat)
    requires KeyPlace(ls, key, from, i, j)
    ensures from <= i <= j <= |ls|
  {}

  lemma JoinProper(a: seq<string>, b: seq<string>, c: seq<string>)
    requires Proper(a) && Proper(b) && Proper(c)
    ensures Proper(a + b + c)
  {
    hide ProperLine;
  }

  //
  // Reading with a larger buffer
  //

  lemma {:induction false} DequotedRoomy(s: string, a: nat, b: nat)
    requires |s| <= a && |s| <= b
    ensures Dequoted(s, a) == Dequoted(s, b)
  {
    if s != "" {
      DequotedRoomy(s[1..], a - 1, b - 1);
      if |s| > 1 { DequotedRoomy(s[2..], a - 1, b - 1); }
    }
  }

  lemma {:induction false} CutIsShorter(s: string, quoted: bool)
    ensures |BeforeComment(s, quoted)| <= |s|
  {
    if s != "" {
      CutIsShorter(s[1..], quoted != (s[0] == '"'));
      if |s| > 1 { CutIsShorter(s[2..], quoted); }
    }
  }

  lemma ReadRoomy(s: string, a: nat, b: nat)
    requires |s| < a && |s| < b
    ensures ReadValue(s, a) == ReadValue(s, b)
  {
    SkipKeeps(s);
    var h := SkipLeading(s);
    CutIsShorter(h, false);
    StripKeeps(BeforeComment(h, false));
    var t := Clean(h).0;
    assert |t| <= |s|;
    DequotedRoomy(t, a - 1, b - 1);
  }

  /** A value in a file of short lines is read whole by any buffer as large as the line buffer. */
  lemma ValueRoomy(p: string, size: nat)
    requires |p| < BUFFER <= size && Separator(SkipLeading(p)).Some?
    ensures ValueOf(p, size) == ValueOf(p, BUFFER)
  {
    SkipKeeps(p);
    var h := SkipLeading(p);
    ReadRoomy(h[Separator(h).value + 1..], size, BUFFER);
  }

  lemma {:induction false} FoundIsLine(ls: seq<string>, key: string)
    ensures FindKey(ls, key).Some? ==> FindKey(ls, key).value in ls
  {
    if ls != [] { FoundIsLine(ls[1..], key); }
  }

  lemma {:induction false} BehindIsPart(ls: seq<string>, section: string)
    ensures var r := AfterSection(ls, section);
      r.Some? ==> forall p | p in r.value :: p in ls
  {
    assert forall p | ls != [] && p in ls[1..] :: p in ls;
    if section != "" && ls != [] { BehindIsPart(ls[1..], section); }
  }

  lemma GetsRoomy(text: string, section: string, key: string, size: nat)
    requires size >= BUFFER
    ensures Gets(text, section, key, size) == Gets(text, section, key, BUFFER)
  {
    var ls := Pieces(text);
    var p := Lookup(ls, section, key);
    if p.Some? {
      BehindIsPart(ls, section);
      FoundIsLine(AfterSection(ls, section).value, key);
      ValueRoomy(p.value, size);
    }
  }

  //
  // Main results
  //

  lemma EditedPieces(text: string, section: string, key: string, v: Option<string>, stale: bool)
    requires Proper(Pieces(text)) && GoodKey(key) && (section == "" || GoodSection(section))
    requires v.Some? ==> '\n' !in v.value
    ensures Pieces(Puts(text, section, Some(key), v, stale)) ==
            if v.Some? && Gets(text, section, key, BUFFER) == v then Pieces(text)
            else Edited(Pieces(text), section, Some(key), v, stale)
  {
    EditedProper(Pieces(text), section, key, v, stale);
    PiecesOfLines(Edited(Pieces(text), section, Some(key), v, stale));
  }

  /**
   Put, then get: the value comes back exactly when it was there before, or fits its line and is quoted or
   has no blanks around it.
   */
  lemma PutThenGet(text: string, section: string, key: string, v: string, stale: bool, size: nat)
    requires Proper(Pieces(text)) && GoodKey(key) && (section == "" || GoodSection(section))
    requires '\n' !in v && size >= BUFFER
    ensures Gets(Puts(text, section, Some(key), Some(v), stale), section, key, size) == Some(v)
       <==> Gets(text, section, key, size) == Some(v)
            || (Fits(v, KEY_MAX - |key|) && (NeedsQuotes(v) || Trim(v) == v))
  {
    hide Edited, Fits, NeedsQuotes, Trim, GoodKey, GoodSection, Puts, Proper;
    assert |key| < KEY_MAX by { KeyFits(key); }
    EditedPieces(text, section, key, Some(v), stale);
    GetsRoomy(text, section, key, size);
    PutThenGetLine(Pieces(text), section, key, v, stale, size);
  }

  /** Every other key, in whatever section, reads as before. */
  lemma PutKeepsOthers(text: string, section: string, key: string, v: Option<string>, stale: bool,
                       section': string, key': string, size: nat)
    requires Proper(Pieces(text)) && GoodKey(key) && (section == "" || GoodSection(section))
    requires (v.Some? ==> '\n' !in v.value) && size > 0
    requires !(SameName(section, section') && SameName(key, key'))
    ensures Gets(Puts(text, section, Some(key), v, stale), section', key', size) == Gets(text, section', key', size)
  {
    hide Edited, GoodKey, GoodSection, Puts, Proper, SameName, Lookup;
    EditedPieces(text, section, key, v, stale);
    OthersUnchanged(Pieces(text), section, key, v, stale, section', key');
  }

  /** A new file has the key and nothing else. */
  lemma FreshThenGet(section: string, key: string, v: string, size: nat)
    requires GoodKey(key) && (section == "" || GoodSection(section)) && '\n' !in v && size >= BUFFER
    ensures Gets(Fresh(section, key, v), section, key, size) == Some(v)
       <==> Fits(v, KEY_MAX - |key|) && (NeedsQuotes(v) || Trim(v) == v)
  {
    hide KeyLine, SectionLine, GoodKey, GoodSection, ProperLine, Fits, NeedsQuotes, Trim, GetKey, IsSection;
    assert |key| < KEY_MAX by { KeyFits(key); }
    PutThenGetLine([], section, key, v, true, size);
    KeyLineProper(key, v);
    if section != "" { SectionLineProper(section); }
    var ls := Edited([], section, Some(key), Some(v), true);
    assert ls == (if section == "" then [] else [SectionLine(section)]) + [KeyLine(key, v)];
    PiecesOfLines(ls);
    FlattenConcat(if section == "" then [] else [SectionLine(section)], [KeyLine(key, v)]);
    assert Flatten([KeyLine(key, v)]) == KeyLine(key, v);
    assert section != "" ==> Flatten([SectionLine(section)]) == SectionLine(section);
  }
}
