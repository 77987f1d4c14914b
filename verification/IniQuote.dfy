/** Quoting, escaping and trimming of values. */
module IniQuote {
  import opened Bytes
  import opened IniText

  datatype Quoting = Plain | Enquote | Dequote

  predicate Special(c: char) { c == '"' || c == ';' || c == '#' }

  /** Values with quotes, comment marks or a trailing space are quoted. */
  predicate NeedsQuotes(v: string) {
    (exists i | 0 <= i < |v| :: Special(v[i])) || (v != "" && v[|v| - 1] == ' ')
  }

  function Escape(v: string): string {
    if v == "" then "" else (if v[0] == '"' then "\\\"" else [v[0]]) + Escape(v[1..])
  }

  /** The escaped characters that fit from position `d` in `max` characters, closing quote and terminator included. */
  function Enquoted(v: string, d: nat, max: nat): string {
    if v == "" || d + 2 >= max || (v[0] == '"' && d + 3 >= max) then ""
    else if v[0] == '"' then "\\\"" + Enquoted(v[1..], d + 2, max)
    else [v[0]] + Enquoted(v[1..], d + 1, max)
  }

  function Dequoted(s: string, room: nat): string {
    if s == "" || room == 0 then ""
    else if (s[0] == '"' || s[0] == '\\') && |s| > 1 && s[1] == '"' then "\"" + Dequoted(s[2..], room - 1)
    else [s[0]] + Dequoted(s[1..], room - 1)
  }

  /** What a bounded copy stores in `max` characters, the terminator not counted. */
  function Save(source: string, max: nat, quoting: Quoting): (r: string)
    requires max > 0
  {
    match quoting
    case Enquote => if max < 3 then source[..Min(|source|, max - 1)] else "\"" + Enquoted(source, 1, max) + "\""
    case Plain => source[..Min(|source|, max - 1)]
    case Dequote => Dequoted(source, max - 1)
  }

  /** Up to a comment mark outside quotes. */
  function BeforeComment(s: string, quoted: bool): string {
    if s == "" then ""
    else if (s[0] == ';' || s[0] == '#') && !quoted then ""
    else if (s[0] == '"' || s[0] == '\\') && |s| > 1 && s[1] == '"' then s[..2] + BeforeComment(s[2..], quoted)
    else [s[0]] + BeforeComment(s[1..], quoted != (s[0] == '"'))
  }

  /** A value without comment, trailing blanks and surrounding quotes; a lone quote counts as both. */
  function Clean(s: string): (string, Quoting) {
    var t := StripTrailing(BeforeComment(s, false));
    if StartsWith(t, '"') && t[|t| - 1] == '"' then (if |t| == 1 then "" else t[1..|t| - 1], Dequote) else (t, Plain)
  }

  /** The value a line gives a reader with room for `max` characters. */
  function ValueOf(p: string, max: nat): string
    requires max > 0 && Separator(SkipLeading(p)).Some?
  {
    var h := SkipLeading(p);
    ReadValue(h[Separator(h).value + 1..], max)
  }

  function ReadValue(s: string, max: nat): string
    requires max > 0
  {
    var (t, quoting) := Clean(SkipLeading(s));
    Save(t, max, quoting)
  }

  const KEY_MAX := BUFFER - 3

  /** The line written for a key and a value. */
  function KeyLine(key: string, v: string): string {
    var k := Save(key, KEY_MAX, Plain);
    k + "=" + Save(v, BUFFER - |k| - 3, if NeedsQuotes(v) then Enquote else Plain) + "\n"
  }

  const SECTION_MAX := BUFFER - 4

  function SectionLine(section: string): string { "[" + Save(section, SECTION_MAX, Plain) + "]\n" }

  //
  // Reading back what was quoted
  //

  /** As many characters of the value as fit. */
  function Fitting(v: string, d: nat, max: nat): (n: nat)
    ensures n <= |v|
  {
    if v == "" || d + 2 >= max || (v[0] == '"' && d + 3 >= max) then 0
    else 1 + Fitting(v[1..], d + if v[0] == '"' then 2 else 1, max)
  }

  lemma {:induction false} EnquotedFits(v: string, d: nat, max: nat)
    ensures Enquoted(v, d, max) == Escape(v[..Fitting(v, d, max)])
    ensures Fitting(v, d, max) == |v| <==> v == "" || d + |Escape(v)| + 1 < max
  {
    if !(v == "" || d + 2 >= max || (v[0] == '"' && d + 3 >= max)) {
      var e := d + if v[0] == '"' then 2 else 1;
      EnquotedFits(v[1..], e, max);
      var n := Fitting(v[1..], e, max);
      assert v[..n + 1][1..] == v[1..][..n];
      assert v[1..] == "" ==> Escape(v[1..]) == "";
    } else if v != "" {
      assert v[..0] == "";
      assert |Escape(v)| >= 1;
    }
  }

  lemma {:induction false} EscapedIsNotCut(w: string)
    ensures BeforeComment(Escape(w) + "\"\n", true) == Escape(w) + "\"\n"
  {
    var s := Escape(w) + "\"\n";
    LineEndStays(false);
    LineEndStays(true);
    if w == "" {
      assert s == "\"\n" && s[1..] == "\n";
    } else {
      var rest := Escape(w[1..]) + "\"\n";
      EscapedIsNotCut(w[1..]);
      if w[0] == '"' {
        assert s[..2] == "\\\"" && s[2..] == rest;
      } else {
        assert s[0] == w[0] && s[1..] == rest;
        if w[0] == '\\' && rest[0] == '"' {
          assert w[1..] == "";
          assert s == "\\\"\n" && s[2..] == "\n";
        }
      }
    }
  }

  lemma {:induction false} EscapeNeverStartsQuoted(w: string)
    ensures Escape(w) != "" ==> Escape(w)[0] != '"'
  {}

  /** Quoted text is read back with its quotes off and nothing lost. */
  lemma QuotedIsCleaned(w: string)
    ensures Clean("\"" + Escape(w) + "\"\n") == (Escape(w), Dequote)
  {
    var e := Escape(w);
    var s := "\"" + e + "\"\n";
    EscapedIsNotCut(w);
    EscapeNeverStartsQuoted(w);
    assert s[1..] == e + "\"\n";
    if e == "" {
      LineEndStays(false);
      assert s[..2] == "\"\"" && s[2..] == "\n";
      assert s[..2] + s[2..] == s;
    } else {
      assert s[1] == e[0] != '"';
      assert [s[0]] + s[1..] == s;
    }
    assert BeforeComment(s, false) == s;
    QuotesComeOff(e);
  }

  lemma QuotesComeOff(e: string)
    ensures StripTrailing("\"" + e + "\"\n") == "\"" + e + "\""
    ensures var t := "\"" + e + "\""; t[0] == '"' && t[|t| - 1] == '"' && t[1..|t| - 1] == e
  {
    var t := "\"" + e + "\"";
    var s := "\"" + e + "\"\n";
    assert s[..|s| - 1] == t;
    assert s[|s| - 1] == '\n' && t[|t| - 1] == '"';
  }

  lemma LineEndStays(quoted: bool)
    ensures BeforeComment("\n", quoted) == "\n"
  {
    assert "\n"[1..] == "";
    assert BeforeComment("", quoted) == "";
  }

  lemma {:induction false} EscapedIsUnescaped(w: string, room: nat)
    ensures Dequoted(Escape(w), room) == w[..Min(|w|, room)]
  {
    if w != "" && room > 0 {
      EscapeNeverStartsQuoted(w[1..]);
      EscapedIsUnescaped(w[1..], room - 1);
      var e := Escape(w);
      if w[0] == '"' {
        assert e[2..] == Escape(w[1..]);
      } else {
        assert e[1..] == Escape(w[1..]);
      }
      assert w[..Min(|w|, room)] == [w[0]] + w[1..][..Min(|w| - 1, room - 1)];
    }
  }

  //
  // Reading back what was not
  //

  predicate NoSpecial(v: string) { forall i | 0 <= i < |v| :: !Special(v[i]) }

  lemma {:induction false} NothingToCut(v: string)
    requires NoSpecial(v)
    ensures BeforeComment(v, false) == v
  {
    if v != "" {
      assert !Special(v[0]);
      assert |v| > 1 ==> !Special(v[1]);
      assert forall i | 0 <= i < |v[1..]| :: v[1..][i] == v[i + 1];
      NothingToCut(v[1..]);
    }
  }

  lemma {:induction false} SkipKeeps(v: string)
    ensures |SkipLeading(v)| <= |v| && (SkipLeading(v) == v <==> v == "" || !Blank(v[0]))
    ensures NoSpecial(v) ==> NoSpecial(SkipLeading(v))
    ensures v != "" && !Blank(v[|v| - 1]) ==> SkipLeading(v) != "" && SkipLeading(v)[|SkipLeading(v)| - 1] == v[|v| - 1]
  {
    if v != "" && Blank(v[0]) {
      assert forall i | 0 <= i < |v[1..]| :: v[1..][i] == v[i + 1];
      SkipKeeps(v[1..]);
    }
  }

  lemma {:induction false} StripKeeps(v: string)
    ensures |StripTrailing(v)| <= |v| && (StripTrailing(v) == v <==> v == "" || !Blank(v[|v| - 1]))
    ensures NoSpecial(v) ==> NoSpecial(StripTrailing(v))
  {
    if v != "" && Blank(v[|v| - 1]) {
      StripKeeps(v[..|v| - 1]);
    }
  }

  /** With the line end behind it, skipping leading blanks may run off the end. */
  lemma {:induction false} SkipWithEnd(v: string)
    ensures SkipLeading(v + "\n") == if SkipLeading(v) == "" then "" else SkipLeading(v) + "\n"
  {
    var s := v + "\n";
    if v == "" {
      assert s == "\n" && s[1..] == "";
    } else if Blank(v[0]) {
      assert s[1..] == v[1..] + "\n";
      SkipWithEnd(v[1..]);
    }
  }

  function Trim(v: string): string { StripTrailing(SkipLeading(v)) }

  /** Plain text is read back without blanks around it. */
  lemma PlainIsTrimmed(v: string)
    requires NoSpecial(v)
    ensures Clean(SkipLeading(v + "\n")) == (Trim(v), Plain)
  {
    SkipWithEnd(v);
    SkipKeeps(v);
    var h := SkipLeading(v);
    var s := SkipLeading(v + "\n");
    assert NoSpecial(s);
    NothingToCut(s);
    StripKeeps(h);
    if h != "" {
      assert s[..|s| - 1] == h && s[|s| - 1] == '\n';
    }
    assert StripTrailing(s) == StripTrailing(h);
  }

  lemma TrimExact(v: string)
    ensures |Trim(v)| <= |v|
    ensures Trim(v) == v <==> v == "" || (!Blank(v[0]) && !Blank(v[|v| - 1]))
  {
    SkipKeeps(v);
    StripKeeps(SkipLeading(v));
    if v != "" && Blank(v[0]) { SkipKeeps(v[1..]); }
  }

  //
  // A value written and read back
  //

  function QuotingFor(v: string): Quoting { if NeedsQuotes(v) then Enquote else Plain }

  /** The value as written, quotes included, and a terminator fit in `max` characters. */
  predicate Fits(v: string, max: nat) {
    if NeedsQuotes(v) then |Escape(v)| + 2 < max else |v| < max
  }

  lemma NotQuoted(v: string)
    requires !NeedsQuotes(v)
    ensures NoSpecial(v)
  {}

  lemma QuotedReadBack(v: string, max: nat, size: nat)
    requires NeedsQuotes(v) && 3 <= max <= size
    ensures var n := Fitting(v, 1, max);
      ReadValue(Save(v, max, Enquote) + "\n", size) == v[..Min(n, size - 1)]
      && (n == |v| <==> Fits(v, max))
  {
    var n := Fitting(v, 1, max);
    var w := v[..n];
    EnquotedFits(v, 1, max);
    assert v != "";
    QuotedIsCleaned(w);
    var s := "\"" + Escape(w) + "\"\n";
    assert Save(v, max, Enquote) + "\n" == s;
    assert SkipLeading(s) == s;
    EscapedIsUnescaped(w, size - 1);
    assert w[..Min(|w|, size - 1)] == v[..Min(n, size - 1)];
  }

  lemma PlainReadBack(v: string, max: nat, size: nat)
    requires !NeedsQuotes(v) && 1 <= max <= size
    ensures ReadValue(Save(v, max, Plain) + "\n", size) == Trim(v[..Min(|v|, max - 1)])
  {
    NotQuoted(v);
    var s := v[..Min(|v|, max - 1)];
    PlainIsTrimmed(s);
    TrimExact(s);
    assert Trim(s)[..|Trim(s)|] == Trim(s);
  }

  /** With no room for two quotes the value is cut to a character, and that is not the value. */
  lemma CrampedReadBack(v: string, max: nat, size: nat)
    requires NeedsQuotes(v) && 1 <= max < 3 <= size
    ensures ReadValue(Save(v, max, Enquote) + "\n", size) != v
  {
    var s := Save(v, max, Enquote);
    if s == "" {
      LineEndOnly(size);
      assert s + "\n" == "\n";
    } else {
      assert s == [v[0]];
      assert s + "\n" == [v[0], '\n'];
      OneCharacter(v[0], size);
    }
  }

  lemma LineEndOnly(size: nat)
    requires size > 0
    ensures ReadValue("\n", size) == ""
  {
    assert "\n"[1..] == "";
    assert SkipLeading("\n") == "";
  }

  lemma OneCharacter(c: char, size: nat)
    requires size >= 3
    ensures ReadValue([c, '\n'], size) == (if Special(c) || Blank(c) then "" else [c])
  {
    var s := [c, '\n'];
    assert s[1..] == "\n";
    assert SkipLeading("\n") == "" by { assert "\n"[1..] == ""; }
    LineEndStays(false);
    LineEndStays(true);
    if !Blank(c) {
      assert SkipLeading(s) == s;
      if c != ';' && c != '#' {
        assert BeforeComment(s, false) == s;
        assert s[..1] == [c];
        assert StripTrailing([c]) == [c];
        assert StripTrailing(s) == [c];
      }
    }
  }

  /** Exactly the values that fit, and are quoted or have no blanks around them, come back unchanged. */
  lemma ReadBackExact(v: string, max: nat, size: nat)
    requires 1 <= max <= size && 3 <= size
    ensures ReadValue(Save(v, max, QuotingFor(v)) + "\n", size) == v
       <==> Fits(v, max) && (NeedsQuotes(v) || Trim(v) == v)
  {
    if !NeedsQuotes(v) {
      PlainReadBack(v, max, size);
      var s := v[..Min(|v|, max - 1)];
      TrimExact(s);
      assert Fits(v, max) ==> s == v;
    } else if max >= 3 {
      QuotedReadBack(v, max, size);
      EscapeLength(v);
    } else {
      CrampedReadBack(v, max, size);
    }
  }

  lemma {:induction false} EscapeLength(v: string)
    ensures |Escape(v)| >= |v|
  {
    if v != "" { EscapeLength(v[1..]); }
  }
}
