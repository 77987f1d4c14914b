/** Taking a value out of a line, in the line's own buffer. */
module IniValue {
  import opened Bytes
  import opened IniText
  import opened IniQuote

  const NUL := 0 as char

  /** A bounded copy, plain or with the escapes taken out. */
  method Store(dest: array<char>, source: string, quoting: Quoting) returns (d: nat)
    requires dest.Length > 0 && quoting != Enquote
    modifies dest
    ensures d < dest.Length && dest[..d] == Save(source, dest.Length, quoting) && dest[d] == NUL
  {
    if quoting == Plain {
      d := 0;
      while d < dest.Length - 1 && d < |source|
        invariant d <= |source| && d < dest.Length && dest[..d] == source[..d]
      {
        dest[d] := source[d];
        d := d + 1;
      }
      dest[d] := NUL;
    } else {
      d := Unescape(dest, source);
    }
  }

  method Unescape(dest: array<char>, source: string) returns (d: nat)
    requires dest.Length > 0
    modifies dest
    ensures d < dest.Length && dest[..d] == Dequoted(source, dest.Length - 1) && dest[d] == NUL
  {
    var s, room := 0, dest.Length - 1;
    d := 0;
    assert source[0..] == source;
    while s < |source| && d < room
      invariant s <= |source| && d <= room
      invariant dest[..d] + Dequoted(source[s..], room - d) == Dequoted(source, room)
    {
      hide Dequoted;
      ghost var before := dest[..d];
      DequotedStep(source, s, room - d);
      if (source[s] == '"' || source[s] == '\\') && s + 1 < |source| && source[s + 1] == '"' {
        s := s + 1;
      }
      dest[d] := source[s];
      d, s := d + 1, s + 1;
      Regrouped(before, [source[s - 1]], Dequoted(source[s..], room - d));
      assert dest[..d] == before + [source[s - 1]];
    }
    ghost var stored := dest[..d];
    assert stored + "" == stored;
    dest[d] := NUL;
    assert dest[..d] == stored;
  }

  lemma DequotedStep(source: string, s: nat, room: nat)
    requires s < |source| && room > 0
    ensures Dequoted(source[s..], room)
         == if (source[s] == '"' || source[s] == '\\') && s + 1 < |source| && source[s + 1] == '"' then
              ['"'] + Dequoted(source[s + 2..], room - 1)
            else [source[s]] + Dequoted(source[s + 1..], room - 1)
  {
    assert source[s..][1..] == source[s + 1..];
    if s + 1 < |source| { assert source[s..][2..] == source[s + 2..]; }
  }

  lemma CutStep(s: string, i: nat, quoted: bool)
    requires i < |s| && ((s[i] != ';' && s[i] != '#') || quoted)
    ensures var two := (s[i] == '"' || s[i] == '\\') && i + 1 < |s| && s[i + 1] == '"';
      var j := if two then i + 2 else i + 1;
      s[..i] + BeforeComment(s[i..], quoted)
      == s[..j] + BeforeComment(s[j..], if two then quoted else quoted != (s[i] == '"'))
  {
    var r := s[i..];
    assert r[1..] == s[i + 1..];
    if |r| > 1 {
      assert r[2..] == s[i + 2..];
      assert s[..i] + r[..2] == s[..i + 2];
    }
    assert s[..i] + [s[i]] == s[..i + 1];
    hide BeforeComment;
    Regrouped(s[..i], r[..1], BeforeComment(s[i + 1..], quoted != (s[i] == '"')));
    if |r| > 1 { Regrouped(s[..i], r[..2], BeforeComment(s[i + 2..], quoted)); }
  }

  lemma CutEnd(s: string, i: nat, quoted: bool)
    requires i <= |s| && (i < |s| ==> (s[i] == ';' || s[i] == '#') && !quoted)
    ensures s[..i] + BeforeComment(s[i..], quoted) == s[..i]
  {}

  //
  // Reading a value
  //

  /** Past the blanks at the front of the string that ends at `end`. */
  method SkipBlanks(buffer: array<char>, from: nat, end: nat) returns (at: nat)
    requires from <= end < buffer.Length
    ensures from <= at <= end && buffer[at..end] == SkipLeading(buffer[from..end])
  {
    at := from;
    while at < end && Blank(buffer[at])
      invariant from <= at <= end && SkipLeading(buffer[from..end]) == SkipLeading(buffer[at..end])
    {
      assert buffer[at..end][1..] == buffer[at + 1..end];
      at := at + 1;
    }
  }

  /** Cuts a comment off: the string from `at` on now ends earlier. */
  method CutComment(buffer: array<char>, at: nat, end: nat) returns (cut: nat)
    requires at <= end < buffer.Length && buffer[end] == NUL
    modifies buffer
    ensures at <= cut <= end && buffer[at..cut] == BeforeComment(old(buffer[at..end]), false) && buffer[cut] == NUL
  {
    hide BeforeComment;
    ghost var s := buffer[at..end];
    ghost var whole := BeforeComment(s, false);
    var quoted := false;
    cut := at;
    assert s[0..] == s && s[..0] + whole == whole;
    while cut < end && ((buffer[cut] != ';' && buffer[cut] != '#') || quoted)
      invariant at <= cut <= end && buffer[at..end] == s && buffer[end] == NUL
      invariant s[..cut - at] + BeforeComment(s[cut - at..], quoted) == whole
    {
      CutStep(s, cut - at, quoted);
      assert buffer[cut] == s[cut - at] && (cut + 1 < end ==> buffer[cut + 1] == s[cut - at + 1]);
      if buffer[cut] == '"' {
        if buffer[cut + 1] == '"' { cut := cut + 1; } else { quoted := !quoted; }
      } else if buffer[cut] == '\\' && buffer[cut + 1] == '"' {
        cut := cut + 1;
      }
      cut := cut + 1;
    }
    CutEnd(s, cut - at, quoted);
    buffer[cut] := NUL;
    assert buffer[at..cut] == s[..cut - at];
  }

  method StripBlanks(buffer: array<char>, at: nat, end: nat) returns (cut: nat)
    requires at <= end < buffer.Length
    modifies buffer
    ensures at <= cut <= end && buffer[at..cut] == StripTrailing(old(buffer[at..end])) && buffer[cut] == NUL
  {
    cut := end;
    while cut > at && Blank(buffer[cut - 1])
      invariant at <= cut <= end && StripTrailing(buffer[at..cut]) == StripTrailing(buffer[at..end])
    {
      assert buffer[at..cut][..cut - at - 1] == buffer[at..cut - 1];
      cut := cut - 1;
    }
    ghost var kept := buffer[at..cut];
    buffer[cut] := NUL;
    assert buffer[at..cut] == kept;
  }

  /** Comment, trailing blanks and surrounding quotes go, in place. */
  method CleanInPlace(buffer: array<char>, at: nat, end: nat) returns (from: nat, to: nat, quoting: Quoting)
    requires at <= end < buffer.Length && buffer[end] == NUL
    modifies buffer
    ensures from <= to < buffer.Length && (buffer[from..to], quoting) == Clean(old(buffer[at..end]))
    ensures quoting != Enquote
  {
    hide BeforeComment, StripTrailing;
    to := CutComment(buffer, at, end);
    to := StripBlanks(buffer, at, to);
    from, quoting := at, Plain;
    ghost var t := buffer[at..to];
    assert t == StripTrailing(BeforeComment(old(buffer[at..end]), false));
    assert |t| == to - at && forall i | 0 <= i < |t| :: t[i] == buffer[at + i];
    if to > at && buffer[at] == '"' && buffer[to - 1] == '"' {
      from := at + 1;
      to := to - 1;
      buffer[to] := NUL;
      if from > to { to := from; }
      quoting := Dequote;
      assert buffer[from..to] == if |t| == 1 then "" else t[1..|t| - 1];
    } else {
      assert buffer[from..to] == t;
    }
  }

  /** The value of the line in the buffer, as far as `dest` holds it. */
  method TakeValue(buffer: array<char>, n: nat, dest: array<char>) returns (d: nat)
    requires n < buffer.Length && buffer[n] == NUL && dest.Length > 0 && dest != buffer
    requires Separator(SkipLeading(buffer[..n])).Some?
    modifies buffer, dest
    ensures d < dest.Length && dest[..d] == ValueOf(old(buffer[..n]), dest.Length) && dest[d] == NUL
  {
    hide Clean, Save;
    ghost var line := buffer[..n];
    var h := SkipBlanks(buffer, 0, n);
    assert buffer[0..n] == line;
    var e := Separator(buffer[h..n]).value;
    assert buffer[h..n][e + 1..] == buffer[h + e + 1..n];
    var at := SkipBlanks(buffer, h + e + 1, n);
    var from, to, quoting := CleanInPlace(buffer, at, n);
    d := Store(dest, buffer[from..to], quoting);
  }
}
