/** Reading a settings file line by line, and the parts of a line. */
module IniText {
  import opened Bytes

  const BUFFER := 512

  /** Blanks are the space and everything below it. */
  predicate Blank(c: char) { c <= ' ' }

  function SkipLeading(s: string): string {
    if s != "" && Blank(s[0]) then SkipLeading(s[1..]) else s
  }

  function StripTrailing(s: string): string {
    if s != "" && Blank(s[|s| - 1]) then StripTrailing(s[..|s| - 1]) else s
  }

  /** The first `c` in `s`. */
  function IndexOf(s: string, c: char): (i: Option<nat>)
    ensures i.Some? ==> i.value < |s| && s[i.value] == c && c !in s[..i.value]
    ensures i.None? ==> c !in s
  {
    if s == "" then None
    else if s[0] == c then Some(0)
    else
      var rest := IndexOf(s[1..], c);
      if rest.None? then None else Some(rest.value + 1)
  }

  function Upper(c: char): char {
    if 'a' <= c <= 'z' then c - 'a' + 'A' else c
  }

  /** Equal but for the case of ASCII letters. */
  predicate SameName(a: string, b: string) {
    |a| == |b| && forall i | 0 <= i < |a| :: Upper(a[i]) == Upper(b[i])
  }

  //
  // Pieces
  //

  /** Length of what one read takes from the front of `s` into `room` characters, the terminator included. */
  function PieceLength(s: string, room: nat): (n: nat)
    ensures n <= |s| && (room > 0 ==> n < room) && (s != "" && room > 1 ==> n > 0)
  {
    if s == "" || room <= 1 then 0
    else if s[0] == '\n' then 1
    else
      1 + PieceLength(s[1..], room - 1)
  }

  /** The file as it is read: lines, long ones cut every 511 characters. */
  function Pieces(text: string): (ps: seq<string>)
    ensures forall i | 0 <= i < |ps| :: 0 < |ps[i]| < BUFFER
    ensures Flatten(ps) == text
  {
    if text == "" then []
    else
      var n := PieceLength(text, BUFFER);
      [text[..n]] + Pieces(text[n..])
  }

  /** A line that fits the buffer and is terminated. */
  predicate ProperLine(p: string) {
    0 < |p| < BUFFER && p[|p| - 1] == '\n' && '\n' !in p[..|p| - 1]
  }

  predicate Proper(ps: seq<string>) { forall i | 0 <= i < |ps| :: ProperLine(ps[i]) }

  lemma {:induction false} PieceOfLine(p: string, rest: string, room: nat)
    requires |p| > 0 && p[|p| - 1] == '\n' && '\n' !in p[..|p| - 1] && |p| < room
    ensures PieceLength(p + rest, room) == |p|
    decreases |p|
  {
    if |p| > 1 {
      assert p[0] in p[..|p| - 1];
      assert (p + rest)[1..] == p[1..] + rest;
      assert p[1..][..|p| - 2] == p[1..|p| - 1];
      PieceOfLine(p[1..], rest, room - 1);
    }
  }

  /** Proper lines are read back one by one. */
  lemma {:induction false} PiecesOfLines(ps: seq<string>)
    requires Proper(ps)
    ensures Pieces(Flatten(ps)) == ps
    decreases ps
  {
    if ps != [] {
      var p, rest := ps[0], Flatten(ps[1..]);
      PieceOfLine(p, rest, BUFFER);
      assert (p + rest)[..|p|] == p && (p + rest)[|p|..] == rest;
      PiecesOfLines(ps[1..]);
    }
  }

  //
  // What a line says
  //

  predicate StartsWith(s: string, c: char) { s != "" && s[0] == c }

  /** A line that opens a section, named or not. */
  predicate Opens(p: string) { StartsWith(SkipLeading(p), '[') }

  predicate Comment(p: string) { StartsWith(SkipLeading(p), ';') || StartsWith(SkipLeading(p), '#') }

  predicate IsSection(p: string, section: string) {
    var h := SkipLeading(p);
    Opens(p) && IndexOf(h, ']').Some? && SameName(h[1..IndexOf(h, ']').value], section)
  }

  /** Where key and value part: at the first equals sign, or without one the first colon. */
  function Separator(h: string): Option<nat> {
    if IndexOf(h, '=').Some? then IndexOf(h, '=') else IndexOf(h, ':')
  }

  predicate IsKey(p: string, key: string) {
    var h := SkipLeading(p);
    Separator(h).Some? && SameName(StripTrailing(h[..Separator(h).value]), key)
  }
}
