/** Editing a settings file through a line buffer and a cache that is only counted. */
module IniRewriter {
  import opened Bytes
  import opened IniText
  import opened IniQuote
  import opened IniEdit
  import opened IniFile
  import opened IniValue

  predicate NoNul(s: string) { forall i | 0 <= i < |s| :: s[i] != NUL }

  /** With enough room left, a piece is read again as it was read before. */
  lemma {:induction false} PieceRereads(s: string, room: nat, less: nat)
    requires PieceLength(s, room) < less <= room
    ensures PieceLength(s, less) == PieceLength(s, room)
  {
    if s != "" && room > 1 && s[0] != '\n' {
      PieceRereads(s[1..], room - 1, less - 1);
    }
  }

  lemma PieceStep(s: string, n: nat, room: nat)
    requires n < |s| && room > 1
    ensures PieceLength(s[n..], room) == 1 + if s[n] == '\n' then 0 else PieceLength(s[n + 1..], room - 1)
  {
    assert s[n..][1..] == s[n + 1..];
  }

  lemma PieceEnds(s: string, room: nat)
    requires s == "" || room <= 1
    ensures PieceLength(s, room) == 0
  {}

  /** From `at`, whole pieces make up exactly `size` characters. */
  predicate Whole(text: string, at: nat, size: nat)
    decreases size
  {
    at + size <= |text| &&
    (size == 0 ||
     var n := PieceLength(text[at..], BUFFER);
     0 < n <= size && Whole(text, at + n, size - n))
  }

  lemma {:induction false} WholeMore(text: string, at: nat, size: nat)
    requires Whole(text, at, size) && at + size < |text|
    ensures Whole(text, at, size + PieceLength(text[at + size..], BUFFER))
    decreases size
  {
    hide PieceLength;
    if size > 0 {
      var n := PieceLength(text[at..], BUFFER);
      WholeMore(text, at + n, size - n);
    }
  }

  class Rewriter {
    const text: string
    const buffer: array<char>
    var pos: nat
    var mark: nat
    var cached: nat
    var out: string

    constructor (text: string)
      requires NoNul(text)
      ensures Valid() && this.text == text && fresh(buffer) && pos == 0 && Emitted() == ""
    {
      this.text := text;
      buffer := new char[BUFFER](_ => NUL);
      pos, mark, cached, out := 0, 0, 0, "";
    }

    /** What is cached are whole pieces from the mark on, less than the buffer holds. */
    ghost predicate Valid()
      reads this
    {
      && buffer.Length == BUFFER && NoNul(text) && pos <= |text|
      && cached < BUFFER && Whole(text, mark, cached)
    }

    /** What is written, and what is cached to be written. */
    ghost function Emitted(): string
      requires mark + cached <= |text|
      reads this`out, this`mark, this`cached
    {
      out + text[mark..mark + cached]
    }

    /** Reads a line, or as much of it as there is room for, into the buffer from `at` on. */
    method Read(at: nat) returns (n: nat)
      requires buffer.Length == BUFFER && at + 1 < BUFFER && pos <= |text|
      modifies this`pos, buffer
      ensures n == PieceLength(text[old(pos)..], BUFFER - at) && pos == old(pos) + n <= |text|
      ensures buffer[at..at + n] == text[old(pos)..pos] && buffer[..at] == old(buffer[..at])
      ensures n > 0 ==> buffer[at + n] == NUL
    {
      hide PieceLength, NoNul, Whole;
      n := 0;
      ghost var s := text[pos..];
      assert s[0..] == s;
      ghost var before := buffer[..at];
      var start := pos;
      var done := false;
      while !done && pos < |text| && n < BUFFER - at - 1
        invariant n <= BUFFER - at - 1 && pos == start + n <= |text|
        invariant buffer[at..at + n] == text[start..pos] && buffer[..at] == before
        invariant PieceLength(s, BUFFER - at) == n + if done then 0 else PieceLength(s[n..], BUFFER - at - n)
        decreases |text| - pos, !done
      {
        PieceStep(s, n, BUFFER - at - n);
        assert s[n] == text[pos];
        buffer[at + n] := text[pos];
        done := text[pos] == '\n';
        pos, n := pos + 1, n + 1;
      }
      if !done { PieceEnds(s[n..], BUFFER - at - n); }
      ghost var line := buffer[at..at + n];
      if n > 0 { buffer[at + n] := NUL; }
      assert buffer[at..at + n] == line;
    }

    /** Counts a line in, unless the cache would no longer fit the buffer. */
    method Accum(n: nat) returns (ok: bool)
      requires cached < BUFFER
      modifies this`cached
      ensures ok <==> old(cached) + n < BUFFER
      ensures cached == if ok then old(cached) + n else old(cached)
    {
      ok := cached + n < BUFFER;
      if ok { cached := cached + n; }
    }

    /** Goes back to the mark and reads the cached pieces into the buffer again. */
    method Reread()
      requires Valid()
      modifies this`pos, buffer
      ensures pos == mark + cached <= |text| && buffer[..cached] == text[mark..pos]
      ensures cached == 0 ==> buffer[0] == NUL
    {
      hide PieceLength, NoNul;
      var p := 0;
      EmptyWhole(mark);
      pos := mark;
      buffer[0] := NUL;
      while p < cached
        invariant p <= cached < BUFFER && pos == mark + p && Whole(text, pos, cached - p)
        invariant buffer[..p] == text[mark..pos] && (p == 0 ==> buffer[0] == NUL)
      {
        RereadPiece(text[pos..], p, cached);
        ghost var before := buffer[..p];
        var n := Read(p);
        assert buffer[..p + n] == before + buffer[p..p + n];
        Extends(mark, p, n);
        p := p + n;
      }
    }

    lemma RereadPiece(s: string, p: nat, size: nat)
      requires p < size < BUFFER && 0 < PieceLength(s, BUFFER) <= size - p
      ensures PieceLength(s, BUFFER - p) == PieceLength(s, BUFFER)
    {
      PieceRereads(s, BUFFER, BUFFER - p);
    }

    /** Writes what is cached; true if it ends a line. */
    method Flush(stale: bool) returns (ended: bool)
      requires Valid()
      modifies this`pos, this`mark, this`cached, this`out, buffer
      ensures Valid() && cached == 0 && pos == mark == old(mark + cached)
      ensures out == old(Emitted())
      ensures ended == if old(cached) > 0 then text[mark - 1] == '\n' else stale
    {
      hide Whole;
      var size := cached;
      Reread();
      if size > 0 {
        assert buffer[0] == buffer[..size][0] == text[mark];
        assert buffer[size - 1] == buffer[..size][size - 1] == text[pos - 1];
      }
      if buffer[0] != NUL {
        out := out + buffer[..size];
      } else {
        assert out + text[mark..mark] == out;
      }
      ended := if size > 0 then buffer[size - 1] == '\n' else stale;
      mark, cached := pos, 0;
      EmptyWhole(mark);
    }

    lemma EmptyWhole(at: nat)
      requires at <= |text|
      ensures Whole(text, at, 0) && text[at..at] == ""
    {}

    /** The memory in front of the buffer stands in for a line end when nothing is cached. */
    ghost function Ended(stale: bool): bool
      requires mark + cached <= |text|
      reads this`mark, this`cached
    {
      if cached > 0 then text[mark + cached - 1] == '\n' else stale
    }

    /** The line read last, of `n` characters, goes into the cache; when it is full the cache is written first. */
    method Copy(n: nat, stale: bool)
      requires Valid() && pos == mark + cached + n
      requires 0 < n == PieceLength(text[mark + cached..], BUFFER)
      modifies this`pos, this`mark, this`cached, this`out, buffer
      ensures Valid() && cached > 0 && pos == mark + cached == old(pos)
      ensures Emitted() == old(Emitted()) + text[old(pos) - n..old(pos)]
      ensures Ended(stale) == EndsLine(text[old(pos) - n..old(pos)])
    {
      hide PieceLength, Whole;
      WholeMore(text, mark, cached);
      Extends(mark, cached, n);
      var ok := Accum(n);
      if !ok {
        CacheAfresh(n, stale);
      }
    }

    lemma Extends(at: nat, size: nat, n: nat)
      requires at + size + n <= |text|
      ensures text[at..at + size + n] == text[at..at + size] + text[at + size..at + size + n]
      ensures out + text[at..at + size + n] == out + text[at..at + size] + text[at + size..at + size + n]
    {}

    /** Writes the cache, and caches the line that did not fit. */
    method CacheAfresh(n: nat, stale: bool)
      requires Valid() && 0 < n == PieceLength(text[mark + cached..], BUFFER)
      modifies this`pos, this`mark, this`cached, this`out, buffer
      ensures Valid() && cached == n && mark == old(mark + cached) && pos == mark + n && out == old(Emitted())
    {
      hide PieceLength, Whole;
      var _ := Flush(stale);
      var again := Read(0);
      EmptyWhole(mark);
      WholeMore(text, mark, 0);
      var _ := Accum(again);
    }

    //
    // Lines written anew
    //

    /** A bounded plain copy with its terminator. */
    method SavePlain(at: nat, source: string, max: nat) returns (n: nat)
      requires buffer.Length == BUFFER && max > 0 && at + max <= BUFFER
      modifies buffer
      ensures n < max && buffer[at..at + n] == Save(source, max, Plain) && buffer[at + n] == NUL
      ensures buffer[..at] == old(buffer[..at])
    {
      n := 0;
      ghost var before := buffer[..at];
      while n < max - 1 && n < |source|
        invariant n <= |source| && n < max && buffer[at..at + n] == source[..n] && buffer[..at] == before
      {
        buffer[at + n] := source[n];
        n := n + 1;
      }
      buffer[at + n] := NUL;
    }

    /** A bounded copy between quotes, quotes in it escaped. */
    method SaveQuoted(at: nat, source: string, max: nat) returns (n: nat)
      requires buffer.Length == BUFFER && max >= 3 && at + max <= BUFFER
      modifies buffer
      ensures n < max && buffer[at..at + n] == Save(source, max, Enquote) && buffer[at + n] == NUL
      ensures buffer[..at] == old(buffer[..at])
    {
      var d := SaveBody(at, source, max);
      ghost var body := buffer[at..at + d];
      buffer[at + d] := '"';
      buffer[at + d + 1] := NUL;
      n := d + 1;
      assert buffer[at..at + d] == body && buffer[at..at + n] == body + "\"";
    }

    /** The opening quote and what fits behind it. */
    method SaveBody(at: nat, source: string, max: nat) returns (d: nat)
      requires buffer.Length == BUFFER && max >= 3 && at + max <= BUFFER
      modifies buffer
      ensures d <= max - 2 && buffer[at..at + d] == "\"" + Enquoted(source, 1, max)
      ensures buffer[..at] == old(buffer[..at])
    {
      hide Enquoted, EscapeOne;
      buffer[at] := '"';
      d := 1;
      var s, full := 0, false;
      ghost var all := "\"" + Enquoted(source, 1, max);
      assert source[0..] == source && buffer[at..at + 1] == "\"";
      while s < |source| && d < max - 2 && !full
        invariant s <= |source| && 1 <= d <= max - 2 && buffer[..at] == old(buffer[..at])
        invariant full ==> buffer[at..at + d] == all
        invariant !full ==> buffer[at..at + d] + Enquoted(source[s..], d, max) == all
        decreases |source| - s, !full
      {
        ghost var front := buffer[at..at + d];
        EnquotedStep(source, s, d, max);
        if source[s] == '"' && d >= max - 3 {
          full := true;
          assert front + "" == front;
        } else {
          var e := PutChar(at, d, source[s]);
          Regrouped(front, EscapeOne(source[s]), Enquoted(source[s + 1..], e, max));
          d, s := e, s + 1;
        }
      }
      EnquotedEnd(source[s..], d, max);
      assert !full ==> buffer[at..at + d] + "" == buffer[at..at + d];
    }

    method PutChar(at: nat, d: nat, c: char) returns (e: nat)
      requires at + d + 1 < buffer.Length && (c == '"' ==> at + d + 2 < buffer.Length)
      modifies buffer
      ensures e == d + |EscapeOne(c)| && buffer[at..at + e] == old(buffer[at..at + d]) + EscapeOne(c)
      ensures buffer[..at] == old(buffer[..at])
    {
      e := d;
      if c == '"' {
        buffer[at + e] := '\\';
        e := e + 1;
      }
      buffer[at + e] := c;
      e := e + 1;
    }

    /** The value as it is written, from `at` on. */
    method SaveValue(at: nat, v: string, max: nat) returns (n: nat)
      requires buffer.Length == BUFFER && max > 0 && at + max <= BUFFER
      modifies buffer
      ensures n < max && buffer[at..at + n] == Save(v, max, QuotingFor(v)) && buffer[at + n] == NUL
      ensures buffer[..at] == old(buffer[..at])
    {
      if NeedsQuotes(v) && max >= 3 {
        n := SaveQuoted(at, v, max);
      } else {
        n := SavePlain(at, v, max);
      }
    }

    method WriteKey(key: string, v: string)
      requires buffer.Length == BUFFER
      modifies buffer, this`out
      ensures out == old(out) + KeyLine(key, v)
    {
      hide Save, NeedsQuotes;
      var k := SavePlain(0, key, KEY_MAX);
      ghost var name := buffer[..k];
      buffer[k] := '=';
      assert buffer[..k] == name;
      var max := BUFFER - (k + 1) - 2;
      ghost var front := buffer[..k + 1];
      assert front == name + "=";
      var n := SaveValue(k + 1, v, max);
      ghost var value := buffer[k + 1..k + 1 + n];
      var past := k + 1 + n;
      buffer[past] := '\n';
      assert buffer[..k + 1] == front && buffer[k + 1..past] == value;
      assert buffer[..past + 1] == buffer[..k + 1] + buffer[k + 1..past] + "\n";
      assert |name| == k;
      out := out + buffer[..past + 1];
    }

    method WriteSection(section: string)
      requires buffer.Length == BUFFER && section != ""
      modifies buffer, this`out
      ensures out == old(out) + SectionLine(section)
    {
      buffer[0] := '[';
      var n := SavePlain(1, section, SECTION_MAX);
      assert buffer[..1][0] == '[';
      ghost var name := buffer[1..1 + n];
      buffer[1 + n] := ']';
      buffer[2 + n] := '\n';
      out := out + buffer[..3 + n];
      assert buffer[..3 + n] == "[" + name + "]\n";
    }

    //
    // The edit
    //

    /**
     * What is still to come once part of the file has been passed: with a key it is set or dropped, without one the
     * section goes.
     */
    ghost function ToDo(ls: seq<string>, section: string, key: Option<string>, v: Option<string>, ended: bool,
                        stale: bool): string
    {
      Flatten(if key.Some? then WithSection(ls, section, key.value, v, ended, stale) else WithoutSection(ls, section))
    }

    /** The same inside the section. */
    ghost function ToDoInside(ls: seq<string>, key: Option<string>, v: Option<string>, ended: bool): string {
      Flatten(if key.Some? then WithKey(ls, key.value, v, ended) else Without(ls))
    }

    lemma ToDoStep(section: string, key: Option<string>, v: Option<string>, ended: bool, stale: bool)
      requires Valid() && pos < |text|
      ensures var n := PieceLength(text[pos..], BUFFER);
        0 < n <= |text| - pos
        && var line, rest := text[pos..pos + n], Pieces(text[pos + n..]);
        ToDo(Pieces(text[pos..]), section, key, v, ended, stale)
        == if IsSection(line, section) then (if key.Some? then line else "") + ToDoInside(rest, key, v, stale)
           else line + ToDo(rest, section, key, v, EndsLine(line), stale)
    {
      hide PieceLength, IsSection, Flatten, ToDo, ToDoInside;
      PiecesFrom(text, pos);
      var n := PieceLength(text[pos..], BUFFER);
      SectionStep(text[pos..pos + n], Pieces(text[pos + n..]), section, key, v, ended, stale);
    }

    lemma SectionStep(line: string, rest: seq<string>, section: string, key: Option<string>, v: Option<string>,
                      ended: bool, stale: bool)
      ensures ToDo([line] + rest, section, key, v, ended, stale)
           == if IsSection(line, section) then (if key.Some? then line else "") + ToDoInside(rest, key, v, stale)
              else line + ToDo(rest, section, key, v, EndsLine(line), stale)
    {
      hide IsSection, WithKey, Without, Flatten;
      var ls := [line] + rest;
      assert ls[0] == line && ls[1..] == rest;
      if key.Some? {
        FlattenCons(line, WithKey(rest, key.value, v, stale));
        FlattenCons(line, WithSection(rest, section, key.value, v, EndsLine(line), stale));
      } else {
        FlattenCons(line, WithoutSection(rest, section));
        assert "" + Flatten(Without(rest)) == Flatten(Without(rest));
      }
    }

    /** Copies up to the section's header, and the header too unless the section is to go; false at the file's end. */
    method CopyToSection(section: string, key: Option<string>, stale: bool,
                         ghost v: Option<string>, ghost total: string)
      returns (found: bool)
      requires Valid() && pos == mark + cached && section != ""
      requires total == Emitted() + ToDo(Pieces(text[pos..]), section, key, v, Ended(stale), stale)
      modifies this`pos, this`mark, this`cached, this`out, buffer
      ensures Valid() && mark + cached <= |text|
      ensures !found ==>
        pos == mark + cached == |text| && total == Emitted() + ToDo([], section, key, v, Ended(stale), stale)
      ensures found && key.Some? ==> pos == mark + cached
      ensures found && key.None? ==>
        mark + cached < |text| && pos == mark + cached + PieceLength(text[mark + cached..], BUFFER)
      ensures found ==> total == Emitted() + ToDoInside(Pieces(text[pos..]), key, v, stale)
    {
      hide ToDo, ToDoInside, PieceLength, Whole, NoNul, Emitted, Ended, Pieces;
      var more := true;
      found := false;
      while more && !found
        invariant Valid() && mark + cached <= |text|
        invariant !found ==> pos == mark + cached
        invariant !found ==> total == Emitted() + ToDo(Pieces(text[pos..]), section, key, v, Ended(stale), stale)
        invariant !more ==> !found && pos == |text|
        invariant found && key.Some? ==> pos == mark + cached
        invariant found && key.None? ==>
          mark + cached < |text| && pos == mark + cached + PieceLength(text[mark + cached..], BUFFER)
        invariant found ==> total == Emitted() + ToDoInside(Pieces(text[pos..]), key, v, stale)
        decreases |text| - pos, more, !found
      {
        more, found := PassSectionLine(section, key, stale, v, total);
      }
      if !found { PiecesAtEnd(text, pos); }
    }

    method PassSectionLine(section: string, key: Option<string>, stale: bool,
                           ghost v: Option<string>, ghost total: string)
      returns (more: bool, found: bool)
      requires Valid() && pos == mark + cached && section != ""
      requires total == Emitted() + ToDo(Pieces(text[pos..]), section, key, v, Ended(stale), stale)
      modifies this`pos, this`mark, this`cached, this`out, buffer
      ensures Valid() && mark + cached <= |text| && old(pos) <= pos && (more ==> old(pos) < pos)
      ensures !found ==> pos == mark + cached
      ensures !found ==> total == Emitted() + ToDo(Pieces(text[pos..]), section, key, v, Ended(stale), stale)
      ensures !more ==> !found && pos == |text|
      ensures found && key.Some? ==> pos == mark + cached
      ensures found && key.None? ==>
        mark + cached < |text| && pos == mark + cached + PieceLength(text[mark + cached..], BUFFER)
      ensures found ==> total == Emitted() + ToDoInside(Pieces(text[pos..]), key, v, stale)
    {
      hide ToDo, ToDoInside, IsSection, PieceLength, Whole, Pieces, EndsLine, NoNul, Emitted, Ended;
      var from := pos;
      if pos < |text| { ToDoStep(section, key, v, Ended(stale), stale); }
      var n := Read(0);
      if n == 0 { return false, false; }
      ghost var line := text[from..pos];
      ghost var emitted := Emitted();
      more, found := true, IsSection(buffer[..n], section);
      assert buffer[..n] == line;
      if !found || key.Some? {
        Copy(n, stale);
        ghost var rest := if found then ToDoInside(Pieces(text[pos..]), key, v, stale)
                          else ToDo(Pieces(text[pos..]), section, key, v, EndsLine(line), stale);
        Regrouped(emitted, line, rest);
      } else {
        assert "" + ToDoInside(Pieces(text[pos..]), key, v, stale) == ToDoInside(Pieces(text[pos..]), key, v, stale);
      }
    }

    /** The line that stops the search has been read but not copied. */
    ghost predicate Stopped(key: Option<string>, v: Option<string>, header: bool, total: string)
      reads this
    {
      && mark + cached < |text|
      && pos == mark + cached + PieceLength(text[mark + cached..], BUFFER) <= |text|
      && total == Emitted() + (Replacement(key, v) + text[if header then mark + cached else pos..])
    }

    lemma InsideStep(key: Option<string>, v: Option<string>, ended: bool)
      requires Valid() && pos < |text|
      ensures var n := PieceLength(text[pos..], BUFFER);
        0 < n <= |text| - pos
        && var line, rest := text[pos..pos + n], Pieces(text[pos + n..]);
        ToDoInside(Pieces(text[pos..]), key, v, ended)
        == if Stops(line, key) then Replacement(key, v) + (if Opens(line) then text[pos..] else text[pos + n..])
           else (if key.Some? then line else "") + ToDoInside(rest, key, v, EndsLine(line))
    {
      hide PieceLength, IsKey, Opens, Flatten, KeyLine, ToDoInside;
      PiecesFrom(text, pos);
      var n := PieceLength(text[pos..], BUFFER);
      var line, rest := text[pos..pos + n], Pieces(text[pos + n..]);
      InsideLine(line, rest, key, v, ended);
      FlattenCons(line, rest);
    }

    lemma InsideLine(line: string, rest: seq<string>, key: Option<string>, v: Option<string>, ended: bool)
      ensures ToDoInside([line] + rest, key, v, ended)
           == if Stops(line, key) then
                Replacement(key, v) + (if Opens(line) then Flatten([line] + rest) else Flatten(rest))
              else (if key.Some? then line else "") + ToDoInside(rest, key, v, EndsLine(line))
    {
      hide IsKey, Opens, Flatten, KeyLine;
      var ls := [line] + rest;
      assert ls[0] == line && ls[1..] == rest;
      if key.Some? {
        FlattenCons(line, WithKey(rest, key.value, v, EndsLine(line)));
        if v.Some? {
          FlattenCons(KeyLine(key.value, v.value), if Opens(line) then ls else rest);
        }
        assert [] + ls == ls && [] + rest == rest;
      }
      assert "" + Flatten(Without(rest)) == Flatten(Without(rest));
      assert "" + Flatten(rest) == Flatten(rest) && "" + Flatten(ls) == Flatten(ls);
    }

    /** Copies, or without a key passes over, the lines up to the key or the next header; false at the file's end. */
    method CopyToKey(key: Option<string>, stale: bool, ghost v: Option<string>, ghost total: string)
      returns (found: bool, header: bool)
      requires Valid() && pos == mark + cached && (key.None? ==> cached == 0)
      requires total == Emitted() + ToDoInside(Pieces(text[pos..]), key, v, Ended(stale))
      modifies this`pos, this`mark, this`cached, this`out, buffer
      ensures Valid() && mark + cached <= |text|
      ensures !found ==> pos == mark + cached == |text| && total == Emitted() + ToDoInside([], key, v, Ended(stale))
      ensures found ==> Stopped(key, v, header, total)
    {
      hide ToDoInside, PieceLength, Whole, Replacement, NoNul, Emitted, Ended, Pieces;
      var more := true;
      found, header := false, false;
      while more && !found
        invariant Valid() && mark + cached <= |text| && (key.None? ==> cached == 0)
        invariant !found ==>
          pos == mark + cached && total == Emitted() + ToDoInside(Pieces(text[pos..]), key, v, Ended(stale))
        invariant !more ==> !found && pos == |text|
        invariant found ==> Stopped(key, v, header, total)
        decreases |text| - pos, more, !found
      {
        more, found, header := PassKeyLine(key, stale, v, total);
      }
      if !found { PiecesAtEnd(text, pos); }
    }

    method PassKeyLine(key: Option<string>, stale: bool, ghost v: Option<string>, ghost total: string)
      returns (more: bool, found: bool, header: bool)
      requires Valid() && pos == mark + cached && (key.None? ==> cached == 0)
      requires total == Emitted() + ToDoInside(Pieces(text[pos..]), key, v, Ended(stale))
      modifies this`pos, this`mark, this`cached, this`out, buffer
      ensures Valid() && mark + cached <= |text| && old(pos) <= pos && (more ==> old(pos) < pos)
      ensures key.None? ==> cached == 0
      ensures !found ==>
        pos == mark + cached && total == Emitted() + ToDoInside(Pieces(text[pos..]), key, v, Ended(stale))
      ensures !more ==> !found && pos == |text|
      ensures found ==> Stopped(key, v, header, total)
    {
      hide ToDoInside, IsKey, Opens, PieceLength, Whole, Pieces, EndsLine, Replacement;
      var from := pos;
      if pos < |text| { InsideStep(key, v, Ended(stale)); }
      var n := Read(0);
      if n == 0 { return false, false, false; }
      ghost var line := text[from..pos];
      ghost var emitted := Emitted();
      assert buffer[..n] == line;
      header := Opens(buffer[..n]);
      more, found := true, (key.Some? && IsKey(buffer[..n], key.value)) || header;
      if !found {
        KeepLine(n, key.Some?, stale);
        ghost var rest := Pieces(text[pos..]);
        if key.None? { InsideIgnoresEnd(rest, v, EndsLine(line), Ended(stale)); }
        Regrouped(emitted, if key.Some? then line else "", ToDoInside(rest, key, v, EndsLine(line)));
      }
    }

    /** A line that stops nothing is copied, or with its section passed over. */
    method KeepLine(n: nat, copy: bool, stale: bool)
      requires Valid() && pos == mark + cached + n && (!copy ==> cached == 0)
      requires 0 < n == PieceLength(text[mark + cached..], BUFFER)
      modifies this`pos, this`mark, this`cached, this`out, buffer
      ensures Valid() && pos == mark + cached == old(pos) && (!copy ==> cached == 0)
      ensures Emitted() == old(Emitted()) + if copy then text[old(pos) - n..old(pos)] else ""
      ensures copy ==> Ended(stale) == EndsLine(text[old(pos) - n..old(pos)])
    {
      hide PieceLength, Whole, NoNul, EndsLine;
      if copy {
        Copy(n, stale);
      } else {
        EmptyWhole(mark);
        mark := pos;
        EmptyWhole(mark);
      }
    }

    lemma InsideIgnoresEnd(ls: seq<string>, v: Option<string>, a: bool, b: bool)
      ensures ToDoInside(ls, None, v, a) == ToDoInside(ls, None, v, b)
    {}

    /** At the end of the file: writes the cache, and what is to be added behind it. */
    method AppendAtEnd(section: string, key: Option<string>, v: Option<string>, stale: bool)
      requires Valid() && mark + cached == |text|
      modifies this`pos, this`mark, this`cached, this`out, buffer
      ensures out == old(Emitted()) + Added(section, key, v, old(Ended(stale)))
    {
      hide KeyLine, SectionLine, Whole, PieceLength;
      ghost var emitted := Emitted();
      var ended := Flush(stale);
      if key.Some? && v.Some? {
        if !ended { out := out + "\n"; }
        if section != "" { WriteSection(section); }
        WriteKey(key.value, v.value);
      } else {
        assert emitted + "" == emitted;
      }
    }

    /** The line the search stopped at is kept or passed over, and the rest of the file is copied. */
    method Finish(key: Option<string>, v: Option<string>, header: bool, stale: bool, ghost total: string)
      requires Valid() && Stopped(key, v, header, total)
      modifies this`pos, this`mark, this`cached, this`out, buffer
      ensures out == total
    {
      hide Whole, PieceLength, KeyLine, NoNul;
      ghost var rest := text[if header then mark + cached else pos..];
      ghost var emitted := Emitted();
      var _ := Flush(stale);
      WriteReplacement(key, v);
      Regrouped(emitted, Replacement(key, v), rest);
      TakeLine(header);
      CopyRest(stale, total);
    }

    method WriteReplacement(key: Option<string>, v: Option<string>)
      requires buffer.Length == BUFFER
      modifies this`out, buffer
      ensures out == old(out) + Replacement(key, v)
    {
      hide KeyLine;
      if key.Some? && v.Some? {
        WriteKey(key.value, v.value);
      } else {
        assert out + "" == out;
      }
    }

    /** Reads the line the search stopped at once more: a header is kept, an old key forgotten. */
    method TakeLine(header: bool)
      requires Valid() && pos == mark && cached == 0 && mark < |text|
      modifies this`pos, this`mark, this`cached, buffer
      ensures Valid() && pos == mark + cached
      ensures out + text[if header then old(mark) else old(mark) + PieceLength(text[old(mark)..], BUFFER)..]
           == Emitted() + text[pos..]
    {
      hide Whole, PieceLength, NoNul;
      var n := Read(0);
      if header {
        WholeMore(text, mark, 0);
        var _ := Accum(n);
        Divides(mark, pos);
      } else {
        mark := pos;
        EmptyWhole(mark);
        Divides(mark, pos);
      }
    }

    lemma Divides(from: nat, to: nat)
      requires from <= to <= |text|
      ensures text[from..] == text[from..to] + text[to..]
      ensures out + text[from..] == out + text[from..to] + text[to..]
    {}

    /** Everything that is left. */
    method CopyRest(stale: bool, ghost total: string)
      requires Valid() && pos == mark + cached && total == Emitted() + text[pos..]
      modifies this`pos, this`mark, this`cached, this`out, buffer
      ensures out == total
    {
      hide Whole, PieceLength, NoNul;
      var more := true;
      while more
        invariant Valid() && pos == mark + cached && total == Emitted() + text[pos..] && (!more ==> pos == |text|)
        decreases |text| - pos, more
      {
        more := PassLine(stale, total);
      }
      assert text[pos..] == "" && Emitted() + "" == Emitted();
      var _ := Flush(stale);
    }

    method PassLine(stale: bool, ghost total: string) returns (more: bool)
      requires Valid() && pos == mark + cached && total == Emitted() + text[pos..]
      modifies this`pos, this`mark, this`cached, this`out, buffer
      ensures Valid() && pos == mark + cached && total == Emitted() + text[pos..]
      ensures old(pos) <= pos && if more then old(pos) < pos else pos == |text|
    {
      hide Whole, PieceLength, NoNul, Emitted;
      var from := pos;
      ghost var emitted := Emitted();
      var n := Read(0);
      more := n > 0;
      if more {
        Divides(from, pos);
        Regrouped(emitted, text[from..pos], text[pos..]);
        Copy(n, stale);
      }
    }

    /** Where the section's keys begin: without a key the line at which copying stopped is passed over. */
    ghost function Resume(key: Option<string>): (r: nat)
      requires mark + cached <= |text|
      reads this
      ensures r <= |text|
    {
      if key.Some? then mark + cached else mark + cached + PieceLength(text[mark + cached..], BUFFER)
    }

    method EditInside(section: string, key: Option<string>, v: Option<string>, stale: bool, ghost total: string)
      requires Valid() && mark + cached <= |text|
      requires total == Emitted() + ToDoInside(Pieces(text[Resume(key)..]), key, v, stale)
      modifies this`pos, this`mark, this`cached, this`out, buffer
      ensures out == total
    {
      hide Whole, PieceLength, ToDoInside, Pieces, Added, Stopped;
      var _ := Flush(stale);
      if key.None? {
        var _ := Read(0);
        mark := pos;
        EmptyWhole(mark);
      }
      var found, header := CopyToKey(key, stale, v, total);
      if !found {
        NoKeyLeft(key, v, Ended(stale));
        AppendAtEnd("", key, v, stale);
      } else {
        Finish(key, v, header, stale, total);
      }
    }

    lemma NoKeyLeft(key: Option<string>, v: Option<string>, ended: bool)
      ensures ToDoInside([], key, v, ended) == Added("", key, v, ended)
    {
      if key.Some? && v.Some? {
        var p := KeyLine(key.value, v.value);
        FlattenConcat(LineEndUnless(ended), [p]);
        FlattenCons(p, []);
        FlattenCons("\n", []);
        hide KeyLine;
        assert (if ended then "" else "\n") + "" + p == (if ended then "" else "\n") + p;
      }
    }

    lemma NoSectionLeft(section: string, key: Option<string>, v: Option<string>, ended: bool, stale: bool)
      requires section != ""
      ensures ToDo([], section, key, v, ended, stale) == Added(section, key, v, ended)
    {
      if key.Some? && v.Some? {
        var h, p := SectionLine(section), KeyLine(key.value, v.value);
        FlattenConcat(LineEndUnless(ended), [h, p]);
        assert [h, p] == [h] + [p];
        FlattenCons(h, [p]);
        FlattenCons(p, []);
        FlattenCons("\n", []);
        hide KeyLine, SectionLine;
        Regrouped(if ended then "" else "\n", h, p);
      }
    }

    /** Before anything is read, all of the edit is to do. */
    lemma AllToDo(section: string, key: Option<string>, v: Option<string>, stale: bool)
      requires Valid() && pos == mark == cached == 0 && out == ""
      ensures var total := Flatten(Edited(Pieces(text), section, key, v, stale));
        if section != "" then total == Emitted() + ToDo(Pieces(text[pos..]), section, key, v, Ended(stale), stale)
        else total == Emitted() + ToDoInside(Pieces(text[Resume(key)..]), key, v, stale)
    {
      assert text[0..] == text && text[0..0] == "";
      var total := Flatten(Edited(Pieces(text), section, key, v, stale));
      assert Emitted() + total == total;
      if section == "" && key.None? {
        if text == "" {
          assert text[Resume(key)..] == "";
        } else {
          PiecesFrom(text, 0);
          var n := PieceLength(text[0..], BUFFER);
          assert ([text[0..n]] + Pieces(text[n..]))[1..] == Pieces(text[n..]);
        }
      }
    }

    /** The edit of an existing file. */
    method Edit(section: string, key: Option<string>, v: Option<string>, stale: bool)
      requires Valid() && pos == mark == cached == 0 && out == ""
      modifies this`pos, this`mark, this`cached, this`out, buffer
      ensures out == Flatten(Edited(Pieces(text), section, key, v, stale))
    {
      hide Whole, PieceLength, Edited, ToDo, ToDoInside, Added, Pieces;
      ghost var total := Flatten(Edited(Pieces(text), section, key, v, stale));
      AllToDo(section, key, v, stale);
      if section != "" {
        var found := CopyToSection(section, key, stale, v, total);
        if !found {
          NoSectionLeft(section, key, v, Ended(stale), stale);
          AppendAtEnd(section, key, v, stale);
          return;
        }
      }
      EditInside(section, key, v, stale, total);
    }

    //
    // Looking up
    //

    /** Reads on to behind the section's header; false at the end of the file. */
    method SeekSection(section: string) returns (found: bool)
      requires buffer.Length == BUFFER && pos <= |text| && section != ""
      modifies this`pos, buffer
      ensures pos <= |text|
      ensures AfterSection(Pieces(text[old(pos)..]), section) == if found then Some(Pieces(text[pos..])) else None
    {
      hide IsSection, PieceLength, Pieces;
      found := false;
      var more := true;
      ghost var want := AfterSection(Pieces(text[pos..]), section);
      while more && !found
        invariant pos <= |text|
        invariant want == if found then Some(Pieces(text[pos..]))
                          else if more then AfterSection(Pieces(text[pos..]), section) else None
        decreases |text| - pos, more, !found
      {
        if pos < |text| {
          PiecesFrom(text, pos);
        } else {
          PiecesAtEnd(text, pos);
        }
        ghost var from := pos;
        var n := Read(0);
        if n == 0 {
          more := false;
        } else {
          assert buffer[..n] == text[from..pos];
          HeadAndTail(text[from..pos], Pieces(text[pos..]));
          found := IsSection(buffer[..n], section);
        }
      }
    }

    lemma HeadAndTail(p: string, rest: seq<string>)
      ensures ([p] + rest)[0] == p && ([p] + rest)[1..] == rest && [p] + rest != []
    {}

    /** Reads on to the key's line, which is left in the buffer; 0 if it does not come before the next header. */
    method SeekKey(key: string) returns (n: nat)
      requires buffer.Length == BUFFER && pos <= |text|
      modifies this`pos, buffer
      ensures n < BUFFER && (n > 0 ==> buffer[n] == NUL)
      ensures FindKey(Pieces(text[old(pos)..]), key) == if n > 0 then Some(buffer[..n]) else None
    {
      hide IsKey, Opens, Comment, PieceLength, Pieces, Separator;
      ghost var want := FindKey(Pieces(text[pos..]), key);
      while true
        invariant pos <= |text| && want == FindKey(Pieces(text[pos..]), key)
        decreases |text| - pos
      {
        if pos < |text| {
          PiecesFrom(text, pos);
        } else {
          PiecesAtEnd(text, pos);
        }
        ghost var from := pos;
        n := Read(0);
        if n == 0 { return; }
        assert buffer[..n] == text[from..pos];
        HeadAndTail(text[from..pos], Pieces(text[pos..]));
        if Opens(buffer[..n]) { return 0; }
        if !Comment(buffer[..n]) && IsKey(buffer[..n], key) { return; }
      }
    }

    /** Finds the key from where the file is read, and stores its value. */
    method GetKeyString(section: string, key: string, dest: array<char>) returns (found: bool, d: nat)
      requires buffer.Length == BUFFER && pos <= |text| && dest != buffer && dest.Length > 0
      modifies this`pos, buffer, dest
      ensures d < dest.Length
      ensures GetKey(Pieces(text[old(pos)..]), section, key, dest.Length) == if found then Some(dest[..d]) else None
    {
      hide IsKey, Opens, Comment, PieceLength, Pieces, Separator, ValueOf, FindKey;
      found, d := false, 0;
      if section != "" {
        var there := SeekSection(section);
        if !there { return; }
      }
      var n := SeekKey(key);
      if n > 0 {
        found := true;
        d := TakeValue(buffer, n, dest);
      }
    }

    /** The whole call on an existing file. */
    method Puts(section: string, key: Option<string>, v: Option<string>, stale: bool) returns (result: string)
      requires Valid() && pos == mark == cached == 0 && out == ""
      modifies this`pos, this`mark, this`cached, this`out, buffer
      ensures result == IniFile.Puts(text, section, key, v, stale)
    {
      hide Pieces, Edited, GetKey, Whole;
      assert text[0..] == text;
      if key.Some? && v.Some? {
        var line := new char[BUFFER](_ => NUL);
        var found, d := GetKeyString(section, key.value, line);
        if found && line[..d] == v.value { return text; }
        pos := mark;
      }
      Edit(section, key, v, stale);
      result := out;
    }

    /** What a reader of the file gets: the number of characters stored, of the default if the key is not there. */
    method Gets(section: string, key: string, otherwise: string, dest: array<char>) returns (d: nat)
      requires Valid() && pos == 0 && dest != buffer && dest.Length > 0
      modifies this`pos, buffer, dest
      ensures d < dest.Length
      ensures dest[..d] == match IniFile.Gets(text, section, key, dest.Length)
                           case Some(v) => v
                           case None => Save(otherwise, dest.Length, Plain)
    {
      hide Pieces, GetKey, Save;
      assert text[0..] == text;
      var found;
      found, d := GetKeyString(section, key, dest);
      if !found { d := Store(dest, otherwise, Plain); }
    }
  }

  /** What is added behind a file in which section or key were not found. */
  function Added(section: string, key: Option<string>, v: Option<string>, ended: bool): string {
    if key.Some? && v.Some? then
      (if ended then "" else "\n") + (if section == "" then "" else SectionLine(section)) + KeyLine(key.value, v.value)
    else ""
  }

  /** The line takes the place of, or stands behind, the key's. */
  predicate Stops(line: string, key: Option<string>) { (key.Some? && IsKey(line, key.value)) || Opens(line) }

  function Replacement(key: Option<string>, v: Option<string>): string {
    if key.Some? && v.Some? then KeyLine(key.value, v.value) else ""
  }

  function EscapeOne(c: char): (r: string)
    ensures |r| == if c == '"' then 2 else 1
  {
    if c == '"' then "\\\"" else [c]
  }

  lemma EnquotedStep(source: string, s: nat, d: nat, max: nat)
    requires s < |source| && d + 2 < max
    ensures Enquoted(source[s..], d, max)
         == if source[s] == '"' && d + 3 >= max then ""
            else EscapeOne(source[s]) + Enquoted(source[s + 1..], d + |EscapeOne(source[s])|, max)
  {
    assert source[s..][1..] == source[s + 1..];
  }

  lemma EnquotedEnd(v: string, d: nat, max: nat)
    ensures v == "" || d + 2 >= max ==> Enquoted(v, d, max) == ""
  {}

  /** A file's pieces: the first, and those of the rest. */
  lemma PiecesFrom(text: string, at: nat)
    requires at < |text|
    ensures var n := PieceLength(text[at..], BUFFER);
      0 < n <= |text| - at && Pieces(text[at..]) == [text[at..at + n]] + Pieces(text[at + n..])
  {
    hide PieceLength;
    var n := PieceLength(text[at..], BUFFER);
    assert text[at..][..n] == text[at..at + n] && text[at..][n..] == text[at + n..];
  }

  lemma PiecesAtEnd(text: string, at: nat)
    requires at == |text|
    ensures Pieces(text[at..]) == []
  {}

  lemma FlattenCons(p: string, rest: seq<string>)
    ensures Flatten([p] + rest) == p + Flatten(rest)
  {
    assert ([p] + rest)[1..] == rest;
  }
}
