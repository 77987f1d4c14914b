/** Base64, as section 4 of RFC 4648 has it, with the decoder that keeps a level and the last digit. */
module Base64 {
  import opened Bytes

  const PAD: byte := 61

  /** A digit: six bits. */
  type digit = d: int | 0 <= d < 64

  /** The alphabet: upper case, lower case, figures, plus and slash. */
  function Letter(d: digit): (c: byte)
    ensures c != 0 && c != PAD
  {
    if d < 26 then 65 + d
    else if d < 52 then 97 + d - 26
    else if d < 62 then 48 + d - 52
    else if d == 62 then 43
    else 47
  }

  /** What the decoding table holds for an octet; -1 for all but the alphabet. */
  function Table(c: byte): (v: int)
    ensures -1 <= v < 64
  {
    if 65 <= c <= 90 then c - 65
    else if 97 <= c <= 122 then c - 97 + 26
    else if 48 <= c <= 57 then c - 48 + 52
    else if c == 43 then 62
    else if c == 47 then 63
    else -1
  }

  lemma LetterInTable(d: digit)
    ensures Table(Letter(d)) == d && Table(PAD) == -1
  {}

  /** The letters by their codes: where the runs of the alphabet begin, and that they go up one by one; the padding. */
  lemma LettersOfTable(d: digit)
    ensures Letter(0) == 65 && Letter(26) == 97 && Letter(52) == 48 && Letter(62) == 43 && Letter(63) == 47
    ensures d !in {25, 51, 61, 62, 63} ==> Letter(d + 1) as int == Letter(d) as int + 1
    ensures PAD == 61
  {}

  /** The decoding table knows every letter and no other octet. */
  lemma TableExactly(c: byte)
    ensures if Table(c) == -1 then forall d: digit :: Letter(d) != c else Letter(Table(c)) == c
  {}

  function First(a: byte): digit { a / 4 }

  function Second(a: byte, b: byte): digit { a % 4 * 16 + b / 16 }

  function Third(b: byte, c: byte): digit { b % 16 * 4 + c / 64 }

  function Fourth(c: byte): digit { c % 64 }

  /** Three octets make four letters; one or two are padded. */
  function Encode(s: seq<byte>): seq<byte> {
    if s == [] then []
    else if |s| == 1 then [Letter(First(s[0])), Letter(Second(s[0], 0)), PAD, PAD]
    else if |s| == 2 then [Letter(First(s[0])), Letter(Second(s[0], s[1])), Letter(Third(s[1], 0)), PAD]
    else [Letter(First(s[0])), Letter(Second(s[0], s[1])), Letter(Third(s[1], s[2])), Letter(Fourth(s[2]))]
         + Encode(s[3..])
  }

  /** The digit a letter of the alphabet stands for, and zero for the padding. */
  predicate Says(c: byte, d: int) {
    if c == 61 then d == 0 else 0 <= d < 64 && c == Letter(d)
  }

  /** Four letters say 24 bits: those of the octets, the missing ones as zeroes. */
  ghost predicate GroupSays(g: seq<byte>, a: int, b: int, c: int)
    requires |g| == 4
  {
    exists i, j, k, l ::
      && Says(g[0], i) && Says(g[1], j) && Says(g[2], k) && Says(g[3], l)
      && 262144 * i + 4096 * j + 64 * k + l == 65536 * a + 256 * b + c
  }

  function OctetAt(s: seq<byte>, i: nat): byte { if i < |s| then s[i] else 0 }

  lemma Bits24(a: byte, b: byte, c: byte)
    ensures 262144 * First(a) + 4096 * Second(a, b) + 64 * Third(b, c) + Fourth(c)
         == 65536 * a as int + 256 * b as int + c
  {}

  lemma OneGroup(s: seq<byte>)
    requires s != []
    ensures var e := Encode(s);
      && |e| >= 4 && GroupSays(e[..4], s[0], OctetAt(s, 1), OctetAt(s, 2))
      && e[0] != 61 && e[1] != 61 && (e[2] == 61 <==> |s| == 1) && (e[3] == 61 <==> |s| <= 2)
      && e[4..] == if |s| <= 3 then [] else Encode(s[3..])
  {
    var e := Encode(s);
    var a, b, c := s[0], OctetAt(s, 1), OctetAt(s, 2);
    hide Letter;
    if |s| == 3 { assert s[3..] == [] && Encode(s[3..]) == []; }
    var g := e[..4];
    assert g[0] == e[0] && g[1] == e[1] && g[2] == e[2] && g[3] == e[3];
    var i, j := First(a), Second(a, b);
    var k, l := if |s| == 1 then 0 else Third(b, c), if |s| <= 2 then 0 else Fourth(c);
    assert Says(g[0], i) && Says(g[1], j) && Says(g[2], k) && Says(g[3], l);
    Bits24(a, b, c);
  }

  /**
   * Every three octets are four letters that say the same 24 bits; padding stands at the end alone, one for each octet
   * the last three are short of.
   */
  lemma {:induction false} EncodedSays(s: seq<byte>, n: nat)
    requires 3 * n < |s|
    ensures var e := Encode(s);
      && 4 * n + 4 <= |e|
      && GroupSays(e[4 * n..4 * n + 4], s[3 * n], OctetAt(s, 3 * n + 1), OctetAt(s, 3 * n + 2))
      && e[4 * n] != 61 && e[4 * n + 1] != 61
      && (e[4 * n + 2] == 61 <==> |s| == 3 * n + 1) && (e[4 * n + 3] == 61 <==> |s| <= 3 * n + 2)
      && (|e| == 4 * n + 4 <==> |s| <= 3 * n + 3)
    decreases n
  {
    hide Encode, GroupSays;
    OneGroup(s);
    var e := Encode(s);
    if n == 0 {
      assert e[0..4] == e[..4];
      if |s| > 3 { OneGroup(s[3..]); }
    } else {
      EncodedSays(s[3..], n - 1);
      var f := Encode(s[3..]);
      assert e[4..] == f;
      assert e[4 * n..4 * n + 4] == f[4 * n - 4..4 * n];
      assert e[4 * n] == f[4 * n - 4] && e[4 * n + 1] == f[4 * n - 3];
      assert e[4 * n + 2] == f[4 * n - 2] && e[4 * n + 3] == f[4 * n - 1];
    }
  }

  /** The longest of the test vectors of RFC 4648 (section 10): "foobar", and "fooba" with its padding. */
  lemma TestVectors()
    ensures Encode([102, 111, 111, 98, 97, 114]) == [90, 109, 57, 118, 89, 109, 70, 121]
    ensures Encode([102, 111, 111, 98, 97]) == [90, 109, 57, 118, 89, 109, 69, 61]
  {
    var s: seq<byte>, t: seq<byte> := [102, 111, 111, 98, 97, 114], [102, 111, 111, 98, 97];
    assert s[3..] == [98, 97, 114] && s[3..][3..] == [] && t[3..] == [98, 97];
  }

  /** Where the decoder stands within a group of four digits, and the digit before. */
  datatype Place = Place(level: nat, last: digit)

  /** The octet that digit `d` completes, but for the first of a group. */
  function Completed(at: Place, d: digit): (c: seq<byte>)
    ensures |c| <= 1
  {
    if at.level == 1 then [at.last % 64 * 4 + d / 16]
    else if at.level == 2 then [at.last % 16 * 16 + d / 4]
    else if at.level == 3 then [at.last % 4 * 64 + d]
    else []
  }

  function Next(at: Place, d: digit): Place {
    Place(if at.level >= 3 then 0 else at.level + 1, d)
  }

  /** Decodes up to a zero octet; what is not in the alphabet is passed over. At most `room` octets come out. */
  function Decode(s: seq<byte>, at: Place, room: nat): (r: seq<byte>)
    ensures |r| <= room
    decreases s
  {
    if room == 0 || s == [] || s[0] == 0 then []
    else if Table(s[0]) == -1 then Decode(s[1..], at, room)
    else
      var c := Completed(at, Table(s[0]));
      c + Decode(s[1..], Next(at, Table(s[0])), room - |c|)
  }

  /** What of a text reaches the decoder. */
  function Letters(s: seq<byte>): seq<byte> {
    if s == [] || s[0] == 0 then []
    else (if Table(s[0]) == -1 then [] else [s[0]]) + Letters(s[1..])
  }

  lemma {:induction false} OnlyLettersMatter(s: seq<byte>, at: Place, room: nat)
    ensures Decode(s, at, room) == Decode(Letters(s), at, room)
    decreases s
  {
    hide Table, Completed;
    if room > 0 && s != [] && s[0] != 0 {
      if Table(s[0]) == -1 {
        assert Letters(s) == Letters(s[1..]);
        OnlyLettersMatter(s[1..], at, room);
      } else {
        assert Letters(s)[1..] == Letters(s[1..]);
        OnlyLettersMatter(s[1..], Next(at, Table(s[0])), room - |Completed(at, Table(s[0]))|);
      }
    }
  }

  lemma DecodeLetter(d: digit, rest: seq<byte>, at: Place, room: nat)
    requires room > 0
    ensures Decode([Letter(d)] + rest, at, room) ==
      Completed(at, d) + Decode(rest, Next(at, d), room - |Completed(at, d)|)
  {
    LetterInTable(d);
    assert ([Letter(d)] + rest)[1..] == rest;
  }

  lemma Regained(a: byte, b: byte, c: byte)
    ensures First(a) * 4 + Second(a, b) / 16 == a
    ensures Second(a, b) % 16 * 16 + Third(b, c) / 4 == b
    ensures Third(b, c) % 4 * 64 + Fourth(c) == c
  {}

  lemma OneByOne(a: byte, b: byte, c: byte, d: byte, e: seq<byte>)
    ensures [a, b, c, d] + e == [a] + ([b] + ([c] + ([d] + e)))
  {}

  lemma FirstDecoded(a: byte, rest: seq<byte>, last: digit, room: nat)
    requires room > 0
    ensures Decode([Letter(First(a))] + rest, Place(0, last), room) == Decode(rest, Place(1, First(a)), room)
  {
    hide Decode, Letter;
    DecodeLetter(First(a), rest, Place(0, last), room);
  }

  lemma SecondDecoded(a: byte, b: byte, rest: seq<byte>, room: nat)
    requires room > 0
    ensures Decode([Letter(Second(a, b))] + rest, Place(1, First(a)), room)
      == [a] + Decode(rest, Place(2, Second(a, b)), room - 1)
  {
    hide Decode, Letter, Table, First, Second, Third, Fourth;
    Regained(a, b, 0);
    DecodeLetter(Second(a, b), rest, Place(1, First(a)), room);
  }

  lemma ThirdDecoded(a: byte, b: byte, c: byte, rest: seq<byte>, room: nat)
    ensures Decode([Letter(Third(b, c))] + rest, Place(2, Second(a, b)), room)
      == if room == 0 then [] else [b] + Decode(rest, Place(3, Third(b, c)), room - 1)
  {
    hide Decode, Letter, Table, First, Second, Third, Fourth;
    Regained(a, b, c);
    NoRoom([Letter(Third(b, c))] + rest, Place(2, Second(a, b)));
    if room > 0 { DecodeLetter(Third(b, c), rest, Place(2, Second(a, b)), room); }
  }

  lemma FourthDecoded(b: byte, c: byte, rest: seq<byte>, room: nat)
    ensures Decode([Letter(Fourth(c))] + rest, Place(3, Third(b, c)), room)
      == if room == 0 then [] else [c] + Decode(rest, Place(0, Fourth(c)), room - 1)
  {
    hide Decode, Letter, Table, First, Second, Third, Fourth;
    Regained(0, b, c);
    NoRoom([Letter(Fourth(c))] + rest, Place(3, Third(b, c)));
    if room > 0 { DecodeLetter(Fourth(c), rest, Place(3, Third(b, c)), room); }
  }

  /** Four digits from level 0 give back three octets, as far as there is room, and level 0 again. */
  lemma GroupDecoded(a: byte, b: byte, c: byte, rest: seq<byte>, last: digit, room: nat)
    requires room > 0
    ensures var g := [Letter(First(a)), Letter(Second(a, b)), Letter(Third(b, c)), Letter(Fourth(c))];
      Decode(g + rest, Place(0, last), room) == if room == 1 then [a] else if room == 2 then [a, b] else
        [a, b, c] + Decode(rest, Place(0, Fourth(c)), room - 3)
  {
    hide First, Second, Third, Fourth, Letter, Decode;
    var s3 := [Letter(Fourth(c))] + rest;
    var s2 := [Letter(Third(b, c))] + s3;
    OneByOne(Letter(First(a)), Letter(Second(a, b)), Letter(Third(b, c)), Letter(Fourth(c)), rest);
    FirstDecoded(a, [Letter(Second(a, b))] + s2, last, room);
    SecondDecoded(a, b, s2, room);
    ThirdDecoded(a, b, c, s3, room - 1);
    if room > 1 { FourthDecoded(b, c, rest, room - 2); }
  }

  lemma NoRoom(s: seq<byte>, at: Place)
    ensures Decode(s, at, 0) == []
  {}

  lemma PaddingEnds(rest: seq<byte>, at: Place, room: nat)
    ensures Decode([0] + rest, at, room) == []
    ensures Decode([PAD] + ([0] + rest), at, room) == []
    ensures Decode([PAD] + ([PAD] + ([0] + rest)), at, room) == []
  {
    hide Decode;
    Ends(rest, at, room);
    Padding([0] + rest, at, room);
    Padding([PAD] + ([0] + rest), at, room);
  }

  lemma Ends(rest: seq<byte>, at: Place, room: nat)
    ensures Decode([0] + rest, at, room) == []
  {}

  /** One octet and its padding, with whatever follows the zero octet. */
  lemma OneDecoded(a: byte, rest: seq<byte>, last: digit, room: nat)
    requires room > 0
    ensures Decode([Letter(First(a)), Letter(Second(a, 0)), PAD, PAD] + ([0] + rest), Place(0, last), room) == [a]
  {
    hide First, Second, Letter, Decode;
    var e := [PAD] + ([PAD] + ([0] + rest));
    OneByOne(Letter(First(a)), Letter(Second(a, 0)), PAD, PAD, [0] + rest);
    FirstDecoded(a, [Letter(Second(a, 0))] + e, last, room);
    SecondDecoded(a, 0, e, room);
    PaddingEnds(rest, Place(2, Second(a, 0)), room - 1);
  }

  lemma TwoDecoded(a: byte, b: byte, rest: seq<byte>, last: digit, room: nat)
    requires room > 0
    ensures Decode([Letter(First(a)), Letter(Second(a, b)), Letter(Third(b, 0)), PAD] + ([0] + rest), Place(0, last),
                   room)
      == if room == 1 then [a] else [a, b]
  {
    hide First, Second, Third, Letter, Decode;
    var s3 := [PAD] + ([0] + rest);
    var s2 := [Letter(Third(b, 0))] + s3;
    OneByOne(Letter(First(a)), Letter(Second(a, b)), Letter(Third(b, 0)), PAD, [0] + rest);
    FirstDecoded(a, [Letter(Second(a, b))] + s2, last, room);
    SecondDecoded(a, b, s2, room);
    ThirdDecoded(a, b, 0, s3, room - 1);
    if room > 1 { PaddingEnds(rest, Place(3, Third(b, 0)), room - 2); }
  }

  lemma TailDecoded(s: seq<byte>, rest: seq<byte>, last: digit, room: nat)
    requires 1 <= |s| <= 2 && room > 0
    ensures Decode(Encode(s) + [0] + rest, Place(0, last), room) == s[..Min(|s|, room)]
  {
    hide First, Second, Third, Fourth, Letter, Table, Decode;
    assert Encode(s) + [0] + rest == Encode(s) + ([0] + rest);
    if |s| == 1 {
      OneDecoded(s[0], rest, last, room);
    } else {
      TwoDecoded(s[0], s[1], rest, last, room);
    }
  }

  lemma Padding(s: seq<byte>, at: Place, room: nat)
    ensures Decode([PAD] + s, at, room) == Decode(s, at, room)
  {
    assert ([PAD] + s)[1..] == s;
  }

  /** Every octet string is given back, of any length, as far as there is room for it. */
  lemma {:induction false} RoundTrip(s: seq<byte>, rest: seq<byte>, last: digit, room: nat)
    ensures Decode(Encode(s) + [0] + rest, Place(0, last), room) == s[..Min(|s|, room)]
  {
    hide First, Second, Third, Fourth, Letter, Decode, Encode;
    if room == 0 {
      NoRoom(Encode(s) + [0] + rest, Place(0, last));
    } else if s == [] {
      NothingToEncode(s);
      assert Encode(s) + [0] + rest == [0] + rest;
      Ends(rest, Place(0, last), room);
    } else if |s| < 3 {
      TailDecoded(s, rest, last, room);
    } else {
      var g := [Letter(First(s[0])), Letter(Second(s[0], s[1])), Letter(Third(s[1], s[2])), Letter(Fourth(s[2]))];
      var e := Encode(s[3..]) + [0] + rest;
      EncodeStep(s);
      assert Encode(s) + [0] + rest == g + e;
      GroupDecoded(s[0], s[1], s[2], e, last, room);
      if room >= 3 {
        RoundTrip(s[3..], rest, Fourth(s[2]), room - 3);
        assert s[..Min(|s|, room)] == [s[0], s[1], s[2]] + s[3..][..Min(|s| - 3, room - 3)];
      }
    }
  }

  /** Nor do line breaks and other strangers in the text matter. */
  lemma RoundTripThroughStrangers(s: seq<byte>, text: seq<byte>, room: nat)
    requires Letters(text) == Letters(Encode(s) + [0])
    ensures Decode(text, Place(0, 0), room) == s[..Min(|s|, room)]
  {
    hide Decode, Encode, Letters;
    OnlyLettersMatter(text, Place(0, 0), room);
    OnlyLettersMatter(Encode(s) + [0], Place(0, 0), room);
    RoundTrip(s, [], 0, room);
    assert Encode(s) + [0] + [] == Encode(s) + [0];
  }

  //
  // The loops
  //

  method PutGroup(dest: array<byte>, at: nat, a: byte, b: byte, c: byte, d: byte) returns (t: nat)
    requires at + 4 <= dest.Length
    modifies dest
    ensures t == at + 4 && dest[..t] == old(dest[..at]) + [a, b, c, d]
  {
    t := at;
    dest[t] := a;
    t := t + 1;
    dest[t] := b;
    t := t + 1;
    dest[t] := c;
    t := t + 1;
    dest[t] := d;
    t := t + 1;
  }

  /** Encodes into `dest`, closes with a zero octet, and counts that too. */
  method ConvertToBase64(dest: array<byte>, src: array<byte>, n: nat) returns (length: nat)
    requires n <= src.Length && dest != src && (n + 2) / 3 * 4 + 1 <= dest.Length
    modifies dest
    ensures length <= dest.Length && dest[..length] == Encode(src[..n]) + [0]
  {
    hide Encode, First, Second, Third, Fourth, Letter;
    var t, i := 0, 0;
    ghost var s := src[..n];
    while i < n - 2
      invariant 0 <= i <= n && 3 * t == 4 * i && i % 3 == 0
      invariant dest[..t] + Encode(s[i..]) == Encode(s)
    {
      EncodeStep(s[i..]);
      assert s[i..][3..] == s[i + 3..];
      ghost var before := dest[..t];
      t := PutGroup(dest, t, Letter(First(src[i])), Letter(Second(src[i], src[i + 1])),
                    Letter(Third(src[i + 1], src[i + 2])), Letter(Fourth(src[i + 2])));
      i := i + 3;
    }
    if i < n {
      EncodeEnd(s[i..]);
      if i == n - 1 {
        t := PutGroup(dest, t, Letter(First(src[i])), Letter(Second(src[i], 0)), PAD, PAD);
      } else {
        t := PutGroup(dest, t, Letter(First(src[i])), Letter(Second(src[i], src[i + 1])), Letter(Third(src[i + 1], 0)),
                      PAD);
      }
    } else {
      NothingToEncode(s[i..]);
    }
    assert dest[..t] == Encode(s);
    dest[t] := 0;
    length := t + 1;
  }

  lemma EncodeStep(s: seq<byte>)
    requires |s| >= 3
    ensures Encode(s)
         == [Letter(First(s[0])), Letter(Second(s[0], s[1])), Letter(Third(s[1], s[2])), Letter(Fourth(s[2]))]
                         + Encode(s[3..])
  {}

  lemma EncodeEnd(s: seq<byte>)
    requires 1 <= |s| <= 2
    ensures Encode(s) == [Letter(First(s[0])), Letter(Second(s[0], if |s| == 1 then 0 else s[1])),
                          if |s| == 1 then PAD else Letter(Third(s[1], 0)), PAD]
  {}

  lemma NothingToEncode(s: seq<byte>)
    requires s == []
    ensures Encode(s) == []
  {}

  /** Takes one digit: the level says which part of an octet it is. */
  method TakeDigit(dst: array<byte>, length: nat, level: nat, last: digit, c: digit)
    returns (newLength: nat, newLevel: nat)
    requires length < dst.Length && level < 4
    modifies dst
    ensures newLength <= length + 1 && dst[..newLength] == old(dst[..length]) + Completed(Place(level, last), c)
    ensures Place(newLevel, c) == Next(Place(level, last), c)
  {
    newLength, newLevel := length, level;
    if level == 0 {
      newLevel := newLevel + 1;
    } else if level == 1 {
      dst[length] := last % 64 * 4 + c / 16;
      newLength := newLength + 1;
      newLevel := newLevel + 1;
    } else if level == 2 {
      dst[length] := last % 16 * 16 + c / 4;
      newLength := newLength + 1;
      newLevel := newLevel + 1;
    } else {
      dst[length] := last % 4 * 64 + c;
      newLength := newLength + 1;
      newLevel := 0;
    }
  }

  /** Decodes up to the zero octet, or to as many octets as the source is said to have. */
  method Base64DecodeBinaryToBuffer(dst: array<byte>, src: seq<byte>, srcSize: nat) returns (length: nat)
    requires srcSize <= dst.Length && 0 in src
    modifies dst
    ensures length <= srcSize && dst[..length] == Decode(src, Place(0, 0), srcSize)
  {
    hide Decode, Completed, Table;
    var level, last, p := 0, 0, 0;
    length := 0;
    ghost var all := Decode(src, Place(0, 0), srcSize);
    while length < srcSize && src[p] != 0
      invariant 0 <= p < |src| && 0 in src[p..] && 0 <= last < 64 && 0 <= level < 4 && length <= srcSize
      invariant dst[..length] + Decode(src[p..], Place(level, last), srcSize - length) == all
      decreases |src| - p
    {
      DecodeStep(src[p..], Place(level, last), srcSize - length);
      Onward(src, p);
      var c := Table(src[p]);
      p := p + 1;
      if c == -1 { continue; }
      ghost var before, done := dst[..length], Completed(Place(level, last), c);
      ghost var rest := Decode(src[p..], Next(Place(level, last), c), srcSize - length - |done|);
      assert before + (done + rest) == before + done + rest;
      length, level := TakeDigit(dst, length, level, last, c);
      last := c;
    }
    DecodeStops(src[p..], Place(level, last), srcSize - length);
  }

  lemma Onward(s: seq<byte>, p: nat)
    requires p < |s| && 0 in s[p..] && s[p] != 0
    ensures p + 1 < |s| && s[p..][1..] == s[p + 1..] && 0 in s[p + 1..]
  {
    assert s[p..] == [s[p]] + s[p + 1..];
  }

  lemma DecodeStep(s: seq<byte>, at: Place, room: nat)
    requires room > 0 && s != [] && s[0] != 0
    ensures Table(s[0]) == -1 ==> Decode(s, at, room) == Decode(s[1..], at, room)
    ensures Table(s[0]) != -1 ==> var c := Completed(at, Table(s[0]));
      Decode(s, at, room) == c + Decode(s[1..], Next(at, Table(s[0])), room - |c|)
  {}

  lemma DecodeStops(s: seq<byte>, at: Place, room: nat)
    requires room == 0 || (s != [] && s[0] == 0)
    ensures Decode(s, at, room) == []
  {}
}
