/** The multiplexer writing its packets into memory. */
module TsMuxer {
  import opened Arithmetic
  import opened Bytes
  import opened Memory
  import opened Bitstream
  import opened BitWriter
  import opened TsFormat
  import opened TsBits
  import opened TsMux

  method Fill(out: array<byte>, at: nat, n: nat, b: byte)
    requires at + n <= out.Length
    modifies out
    ensures out[at..at + n] == Repeat(b, n) && OnlyWithin(out, at, at + n)
    ensures forall i | at <= i < at + n :: out[i] == b
  {
    var i := 0;
    while i < n
      invariant 0 <= i <= n && OnlyWithin(out, at, at + i) && forall j | at <= j < at + i :: out[j] == b
    {
      out[at + i] := b;
      i := i + 1;
    }
  }

  method WriteStamp(w: Writer, tag: nat, v: nat)
    requires w.Valid() && tag < 16 && w.off == 0 && w.pos + 9 < w.limit
    modifies w`pos, w`off, w`pending, w`limit, w.data
    ensures w.Valid() && w.off == 0 && w.pos == old(w.pos) + 5 && w.limit == old(w.limit)
    ensures w.Written() == Bits(old(w.Written()).whole + StampField(tag, v), 0, 0)
    ensures OnlyWithin(w.data, old(w.pos), w.limit)
  {
    ghost var s := w.Written().whole;
    NothingPending(w);
    hide Writer.Valid, Writer.Written, Put, StampField;
    w.PutField(tag, 4);
    w.PutField(v / 0x4000_0000 % 8, 3);
    w.PutField(1, 1);
    WriteFifteen(w, v / 0x8000 % 0x8000);
    WriteFifteen(w, v % 0x8000);
    StampBits(s, tag, v);
  }

  /** Fifteen bits and a marker. */
  method WriteFifteen(w: Writer, code: nat)
    requires w.Valid() && w.off == 0 && w.pos + 5 < w.limit
    modifies w`pos, w`off, w`pending, w`limit, w.data
    ensures w.Valid() && w.off == 0 && w.pos == old(w.pos) + 2 && w.limit == old(w.limit)
    ensures w.Written() == Put(Put(old(w.Written()), code, 15), 1, 1)
    ensures OnlyWithin(w.data, old(w.pos), w.limit)
  {
    WhatIsWritten(w);
    hide Writer.Valid, Writer.Written, Put;
    w.PutField(code, 15);
    w.PutField(1, 1);
  }

  lemma NothingPending(w: Writer)
    requires w.Valid() && w.off == 0
    ensures w.Written() == Bits(w.Written().whole, 0, 0)
  {}

  lemma WhatIsWritten(w: Writer)
    requires w.Valid()
    ensures w.base <= w.pos < w.limit <= w.data.Length && w.data[w.base..w.pos] == w.Written().whole
    ensures w.off == 0 ==> forall i | w.pos <= i < w.limit :: w.data[i] == 0
    ensures w.off == w.Written().count < 8
  {}

  method WriteStartCode(out: array<byte>, at: nat, id: byte)
    requires at + 32 <= out.Length && forall i | at <= i < at + 32 :: out[i] == 0
    modifies out
    ensures out[at..at + 6] == [0, 0, 1, id, 0, 0]
    ensures forall i | at + 6 <= i < at + 32 :: out[i] == 0
    ensures OnlyWithin(out, at, at + 32)
  {
    var w := new Writer(out, at, at + 32);
    StartBits(id);
    WhatIsWritten(w);
    hide Writer.Valid, Writer.Written, Put;
    w.PutField(1, 24);
    w.PutField(id, 8);
    w.PutField(0, 16);
    WhatIsWritten(w);
  }

  /** The first eight bytes: start code, stream id, length, and the two bytes of flags. */
  method WritePesStart(out: array<byte>, at: nat, video: bool, length: nat)
    requires at + 32 <= out.Length && forall i | at <= i < at + 32 :: out[i] == 0
    modifies out
    ensures out[at..at + 8]
         == [0, 0, 1, if video then VIDEO_ID else AUDIO_ID]
            + (if video then [0, 0] else Be16(length)) + [0x84, if video then 0xC0 else 0x80]
    ensures forall i | at + 8 <= i < at + 32 :: out[i] == 0
    ensures OnlyWithin(out, at, at + 32)
  {
    var id: byte := if video then VIDEO_ID else AUDIO_ID;
    WriteStartCode(out, at, id);
    ghost var start := out[at..at + 6];
    CopyBytes(out, at + 6, [0x84, if video then 0xC0 else 0x80]);
    assert out[at + 6] == out[at + 6..at + 8][0] && out[at + 7] == out[at + 6..at + 8][1];
    assert out[at] == start[0] && out[at + 1] == start[1] && out[at + 2] == start[2];
    assert out[at + 3] == start[3] && out[at + 4] == start[4] && out[at + 5] == start[5];
    if !video {
      out[at + 4] := length / 0x100 % 256;
      out[at + 5] := length % 256;
    }
    ghost var s := [0, 0, 1, id] + (if video then [0, 0] else Be16(length)) + [0x84, if video then 0xC0 else 0x80];
    assert out[at..at + 8] == s;
  }

  /** Header length and time stamps. */
  method WriteStamps(u: Unit, out: array<byte>, at: nat, pad: byte) returns (n: nat)
    requires at + 24 <= out.Length && pad <= 2 && forall i | at <= i < at + 24 :: out[i] == 0
    modifies out
    ensures n == (if u.video then 11 else 6)
    ensures out[at..at + n] == if u.video then [pad + 10] + StampField(3, u.pts) + StampField(1, u.dts)
                               else [pad + 5] + StampField(2, u.pts)
    ensures OnlyWithin(out, at, at + 24)
  {
    var length: byte := if u.video then pad + 10 else pad + 5;
    var w := new Writer(out, at, at + 24);
    PutByte([], length);
    assert [] + [length] == [length];
    WhatIsWritten(w);
    hide Writer.Valid, Writer.Written, Put, StampField;
    w.PutField(length, 8);
    WhatIsWritten(w);
    WriteStamp(w, if u.video then 3 else 2, u.pts);
    if u.video {
      WriteStamp(w, 1, u.dts);
    }
    WhatIsWritten(w);
    n := w.Stop();
  }

  /** The PES header, in memory cleared for it; returns its length. */
  method AddPesHeader(u: Unit, out: array<byte>, at: nat) returns (n: nat)
    requires at + PACKET <= out.Length
    modifies out
    ensures n == PesLength(u.video) && out[at..at + n] == PesHeader(u) && OnlyWithin(out, at, at + PACKET)
  {
    hide StampField;
    Fill(out, at, PACKET, 0);
    WritePesStart(out, at, u.video, |u.raw| + 10);
    var pad: byte := if u.video then 1 else 2;
    ghost var front := out[at..at + 8];
    n := WriteStamps(u, out, at + 8, pad);
    ghost var stamps := out[at + 8..at + 8 + n];
    Fill(out, at + 8 + n, pad, 0xff);
    assert out[at..at + 8] == front && out[at + 8..at + 8 + n] == stamps;
    Joins(out, at, at + 8, at + 8 + n);
    Joins(out, at, at + 8 + n, at + 8 + n + pad);
    n := 8 + n + pad;
    PesHeaderParts(u);
  }

  lemma PesHeaderParts(u: Unit)
    ensures PesHeader(u)
         == [0, 0, 1, if u.video then VIDEO_ID else AUDIO_ID]
            + (if u.video then [0, 0] else Be16(|u.raw| + 10)) + [0x84, if u.video then 0xC0 else 0x80]
            + (if u.video then [11] + StampField(3, u.pts) + StampField(1, u.dts) else [7] + StampField(2, u.pts))
            + Repeat(0xff, if u.video then 1 else 2)
  {
    hide StampField;
    assert Repeat(0xff, 1) == [0xff] && Repeat(0xff, 2) == [0xff, 0xff];
  }

  lemma StartBits(id: byte)
    ensures Put(Put(Put(Bits([], 0, 0), 1, 24), id, 8), 0, 16) == Bits([0, 0, 1, id, 0, 0], 0, 0)
  {
    hide Put;
    PutThree([], 1);
    PutByte([0, 0, 1], id);
    PutTwo([0, 0, 1, id], 0);
    assert [] + Be24(1) == [0, 0, 1] && [0, 0, 1] + [id] == [0, 0, 1, id];
    assert [0, 0, 1, id] + Be16(0) == [0, 0, 1, id, 0, 0];
  }

  /** The fourth byte of a packet: no scrambling, the adaptation field control, the counter. Gives the bytes written. */
  method WriteControl(out: array<byte>, at: nat, control: nat, counter: nat) returns (n: nat)
    requires at + 3 <= out.Length && control < 4 && counter < 16 && out[at] == 0
    modifies out
    ensures n == 1 && out[at] == control * 16 + counter && OnlyWithin(out, at, at + 3)
  {
    var w := new Writer(out, at, at + 1);
    PutControlAlone(w, control, counter);
    WhatIsWritten(w);
    n := w.Stop();
    assert out[at] == out[at..at + 1][0];
  }

  method PutControlAlone(w: Writer, control: nat, counter: nat)
    requires w.Valid() && w.pos + 3 <= w.data.Length && control < 4 && counter < 16
    requires w.Written() == Bits([], 0, 0)
    modifies w`pos, w`off, w`pending, w`limit, w.data
    ensures w.Valid() && w.Written() == Bits([control * 16 + counter], 0, 0)
    ensures OnlyWithin(w.data, old(w.pos), old(w.pos) + 3)
  {
    WhatIsWritten(w);
    ghost var s := w.Written().whole;
    hide Writer.Valid, Writer.Written, Put;
    ControlBits(s, control, counter);
    PutControl(w, control, counter);
    assert s + [control * 16 + counter] == [control * 16 + counter];
  }

  method PutControl(w: Writer, control: nat, counter: nat)
    requires w.Valid() && w.off == 0 && w.pos + 3 <= w.data.Length
    modifies w`pos, w`off, w`pending, w`limit, w.data
    ensures w.Valid() && w.off == 0 && w.pos == old(w.pos) + 1
    ensures w.limit == if old(w.limit) < old(w.pos) + 3 then old(w.pos) + 3 else old(w.limit)
    ensures w.Written() == Put(Put(Put(old(w.Written()), 0, 2), control, 2), counter, 4)
    ensures OnlyWithin(w.data, old(w.pos), w.limit)
  {
    hide Writer.Valid, Writer.Written, Put;
    w.PutField(0, 2);
    w.PutField(control, 2);
    w.PutField(counter, 4);
  }

  lemma ControlBits(s: seq<byte>, control: nat, counter: nat)
    requires control < 4 && counter < 16
    ensures Put(Put(Put(Bits(s, 0, 0), 0, 2), control, 2), counter, 4)
         == Bits(s + [control * 16 + counter], 0, 0)
  {
    SmallPowers();
    hide Put;
    PutInside(Bits(s, 0, 0), 0, 2);
    PutInside(Bits(s, 0, 2), control, 2);
    PutLast(Bits(s, control, 4), counter, 4);
  }

  /** A table packet. */
  method WritePsiPacket(pid: nat, table: seq<byte>, out: array<byte>, at: nat, counter: nat) returns (n: nat)
    requires at + PACKET <= out.Length && pid < 0x2000 && counter < 16 && |table| <= 183
    modifies out
    ensures n == PACKET && out[at..at + n] == PsiPacket(pid, table, counter) && OnlyWithin(out, at, at + PACKET)
  {
    Fill(out, at, PACKET, 0);
    n := WriteHeader(out, at, LinkHeader(true, false, pid), 1, counter);
    ghost var front := out[at..at + 4];
    hide LinkHeader, PsiPacket, Repeat;
    n := WriteTable(out, at + n, table, n);
    assert out[at..at + 4] == front;
    Joins(out, at, at + 4, at + PACKET);
    PsiParts(pid, table, counter);
  }

  /** The pointer field, the table, and as much filling behind it as the packet, so far of `size` bytes, is short of. */
  method WriteTable(out: array<byte>, at: nat, table: seq<byte>, size: nat) returns (n: nat)
    requires at + 184 <= out.Length && |table| <= 183 && size == 4
    modifies out
    ensures n == PACKET
    ensures out[at..at + 184] == [0] + table + Repeat(0xff, 183 - |table|) && OnlyWithin(out, at, at + 184)
  {
    hide Repeat;
    out[at] := 0;
    var past := at + 1 + |table|;
    CopyBytes(out, at + 1, table);
    n := size + |table| + 1;
    var stuff := PACKET - n;
    Fill(out, past, stuff, 0xff);
    n := n + stuff;
    assert out[at + 1..past] == table;
    Joins(out, at, at + 1, past);
    Joins(out, at, past, at + 184);
  }

  lemma PsiParts(pid: nat, table: seq<byte>, counter: nat)
    requires pid < 0x2000 && counter < 16 && |table| <= 183
    ensures PsiPacket(pid, table, counter)
         == LinkHeader(true, false, pid) + [1 * 16 + counter] + ([0] + table + Repeat(0xff, 183 - |table|))
  {
    hide LinkHeader, Repeat;
    assert [0x10 + counter, 0] == [1 * 16 + counter] + [0];
  }

  /** The four header bytes of a packet. */
  method WriteHeader(out: array<byte>, at: nat, link: seq<byte>, control: nat, counter: nat) returns (n: nat)
    requires at + 6 <= out.Length && |link| == 3 && control < 4 && counter < 16 && out[at + 3] == 0
    modifies out
    ensures n == 4 && out[at..at + 4] == link + [control * 16 + counter] && OnlyWithin(out, at, at + 6)
  {
    CopyBytes(out, at, link);
    var bytes := WriteControl(out, at + 3, control, counter);
    n := |link| + bytes;
    assert out[at..at + 4] == out[at..at + 3] + [out[at + 3]];
  }

  /** A clock packet. The base is put in two pieces, of which the second does not fit behind the first. */
  method WritePcrPacket(pcr: u64, out: array<byte>, at: nat, counter: nat) returns (n: nat)
    requires at + PACKET <= out.Length && counter < 16
    modifies out
    ensures n == PACKET && out[at..at + n] == PcrPacket(pcr, counter) && OnlyWithin(out, at, at + PACKET)
  {
    Fill(out, at, PACKET, 0);
    CopyBytes(out, at, LinkHeader(false, false, PCR_PID));
    ghost var link := out[at..at + 3];
    var bytes := WriteClock(pcr, out, at + 3, counter);
    n := 3 + bytes;
    ghost var clock := out[at + 3..at + n];
    var stuff := PACKET - n;
    Fill(out, at + n, stuff, 0xff);
    hide LinkHeader, Be32, PcrPacket, Repeat;
    assert out[at..at + 3] == link && out[at + 3..at + n] == clock;
    Joins(out, at, at + 3, at + n);
    Joins(out, at, at + n, at + PACKET);
    ClockParts(pcr, counter);
    n := n + stuff;
  }

  lemma ClockParts(pcr: u64, counter: nat)
    requires counter < 16
    ensures PcrPacket(pcr, counter)
         == LinkHeader(false, false, PCR_PID)
            + ([0x20 + counter, 183, 0x10] + Be32(pcr / 2) + [0x7e, 0]) + Repeat(0xff, 176)
  {
    hide LinkHeader, Be32, Repeat;
  }

  /** Eight flags, of which only the fourth, for the clock reference, is set. */
  function PutFlags(b: Bits): Bits {
    Put(Put(Put(Put(Put(Put(Put(Put(b, 0, 1), 0, 1), 0, 1), 1, 1), 0, 1), 0, 1), 0, 1), 0, 1)
  }

  lemma FlagBits(s: seq<byte>)
    ensures PutFlags(Bits(s, 0, 0)) == Bits(s + [0x10], 0, 0)
  {
    SmallPowers();
    hide Put;
    PutInside(Bits(s, 0, 0), 0, 1);
    PutInside(Bits(s, 0, 1), 0, 1);
    PutInside(Bits(s, 0, 2), 0, 1);
    PutInside(Bits(s, 0, 3), 1, 1);
    PutInside(Bits(s, 1, 4), 0, 1);
    PutInside(Bits(s, 2, 5), 0, 1);
    PutInside(Bits(s, 4, 6), 0, 1);
    PutLast(Bits(s, 8, 7), 0, 1);
  }

  method WriteFlags(w: Writer)
    requires w.Valid() && w.off == 0 && w.pos + 4 < w.limit
    modifies w`pos, w`off, w`pending, w`limit, w.data
    ensures w.Valid() && w.off == 0 && w.pos == old(w.pos) + 1 && w.limit == old(w.limit)
    ensures w.Written() == PutFlags(old(w.Written()))
    ensures OnlyWithin(w.data, old(w.pos), w.limit)
  {
    WhatIsWritten(w);
    hide Writer.Valid, Writer.Written, Put;
    PutFourBits(w, 1);
    PutFourBits(w, 0);
  }

  /** Three zero bits and one given. */
  method PutFourBits(w: Writer, last: nat)
    requires w.Valid() && w.pos + 4 < w.limit
    modifies w`pos, w`off, w`pending, w`limit, w.data
    ensures w.Valid() && 8 * w.pos + w.off == 8 * old(w.pos) + old(w.off) + 4 && w.off < 8 && w.limit == old(w.limit)
    ensures w.Written() == Put(Put(Put(Put(old(w.Written()), 0, 1), 0, 1), 0, 1), last, 1)
    ensures OnlyWithin(w.data, old(w.pos), w.limit)
  {
    WhatIsWritten(w);
    hide Writer.Valid, Writer.Written, Put;
    w.PutField(0, 1);
    w.PutField(0, 1);
    w.PutField(0, 1);
    w.PutField(last, 1);
  }

  /** The clock: one high bit, the low 32 as far as they fit, six reserved bits and the extension. */
  function PutClock(b: Bits, pcr: u64): Bits { PutReference(b, pcr / TWO_32, pcr % TWO_32) }

  function PutReference(b: Bits, high: nat, low: nat): Bits {
    Put(Put(Put(Put(b, high, 1), Kept(1, low, 32), 32), 0x3f, 6), 0, 9)
  }

  /** Six bytes; the lowest bit of the clock is not in them. */
  lemma ClockBits(s: seq<byte>, pcr: u64)
    ensures PutClock(Bits(s, 0, 0), pcr) == Bits(s + Be32(pcr / 2) + [0x7e, 0], 0, 0)
  {
    var bit, low := pcr / TWO_32 % 2, pcr % TWO_32;
    SmallPowers();
    Pow2Values();
    PutInside(Bits(s, 0, 0), pcr / TWO_32, 1);
    ClockWord(s, pcr);
    hide Put, Be32, Kept, Pow2;
    var s1 := s + Be32(pcr / 2);
    PutInside(Bits(s1, 0, 1), 0x3f, 6);
    PutNine(s1);
  }

  lemma PutNine(s: seq<byte>)
    ensures Put(Bits(s, 0x3f, 7), 0, 9) == Bits(s + [0x7e, 0], 0, 0)
  {
    SmallPowers();
    Pow2Values();
    hide Pow2, Pack;
    assert Pow2(9) == 512 by { Pow2Adds(8, 1); }
    PackByte(s, 0x7e00, 16);
    PackByte(s + [0x7e], 0, 8);
    assert s + [0x7e] + [0] == s + [0x7e, 0];
  }

  lemma ClockWord(s: seq<byte>, pcr: u64)
    ensures Put(Bits(s, pcr / TWO_32 % 2, 1), Kept(1, pcr % TWO_32, 32), 32) == Bits(s + Be32(pcr / 2), 0, 1)
  {
    var bit, low := pcr / TWO_32 % 2, pcr % TWO_32;
    var b := Bits(s, bit, 1);
    SmallPowers();
    Pow2Values();
    Pow2Halves();
    ShiftedDrops(1, low, 32);
    var w := Word(b, low, 32);
    assert w == bit * 0x8000_0000 + low / 2;
    hide Pow2, Put, Kept, Word, Shifted, Be32;
    PutGives(b, low, 32);
    Be32Low(pcr / TWO_32 / 2, w);
    assert pcr / 2 == pcr / TWO_32 / 2 * TWO_32 + w;
    assert (Be32(w) + [0])[..4] == Be32(w);
  }

  lemma Pow2Halves()
    ensures Pow2(31) == 0x8000_0000
  {
    Pow2Adds(24, 7);
    SmallPowers();
    Pow2Values();
  }

  lemma Be32Low(k: nat, w: nat)
    requires w < TWO_32
    ensures Be32(k * TWO_32 + w) == Be32(w)
  {
    var v := k * TWO_32 + w;
    DivUnique(v, 0x100, k * 0x100_0000 + w / 0x100, w % 0x100);
    DivUnique(v, 0x1_0000, k * 0x1_0000 + w / 0x1_0000, w % 0x1_0000);
    DivUnique(v, 0x100_0000, k * 0x100 + w / 0x100_0000, w % 0x100_0000);
    DivUnique(k * 0x100_0000 + w / 0x100, 256, k * 0x1_0000 + w / 0x100 / 256, w / 0x100 % 256);
    DivUnique(k * 0x1_0000 + w / 0x1_0000, 256, k * 0x100 + w / 0x1_0000 / 256, w / 0x1_0000 % 256);
    DivUnique(k * 0x100 + w / 0x100_0000, 256, k, w / 0x100_0000);
    DivUnique(w / 0x100_0000, 256, 0, w / 0x100_0000);
  }

  method WriteReference(w: Writer, high: nat, low: nat)
    requires w.Valid() && w.off == 0 && w.pos + 10 < w.limit
    modifies w`pos, w`off, w`pending, w`limit, w.data
    ensures w.Valid() && w.off == 0 && w.pos == old(w.pos) + 6 && w.limit == old(w.limit)
    ensures w.Written() == PutReference(old(w.Written()), high, low)
    ensures OnlyWithin(w.data, old(w.pos), w.limit)
  {
    WhatIsWritten(w);
    hide Writer.Valid, Writer.Written, Put, Kept;
    w.PutField(high, 1);
    w.PutBits(low, 32);
    WriteExtension(w);
  }

  method WriteExtension(w: Writer)
    requires w.Valid() && w.off == 1 && w.pos + 6 < w.limit
    modifies w`pos, w`off, w`pending, w`limit, w.data
    ensures w.Valid() && w.off == 0 && w.pos == old(w.pos) + 2 && w.limit == old(w.limit)
    ensures w.Written() == Put(Put(old(w.Written()), 0x3f, 6), 0, 9)
    ensures OnlyWithin(w.data, old(w.pos), w.limit)
  {
    WhatIsWritten(w);
    hide Writer.Valid, Writer.Written, Put;
    w.PutField(0x3f, 6);
    w.PutField(0, 9);
  }

  lemma ClockFieldBits(s: seq<byte>, counter: nat, pcr: u64)
    requires counter < 16
    ensures PutClock(PutFlags(Put(Put(Put(Put(Bits(s, 0, 0), 0, 2), 2, 2), counter, 4), 183, 8)), pcr)
         == Bits(s + [0x20 + counter, 183, 0x10] + Be32(pcr / 2) + [0x7e, 0], 0, 0)
  {
    hide Put, Be32, PutClock, PutFlags;
    var s1 := s + [2 * 16 + counter];
    ControlBits(s, 2, counter);
    PutByte(s1, 183);
    FlagBits(s1 + [183]);
    ClockBits(s1 + [183] + [0x10], pcr);
    assert s1 + [183] + [0x10] == s + [0x20 + counter, 183, 0x10];
  }

  method WriteClock(pcr: u64, out: array<byte>, at: nat, counter: nat) returns (n: nat)
    requires at + 32 <= out.Length && counter < 16 && forall i | at <= i < at + 32 :: out[i] == 0
    modifies out
    ensures n == 9 && out[at..at + n] == [0x20 + counter, 183, 0x10] + Be32(pcr / 2) + [0x7e, 0]
    ensures OnlyWithin(out, at, at + 32)
  {
    var w := new Writer(out, at, at + 32);
    WhatIsWritten(w);
    hide Writer.Valid, Writer.Written, Be32;
    WriteClockFields(w, counter, pcr);
    WhatIsWritten(w);
    n := w.Stop();
  }

  method WriteClockFields(w: Writer, counter: nat, pcr: u64)
    requires w.Valid() && counter < 16 && w.pos + 20 < w.limit && w.off == 0
    modifies w`pos, w`off, w`pending, w`limit, w.data
    ensures w.Valid() && w.off == 0 && w.pos == old(w.pos) + 9 && w.limit == old(w.limit)
    ensures w.Written()
         == Bits(old(w.Written()).whole + [0x20 + counter, 183, 0x10] + Be32(pcr / 2) + [0x7e, 0], 0, 0)
    ensures OnlyWithin(w.data, old(w.pos), w.limit)
  {
    ghost var s := w.Written().whole;
    NothingPending(w);
    WhatIsWritten(w);
    hide Writer.Valid, Writer.Written, Put, Kept, Be32, PutReference, PutFlags;
    ClockFieldBits(s, counter, pcr);
    PutControl(w, 2, counter);
    w.PutField(183, 8);
    WriteFlags(w);
    WriteReference(w, pcr / TWO_32, pcr % TWO_32);
  }

  /** The stuffing loop; returns where it stops. */
  method WriteStuffing(out: array<byte>, at: nat, pad: nat) returns (p: nat)
    requires at + pad <= out.Length && pad <= 184
    modifies out
    ensures p == at + pad && out[at..p] == Stuffing(pad) && OnlyWithin(out, at, p)
  {
    p := at;
    var i := 0;
    while i < pad
      invariant 0 <= i <= pad && p == at + i && OnlyWithin(out, at, p) && out[at..p] == Stuffing(pad)[..i]
    {
      out[p] := if i == 0 then pad - 1 else if i == 1 then 0 else 0xff;
      p := p + 1;
      i := i + 1;
    }
  }

  /** How the packet divides, as the loop works it out. */
  method Divide(left: nat, pes: nat, src4: nat, dst4: nat) returns (pad: nat, lead: nat)
    requires left > 0 && pes <= 20 && src4 < 4 && dst4 < 4
    ensures Layout(pad, lead) == LayoutOf(left, pes, src4, dst4) && (src4 == 0 ==> lead == 0)
  {
    lead := (4 - src4) % 4;
    if left >= 184 - pes {
      pad := (4 - (dst4 + 4) % 4) % 4;
      if pad + lead == 4 { pad := 0; } else { lead := 0; }
    } else {
      pad := 184 - pes - left;
    }
  }

  /**
   * The payload of a packet from the memory `src`, the unaligned bytes first, even when these are more than the `size`
   * bytes meant. Returns where it stops, and what is left of `left` bytes by the source's count.
   */
  method WriteSlice(out: array<byte>, at: nat, src: seq<byte>, size: nat, lead: nat, src4: nat, at4: nat, left: nat)
    returns (p: nat, rest: int)
    requires size <= |src| && lead <= |src| && at + Max(size, lead) <= out.Length && (src4 == 0 ==> lead == 0)
    modifies out
    ensures p == at + Max(size, lead) && out[at..p] == src[..Max(size, lead)] && OnlyWithin(out, at, p)
    ensures rest == left - size
  {
    p, rest := at, left;
    var es, from: int := size, 0;
    if src4 != 0 || at4 != 0 {
      CopyBytes(out, p, src[..lead]);
      p, from := p + lead, lead;
      es, rest := es - lead, rest - lead;
    }
    ghost var front := out[at..p];
    if es > 0 {
      CopyBytes(out, p, src[from..from + es]);
      assert out[at..p] == front == src[..from] && src[..from + es] == src[..from] + src[from..from + es];
      Joins(out, at, p, p + es);
      p := p + es;
    }
    rest := rest - es;
  }

  function Max(a: int, b: int): int { if a < b then b else a }

  /**
   * One packet of a unit, whose bytes before `from` are sent. `behind` is what lies in memory behind the unit. Returns
   * where writing stops, what is left to send, and the size `ts0` with the packet's own bytes added to it.
   */
  method WriteUnitPacket(u: Unit, behind: seq<byte>, from: nat, first: bool, counter: nat, src4: nat, dst4: nat,
                         out: array<byte>, at: nat, ts0: nat)
    returns (p: nat, left: int, ts: nat)
    requires from < |u.raw| && |behind| >= 3 && counter < 16 && src4 < 4 && dst4 < 4 && at + 2 * PACKET <= out.Length
    modifies out
    ensures var n := Room(|u.raw| - from, if first then PesLength(u.video) else 0, src4, dst4);
      var lead := LayoutOf(|u.raw| - from, if first then PesLength(u.video) else 0, src4, dst4).lead;
      && left == |u.raw| - from - n && ts == ts0 + PACKET - n
      && p == at + PACKET + (if lead > n then lead - n else 0) && lead <= 3
    ensures out[at..at + PACKET] == UnitPacket(u, u.raw[from..], first, counter, src4, dst4)
    ensures out[at + PACKET..p] == behind[..p - at - PACKET]
    ensures OnlyWithin(out, at, at + 2 * PACKET)
  {
    hide LayoutOf, Stuffing, LinkHeader, PesHeader, UnitPacket, Room;
    var pes := if first then PesLength(u.video) else 0;
    var pad, lead := Divide(|u.raw| - from, pes, src4, dst4);
    PacketAndOverrun(u, behind, from, first, counter, src4, dst4);
    p, left, ts := WriteParts(u, (u.raw + behind)[from..], first, pad, lead, counter, src4, (dst4 + 4 + pad + pes) % 4,
                              out, at, |u.raw| - from, ts0);
    PacketAndMore(out, at, p, UnitPacket(u, u.raw[from..], first, counter, src4, dst4),
                  behind[..if lead > 184 - pad - pes then lead - (184 - pad - pes) else 0]);
  }

  /** What is written for a packet: its bytes, and those that follow the unit in memory. */
  lemma PacketAndOverrun(u: Unit, behind: seq<byte>, from: nat, first: bool, counter: nat, src4: nat, dst4: nat)
    requires from < |u.raw| && |behind| >= 3 && counter < 16 && src4 < 4 && dst4 < 4
    ensures var pes := if first then PesHeader(u) else [];
      var l := LayoutOf(|u.raw| - from, |pes|, src4, dst4);
      var n := 184 - l.pad - |pes|;
      && n == Room(|u.raw| - from, |pes|, src4, dst4) <= |u.raw| - from && l.lead <= 3
      && LinkHeader(first, true, Pid(u.video)) + [(if l.pad > 0 then 3 else 1) * 16 + counter] + Stuffing(l.pad)
         + (pes + (u.raw + behind)[from..][..Max(n, l.lead)])
         == UnitPacket(u, u.raw[from..], first, counter, src4, dst4)
            + behind[..if l.lead > n then l.lead - n else 0]
  {
    var pes := if first then PesHeader(u) else [];
    var rest := u.raw[from..];
    LeadIsLast(|rest|, |pes|, src4, dst4);
    PacketHalves(u, rest, first, counter, src4, dst4);
    var l := LayoutOf(|rest|, |pes|, src4, dst4);
    assert l.lead <= 3;
    hide LayoutOf, Stuffing, LinkHeader, PesHeader, UnitPacket;
    var n := 184 - l.pad - |pes|;
    assert n == Room(|rest|, |pes|, src4, dst4);
    hide Room;
    SourceIs(u.raw, behind, from, n, l.lead);
    Appended(LinkHeader(first, true, Pid(u.video)) + [(if l.pad > 0 then 3 else 1) * 16 + counter] + Stuffing(l.pad),
             pes, rest[..n], behind[..if l.lead > n then l.lead - n else 0]);
  }

  lemma Appended(front: seq<byte>, pes: seq<byte>, s: seq<byte>, more: seq<byte>)
    ensures front + (pes + (s + more)) == front + (pes + s) + more
  {}

  lemma SourceIs(raw: seq<byte>, behind: seq<byte>, from: nat, n: nat, lead: nat)
    requires from + n <= |raw| && |behind| >= 3 && lead <= 3 && (lead > n ==> from + n == |raw|)
    ensures (raw + behind)[from..][..Max(n, lead)] == raw[from..][..n] + behind[..if lead > n then lead - n else 0]
  {}

  lemma PacketAndMore(out: array<byte>, at: nat, p: nat, k: Packet, more: seq<byte>)
    requires at <= p <= out.Length && out[at..p] == k + more
    ensures p == at + PACKET + |more| && out[at..at + PACKET] == k && out[at + PACKET..p] == more
  {
    Inside(out, at, p - at, 0, PACKET);
    Inside(out, at, p - at, PACKET, p - at);
  }

  method WriteParts(u: Unit, src: seq<byte>, first: bool, pad: nat, lead: nat, counter: nat, src4: nat, at4: nat,
                    out: array<byte>, at: nat, left0: nat, ts0: nat)
    returns (p: nat, left: int, ts: nat)
    requires counter < 16 && lead <= 3 && 3 <= |src| && (src4 == 0 ==> lead == 0) && at + 2 * PACKET <= out.Length
    requires pad + (if first then PesLength(u.video) else 0) < 184
    requires 184 - pad - (if first then PesLength(u.video) else 0) <= left0 <= |src| - 3
    modifies out
    ensures var n := 184 - pad - if first then PesLength(u.video) else 0;
      && p == at + PACKET - n + Max(n, lead)
      && out[at..p]
         == LinkHeader(first, true, Pid(u.video)) + [(if pad > 0 then 3 else 1) * 16 + counter] + Stuffing(pad)
                       + ((if first then PesHeader(u) else []) + src[..Max(n, lead)])
      && left == left0 - n && ts == ts0 + PACKET - n
    ensures OnlyWithin(out, at, at + 2 * PACKET)
  {
    hide Stuffing, LinkHeader, PesHeader;
    var body;
    body, ts := WriteFront(first, u.video, pad, counter, out, at, ts0);
    ghost var front := out[at..body];
    p, left, ts := WriteBack(u, src, 184 - pad, first, lead, src4, at4, out, body, left0, ts);
    assert out[at..body] == front;
    Joins(out, at, body, p);
  }

  lemma PacketHalves(u: Unit, left: seq<byte>, first: bool, counter: nat, src4: nat, dst4: nat)
    requires left != [] && counter < 16 && src4 < 4 && dst4 < 4
    ensures var pes := if first then PesHeader(u) else [];
      var pad := LayoutOf(|left|, |pes|, src4, dst4).pad;
      UnitPacket(u, left, first, counter, src4, dst4)
      == LinkHeader(first, true, Pid(u.video)) + [(if pad > 0 then 3 else 1) * 16 + counter] + Stuffing(pad)
         + (pes + left[..Room(|left|, |pes|, src4, dst4)])
  {
    hide LayoutOf, Stuffing, LinkHeader, PesHeader, Room;
  }

  /** Header and stuffing; both are added to the size. */
  method WriteFront(first: bool, video: bool, pad: nat, counter: nat, out: array<byte>, at: nat, ts0: nat)
    returns (p: nat, ts: nat)
    requires at + 4 + pad <= at + PACKET <= out.Length && counter < 16
    modifies out
    ensures p == at + 4 + pad && ts == ts0 + 4 + pad
    ensures out[at..p]
         == LinkHeader(first, true, Pid(video)) + [(if pad > 0 then 3 else 1) * 16 + counter] + Stuffing(pad)
    ensures OnlyWithin(out, at, at + PACKET)
  {
    hide Stuffing;
    Fill(out, at + 3, 2, 0);
    var n := WriteHeader(out, at, LinkHeader(first, true, Pid(video)), if pad > 0 then 3 else 1, counter);
    ts := ts0 + n;
    ghost var front := out[at..at + 4];
    hide LinkHeader;
    p := WriteStuffing(out, at + 4, pad);
    ts := ts + pad;
    assert out[at..at + 4] == front;
    Joins(out, at, at + 4, p);
  }

  /** The PES header, if it is the first packet, which is added to the size, and the payload, which is not. */
  method WriteBack(u: Unit, src: seq<byte>, room: nat, first: bool, lead: nat, src4: nat, at4: nat, out: array<byte>,
                   at: nat, left0: nat, ts0: nat)
    returns (p: nat, left: int, ts: nat)
    requires var pes := if first then PesLength(u.video) else 0;
      pes <= room <= 184 && room - pes <= left0 && room - pes <= |src|
    requires lead <= 3 && lead <= |src| && (src4 == 0 ==> lead == 0) && at + PACKET <= out.Length
    modifies out
    ensures var pes := if first then PesHeader(u) else [];
      var n := room - |pes|;
      && p == at + |pes| + Max(n, lead) && out[at..p] == pes + src[..Max(n, lead)]
      && left == left0 - n && ts == ts0 + |pes|
    ensures OnlyWithin(out, at, at + PACKET)
  {
    hide PesHeader;
    var bytes, es := 0, room;
    ts := ts0;
    if first {
      bytes := AddPesHeader(u, out, at);
      ts := ts + bytes;
      es := es - bytes;
    }
    ghost var header := out[at..at + bytes];
    p, left := WriteSlice(out, at + bytes, src, es, lead, src4, at4, left0);
    assert out[at..at + bytes] == header;
    Joins(out, at, at + bytes, p);
  }

  lemma FlattenFirst(k: Packet, rest: seq<Packet>)
    ensures Flatten([k] + rest) == k + Flatten(rest)
  {
    assert ([k] + rest)[1..] == rest;
  }

  /**
   * The packets of a unit, one after the other, and the bytes copied from behind it. Returns where writing stops, the
   * counter for the next packet, and the size.
   */
  method WritePayload(u: Unit, behind: seq<byte>, counter0: nat, src0: nat, dst4: nat, out: array<byte>, at0: nat,
                      ts0: nat, ghost ks: seq<Packet>)
    returns (p: nat, counter: nat, ts: nat)
    requires counter0 < 16 && src0 < 4 && dst4 < 4 && |behind| >= 3 && ts0 >= |u.raw|
    requires ks == UnitPackets(u, u.raw, true, counter0, src0, dst4)
    requires at0 + PACKET * |ks| + PACKET <= out.Length
    modifies out
    ensures var more := Overrun(|u.raw|, PesLength(u.video), src0, dst4);
      && p == at0 + PACKET * |ks| + more && out[at0..p] == Flatten(ks) + behind[..more]
    ensures counter == (counter0 + |ks|) % 16 && ts == ts0 - |u.raw| + PACKET * |ks|
    ensures OnlyWithin(out, at0, out.Length)
  {
    hide Flatten, Room, LayoutOf, UnitPacket, UnitPackets, Overrun;
    var left, first, src4 := |u.raw|, true, src0;
    p, counter, ts := at0, counter0, ts0;
    ghost var rest, sent, more := u.raw, [], 0;
    ghost var ahead, over := ks, Overrun(|u.raw|, PesLength(u.video), src0, dst4);
    while left > 0
      invariant left == |rest| <= |u.raw| && rest == u.raw[|u.raw| - left..]
      invariant 0 <= counter < 16 && 0 <= src4 < 4 && (left > 0 ==> more == 0) && ts >= left
      invariant ahead == UnitPackets(u, rest, first, counter, src4, dst4)
      invariant over == Overrun(left, if first then PesLength(u.video) else 0, src4, dst4)
      invariant more + over == Overrun(|u.raw|, PesLength(u.video), src0, dst4)
      invariant |sent| + PACKET * |ahead| == PACKET * |ks| && sent + Flatten(ahead) == Flatten(ks)
      invariant (counter + |ahead|) % 16 == (counter0 + |ks|) % 16
      invariant ts - left + PACKET * |ahead| == ts0 - |u.raw| + PACKET * |ks|
      invariant 0 <= more <= 3 && p == at0 + |sent| + more <= out.Length && out[at0..p] == sent + behind[..more]
      invariant OnlyWithin(out, at0, out.Length)
    {
      PacketMoved(u, rest, first, counter, src4, dst4, sent, ks);
      ghost var k := UnitPacket(u, rest, first, counter, src4, dst4);
      assert sent + behind[..more] == sent;
      var n := left;
      p, left, ts, more := SendNext(u, behind, left, first, counter, src4, dst4, out, at0, p, ts, rest, sent);
      n := n - left;
      assert rest[n..] == u.raw[|u.raw| - left..];
      rest := rest[n..];
      ahead := UnitPackets(u, rest, false, (counter + 1) % 16, (src4 + n) % 4, dst4);
      over := Overrun(left, 0, (src4 + n) % 4, dst4);
      sent := sent + k;
      first, src4, counter := false, (src4 + n) % 4, (counter + 1) % 16;
    }
    NoPackets(u, counter, first, src4, dst4);
    NothingFlattened();
    assert sent + [] == sent;
  }

  /** The next packet of a unit, behind those sent. */
  method SendNext(u: Unit, behind: seq<byte>, left0: nat, first: bool, counter: nat, src4: nat, dst4: nat,
                  out: array<byte>, ghost at0: nat, start: nat, ts0: nat, ghost rest: seq<byte>, ghost sent: seq<byte>)
    returns (p: nat, left: int, ts: nat, ghost more: nat)
    requires 0 < left0 == |rest| <= |u.raw| && rest == u.raw[|u.raw| - left0..] && |behind| >= 3
    requires counter < 16 && src4 < 4 && dst4 < 4
    requires at0 <= start && start + 2 * PACKET <= out.Length && out[at0..start] == sent
    modifies out
    ensures var pes := if first then PesLength(u.video) else 0;
      var n, lead := Room(left0, pes, src4, dst4), LayoutOf(left0, pes, src4, dst4).lead;
      && left == left0 - n && ts == ts0 + PACKET - n && more == (if lead > n then lead - n else 0) <= 3
      && p == start + PACKET + more
    ensures out[at0..p] == sent + UnitPacket(u, rest, first, counter, src4, dst4) + behind[..more]
    ensures OnlyWithin(out, start, start + 2 * PACKET)
  {
    hide LayoutOf, Room, UnitPacket;
    p, left, ts := WriteUnitPacket(u, behind, |u.raw| - left0, first, counter, src4, dst4, out, start, ts0);
    more := p - start - PACKET;
    assert out[at0..start] == sent;
    SentOneMore(out, at0, start, p, sent, UnitPacket(u, rest, first, counter, src4, dst4), behind[..more]);
  }

  /** The first of the packets ahead goes over to those sent. */
  lemma {:induction false} PacketMoved(u: Unit, rest: seq<byte>, first: bool, counter: nat, src4: nat, dst4: nat,
                                       sent: seq<byte>, ks: seq<Packet>)
    requires rest != [] && counter < 16 && src4 < 4 && dst4 < 4
    requires sent + Flatten(UnitPackets(u, rest, first, counter, src4, dst4)) == Flatten(ks)
    ensures var pes := if first then PesLength(u.video) else 0;
      var n, lead := Room(|rest|, pes, src4, dst4), LayoutOf(|rest|, pes, src4, dst4).lead;
      var k, ahead := UnitPacket(u, rest, first, counter, src4, dst4), UnitPackets(u, rest, first, counter, src4, dst4);
      var ahead' := UnitPackets(u, rest[n..], false, (counter + 1) % 16, (src4 + n) % 4, dst4);
      && (lead > n ==> n == |rest|)
      && Overrun(|rest|, pes, src4, dst4)
         == (if lead > n then lead - n else 0) + Overrun(|rest| - n, 0, (src4 + n) % 4, dst4)
      && |ahead| == 1 + |ahead'| && sent + k + Flatten(ahead') == Flatten(ks)
      && ((counter + 1) % 16 + |ahead'|) % 16 == (counter + |ahead|) % 16
  {
    hide UnitPacket, LayoutOf, Room, Overrun, UnitPackets, Flatten;
    FirstOf(u, rest, first, counter, src4, dst4);
    var n := Room(|rest|, if first then PesLength(u.video) else 0, src4, dst4);
    var k := UnitPacket(u, rest, first, counter, src4, dst4);
    var ahead' := UnitPackets(u, rest[n..], false, (counter + 1) % 16, (src4 + n) % 4, dst4);
    FlattenFirst(k, ahead');
    CountOn(counter, 1, |ahead'|);
    assert sent + (k + Flatten(ahead')) == sent + k + Flatten(ahead');
  }

  lemma SentOneMore(out: array<byte>, at0: nat, start: nat, p: nat, sent: seq<byte>, k: Packet, more: seq<byte>)
    requires at0 <= start && start + PACKET <= p <= out.Length
    requires out[at0..start] == sent && out[start..start + PACKET] == k && out[start + PACKET..p] == more
    ensures out[at0..p] == sent + k + more
  {
    Joins(out, at0, start, start + PACKET);
    Joins(out, at0, start + PACKET, p);
  }

  lemma NothingFlattened()
    ensures Flatten<byte>([]) == []
  {}

  class Muxer {
    const pat: seq<byte>
    const pmt: seq<byte>
    var delay: nat
    var unset: bool
    var streams: seq<Stream>

    /** The state after the start: counters and clocks at zero; table intervals are whatever the memory held. */
    constructor (pat: seq<byte>, pmt: seq<byte>, intervals: seq<u64>)
      requires |pat| <= 183 && |pmt| <= 183 && |intervals| == STREAMS
      ensures Valid() && State().unset && State().delay == 18000
      ensures forall i | 0 <= i < STREAMS :: State().streams[i] == NewStream(intervals[i])
    {
      this.pat, this.pmt, delay, unset := pat, pmt, 18000, true;
      streams := seq(STREAMS, i requires 0 <= i < STREAMS => NewStream(intervals[i]));
    }

    ghost function State(): TsMux.Mux
      reads this
    {
      TsMux.Mux.Mux(pat, pmt, delay, unset, streams)
    }

    ghost predicate Valid()
      reads this
    {
      ValidMux(State())
    }

    /** Moves the stream's clock, if the unit carries it. */
    method MoveClock(u: Unit, s0: Stream) returns (s: Stream)
      requires Valid() && ValidStream(s0) && Time(u) < TWO_64
      modifies this`unset
      ensures s == Ticked(old(State()), s0, u) && State() == old(State()).(unset := old(unset) && !u.pcrMaster)
    {
      s := s0;
      if u.pcrMaster {
        var time := if u.video then u.dts else u.pts;
        var pcr := if time > delay then time - delay else 0;
        if !u.video { s := s.(pts := time); }
        if unset {
          s := s.(pcrStart := pcr);
          s := s.(pcr := s.pcrStart);
        } else if pcr >= s.pcr {
          s := s.(pcrInterval := (pcr - s.prevPcr) % TWO_64);
          s := s.(pcr := pcr);
        } else {
          s := s.(pcrStart := pcr);
          s := s.(pcr := s.pcrStart);
        }
        unset := false;
        s := s.(psiInterval := (s.pts - s.psiSent) % TWO_64);
      }
    }

    /** Sends the clock when it is due, and adds it to the size. */
    method SendClock(u: Unit, s0: Stream, out: array<byte>, ts0: nat) returns (s: Stream, at: nat, ts: nat)
      requires s0.pcrCounter < 16 && PACKET * |ClockPart(s0, u).0| <= out.Length
      modifies out
      ensures s == ClockPart(s0, u).1 && at == PACKET * |ClockPart(s0, u).0| && ts == ts0 + at
      ensures out[..at] == Flatten(ClockPart(s0, u).0)
    {
      hide PcrPacket;
      s, at, ts := s0, 0, ts0;
      if u.pcrMaster && (s.pcrInterval >= PCR_PERIOD || s.pcr == s.pcrStart) {
        var n := WritePcrPacket(s.pcr, out, 0, s.pcrCounter);
        ts := ts + n;
        at := at + n;
        s := s.(prevPcr := s.pcr);
        s := s.(pcrInterval := 0, pcrCounter := (s.pcrCounter + 1) % 16);
        assert Flatten([PcrPacket(s0.pcr, s0.pcrCounter)]) == PcrPacket(s0.pcr, s0.pcrCounter);
      }
    }

    /** Sends the tables when they are due, and adds them to the size. */
    method SendTables(u: Unit, s0: Stream, out: array<byte>, from: nat, ts0: nat) returns (s: Stream, at: nat, ts: nat)
      requires Valid() && s0.patCounter < 16 && s0.pmtCounter < 16
      requires from + PACKET * |TablePart(State(), s0, u).0| <= out.Length
      modifies out
      ensures s == TablePart(State(), s0, u).1 && at == from + PACKET * |TablePart(State(), s0, u).0|
      ensures ts == ts0 + at - from
      ensures out[from..at] == Flatten(TablePart(State(), s0, u).0) && OnlyWithin(out, from, out.Length)
    {
      hide PsiPacket;
      s, at, ts := s0, from, ts0;
      if (u.video || u.audioOnly) && (s.psiSent == 0 || s.psiInterval > PSI_PERIOD) {
        var n := WritePsiPacket(PAT_PID, pat, out, at, s.patCounter);
        ghost var first := out[at..at + n];
        at := at + n;
        ts := ts + n;
        n := WritePsiPacket(PMT_PID, pmt, out, at, s.pmtCounter);
        assert out[from..at] == first;
        Joins(out, from, at, at + n);
        at := at + n;
        ts := ts + n;
        TwoPackets(PsiPacket(PAT_PID, pat, s.patCounter), PsiPacket(PMT_PID, pmt, s.pmtCounter));
        s := s.(patCounter := (s.patCounter + 1) % 16, pmtCounter := (s.pmtCounter + 1) % 16);
        s := s.(psiSent := s.pts, psiInterval := 0);
      }
    }

    /** Clock, tables and payload, once the clock has been moved. */
    method SendUnit(c: Call, behind: seq<byte>, s0: Stream, out: array<byte>, ts0: nat, ghost service: seq<Packet>,
                    ghost s2: Stream, ghost payload: seq<Packet>)
      returns (s: Stream, p: nat, ts: nat)
      requires Valid() && ValidCall(c) && Counts(s0) && |behind| >= 3 && ts0 == |c.unit.raw|
      requires (service, s2) == Service(State(), s0, c.unit)
      requires payload == UnitPackets(c.unit, c.unit.raw, true, Counter(s2, c.unit.video), c.src4, c.dst4)
      requires PACKET * (|service| + |payload|) + PACKET <= out.Length
      modifies out
      ensures s == WithCounter(s2, c.unit.video, (Counter(s2, c.unit.video) + |payload|) % 16)
      ensures ts == PACKET * (|service| + |payload|) && p == ts + CallOverrun(c)
      ensures out[..p] == Flatten(service) + Flatten(payload) + behind[..CallOverrun(c)]
    {
      hide Valid, ValidMux, ValidCall, Service, UnitPackets, Flatten, Counter, WithCounter, CallOverrun;
      assert Counts(s2);
      hide Counts;
      var at;
      s, at, ts := SendService(c.unit, s0, out, ts0);
      ghost var front := out[..at];
      s, p, ts := SendPayload(c, behind, s, out, at, ts, payload);
      assert out[..at] == front;
      JoinedUp(out, at, p, Flatten(service), Flatten(payload), behind[..CallOverrun(c)]);
    }

    /** The payload, from the stream's counter for its kind. */
    method SendPayload(c: Call, behind: seq<byte>, s0: Stream, out: array<byte>, at: nat, ts0: nat,
                       ghost ks: seq<Packet>)
      returns (s: Stream, p: nat, ts: nat)
      requires ValidCall(c) && Counts(s0) && |behind| >= 3 && ts0 >= |c.unit.raw|
      requires ks == UnitPackets(c.unit, c.unit.raw, true, Counter(s0, c.unit.video), c.src4, c.dst4)
      requires at + PACKET * |ks| + PACKET <= out.Length
      modifies out
      ensures s == WithCounter(s0, c.unit.video, (Counter(s0, c.unit.video) + |ks|) % 16)
      ensures ts == ts0 - |c.unit.raw| + PACKET * |ks| && p == at + PACKET * |ks| + CallOverrun(c)
      ensures out[at..p] == Flatten(ks) + behind[..CallOverrun(c)]
      ensures OnlyWithin(out, at, out.Length)
    {
      hide UnitPackets, Flatten, Overrun;
      var u := c.unit;
      var counter := if u.video then s0.videoCounter else s0.audioCounter;
      p, counter, ts := WritePayload(u, behind, counter, c.src4, c.dst4, out, at, ts0, ks);
      s := if u.video then s0.(videoCounter := counter) else s0.(audioCounter := counter);
    }

    /** Clock and tables. */
    method SendService(u: Unit, s0: Stream, out: array<byte>, ts0: nat) returns (s: Stream, at: nat, ts: nat)
      requires Valid() && Counts(s0) && PACKET * |Service(State(), s0, u).0| <= out.Length
      modifies out
      ensures s == Service(State(), s0, u).1 && at == PACKET * |Service(State(), s0, u).0| && ts == ts0 + at
      ensures out[..at] == Flatten(Service(State(), s0, u).0)
    {
      CountsKept(State(), s0, u);
      FlattenConcat(ClockPart(s0, u).0, TablePart(State(), ClockPart(s0, u).1, u).0);
      hide Valid, ClockPart, TablePart, Flatten;
      s, at, ts := SendClock(u, s0, out, ts0);
      ghost var clock := out[..at];
      ghost var from := at;
      s, at, ts := SendTables(u, s, out, at, ts);
      assert out[..from] == clock;
      Joins(out, 0, from, at);
    }

    /**
     * One access unit, `behind` being what lies in memory behind its payload. The size returned is counted apart from
     * where writing stops, `p`: it starts as the payload's and grows by headers, padding and whole packets.
     */
    method Mux(c: Call, behind: seq<byte>, out: array<byte>) returns (size: nat, p: nat)
      requires Valid() && ValidCall(c) && |behind| >= 3
      requires PACKET * |Emit(State(), c).0| + PACKET <= out.Length
      modifies this`unset, this`streams, out
      ensures State() == Emit(old(State()), c).1
      ensures size == PACKET * |Emit(old(State()), c).0| && out[..size] == Flatten(Emit(old(State()), c).0)
      ensures p == size + CallOverrun(c) && out[size..p] == behind[..CallOverrun(c)]
      ensures p == size <==> Fits(|c.unit.raw|, PesLength(c.unit.video), c.src4, c.dst4)
    {
      var i := StreamIndex(c.unit.stream);
      EmitIsSent(State(), c);
      OverrunExactly(|c.unit.raw|, PesLength(c.unit.video), c.src4, c.dst4);
      hide Emit, ValidMux, Ticked, Sent, Flatten, Overrun, Fits;
      var s := MoveClock(c.unit, streams[i]);
      size := |c.unit.raw|;
      s, p, size := SendAll(c, behind, s, out, size);
      streams := streams[i := s];
    }

    /** The call's packets, from the size of the raw payload on. */
    method SendAll(c: Call, behind: seq<byte>, s0: Stream, out: array<byte>, ts0: nat)
      returns (s: Stream, p: nat, ts: nat)
      requires Valid() && ValidCall(c) && Counts(s0) && |behind| >= 3 && ts0 == |c.unit.raw|
      requires PACKET * |Sent(State(), s0, c).0| + PACKET <= out.Length
      modifies out
      ensures s == Sent(State(), s0, c).1 && ts == PACKET * |Sent(State(), s0, c).0| && p == ts + CallOverrun(c)
      ensures out[..ts] == Flatten(Sent(State(), s0, c).0) && out[ts..p] == behind[..CallOverrun(c)]
    {
      SentParts(State(), s0, c);
      ghost var sent := Sent(State(), s0, c);
      FlattenLength(sent.0);
      ghost var (service, s2) := Service(State(), s0, c.unit);
      ghost var payload := UnitPackets(c.unit, c.unit.raw, true, Counter(s2, c.unit.video), c.src4, c.dst4);
      assert |sent.0| == |service| + |payload|;
      hide Valid, ValidMux, ValidCall, Sent, Service, UnitPackets, Counter, WithCounter, CallOverrun, Flatten, Counts;
      s, p, ts := SendUnit(c, behind, s0, out, ts0, service, s2, payload);
      SplitAt(out, ts, p, Flatten(sent.0), behind[..CallOverrun(c)]);
    }
  }

  lemma JoinedUp(out: array<byte>, at: nat, p: nat, front: seq<byte>, back: seq<byte>, more: seq<byte>)
    requires at <= p <= out.Length && out[..at] == front && out[at..p] == back + more
    ensures out[..p] == front + back + more
  {
    Joins(out, 0, at, p);
  }

  function CallOverrun(c: Call): (n: nat)
    requires ValidCall(c)
    ensures n <= 2
  {
    Overrun(|c.unit.raw|, PesLength(c.unit.video), c.src4, c.dst4)
  }

  lemma {:induction false} FlattenLength(ks: seq<Packet>)
    ensures |Flatten(ks)| == PACKET * |ks|
  {
    if ks != [] { FlattenLength(ks[1..]); }
  }

  lemma SplitAt(out: array<byte>, n: nat, p: nat, s: seq<byte>, more: seq<byte>)
    requires n <= p <= out.Length && out[..p] == s + more && |s| == n
    ensures out[..n] == s && out[n..p] == more
  {
    Inside(out, 0, p, 0, n);
    Inside(out, 0, p, n, p);
  }

  lemma CountsKept(m: TsMux.Mux, s0: Stream, u: Unit)
    requires ValidMux(m) && Counts(s0)
    ensures var s1 := ClockPart(s0, u).1;
      Counts(s1) && Counts(TablePart(m, s1, u).1)
  {
    hide PcrPacket, PsiPacket, ClockDue, TablesDue;
  }

  /** Clock and tables. */
  function Service(m: TsMux.Mux, s0: Stream, u: Unit): (r: (seq<Packet>, Stream))
    requires ValidMux(m) && Counts(s0)
    ensures Counts(r.1) && |r.0| <= 3
  {
    CountsKept(m, s0, u);
    var (clock, s1) := ClockPart(s0, u);
    var (tables, s2) := TablePart(m, s1, u);
    (clock + tables, s2)
  }

  /** What a call sends once the clock has been moved. */
  function Sent(m: TsMux.Mux, s0: Stream, c: Call): (seq<Packet>, Stream)
    requires ValidMux(m) && ValidCall(c) && Counts(s0)
  {
    var (service, s2) := Service(m, s0, c.unit);
    var n := Counter(s2, c.unit.video);
    var payload := UnitPackets(c.unit, c.unit.raw, true, n, c.src4, c.dst4);
    (service + payload, WithCounter(s2, c.unit.video, (n + |payload|) % 16))
  }

  lemma SentParts(m: TsMux.Mux, s0: Stream, c: Call)
    requires ValidMux(m) && ValidCall(c) && Counts(s0)
    ensures var (service, s2) := Service(m, s0, c.unit);
      var n := Counter(s2, c.unit.video);
      var payload := UnitPackets(c.unit, c.unit.raw, true, n, c.src4, c.dst4);
      && |Sent(m, s0, c).0| == |service| + |payload|
      && Flatten(Sent(m, s0, c).0) == Flatten(service) + Flatten(payload)
      && Sent(m, s0, c).1 == WithCounter(s2, c.unit.video, (n + |payload|) % 16)
  {
    hide UnitPackets, Flatten, Service;
    var (service, s2) := Service(m, s0, c.unit);
    FlattenConcat(service, UnitPackets(c.unit, c.unit.raw, true, Counter(s2, c.unit.video), c.src4, c.dst4));
  }

  lemma EmitIsSent(m: TsMux.Mux, c: Call)
    requires ValidMux(m) && ValidCall(c)
    ensures var i := StreamIndex(c.unit.stream);
      var s0, m1 := Ticked(m, m.streams[i], c.unit), m.(unset := m.unset && !c.unit.pcrMaster);
      && ValidStream(m.streams[i]) && Counts(s0) && ValidMux(m1)
      && Emit(m, c) == (Sent(m1, s0, c).0, m1.(streams := m.streams[i := Sent(m1, s0, c).1]))
  {
    hide UnitPackets, ClockPart;
    TickKeepsCounters(m, m.streams[StreamIndex(c.unit.stream)], c.unit);
    hide Ticked;
  }

  lemma TwoPackets(a: Packet, b: Packet)
    ensures Flatten([a, b]) == a + b
  {
    assert [a, b][1..] == [b] && [b][1..] == [];
    assert Flatten([b]) == b + Flatten([]) == b;
  }
}
