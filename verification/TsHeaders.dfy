/** What the payload packets and PES headers say to a reader of the standard's fields (ISO/IEC 13818-1, 2.4.3). */
module TsHeaders {
  import opened Arithmetic
  import opened Bytes
  import opened TsFormat
  import opened TsDemux
  import opened TsRoundTrip

  const TWO_33 := 0x2_0000_0000

  //
  // Time stamps
  //

  function StampOf(a: int, b: int, c: int, d: int, e: int): int {
    a / 2 % 8 * 0x4000_0000 + b * 0x40_0000 + c / 2 * 0x8000 + d * 0x80 + e / 2
  }

  /** The 33 bits between the markers are the stamp's, behind the four bits of the tag. */
  predicate SaysStamp(f: seq<byte>, tag: nat, v: nat) {
    && |f| == 5 && f[0] / 16 == tag && f[0] % 2 == 1 && f[2] % 2 == 1 && f[4] % 2 == 1
    && StampOf(f[0], f[1], f[2], f[3], f[4]) == v % TWO_33
  }

  lemma TopBits(v: nat)
    ensures v / 0x4000_0000 % 8 == v % TWO_33 / 0x4000_0000
    ensures v / 0x40_0000 % 256 == v % TWO_33 / 0x40_0000 % 256
    ensures v / 0x8000 % 128 == v % TWO_33 / 0x8000 % 128
    ensures v / 0x80 % 256 == v % TWO_33 / 0x80 % 256 && v % 128 == v % TWO_33 % 128
  {
    var q, r := v / TWO_33, v % TWO_33;
    DivUnique(v, 0x4000_0000, q * 8 + r / 0x4000_0000, r % 0x4000_0000);
    DivUnique(v, 0x40_0000, q * 0x800 + r / 0x40_0000, r % 0x40_0000);
    DivUnique(v, 0x8000, q * 0x4_0000 + r / 0x8000, r % 0x8000);
    DivUnique(v, 0x80, q * 0x400_0000 + r / 0x80, r % 0x80);
    DivUnique(q * 8 + r / 0x4000_0000, 8, q, r / 0x4000_0000);
    DivUnique(q * 0x800 + r / 0x40_0000, 256, q * 8 + r / 0x40_0000 / 256, r / 0x40_0000 % 256);
    DivUnique(q * 0x4_0000 + r / 0x8000, 128, q * 0x800 + r / 0x8000 / 128, r / 0x8000 % 128);
    DivUnique(q * 0x400_0000 + r / 0x80, 256, q * 0x4_0000 + r / 0x80 / 256, r / 0x80 % 256);
  }

  /** Only the low 33 bits of a time are written. */
  lemma FieldWraps(tag: nat, v: nat)
    requires tag < 16
    ensures StampField(tag, v) == StampField(tag, v % TWO_33)
  {
    TopBits(v);
    var r := v % TWO_33;
    assert r / 0x4000_0000 % 8 == r / 0x4000_0000;
  }

  lemma TagSplits(tag: nat, a: nat)
    requires tag < 16 && a < 8
    ensures (tag * 16 + a * 2 + 1) / 16 == tag && (tag * 16 + a * 2 + 1) % 2 == 1 && (tag * 16 + a * 2 + 1) / 2 % 8 == a
  {}

  lemma StampSays(tag: nat, v: nat)
    requires tag < 16
    ensures SaysStamp(StampField(tag, v), tag, v)
  {
    hide StampField;
    var r := v % TWO_33;
    FieldWraps(tag, v);
    FieldDigits(tag, r);
    StampSum(r);
    TagSplits(tag, r / 0x4000_0000);
    Odd(r / 0x8000 % 128);
    Odd(r % 128);
  }

  lemma Odd(n: nat)
    ensures (n * 2 + 1) / 2 == n && (n * 2 + 1) % 2 == 1
  {}

  /** What a reader of frames is told of a presentation time: the low seven bits wrong, and for audio no 33rd bit. */
  lemma ReadPtsIs(u: Unit)
    ensures var v := u.pts % (if u.video then TWO_33 else TWO_32);
      ReadPts(u) == v - v % 128 + v % 64 * 2 + 1
  {
    hide StampField, PtsOf, DtsOf;
    var r := u.pts % TWO_33;
    FieldWraps(if u.video then 3 else 2, u.pts);
    StampRead(if u.video then 3 else 2, r);
    if !u.video {
      DtsIsLow(2, r);
      var w := u.pts % TWO_32;
      LowHalf(u.pts);
    }
  }

  /** Decoding times lose their 33rd bit, too. */
  lemma ReadDtsIs(u: Unit)
    ensures var v := u.dts % TWO_32;
      DtsOf(StampField(1, u.dts)) == v - v % 128 + v % 64 * 2 + 1
  {
    hide StampField, PtsOf, DtsOf;
    var r := u.dts % TWO_33;
    FieldWraps(1, u.dts);
    DtsIsLow(1, r);
    LowHalf(u.dts);
  }

  lemma LowHalf(p: nat)
    ensures var r, w := p % TWO_33, p % TWO_32;
      && (r - r % 128 + r % 64 * 2 + 1) % TWO_32 == w - w % 128 + w % 64 * 2 + 1
  {
    var r, w := p % TWO_33, p % TWO_32;
    DivUnique(p, TWO_32, p / TWO_33 * 2 + r / TWO_32, r % TWO_32);
    assert w == r % TWO_32;
    DivUnique(r, 128, r / TWO_32 * 0x200_0000 + w / 128, w % 128);
    DivUnique(r, 64, r / TWO_32 * 0x400_0000 + w / 64, w % 64);
    LowRoom(w);
    DivUnique(r - r % 128 + r % 64 * 2 + 1, TWO_32, r / TWO_32, w - w % 128 + w % 64 * 2 + 1);
  }

  lemma LowRoom(w: nat)
    requires w < TWO_32
    ensures 0 <= w - w % 128 + w % 64 * 2 + 1 < TWO_32
  {}

  /** The lowest bit read is a marker, so nothing is added to it. */
  lemma DtsIsLow(tag: nat, v: nat)
    requires tag < 16 && v < TWO_33
    ensures DtsOf(StampField(tag, v)) == (v - v % 128 + v % 64 * 2 + 1) % TWO_32
  {
    hide StampField;
    var f := StampField(tag, v);
    StampRead(tag, v);
    FieldDigits(tag, v);
    LowOdd(f);
    DivUnique(PtsOf(f), TWO_32, StampHigh(f), StampLow(f));
  }

  lemma LowOdd(f: seq<byte>)
    requires |f| == 5 && f[4] % 2 == 1
    ensures StampLow(f) % 2 == 1 && 0 <= StampLow(f) < TWO_32
  {}

  /**
   * What the reader makes of the stamps of any header: bits 7 and up are right, the low seven are those of the last
   * octet with its marker; decoding and audio times have the 33rd bit in the place of the lowest.
   */
  lemma AnyStampRead(f: seq<byte>)
    requires |f| == 5
    ensures PtsOf(f) == StampOf(f[0], f[1], f[2], f[3], f[4]) / 128 * 128 + f[4] % 128
    ensures var low := PtsOf(f) % TWO_32;
      DtsOf(f) == if PtsOf(f) >= TWO_32 && low % 2 == 0 then low + 1 else low
  {
    var a: int, b: int, c: int, d: int, e: int := f[0], f[1], f[2], f[3], f[4];
    var high := a / 2 % 8 * 0x80_0000 + b * 0x8000 + c / 2 * 0x100 + d;
    DivUnique(StampOf(a, b, c, d, e), 128, high, e / 2);
    LowBelow(f);
    DivUnique(PtsOf(f), TWO_32, StampHigh(f), StampLow(f));
    TopThree(a);
  }

  lemma TopThree(a: nat)
    ensures a / 2 % 8 == a / 8 % 2 * 4 + a / 2 % 4
  {}

  lemma LowBelow(f: seq<byte>)
    requires |f| == 5
    ensures 0 <= StampLow(f) < TWO_32
  {}

  /** A packet that starts a unit, by any multiplexer: the stamps its flags announce, and what is behind its header. */
  lemma StartTaken(p: Parser, mem: seq<byte>, at: nat)
    requires Sane(mem, true) && p.video && p.data == [] && at == PayloadAt(mem)
    requires mem[at] == 0 && mem[at + 1] == 0 && mem[at + 2] == 1 && mem[at + 3] == 0xE0
    requires 2 * 188 < p.max
    ensures var q, end := Process(p, mem), at + 9 + mem[at + 8] as int;
      && end <= 188 && q.data == mem[end..188] && q.state == Filling
      && q.pts == (if mem[at + 7] >= 128 then PtsOf(mem[at + 9..at + 14]) else p.pts)
      && q.dts == (if mem[at + 7] / 64 % 2 == 1 then DtsOf(mem[at + 14..at + 19]) else p.dts)
  {
    hide PtsOf, DtsOf;
    assert StartsUnit(mem, at, VIDEO_ID);
    var end := HeaderEnd(mem, at);
    assert [] + mem[end..188] == mem[end..188];
  }

  //
  // PES headers
  //

  /** A PES header by the standard: start code, kind, length, the flags of the stamps, the stamps, and filling. */
  predicate SaysUnit(h: seq<byte>, u: Unit) {
    && |h| == (if u.video then 20 else 16)
    && h[..3] == [0, 0, 1] && h[3] == (if u.video then 0xE0 else 0xC0)
    && Number2(h[4], h[5]) == (if u.video then 0 else (|u.raw| + 10) % 65536)
    && h[6] / 64 == 2 && h[7] / 64 == (if u.video then 3 else 2) && 9 + h[8] as int == |h|
    && SaysStamp(h[9..14], if u.video then 3 else 2, u.pts)
    && (u.video ==> SaysStamp(h[14..19], 1, u.dts))
    && (if u.video then h[19] == 0xff else h[14] == h[15] == 0xff)
  }

  lemma HeaderSays(u: Unit)
    ensures SaysUnit(PesHeader(u), u)
  {
    hide StampField, SaysStamp, Be16, Number2;
    HeaderStamps(u);
    StampSays(if u.video then 3 else 2, u.pts);
    StampSays(1, u.dts);
    LengthOctets(|u.raw| + 10);
    HeaderEnds(u);
  }

  lemma HeaderEnds(u: Unit)
    ensures var h, b := PesHeader(u), Be16(|u.raw| + 10);
      && h[..3] == [0, 0, 1] && |b| == 2
      && [h[4], h[5]] == (if u.video then [0, 0] else b)
      && (if u.video then h[3] == 0xE0 && h[6] == 0x84 && h[7] == 0xC0 && h[8] == 11 && h[19] == 0xff
          else h[3] == 0xC0 && h[6] == 0x84 && h[7] == 0x80 && h[8] == 7 && h[14] == h[15] == 0xff)
  {
    assert |Be16(|u.raw| + 10)| == 2;
    hide StampField, Be16;
    var h := PesHeader(u);
    assert h[..3] == [0, 0, 1];
  }

  lemma LengthOctets(n: nat)
    ensures var b := Be16(n); |b| == 2 && Number2(b[0], b[1]) == n % 65536
    ensures Number2(0, 0) == 0
  {
    var q, r := n / 65536, n % 65536;
    DivUnique(n, 256, q * 256 + r / 256, r % 256);
    DivUnique(q * 256 + r / 256, 256, q, r / 256);
  }

  //
  // Packets
  //

  /**
   * A payload packet by the standard: sync octet, start flag, priority, PID, no scrambling, an adaptation field exactly
   * if there is stuffing, the counter; the field's length, no flags and ones; then the header and a slice of the unit.
   */
  predicate SaysPayload(k: Packet, start: bool, pid: int, counter: nat, pad: nat, pes: seq<byte>, slice: seq<byte>) {
    && k[0] == 0x47 && k[1] / 32 == (if start then 3 else 1) && Number2(k[1] % 32, k[2]) == pid
    && k[3] / 16 == (if pad > 0 then 3 else 1) && k[3] % 16 == counter
    && (pad > 0 ==> k[4] as int == pad - 1) && (pad > 1 ==> k[5] == 0)
    && 4 + pad + |pes| + |slice| == 188
    && (forall i | 6 <= i < 4 + pad :: k[i] == 0xff)
    && k[4 + pad..4 + pad + |pes|] == pes && k[4 + pad + |pes|..] == slice
  }

  lemma StuffingSays(pad: nat)
    requires pad <= 184
    ensures var s := Stuffing(pad);
      |s| == pad && (pad > 0 ==> s[0] as int == pad - 1) && (pad > 1 ==> s[1] == 0)
      && forall i | 2 <= i < pad :: s[i] == 0xff
  {}

  lemma FrontSays(first: bool, video: bool, pad: nat, counter: nat)
    requires counter < 16
    ensures var f := LinkHeader(first, true, Pid(video)) + [(if pad > 0 then 0x30 else 0x10) + counter];
      && |f| == 4 && f[0] == 0x47 && f[1] / 32 == (if first then 3 else 1)
      && Number2(f[1] % 32, f[2]) == (if video then 0x1011 else 0x1012)
      && f[3] / 16 == (if pad > 0 then 3 else 1) && f[3] % 16 == counter
  {}

  lemma PacketSays(u: Unit, left: seq<byte>, first: bool, counter: nat, src4: nat, dst4: nat)
    requires left != [] && counter < 16 && src4 < 4 && dst4 < 4
    ensures var pes := if first then PesHeader(u) else [];
      var pad, n := LayoutOf(|left|, |pes|, src4, dst4).pad, Room(|left|, |pes|, src4, dst4);
      SaysPayload(UnitPacket(u, left, first, counter, src4, dst4), first, if u.video then 0x1011 else 0x1012, counter,
                  pad, pes, left[..n])
  {
    hide PesHeader, LayoutOf, LinkHeader, Stuffing;
    var pes := if first then PesHeader(u) else [];
    var pad, n := LayoutOf(|left|, |pes|, src4, dst4).pad, Room(|left|, |pes|, src4, dst4);
    StuffingSays(pad);
    FrontSays(first, u.video, pad, counter);
    var k, fill := UnitPacket(u, left, first, counter, src4, dst4), Stuffing(pad);
    var front := LinkHeader(first, true, Pid(u.video)) + [(if pad > 0 then 0x30 else 0x10) + counter];
    assert k == front + fill + pes + left[..n];
    PartsSay(k, front, fill, pes, left[..n]);
    forall i | 6 <= i < 4 + pad ensures k[i] == 0xff { assert fill[i - 4] == 0xff; }
  }

  lemma PartsSay(k: seq<byte>, front: seq<byte>, fill: seq<byte>, pes: seq<byte>, slice: seq<byte>)
    requires k == front + fill + pes + slice && |front| == 4
    ensures k[0] == front[0] && k[1] == front[1] && k[2] == front[2] && k[3] == front[3]
    ensures forall i | 4 <= i < 4 + |fill| :: k[i] == fill[i - 4]
    ensures k[4 + |fill|..4 + |fill| + |pes|] == pes && k[4 + |fill| + |pes|..] == slice
  {}

  /**
   * The layout: the last packet is filled up. In any other, either the payload begins aligned in the packet, or, when
   * the two addresses modulo 4 add up to 4, octets up to the alignment of the unit go first. What is left is aligned
   * both in the packet and in the unit exactly if the unit was to begin with, or both were off by two.
   */
  lemma LayoutAligns(left: nat, pes: nat, src4: nat, dst4: nat)
    requires left > 0 && pes in {0, 16, 20} && src4 < 4 && dst4 < 4
    ensures var l := LayoutOf(left, pes, src4, dst4);
      if left < 184 - pes then 4 + l.pad + pes + left == 188 && l.lead < 4 && (src4 + l.lead) % 4 == 0
      else
        && (if src4 + dst4 == 4 then l.pad == 0 && l.lead == 4 - src4
            else l.lead == 0 && l.pad < 4 && (dst4 + 4 + l.pad + pes) % 4 == 0)
        && ((src4 + l.lead) % 4 == 0 && (dst4 + 4 + l.pad + pes + l.lead) % 4 == 0
            <==> src4 == 0 || (src4 == 2 && dst4 == 2))
  {
    assert (4 - (dst4 + 4) % 4) % 4 == if dst4 == 0 then 0 else 4 - dst4;
    assert (4 - src4) % 4 == if src4 == 0 then 0 else 4 - src4;
    assert pes % 4 == 0;
  }
}
