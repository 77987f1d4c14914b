/** The fields of the packet headers, bit by bit. */
module TsBits {
  import opened Arithmetic
  import opened Bytes
  import opened Bitstream
  import opened TsFormat

  lemma PutInside(b: Bits, code: nat, length: nat)
    requires b.count + length < 8
    ensures Put(b, code, length)
         == Bits(b.whole, b.pending * Pow2(length) + code % Pow2(length), b.count + length)
  {}

  /** The field that fills up the byte. */
  lemma PutLast(b: Bits, code: nat, length: nat)
    requires ValidBits(b) && 1 <= length && b.count + length == 8
    ensures 0 <= b.pending * Pow2(length) + code % Pow2(length) < 256
    ensures Put(b, code, length) == Bits(b.whole + [b.pending * Pow2(length) + code % Pow2(length)], 0, 0)
  {
    Pow2Adds(b.count, length);
    Pow2Values();
    hide Pow2;
    DigitsBelow(b.pending, code % Pow2(length), Pow2(b.count), Pow2(length));
    hide Pack;
    PackEight(b.whole, b.pending * Pow2(length) + code % Pow2(length));
  }

  lemma PackEight(s: seq<byte>, v: byte)
    ensures Pack(s, v, 8) == Bits(s + [v], 0, 0)
  {
    Pow2Values();
    hide Pow2;
    assert Pack(s, v, 8) == Pack(s + [v / 1 % 256], v % 1, 0);
  }

  lemma SmallPowers()
    ensures Pow2(1) == 2 && Pow2(2) == 4 && Pow2(3) == 8 && Pow2(4) == 16 && Pow2(5) == 32 && Pow2(6) == 64
    ensures Pow2(7) == 128 && Pow2(13) == 0x2000 && Pow2(15) == 0x8000 && Pow2(16) == 0x1_0000
  {
    Pow2Adds(8, 5);
    Pow2Adds(8, 7);
    Pow2Adds(8, 8);
  }

  /** Fifteen bits at the start of a byte. */
  lemma PutFifteen(s: seq<byte>, code: nat)
    requires code < 0x8000
    ensures Put(Bits(s, 0, 0), code, 15) == Bits(s + [code / 128], code % 128, 7)
  {
    SmallPowers();
    hide Pow2;
    assert Pack(s, code, 15) == Pack(s + [code / 128], code % 128, 7);
  }

  lemma PutByte(s: seq<byte>, code: byte)
    ensures Put(Bits(s, 0, 0), code, 8) == Bits(s + [code], 0, 0)
  {
    Pow2Values();
    hide Pow2, Pack;
    PackEight(s, code);
  }

  /** One byte of a longer field. */
  lemma PackByte(s: seq<byte>, v: nat, n: nat)
    requires n in {8, 16, 24} && v < Pow2(n)
    ensures n == 8 ==> Pack(s, v, n) == Bits(s + [v % 256], 0, 0)
    ensures n == 16 ==> Pack(s, v, n) == Pack(s + [v / 256 % 256], v % 256, 8)
    ensures n == 24 ==> Pack(s, v, n) == Pack(s + [v / 0x1_0000 % 256], v % 0x1_0000, 16)
  {
    SmallPowers();
    Pow2Values();
    hide Pow2;
    if n == 8 {
      assert Pack(s, v, 8) == Pack(s + [v / 1 % 256], v % 1, 0);
    }
  }

  lemma PutTwo(s: seq<byte>, code: nat)
    requires code < 0x1_0000
    ensures Put(Bits(s, 0, 0), code, 16) == Bits(s + Be16(code), 0, 0)
  {
    SmallPowers();
    Pow2Values();
    hide Pow2, Pack;
    PackByte(s, code, 16);
    PackByte(s + [code / 256 % 256], code % 256, 8);
    assert s + [code / 256 % 256] + [code % 256 % 256] == s + Be16(code);
  }

  lemma PutThree(s: seq<byte>, code: nat)
    requires code < 0x100_0000
    ensures Put(Bits(s, 0, 0), code, 24) == Bits(s + Be24(code), 0, 0)
  {
    SmallPowers();
    Pow2Values();
    hide Pow2, Pack;
    var m := code % 0x1_0000;
    PackByte(s, code, 24);
    PackByte(s + [code / 0x1_0000 % 256], m, 16);
    PackByte(s + [code / 0x1_0000 % 256] + [m / 256 % 256], m % 256, 8);
    DivUnique(code, 256, code / 0x1_0000 * 256 + m / 256, m % 256);
    assert s + [code / 0x1_0000 % 256] + [m / 256 % 256] + [m % 256 % 256] == s + Be24(code);
  }

  /** The seven fields of a time stamp. */
  function PutStamp(b: Bits, tag: nat, v: nat): Bits {
    var high := Put(Put(Put(b, tag, 4), v / 0x4000_0000 % 8, 3), 1, 1);
    var mid := Put(Put(high, v / 0x8000 % 0x8000, 15), 1, 1);
    Put(Put(mid, v % 0x8000, 15), 1, 1)
  }

  lemma PutBitAfterSeven(s: seq<byte>, p: nat)
    requires p < 128
    ensures Put(Bits(s, p, 7), 1, 1) == Bits(s + [p * 2 + 1], 0, 0)
  {
    SmallPowers();
    PutLast(Bits(s, p, 7), 1, 1);
  }

  lemma PutTag(s: seq<byte>, tag: nat, a: nat)
    requires tag < 16 && a < 8
    ensures Put(Put(Bits(s, 0, 0), tag, 4), a, 3) == Bits(s, tag * 8 + a, 7)
  {
    SmallPowers();
    PutInside(Bits(s, 0, 0), tag, 4);
    PutInside(Bits(s, tag, 4), a, 3);
  }

  /** They make up the five bytes of the time stamp. */
  lemma StampBits(s: seq<byte>, tag: nat, v: nat)
    requires tag < 16
    ensures PutStamp(Bits(s, 0, 0), tag, v) == Bits(s + StampField(tag, v), 0, 0)
  {
    var a, m, l := v / 0x4000_0000 % 8, v / 0x8000 % 0x8000, v % 0x8000;
    var s1 := s + [(tag * 8 + a) * 2 + 1];
    var s2 := s1 + [m / 128];
    var s3 := s2 + [m % 128 * 2 + 1];
    var s4 := s3 + [l / 128];
    hide Put;
    PutTag(s, tag, a);
    PutBitAfterSeven(s, tag * 8 + a);
    PutFifteen(s1, m);
    PutBitAfterSeven(s2, m % 128);
    PutFifteen(s3, l);
    PutBitAfterSeven(s4, l % 128);
    StampDigits(v);
    assert s4 + [l % 128 * 2 + 1] == s + StampField(tag, v);
  }

  lemma StampDigits(v: nat)
    ensures v / 0x8000 % 0x8000 / 128 == v / 0x40_0000 % 256 && v / 0x8000 % 0x8000 % 128 == v / 0x8000 % 128
    ensures v % 0x8000 / 128 == v / 0x80 % 256 && v % 0x8000 % 128 == v % 128
  {
    Digits(v);
    Digits(v / 0x8000);
    DivUnique(v, 0x40_0000, v / 0x8000 / 128, v / 0x8000 % 128 * 0x8000 + v % 0x8000);
  }

  lemma Digits(v: nat)
    ensures v % 0x8000 / 128 == v / 0x80 % 256 && v % 0x8000 % 128 == v % 128
  {
    var q, h, l := v / 0x8000, v % 0x8000 / 128, v % 0x8000 % 128;
    DivUnique(v, 128, q * 256 + h, l);
    DivUnique(q * 256 + h, 256, q, h);
  }
}
