/** The table-driven CRC of the program tables, and the bit-serial division it stands for (ISO/IEC 13818-1, Annex A). */
module Crc {
  const GENERATOR: bv32 := 0x04c1_1db7
  const START: bv32 := 0xffff_ffff

  //
  // One bit at a time
  //

  function Up(x: bv32): bv32 { x << 1 }

  function Top(x: bv32): bv32 { x >> 31 }

  function Xor(x: bv32, y: bv32): bv32 { x ^ y }

  /** Shifts one message bit into the division. */
  function BitStep(crc: bv32, bit: bv32): bv32 {
    if Top(crc) != bit then Xor(Up(crc), GENERATOR) else Up(crc)
  }

  /** Bit `k` of a byte. */
  function Bit(b: bv8, k: bv3): bv32 { ((b >> k) & 1) as bv32 }

  /** The bits of a byte, most significant first. */
  function ByteStep(crc: bv32, b: bv8): bv32 {
    var c := BitStep(BitStep(BitStep(BitStep(crc, Bit(b, 7)), Bit(b, 6)), Bit(b, 5)), Bit(b, 4));
    BitStep(BitStep(BitStep(BitStep(c, Bit(b, 3)), Bit(b, 2)), Bit(b, 1)), Bit(b, 0))
  }

  function Remainder(crc: bv32, message: seq<bv8>): bv32
    decreases message
  {
    if message == [] then crc else Remainder(ByteStep(crc, message[0]), message[1..])
  }

  //
  // A byte at a time
  //

  /** One division step of the register alone. */
  function Shift(x: bv32): bv32 { BitStep(x, 0) }

  function Shift4(x: bv32): bv32 { Shift(Shift(Shift(Shift(x)))) }

  function Shift8(x: bv32): bv32 { Shift4(Shift4(x)) }

  lemma UpAdds(x: bv32, y: bv32)
    ensures Up(Xor(x, y)) == Xor(Up(x), Up(y))
  {}

  lemma TopAdds(x: bv32, y: bv32)
    ensures Top(Xor(x, y)) == (if Top(x) == Top(y) then 0 else 1) && (Top(x) == 0 || Top(x) == 1)
  {}

  lemma Swap(x: bv32, y: bv32, z: bv32)
    ensures Xor(Xor(x, y), z) == Xor(Xor(x, z), y) == Xor(x, Xor(z, y))
  {}

  lemma Twice(x: bv32, y: bv32)
    ensures Xor(Xor(x, y), y) == x
  {}

  lemma ShiftAdds(x: bv32, y: bv32)
    ensures Shift(Xor(x, y)) == Xor(Shift(x), Shift(y))
  {
    hide Up, Top, Xor;
    var g, a, b := GENERATOR, Up(x), Up(y);
    UpAdds(x, y);
    TopAdds(x, y);
    TopAdds(y, x);
    Swap(a, g, b);
    Swap(Xor(a, g), g, b);
    Twice(a, g);
  }

  lemma Shift4Adds(x: bv32, y: bv32)
    ensures Shift4(Xor(x, y)) == Xor(Shift4(x), Shift4(y))
  {
    hide Shift, Xor;
    ShiftAdds(x, y);
    ShiftAdds(Shift(x), Shift(y));
    ShiftAdds(Shift(Shift(x)), Shift(Shift(y)));
    ShiftAdds(Shift(Shift(Shift(x))), Shift(Shift(Shift(y))));
  }

  lemma Shift8Adds(x: bv32, y: bv32)
    ensures Shift8(Xor(x, y)) == Xor(Shift8(x), Shift8(y))
  {
    hide Shift4, Xor;
    Shift4Adds(x, y);
    Shift4Adds(Shift4(x), Shift4(y));
  }

  /** A message bit can be put into the register instead of the step, together with those behind it. */
  lemma BitJoins(crc: bv32, t: bv32)
    ensures Shift(Xor(crc, t)) == Xor(BitStep(crc, Top(t)), Up(t))
  {
    hide Up, Top, Xor;
    UpAdds(crc, t);
    TopAdds(crc, t);
    Swap(Up(crc), GENERATOR, Up(t));
  }

  lemma NibbleJoins(c: bv32, t: bv32)
    ensures var t1 := Up(t);
      var t2 := Up(t1);
      var t3 := Up(t2);
      Shift4(Xor(c, t)) == Xor(BitStep(BitStep(BitStep(BitStep(c, Top(t)), Top(t1)), Top(t2)), Top(t3)), Up(t3))
  {
    hide BitStep, Shift, Up, Top, Xor;
    var c1 := BitStep(c, Top(t));
    var c2 := BitStep(c1, Top(Up(t)));
    var c3 := BitStep(c2, Top(Up(Up(t))));
    BitJoins(c, t);
    BitJoins(c1, Up(t));
    BitJoins(c2, Up(Up(t)));
    BitJoins(c3, Up(Up(Up(t))));
  }

  /** A byte at the top of the register. */
  function High(b: bv8): bv32 { (b as bv32) << 24 }

  lemma BitsOfByte(b: bv8)
    ensures var t4 := Up(Up(Up(Up(High(b)))));
      && Bit(b, 7) == Top(High(b)) && Bit(b, 6) == Top(Up(High(b)))
      && Bit(b, 5) == Top(Up(Up(High(b)))) && Bit(b, 4) == Top(Up(Up(Up(High(b)))))
      && Bit(b, 3) == Top(t4) && Bit(b, 2) == Top(Up(t4)) && Bit(b, 1) == Top(Up(Up(t4)))
      && Bit(b, 0) == Top(Up(Up(Up(t4)))) && Up(Up(Up(Up(t4)))) == 0
  {}

  /** Eight message bits can be added to the top of the register at once. */
  lemma ByteJoins(crc: bv32, b: bv8)
    ensures ByteStep(crc, b) == Shift8(Xor(crc, High(b)))
  {
    BitsOfByte(b);
    ZeroXor(ByteStep(crc, b));
    hide BitStep, Shift4, Up, Top, High, Bit, Xor;
    var t := High(b);
    NibbleJoins(crc, t);
    NibbleJoins(BitStep(BitStep(BitStep(BitStep(crc, Bit(b, 7)), Bit(b, 6)), Bit(b, 5)), Bit(b, 4)), Up(Up(Up(Up(t)))));
  }

  lemma ZeroXor(x: bv32)
    ensures Xor(x, 0) == x
  {}

  lemma ShiftLow(x: bv32)
    requires x < 0x100_0000
    ensures Shift8(x) == x << 8
  {}

  /** The register's top byte, joined with a message byte, selects what is added to the rest moved up. */
  lemma ByteSplits(crc: bv32, b: bv8)
    ensures ByteStep(crc, b) == Xor(crc << 8, Shift8(High(((crc >> 24) as bv8) ^ b)))
  {
    ByteJoins(crc, b);
    Parted(crc, b);
    hide Shift8, ByteStep, Xor, High;
    Shift8Adds(crc & 0xff_ffff, High(((crc >> 24) as bv8) ^ b));
    ShiftLow(crc & 0xff_ffff);
  }

  lemma Parted(crc: bv32, b: bv8)
    ensures Xor(crc, High(b)) == Xor(crc & 0xff_ffff, High(((crc >> 24) as bv8) ^ b))
    ensures crc & 0xff_ffff < 0x100_0000 && (crc & 0xff_ffff) << 8 == crc << 8
  {
    var high, low := TopByte(crc), crc & 0xff_ffff;
    Split(crc);
    HighAdds(high, b);
    hide Xor, High;
    Swap(low, High(b), High(high));
    Commutes(low, High(high));
  }

  lemma HighAdds(a: bv8, b: bv8)
    ensures High(a ^ b) == Xor(High(a), High(b))
  {}

  lemma Commutes(x: bv32, y: bv32)
    ensures Xor(x, y) == Xor(y, x)
  {}

  //
  // The table
  //

  /** The 256 entries, sixteen to a row. */
  const ROW_0: seq<bv32> := [
    0x00000000, 0x04c11db7, 0x09823b6e, 0x0d4326d9, 0x130476dc, 0x17c56b6b, 0x1a864db2, 0x1e475005,
    0x2608edb8, 0x22c9f00f, 0x2f8ad6d6, 0x2b4bcb61, 0x350c9b64, 0x31cd86d3, 0x3c8ea00a, 0x384fbdbd]
  const ROW_1: seq<bv32> := [
    0x4c11db70, 0x48d0c6c7, 0x4593e01e, 0x4152fda9, 0x5f15adac, 0x5bd4b01b, 0x569796c2, 0x52568b75,
    0x6a1936c8, 0x6ed82b7f, 0x639b0da6, 0x675a1011, 0x791d4014, 0x7ddc5da3, 0x709f7b7a, 0x745e66cd]
  const ROW_2: seq<bv32> := [
    0x9823b6e0, 0x9ce2ab57, 0x91a18d8e, 0x95609039, 0x8b27c03c, 0x8fe6dd8b, 0x82a5fb52, 0x8664e6e5,
    0xbe2b5b58, 0xbaea46ef, 0xb7a96036, 0xb3687d81, 0xad2f2d84, 0xa9ee3033, 0xa4ad16ea, 0xa06c0b5d]
  const ROW_3: seq<bv32> := [
    0xd4326d90, 0xd0f37027, 0xddb056fe, 0xd9714b49, 0xc7361b4c, 0xc3f706fb, 0xceb42022, 0xca753d95,
    0xf23a8028, 0xf6fb9d9f, 0xfbb8bb46, 0xff79a6f1, 0xe13ef6f4, 0xe5ffeb43, 0xe8bccd9a, 0xec7dd02d]
  const ROW_4: seq<bv32> := [
    0x34867077, 0x30476dc0, 0x3d044b19, 0x39c556ae, 0x278206ab, 0x23431b1c, 0x2e003dc5, 0x2ac12072,
    0x128e9dcf, 0x164f8078, 0x1b0ca6a1, 0x1fcdbb16, 0x018aeb13, 0x054bf6a4, 0x0808d07d, 0x0cc9cdca]
  const ROW_5: seq<bv32> := [
    0x7897ab07, 0x7c56b6b0, 0x71159069, 0x75d48dde, 0x6b93dddb, 0x6f52c06c, 0x6211e6b5, 0x66d0fb02,
    0x5e9f46bf, 0x5a5e5b08, 0x571d7dd1, 0x53dc6066, 0x4d9b3063, 0x495a2dd4, 0x44190b0d, 0x40d816ba]
  const ROW_6: seq<bv32> := [
    0xaca5c697, 0xa864db20, 0xa527fdf9, 0xa1e6e04e, 0xbfa1b04b, 0xbb60adfc, 0xb6238b25, 0xb2e29692,
    0x8aad2b2f, 0x8e6c3698, 0x832f1041, 0x87ee0df6, 0x99a95df3, 0x9d684044, 0x902b669d, 0x94ea7b2a]
  const ROW_7: seq<bv32> := [
    0xe0b41de7, 0xe4750050, 0xe9362689, 0xedf73b3e, 0xf3b06b3b, 0xf771768c, 0xfa325055, 0xfef34de2,
    0xc6bcf05f, 0xc27dede8, 0xcf3ecb31, 0xcbffd686, 0xd5b88683, 0xd1799b34, 0xdc3abded, 0xd8fba05a]
  const ROW_8: seq<bv32> := [
    0x690ce0ee, 0x6dcdfd59, 0x608edb80, 0x644fc637, 0x7a089632, 0x7ec98b85, 0x738aad5c, 0x774bb0eb,
    0x4f040d56, 0x4bc510e1, 0x46863638, 0x42472b8f, 0x5c007b8a, 0x58c1663d, 0x558240e4, 0x51435d53]
  const ROW_9: seq<bv32> := [
    0x251d3b9e, 0x21dc2629, 0x2c9f00f0, 0x285e1d47, 0x36194d42, 0x32d850f5, 0x3f9b762c, 0x3b5a6b9b,
    0x0315d626, 0x07d4cb91, 0x0a97ed48, 0x0e56f0ff, 0x1011a0fa, 0x14d0bd4d, 0x19939b94, 0x1d528623]
  const ROW_A: seq<bv32> := [
    0xf12f560e, 0xf5ee4bb9, 0xf8ad6d60, 0xfc6c70d7, 0xe22b20d2, 0xe6ea3d65, 0xeba91bbc, 0xef68060b,
    0xd727bbb6, 0xd3e6a601, 0xdea580d8, 0xda649d6f, 0xc423cd6a, 0xc0e2d0dd, 0xcda1f604, 0xc960ebb3]
  const ROW_B: seq<bv32> := [
    0xbd3e8d7e, 0xb9ff90c9, 0xb4bcb610, 0xb07daba7, 0xae3afba2, 0xaafbe615, 0xa7b8c0cc, 0xa379dd7b,
    0x9b3660c6, 0x9ff77d71, 0x92b45ba8, 0x9675461f, 0x8832161a, 0x8cf30bad, 0x81b02d74, 0x857130c3]
  const ROW_C: seq<bv32> := [
    0x5d8a9099, 0x594b8d2e, 0x5408abf7, 0x50c9b640, 0x4e8ee645, 0x4a4ffbf2, 0x470cdd2b, 0x43cdc09c,
    0x7b827d21, 0x7f436096, 0x7200464f, 0x76c15bf8, 0x68860bfd, 0x6c47164a, 0x61043093, 0x65c52d24]
  const ROW_D: seq<bv32> := [
    0x119b4be9, 0x155a565e, 0x18197087, 0x1cd86d30, 0x029f3d35, 0x065e2082, 0x0b1d065b, 0x0fdc1bec,
    0x3793a651, 0x3352bbe6, 0x3e119d3f, 0x3ad08088, 0x2497d08d, 0x2056cd3a, 0x2d15ebe3, 0x29d4f654]
  const ROW_E: seq<bv32> := [
    0xc5a92679, 0xc1683bce, 0xcc2b1d17, 0xc8ea00a0, 0xd6ad50a5, 0xd26c4d12, 0xdf2f6bcb, 0xdbee767c,
    0xe3a1cbc1, 0xe760d676, 0xea23f0af, 0xeee2ed18, 0xf0a5bd1d, 0xf464a0aa, 0xf9278673, 0xfde69bc4]
  const ROW_F: seq<bv32> := [
    0x89b8fd09, 0x8d79e0be, 0x803ac667, 0x84fbdbd0, 0x9abc8bd5, 0x9e7d9662, 0x933eb0bb, 0x97ffad0c,
    0xafb010b1, 0xab710d06, 0xa6322bdf, 0xa2f33668, 0xbcb4666d, 0xb8757bda, 0xb5365d03, 0xb1f740b4]

  /** A row is its first entry combined with row 0. */
  predicate Regular(row: seq<bv32>) {
    |row| == 16 && forall i | 0 <= i < 16 :: row[i] == Xor(row[0], ROW_0[i])
  }


  function Row(h: nat): seq<bv32>
    requires h < 16
  {
    [ROW_0, ROW_1, ROW_2, ROW_3, ROW_4, ROW_5, ROW_6, ROW_7, ROW_8, ROW_9, ROW_A, ROW_B, ROW_C, ROW_D, ROW_E, ROW_F][h]
  }

  lemma Regular0() ensures Regular(ROW_0) {}
  lemma Regular1() ensures Regular(ROW_1) {}
  lemma Regular2() ensures Regular(ROW_2) {}
  lemma Regular3() ensures Regular(ROW_3) {}
  lemma Regular4() ensures Regular(ROW_4) {}
  lemma Regular5() ensures Regular(ROW_5) {}
  lemma Regular6() ensures Regular(ROW_6) {}
  lemma Regular7() ensures Regular(ROW_7) {}
  lemma Regular8() ensures Regular(ROW_8) {}
  lemma Regular9() ensures Regular(ROW_9) {}
  lemma RegularA() ensures Regular(ROW_A) {}
  lemma RegularB() ensures Regular(ROW_B) {}
  lemma RegularC() ensures Regular(ROW_C) {}
  lemma RegularD() ensures Regular(ROW_D) {}
  lemma RegularE() ensures Regular(ROW_E) {}
  lemma RegularF() ensures Regular(ROW_F) {}

  lemma RowsRegular(h: nat)
    requires h < 16
    ensures Regular(Row(h))
  {
    Regular0(); Regular1(); Regular2(); Regular3();
    Regular4(); Regular5(); Regular6(); Regular7();
    Regular8(); Regular9(); RegularA(); RegularB();
    RegularC(); RegularD(); RegularE(); RegularF();
    hide Regular;
  }

  lemma RowHead(h: nat)
    requires h < 16
    ensures |Row(h)| == 16 && Row(h)[0] == Shift4(ROW_0[h])
  {}

  lemma FirstRow(i: bv8)
    requires i < 16
    ensures ROW_0[i as nat] == Shift8(High(i)) && Shift4(High(i)) == High(i << 4)
  {}

  /** The entry a byte selects. */
  function Table(i: bv8): bv32 {
    RowHead((i >> 4) as nat);
    Row((i >> 4) as nat)[(i & 15) as nat]
  }

  /** Every entry is eight steps of the division, with the byte at the top of the register. */
  lemma TableIsSerial(i: bv8)
    ensures Table(i) == Shift8(High(i))
  {
    var h, l := i >> 4, i & 15;
    Nibbles(i);
    RowsRegular(h as nat);
    RowHead(h as nat);
    FirstRow(h);
    FirstRow(l);
    hide Shift4, High, Xor, Row;
    Shift8Adds(High(h << 4), High(l));
  }

  lemma Nibbles(i: bv8)
    ensures i >> 4 < 16 && i & 15 < 16 && High(i) == Xor(High((i >> 4) << 4), High(i & 15))
  {}

  /** The register moved up a byte, with the entry its old top byte and the message byte select. */
  function TableStep(crc: bv32, b: bv8): bv32 { Xor(crc << 8, Table(((crc >> 24) as bv8) ^ b)) }

  lemma TableStepIsSerial(crc: bv32, b: bv8)
    ensures TableStep(crc, b) == ByteStep(crc, b)
  {
    hide ByteStep, Shift8, High, Table, Xor;
    ByteSplits(crc, b);
    TableIsSerial(((crc >> 24) as bv8) ^ b);
  }

  lemma {:induction false} RemainderConcat(crc: bv32, a: seq<bv8>, b: seq<bv8>)
    ensures Remainder(crc, a + b) == Remainder(Remainder(crc, a), b)
    decreases a
  {
    hide ByteStep;
    if a == [] {
      assert a + b == b;
    } else {
      assert (a + b)[0] == a[0] && (a + b)[1..] == a[1..] + b;
      RemainderConcat(ByteStep(crc, a[0]), a[1..], b);
    }
  }

  lemma RemainderOneMore(crc: bv32, message: seq<bv8>, b: bv8)
    ensures Remainder(crc, message + [b]) == ByteStep(Remainder(crc, message), b)
  {
    hide ByteStep;
    RemainderConcat(crc, message, [b]);
    assert Remainder(Remainder(crc, message), [b]) == Remainder(ByteStep(Remainder(crc, message), b), []);
  }

  //
  // Checking
  //

  /** The four bytes of a CRC as they follow a section. */
  function Tail(crc: bv32): seq<bv8> {
    [(crc >> 24) as bv8, ((crc >> 16) & 255) as bv8, ((crc >> 8) & 255) as bv8, (crc & 255) as bv8]
  }

  /** No division step makes a nonzero register zero: the generator is odd. */
  lemma ShiftNonzero(x: bv32)
    ensures Shift(x) == 0 <==> x == 0
  {}

  lemma Shift8Nonzero(x: bv32)
    ensures Shift8(x) == 0 <==> x == 0
  {
    hide Shift;
    var a, b, c, d := Shift(x), Shift(Shift(x)), Shift(Shift(Shift(x))), Shift4(x);
    ShiftNonzero(x);
    ShiftNonzero(a);
    ShiftNonzero(b);
    ShiftNonzero(c);
    ShiftNonzero(d);
    ShiftNonzero(Shift(d));
    ShiftNonzero(Shift(Shift(d)));
    ShiftNonzero(Shift(Shift(Shift(d))));
  }

  function TopByte(t: bv32): bv8 { (t >> 24) as bv8 }

  function Up8(t: bv32): bv32 { t << 8 }

  lemma TopParted(crc: bv32, t: bv32)
    ensures Xor(crc, t) == Xor(Xor(crc, High(TopByte(t))), t & 0xff_ffff)
    ensures t & 0xff_ffff < 0x100_0000 && (t & 0xff_ffff) << 8 == Up8(t)
  {
    Split(t);
    Associates(crc, High(TopByte(t)), t & 0xff_ffff);
    hide High, TopByte;
  }

  lemma Split(t: bv32)
    ensures t == Xor(High(TopByte(t)), t & 0xff_ffff)
  {}

  lemma Associates(x: bv32, y: bv32, z: bv32)
    ensures Xor(x, Xor(y, z)) == Xor(Xor(x, y), z)
  {}

  /** The difference between the register and what is still to come only ever gets divided. */
  lemma DifferenceDivides(crc: bv32, t: bv32)
    ensures Shift8(Xor(crc, t)) == Xor(ByteStep(crc, TopByte(t)), Up8(t))
  {
    TopParted(crc, t);
    ShiftLow(t & 0xff_ffff);
    hide ByteStep, Shift8, High, Xor, TopByte, Up8;
    ByteJoins(crc, TopByte(t));
    Shift8Adds(Xor(crc, High(TopByte(t))), t & 0xff_ffff);
  }

  lemma TailBytes(t: bv32)
    ensures Tail(t) == [TopByte(t), TopByte(Up8(t)), TopByte(Up8(Up8(t))), TopByte(Up8(Up8(Up8(t))))]
    ensures Up8(Up8(Up8(Up8(t)))) == 0
  {}

  lemma SameWhenNoDifference(x: bv32, y: bv32)
    ensures Xor(x, y) == 0 <==> x == y
  {}

  /** Four bytes bring the register to zero if and only if they are the register itself. */
  lemma TailCancels(crc: bv32, t: bv32)
    ensures Remainder(crc, Tail(t)) == 0 <==> t == crc
  {
    TailBytes(t);
    SameWhenNoDifference(crc, t);
    hide ByteStep, Shift8, Xor, TopByte, Up8, Tail;
    var c1 := ByteStep(crc, TopByte(t));
    var c2 := ByteStep(c1, TopByte(Up8(t)));
    var c3 := ByteStep(c2, TopByte(Up8(Up8(t))));
    var c4 := ByteStep(c3, TopByte(Up8(Up8(Up8(t)))));
    DifferenceDivides(crc, t);
    DifferenceDivides(c1, Up8(t));
    DifferenceDivides(c2, Up8(Up8(t)));
    DifferenceDivides(c3, Up8(Up8(Up8(t))));
    Shift8Nonzero(Xor(crc, t));
    Shift8Nonzero(Xor(c1, Up8(t)));
    Shift8Nonzero(Xor(c2, Up8(Up8(t))));
    Shift8Nonzero(Xor(c3, Up8(Up8(Up8(t)))));
    ZeroXor(c4);
    FourBytes(crc, Tail(t));
  }

  lemma FourBytes(crc: bv32, s: seq<bv8>)
    requires |s| == 4
    ensures Remainder(crc, s) == ByteStep(ByteStep(ByteStep(ByteStep(crc, s[0]), s[1]), s[2]), s[3])
  {
    hide ByteStep;
    assert s[1..][1..] == s[2..] && s[2..][1..] == s[3..] && s[3..][1..] == [];
    assert Remainder(crc, s) == Remainder(ByteStep(crc, s[0]), s[1..]);
    assert Remainder(ByteStep(ByteStep(crc, s[0]), s[1]), s[2..])
        == Remainder(ByteStep(ByteStep(ByteStep(crc, s[0]), s[1]), s[2]), s[3..]);
    assert forall c :: Remainder(c, s[3..]) == Remainder(ByteStep(c, s[3]), []);
  }

  /** A section passes if and only if it ends in the CRC of what precedes. */
  lemma PassesExactly(message: seq<bv8>, t: bv32)
    ensures Remainder(START, message + Tail(t)) == 0 <==> t == Remainder(START, message)
  {
    hide Remainder, Tail;
    RemainderConcat(START, message, Tail(t));
    TailCancels(Remainder(START, message), t);
  }

  lemma NineSteps()
    ensures ByteStep(START, 0x31) == 0x9efb_cf93 && ByteStep(0x9efb_cf93, 0x32) == 0x3fec_5e6a
    ensures ByteStep(0x3fec_5e6a, 0x33) == 0xd952_f164 && ByteStep(0xd952_f164, 0x34) == 0xa695_c4aa
    ensures ByteStep(0xa695_c4aa, 0x35) == 0xbd9a_b747 && ByteStep(0xbd9a_b747, 0x36) == 0xd8f0_6c8f
    ensures ByteStep(0xd8f0_6c8f, 0x37) == 0x0d8a_14c4 && ByteStep(0x0d8a_14c4, 0x38) == 0x49e3_c2fb
    ensures ByteStep(0x49e3_c2fb, 0x39) == 0x0376_e6e7
  {}

  /** The check value of this CRC, that of "123456789", and how it is written behind a message. */
  lemma CheckValue(s: seq<bv8>)
    requires s == [0x31, 0x32, 0x33, 0x34, 0x35, 0x36, 0x37, 0x38, 0x39]
    ensures Remainder(START, s) == 0x0376_e6e7
    ensures Tail(0x0376_e6e7) == [0x03, 0x76, 0xe6, 0xe7]
  {
    hide ByteStep, Remainder;
    NineSteps();
    RemainderConcat(START, s[..4], s[4..]);
    assert s == s[..4] + s[4..];
    FourBytes(START, s[..4]);
    var rest := s[4..];
    RemainderConcat(0xa695_c4aa, rest[..4], rest[4..]);
    assert rest == rest[..4] + rest[4..];
    FourBytes(0xa695_c4aa, rest[..4]);
    OneByte(0x49e3_c2fb, rest[4..]);
  }

  lemma OneByte(crc: bv32, s: seq<bv8>)
    requires |s| == 1
    ensures Remainder(crc, s) == ByteStep(crc, s[0])
  {
    hide ByteStep;
    assert s[1..] == [];
  }

  //
  // The loops
  //

  /** The loop both ends share. */
  method Divide(data: array<bv8>, length: nat) returns (crc: bv32)
    requires length <= data.Length
    ensures crc == Remainder(START, data[..length])
  {
    hide TableStep, ByteStep;
    crc := START;
    var i := 0;
    while i < length
      invariant 0 <= i <= length && crc == Remainder(START, data[..i])
    {
      TableStepIsSerial(crc, data[i]);
      RemainderOneMore(START, data[..i], data[i]);
      assert data[..i + 1] == data[..i] + [data[i]];
      crc := TableStep(crc, data[i]);
      i := i + 1;
    }
  }

  method Generate(data: array<bv8>, length: nat) returns (crc: bv32)
    requires length <= data.Length
    ensures crc == Remainder(START, data[..length])
  {
    crc := Divide(data, length);
  }

  method Validate(data: array<bv8>, length: nat) returns (ok: bool)
    requires length <= data.Length
    ensures ok <==> Remainder(START, data[..length]) == 0
    ensures length >= 4 ==>
      (ok <==> data[length - 4..length] == Tail(Remainder(START, data[..length - 4])))
  {
    var crc := Divide(data, length);
    ok := crc == 0;
    if length >= 4 {
      TailOf(data[length - 4..length]);
      var t := WordOf(data[length - 4..length]);
      PassesExactly(data[..length - 4], t);
      assert data[..length] == data[..length - 4] + data[length - 4..length];
      TailOneToOne(t, Remainder(START, data[..length - 4]));
    }
  }

  function WordOf(s: seq<bv8>): bv32
    requires |s| == 4
  {
    ((s[0] as bv32) << 24) | ((s[1] as bv32) << 16) | ((s[2] as bv32) << 8) | (s[3] as bv32)
  }

  lemma TailOf(s: seq<bv8>)
    requires |s| == 4
    ensures Tail(WordOf(s)) == s
  {
    assert s == [s[0], s[1], s[2], s[3]];
    BytesOfWord(s[0], s[1], s[2], s[3]);
    hide Tail, WordOf;
  }

  lemma BytesOfWord(a: bv8, b: bv8, c: bv8, d: bv8)
    ensures Tail(WordOf([a, b, c, d])) == [a, b, c, d]
  {}

  lemma TailOneToOne(t: bv32, u: bv32)
    ensures Tail(t) == Tail(u) <==> t == u
  {
    assert WordOf(Tail(t)) == t && WordOf(Tail(u)) == u;
  }
}
