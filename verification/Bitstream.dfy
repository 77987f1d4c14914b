/** A writer of big-endian bit fields (CBitstream). */
module Bitstream {
  import opened Arithmetic
  import opened Bytes

  function Pow2(n: nat): (p: nat)
    ensures p >= 1
  {
    if n == 0 then 1 else 2 * Pow2(n - 1)
  }

  lemma {:induction false} Pow2Adds(m: nat, n: nat)
    ensures Pow2(m + n) == Pow2(m) * Pow2(n)
  {
    if m > 0 {
      Pow2Adds(m - 1, n);
      Times(2, Pow2(m - 1), Pow2(n));
    }
  }

  lemma Times(a: int, b: int, c: int)
    ensures a * (b * c) == a * b * c
  {}

  lemma Pow2Values()
    ensures Pow2(0) == 1 && Pow2(8) == 256 && Pow2(24) == 0x100_0000 && Pow2(32) == TWO_32
  {
    Pow2Adds(8, 8);
    Pow2Adds(16, 8);
    Pow2Adds(24, 8);
  }

  /** Whole bytes, and behind them `count` bits, fewer than eight, of the value `pending`. */
  datatype Bits = Bits(whole: seq<byte>, pending: nat, count: nat)

  predicate ValidBits(b: Bits) { b.count < 8 && b.pending < Pow2(b.count) }

  /** Cuts whole bytes off the front of a word of `count` bits. */
  function Pack(whole: seq<byte>, word: nat, count: nat): (b: Bits)
    decreases count
  {
    if count < 8 then Bits(whole, word, count)
    else Pack(whole + [word / Pow2(count - 8) % 256], word % Pow2(count - 8), count - 8)
  }

  /** Appends the low `length` bits of `code`, most significant first. */
  function Put(b: Bits, code: nat, length: nat): Bits {
    Pack(b.whole, b.pending * Pow2(length) + code % Pow2(length), b.count + length)
  }

  /** All bits as one number. */
  function Number(b: Bits): nat { NumberOf(b.whole) * Pow2(b.count) + b.pending }

  function NumberOf(s: seq<byte>): nat {
    if s == [] then 0
    else
      var last: int := s[|s| - 1];
      NumberOf(s[..|s| - 1]) * 256 + last
  }

  lemma {:induction false} PackKeepsNumber(whole: seq<byte>, word: nat, count: nat)
    requires word < Pow2(count)
    ensures ValidBits(Pack(whole, word, count))
    ensures Number(Pack(whole, word, count)) == NumberOf(whole) * Pow2(count) + word
    ensures 8 * |Pack(whole, word, count).whole| + Pack(whole, word, count).count == 8 * |whole| + count
    decreases count
  {
    if count >= 8 {
      Pow2Adds(8, count - 8);
      Pow2Values();
      HighByte(word, Pow2(count - 8));
      var high: byte, low := word / Pow2(count - 8) % 256, word % Pow2(count - 8);
      assert Pack(whole, word, count) == Pack(whole + [high], low, count - 8);
      hide Pow2, Pack, NumberOf, Number;
      PackKeepsNumber(whole + [high], low, count - 8);
      NumberOfOneMore(whole, high);
      Regroup(NumberOf(whole), 256, Pow2(count - 8), high, low);
    }
  }

  lemma NumberOfOneMore(s: seq<byte>, b: byte)
    ensures NumberOf(s + [b]) == NumberOf(s) * 256 + b
  {
    assert (s + [b])[..|s|] == s;
  }

  lemma HighByte(word: nat, p: nat)
    requires p >= 1 && word < 256 * p
    ensures word == word / p % 256 * p + word % p
  {
    QuotientBelow(word / p, word % p, 256, p);
  }

  /** Putting a field shifts the number left by its width and adds its value. */
  lemma PutShiftsAndAdds(b: Bits, code: nat, length: nat)
    requires ValidBits(b)
    ensures var r := Put(b, code, length);
      && ValidBits(r)
      && Number(r) == Number(b) * Pow2(length) + code % Pow2(length)
      && 8 * |r.whole| + r.count == 8 * |b.whole| + b.count + length
  {
    hide Pow2, Pack;
    var p, c := Pow2(length), code % Pow2(length);
    Pow2Adds(b.count, length);
    DigitsBelow(b.pending, c, Pow2(b.count), p);
    PackKeepsNumber(b.whole, b.pending * p + c, b.count + length);
    Regroup(NumberOf(b.whole), Pow2(b.count), p, b.pending, c);
  }

  //
  // The 32-bit word the writer shifts a field into
  //

  /** The field moved up to the top of the word and back down behind the pending bits. */
  function Shifted(count: nat, code: nat, length: nat): nat
    requires 1 <= length <= 32
  {
    var up := code % Pow2(length) * Pow2(32 - length);
    Monotone(0, code % Pow2(length), Pow2(32 - length));
    ModAtMost(up, Pow2(count));
    up / Pow2(count)
  }

  /** The word with the pending bits in front. */
  function Word(b: Bits, code: nat, length: nat): nat
    requires 1 <= length <= 32 && b.count < 8
  {
    Monotone(0, b.pending, Pow2(32 - b.count));
    b.pending * Pow2(32 - b.count) + Shifted(b.count, code, length)
  }

  /** The field as far as it fits: what would lie past the 32nd bit is cleared. */
  function Kept(count: nat, code: nat, length: nat): nat {
    var c := code % Pow2(length);
    if count + length <= 32 then c
    else
      ModAtMost(c, Pow2(count + length - 32));
      c - c % Pow2(count + length - 32)
  }

  lemma ShiftedFits(count: nat, code: nat, length: nat)
    requires 1 <= length <= 32 && count + length <= 32
    ensures Shifted(count, code, length) == code % Pow2(length) * Pow2(32 - count - length)
  {
    Pow2Adds(32 - count - length, count);
    var c, p, q := code % Pow2(length), Pow2(32 - count - length), Pow2(count);
    hide Pow2;
    Times(c, p, q);
    DivUnique(c * p * q, q, c * p, 0);
  }

  lemma ShiftedDrops(count: nat, code: nat, length: nat)
    requires 1 <= length <= 32 < count + length
    ensures Shifted(count, code, length) == code % Pow2(length) / Pow2(count + length - 32)
  {
    Pow2Adds(count + length - 32, 32 - length);
    var c, p, q := code % Pow2(length), Pow2(32 - length), Pow2(count + length - 32);
    hide Pow2;
    Cancel(c, p, q);
  }

  lemma Cancel(c: nat, p: nat, q: nat)
    requires p >= 1 && q >= 1
    ensures q * p >= 1 && c * p / (q * p) == c / q
  {
    ProductAtLeast(q, p);
    var k, r := c / q, c % q;
    assert c == k * q + r;
    Monotone(r, q - 1, p);
    Distribute(q, 1, p);
    Monotone(0, r, p);
    Distribute(k * q, r, p);
    Times(k, q, p);
    DivUnique(c * p, q * p, k, r * p);
  }

  /** The top byte of a left-aligned word is the first byte packed, and the word shifted up is the rest. */
  lemma TopByte(v: nat, n: nat, h: byte, l: nat)
    requires 8 <= n <= 32 && v == h * Pow2(n - 8) + l && l < Pow2(n - 8)
    ensures var w := v * Pow2(32 - n);
      && 0 <= w < TWO_32
      && h == w / 0x100_0000
      && l < Pow2(n - 8) && l * Pow2(40 - n) == w % 0x100_0000 * 256
  {
    hide Pow2;
    Pow2Adds(8, n - 8);
    Pow2Adds(n - 8, 32 - n);
    Pow2Adds(8, 32 - n);
    Pow2Values();
    var p, q := Pow2(n - 8), Pow2(32 - n);
    TopDigit(v, h, l, p, q);
    Times(l, 256, q);
  }

  lemma TopDigit(v: nat, h: byte, l: nat, p: nat, q: nat)
    requires v == h * p + l && l < p && p * q == 0x100_0000
    ensures v * q / 0x100_0000 == h && v * q % 0x100_0000 == l * q && 0 <= v * q < TWO_32
  {
    Distribute(h * p, l, q);
    Times(h, p, q);
    Monotone(l, p - 1, q);
    Monotone(0, l, q);
    Distribute(p, 1, q);
    assert q >= 1;
    DivUnique(v * q, 0x100_0000, h, l * q);
  }

  lemma Be32Digits(a: int, b: int, c: int, d: int)
    requires 0 <= a < 256 && 0 <= b < 256 && 0 <= c < 256 && 0 <= d < 256
    ensures Be32(a * 0x100_0000 + b * 0x1_0000 + c * 0x100 + d) == [a, b, c, d]
  {
    var w := a * 0x100_0000 + b * 0x1_0000 + c * 0x100 + d;
    DivUnique(w, 0x100, a * 0x1_0000 + b * 0x100 + c, d);
    DivUnique(w, 0x1_0000, a * 0x100 + b, c * 0x100 + d);
    DivUnique(w, 0x100_0000, a, b * 0x1_0000 + c * 0x100 + d);
    DivUnique(a * 0x1_0000 + b * 0x100 + c, 0x100, a * 0x100 + b, c);
    DivUnique(a * 0x100 + b, 0x100, a, b);
  }

  lemma BytesShiftUp(w: nat)
    requires w < TWO_32
    ensures Be32(w % 0x100_0000 * 256) == Be32(w)[1..] + [0]
  {
    var s := Be32(w);
    var a: int, b: int, c: int, d: int := s[0], s[1], s[2], s[3];
    Be32Int32(w);
    assert w == a * 0x100_0000 + b * 0x1_0000 + c * 0x100 + d;
    hide Be32;
    DivUnique(w, 0x100_0000, a, b * 0x1_0000 + c * 0x100 + d);
    assert w % 0x100_0000 * 256 == b * 0x100_0000 + c * 0x1_0000 + d * 0x100 + 0;
    Be32Digits(b, c, d, 0);
    assert s[1..] + [0] == [b, c, d, 0];
  }

  /** The bytes of a left-aligned word, and a zero behind them. */
  function Aligned(v: nat, n: nat): (s: seq<byte>)
    requires n <= 32
    ensures |s| == 5
  {
    Be32(v * Pow2(32 - n)) + [0]
  }

  /** Packing up to 32 bits gives the bytes of the left-aligned word. */
  lemma {:induction false} PackWord(whole: seq<byte>, v: nat, n: nat)
    requires n <= 32 && v < Pow2(n)
    ensures var b, s := Pack(whole, v, n), Aligned(v, n);
      && b.whole == whole + s[..n / 8] && b.count == n % 8
      && b.pending * Pow2(8 - n % 8) == s[n / 8]
      && forall i | n / 8 < i < 5 :: s[i] == 0
    decreases n
  {
    hide Pow2;
    if n < 8 {
      Pow2Adds(8 - n, 24);
      Pow2Adds(n, 8 - n);
      Pow2Values();
      LastByte(whole, v, n);
      assert whole + Aligned(v, n)[..0] == whole;
    } else {
      var h: byte, l := v / Pow2(n - 8) % 256, v % Pow2(n - 8);
      assert Pack(whole, v, n) == Pack(whole + [h], l, n - 8);
      Pow2Adds(8, n - 8);
      Pow2Values();
      HighByte(v, Pow2(n - 8));
      TopByte(v, n, h, l);
      AlignedStep(v, n, h, l);
      hide Pow2, Pack, Aligned;
      PackWord(whole + [h], l, n - 8);
      var s, t := Aligned(v, n), Aligned(l, n - 8);
      assert n / 8 == (n - 8) / 8 + 1 && n % 8 == (n - 8) % 8;
      assert whole + [h] + t[..n / 8 - 1] == whole + s[..n / 8];
    }
  }

  lemma AlignedStep(v: nat, n: nat, h: byte, l: nat)
    requires 8 <= n <= 32 && l < Pow2(n - 8)
    requires var w := v * Pow2(32 - n);
      0 <= w < TWO_32 && h == w / 0x100_0000 && l * Pow2(40 - n) == w % 0x100_0000 * 256
    ensures Aligned(v, n)[0] == h && forall i | 1 <= i < 5 :: Aligned(v, n)[i] == Aligned(l, n - 8)[i - 1]
  {
    hide Pow2;
    BytesShiftUp(v * Pow2(32 - n));
    var w := v * Pow2(32 - n);
    assert Be32(w)[0] == w / 0x100_0000;
    hide Be32;
    assert Aligned(l, n - 8) == Be32(w)[1..] + [0] + [0];
    assert Aligned(v, n) == Be32(w) + [0];
  }

  lemma LastByte(whole: seq<byte>, v: nat, n: nat)
    requires n < 8 && v < Pow2(n)
    requires Pow2(32 - n) == Pow2(8 - n) * 0x100_0000 && Pow2(n) * Pow2(8 - n) == 256
    ensures var s := Aligned(v, n);
      s[0] == v * Pow2(8 - n) && s[1] == 0 && s[2] == 0 && s[3] == 0
  {
    hide Pow2;
    var top := v * Pow2(8 - n);
    Monotone(v, Pow2(n) - 1, Pow2(8 - n));
    Distribute(Pow2(n), 1, Pow2(8 - n));
    Monotone(0, v, Pow2(8 - n));
    Times(v, Pow2(8 - n), 0x100_0000);
    assert v * Pow2(32 - n) == top * 0x100_0000;
    DivUnique(top * 0x100_0000, 0x1_0000, top * 256, 0);
    DivUnique(top * 0x100_0000, 0x100, top * 0x1_0000, 0);
  }

  /** Whole bytes pack the same when up to seven zero bits follow. */
  lemma {:induction false} PackZeros(whole: seq<byte>, v: nat, n: nat, d: nat)
    requires n % 8 == 0 && v < Pow2(n) && d < 8
    ensures 0 <= v * Pow2(d)
    ensures Pack(whole, v * Pow2(d), n + d) == Bits(Pack(whole, v, n).whole, 0, d)
    decreases n
  {
    if n == 0 {
      assert v == 0;
    } else {
      hide Pow2;
      Monotone(0, v, Pow2(d));
      Pow2Adds(n - 8, d);
      var p, q, h: byte, l := Pow2(n - 8), Pow2(d), v / Pow2(n - 8) % 256, v % Pow2(n - 8);
      ShiftedDigits(v, p, q);
      assert Pack(whole, v * q, n + d) == Pack(whole + [h], l * q, n + d - 8);
      assert Pack(whole, v, n) == Pack(whole + [h], l, n - 8);
      hide Pack;
      PackZeros(whole + [h], l, n - 8, d);
    }
  }

  lemma ShiftedDigits(v: nat, p: nat, q: nat)
    requires p >= 1 && q >= 1
    ensures p * q >= 1 && v % p < p
    ensures v * q / (p * q) == v / p && v * q % (p * q) == v % p * q
  {
    var h, l := v / p, v % p;
    assert v == h * p + l;
    ProductAtLeast(p, q);
    Distribute(h * p, l, q);
    Times(h, p, q);
    Monotone(l, p - 1, q);
    Monotone(0, l, q);
    Distribute(p, 1, q);
    DivUnique(v * q, p * q, h, l * q);
  }

  /** `r` is `whole` followed by the first `n` bits of the word `w`, and the word is zero behind them. */
  ghost predicate Holds(r: Bits, whole: seq<byte>, w: nat, n: nat) {
    var s := Be32(w) + [0];
    && w < TWO_32 && n < 40
    && r.whole == whole + s[..n / 8] && r.count == n % 8
    && r.pending * Pow2(8 - n % 8) == s[n / 8]
    && forall i | n / 8 < i < 5 :: s[i] == 0
  }

  /** What the writer leaves behind: the bytes of the word, cut at the bit the next field starts at. */
  lemma WordIsPut(b: Bits, code: nat, length: nat)
    requires ValidBits(b) && 1 <= length <= 32
    ensures Holds(Put(b, Kept(b.count, code, length), length), b.whole, Word(b, code, length), b.count + length)
  {
    hide Holds;
    if b.count + length <= 32 {
      InsideIsPut(b, code, length);
    } else {
      PastIsPut(b, code, length);
    }
  }

  lemma PutKept(b: Bits, code: nat, length: nat)
    ensures Put(b, Kept(b.count, code, length), length)
         == Pack(b.whole, b.pending * Pow2(length) + Kept(b.count, code, length), b.count + length)
  {
    hide Pow2, Pack;
    KeptIsLow(b.count, code, length);
  }

  lemma InsideIsPut(b: Bits, code: nat, length: nat)
    requires ValidBits(b) && 1 <= length && b.count + length <= 32
    ensures Holds(Put(b, Kept(b.count, code, length), length), b.whole, Word(b, code, length), b.count + length)
  {
    PutKept(b, code, length);
    WordInside(b, code, length);
    hide Pow2, Pack, Put, Word, Kept, Holds;
    PackHolds(b.whole, b.pending * Pow2(length) + Kept(b.count, code, length), b.count + length);
  }

  lemma PackHolds(whole: seq<byte>, v: nat, n: nat)
    requires n <= 32 && v < Pow2(n) && 0 <= v * Pow2(32 - n) < TWO_32
    ensures Holds(Pack(whole, v, n), whole, v * Pow2(32 - n), n)
  {
    hide Pow2, Pack, Be32;
    PackWord(whole, v, n);
  }

  lemma PastIsPut(b: Bits, code: nat, length: nat)
    requires ValidBits(b) && 1 <= length <= 32 < b.count + length
    ensures Holds(Put(b, Kept(b.count, code, length), length), b.whole, Word(b, code, length), b.count + length)
  {
    PutKept(b, code, length);
    WordPast(b, code, length);
    hide Pow2, Pack, Shifted, Be32, Put, Word, Kept;
    Pow2Values();
    var d := b.count + length - 32;
    PackZeros(b.whole, Word(b, code, length), 32, d);
    PackFull(b.whole, Word(b, code, length));
    assert 0 * Pow2(8 - d) == 0;
  }

  lemma PackFull(whole: seq<byte>, w: nat)
    requires w < TWO_32
    ensures Pack(whole, w, 32).whole == whole + (Be32(w) + [0])[..4]
  {
    hide Pow2, Pack, Be32;
    Pow2Values();
    PackWord(whole, w, 32);
  }

  lemma KeptIsLow(count: nat, code: nat, length: nat)
    ensures Kept(count, code, length) % Pow2(length) == Kept(count, code, length)
  {
    hide Pow2;
    var c := code % Pow2(length);
    assert c % Pow2(length) == c;
    if count + length > 32 {
      ModAtMost(c, Pow2(count + length - 32));
      DivUnique(Kept(count, code, length), Pow2(length), 0, Kept(count, code, length));
    } else {
      DivUnique(c, Pow2(length), 0, c);
    }
  }

  lemma WordInside(b: Bits, code: nat, length: nat)
    requires ValidBits(b) && 1 <= length && b.count + length <= 32
    ensures var n, c := b.count + length, code % Pow2(length);
      && 0 <= b.pending * Pow2(length) + c < Pow2(n)
      && Kept(b.count, code, length) == c
      && Word(b, code, length) == (b.pending * Pow2(length) + c) * Pow2(32 - n)
      && 0 <= Word(b, code, length) < TWO_32
  {
    var n, c := b.count + length, code % Pow2(length);
    hide Pow2;
    ShiftedFits(b.count, code, length);
    Pow2Adds(length, 32 - n);
    Pow2Adds(b.count, length);
    Pow2Adds(n, 32 - n);
    Pow2Values();
    var p, q := Pow2(length), Pow2(32 - n);
    DigitsBelow(b.pending, c, Pow2(b.count), p);
    Distribute(b.pending * p, c, q);
    Times(b.pending, p, q);
    DigitsBelow(b.pending * p + c, 0, Pow2(n), q);
  }

  lemma WordPast(b: Bits, code: nat, length: nat)
    requires ValidBits(b) && 1 <= length <= 32 < b.count + length
    ensures var d := b.count + length - 32;
      && 0 <= Word(b, code, length) < TWO_32
      && b.pending * Pow2(length) + Kept(b.count, code, length) == Word(b, code, length) * Pow2(d)
  {
    var d, c := b.count + length - 32, code % Pow2(length);
    hide Pow2;
    ShiftedDrops(b.count, code, length);
    Pow2Adds(32 - b.count, d);
    Pow2Adds(b.count, 32 - b.count);
    Pow2Values();
    WordDigits(b.pending, Pow2(b.count), Pow2(32 - b.count), Pow2(d), c);
  }

  lemma WordDigits(x: nat, a: nat, p: nat, q: nat, c: nat)
    requires x < a && p >= 1 && q >= 1 && c < p * q
    ensures 0 <= x * p + c / q < a * p
    ensures x * (p * q) + (c - c % q) == (x * p + c / q) * q
  {
    var k, r := c / q, c % q;
    ModAtMost(c, q);
    assert c == k * q + r;
    QuotientBelow(k, r, p, q);
    DigitsBelow(x, k, a, p);
    Regroup(x, p, q, k, 0);
  }

  /** Nothing is lost if and only if the bits past the 32nd are zero. */
  lemma PutIsExact(b: Bits, code: nat, length: nat)
    requires ValidBits(b) && 1 <= length <= 32
    ensures Put(b, Kept(b.count, code, length), length) == Put(b, code, length)
       <==> b.count + length <= 32 || code % Pow2(length) % Pow2(b.count + length - 32) == 0
  {
    hide Pow2, Pack;
    KeptIsLow(b.count, code, length);
    PutShiftsAndAdds(b, code, length);
    PutShiftsAndAdds(b, Kept(b.count, code, length), length);
  }
}
