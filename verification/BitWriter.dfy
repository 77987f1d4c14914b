/** The bit writer as it works on memory. */
module BitWriter {
  import opened Arithmetic
  import opened Bytes
  import opened Bitstream

  /** Bitwise or of the low `n` bits. */
  function Or(a: nat, b: nat, n: nat): nat {
    if n == 0 then 0 else Or(a / 2, b / 2, n - 1) * 2 + (if a % 2 == 1 || b % 2 == 1 then 1 else 0)
  }

  lemma {:induction false} OrNothing(b: nat, n: nat)
    requires b < Pow2(n)
    ensures Or(0, b, n) == b
  {
    if n > 0 { OrNothing(b / 2, n - 1); }
  }

  /** Or is addition when the operands have no bit in common. */
  lemma {:induction false} OrDisjoint(a: nat, x: nat, j: nat, n: nat)
    requires a < Pow2(j) && x * Pow2(j) < Pow2(n) && 0 <= x * Pow2(j) && j <= n
    ensures Or(a, x * Pow2(j), n) == x * Pow2(j) + a
    decreases j
  {
    if j == 0 {
      OrNothing(x, n);
    } else {
      var b := x * Pow2(j - 1);
      Times(x, 2, Pow2(j - 1));
      assert x * Pow2(j) == b * 2;
      OrDisjoint(a / 2, x, j - 1, n - 1);
    }
  }

  lemma FieldUp(code: nat, length: nat)
    requires 1 <= length <= 32
    ensures 0 <= code * Pow2(32 - length)
    ensures code * Pow2(32 - length) % TWO_32 == code % Pow2(length) * Pow2(32 - length)
  {
    hide Pow2;
    Pow2Adds(length, 32 - length);
    Pow2Values();
    Monotone(0, code, Pow2(32 - length));
    ShiftedDigits(code, Pow2(length), Pow2(32 - length));
  }

  /** The top byte of the shifted field joins the pending bits; the other bytes of the word are its own. */
  lemma WordBytes(b: Bits, code: nat, length: nat)
    requires ValidBits(b) && 1 <= length <= 32
    ensures var f, w, top := Shifted(b.count, code, length), Word(b, code, length), b.pending * Pow2(8 - b.count);
      && w < TWO_32 && 0 <= top < 256
      && Or(f / 0x100_0000, top, 8) == top + f / 0x100_0000 == w / 0x100_0000
      && w % 0x100_0000 == f % 0x100_0000
  {
    hide Pow2;
    var f, x, k := Shifted(b.count, code, length), b.pending, b.count;
    ShiftedBelow(k, code, length);
    Pow2Adds(8 - k, 24);
    Pow2Adds(k, 8 - k);
    Pow2Values();
    var p := Pow2(8 - k);
    Times(x, p, 0x100_0000);
    QuotientBelow(f / 0x100_0000, f % 0x100_0000, p, 0x100_0000);
    DigitsBelow(x, f / 0x100_0000, Pow2(k), p);
    Monotone(0, x, p);
    OrDisjoint(f / 0x100_0000, x, 8 - k, 8);
    DivUnique(Word(b, code, length), 0x100_0000, x * p + f / 0x100_0000, f % 0x100_0000);
  }

  lemma ShiftedBelow(count: nat, code: nat, length: nat)
    requires 1 <= length <= 32 && count < 8
    ensures Shifted(count, code, length) < Pow2(32 - count)
  {
    hide Pow2;
    Pow2Adds(length, 32 - length);
    Pow2Adds(32 - count, count);
    var up, q := code % Pow2(length) * Pow2(32 - length), Pow2(count);
    DigitsBelow(code % Pow2(length), 0, Pow2(length), Pow2(32 - length));
    ModAtMost(up, q);
    QuotientBelow(up / q, up % q, Pow2(32 - count), q);
  }

  lemma WordSplits(w: nat)
    requires w < TWO_32
    ensures var f := w % 0x100_0000;
      Be32(w) == [w / 0x100_0000, f / 0x1_0000 % 256, f / 0x100 % 256, f % 256]
  {
    var s := Be32(w);
    var a: int, b: int, c: int, d: int := s[0], s[1], s[2], s[3];
    Be32Int32(w);
    assert w == a * 0x100_0000 + b * 0x1_0000 + c * 0x100 + d;
    var f := b * 0x1_0000 + c * 0x100 + d;
    hide Be32;
    DivUnique(w, 0x100_0000, a, f);
    DivUnique(f, 0x1_0000, b, c * 0x100 + d);
    DivUnique(f, 0x100, b * 0x100 + c, d);
    DivUnique(b * 0x100 + c, 0x100, b, c);
    DivUnique(f, 0x100, b * 0x100 + c, d);
    assert s == [a, b, c, d];
  }

  lemma LowBytes(f: nat)
    ensures f / 0x1_0000 % 256 == f % 0x100_0000 / 0x1_0000 % 256
    ensures f / 0x100 % 256 == f % 0x100_0000 / 0x100 % 256
    ensures f % 256 == f % 0x100_0000 % 256
  {
    var q, g := f / 0x100_0000, f % 0x100_0000;
    DivUnique(f, 0x1_0000, q * 0x100 + g / 0x1_0000, g % 0x1_0000);
    DivUnique(f, 0x100, q * 0x1_0000 + g / 0x100, g % 0x100);
    DivUnique(q * 0x1_0000 + g / 0x100, 0x100, q * 0x100 + g / 0x1_0000, g / 0x100 % 256);
    DivUnique(f, 0x100, q * 0x1_0000 + g / 0x100, g % 0x100);
    DivUnique(q * 0x100 + g / 0x1_0000, 0x100, q, g / 0x1_0000);
  }

  /** The shift register: the field at the top of 32 bits, moved back down by the bits already taken. */
  function Register(count: nat, code: nat, length: nat): (f: nat)
    requires 1 <= length <= 32
  {
    FieldUp(code, length);
    ModAtMost(code * Pow2(32 - length) % TWO_32, Pow2(count));
    code * Pow2(32 - length) % TWO_32 / Pow2(count)
  }

  /** The four bytes the writer stores, the last two only past 16 bits, make up the word. */
  lemma RegisterStores(b: Bits, code: nat, length: nat)
    requires ValidBits(b) && 1 <= length <= 32
    ensures var f, top := Register(b.count, code, length), b.pending * Pow2(8 - b.count);
      && 0 <= top < 256 && Word(b, code, length) < TWO_32
      && Be32(Word(b, code, length)) == [Or(f / 0x100_0000, top, 8), f / 0x1_0000 % 256, f / 0x100 % 256, f % 256]
      && (b.count + length <= 16 ==> f / 0x100 % 256 == 0 && f % 256 == 0)
  {
    hide Pow2, Be32, Word, Or;
    WordBytes(b, code, length);
    FieldUp(code, length);
    var f := Register(b.count, code, length);
    assert f == Shifted(b.count, code, length);
    if b.count + length <= 16 { ShortField(b.count, code, length); }
    hide Shifted, Register;
    WordSplits(Word(b, code, length));
    LowBytes(f);
  }

  lemma ShortField(count: nat, code: nat, length: nat)
    requires 1 <= length && count + length <= 16
    ensures Shifted(count, code, length) / 0x100 % 256 == 0 && Shifted(count, code, length) % 256 == 0
  {
    hide Pow2;
    ShiftedFits(count, code, length);
    Pow2Adds(16 - count - length, 16);
    Pow2Adds(8, 8);
    Pow2Values();
    var c, p := code % Pow2(length), Pow2(16 - count - length);
    Monotone(0, c, p);
    Times(c, p, 0x1_0000);
    DivUnique(c * p * 0x1_0000, 0x100, c * p * 0x100, 0);
    DivUnique(c * p * 0x100, 0x100, c * p, 0);
  }

  lemma PutGives(b: Bits, code: nat, length: nat)
    requires ValidBits(b) && 1 <= length <= 32
    ensures var r := Put(b, Kept(b.count, code, length), length);
      && Holds(r, b.whole, Word(b, code, length), b.count + length)
      && r.count == (b.count + length) % 8 && r.pending < Pow2(r.count)
  {
    hide Pow2, Put, Kept, Word, Be32, Number;
    WordIsPut(b, code, length);
    PutShiftsAndAdds(b, Kept(b.count, code, length), length);
  }

  class Writer {
    var data: array<byte>
    var base: nat
    var pos: nat
    var off: nat
    ghost var pending: nat
    ghost var limit: nat

    /** The bits of the last byte in front of `off` are pending, and the memory up to `limit` is zero behind them. */
    ghost predicate Valid()
      reads this, data
    {
      && base <= pos < limit <= data.Length && off < 8 && pending < Pow2(off)
      && data[pos] == pending * Pow2(8 - off)
      && forall i | pos < i < limit :: data[i] == 0
    }

    /** Everything put since `base`. */
    ghost function Written(): Bits
      requires Valid()
      reads this, data
    {
      Bits(data[base..pos], pending, off)
    }

    /** Starts at `at`, in memory that has been cleared. */
    constructor (buf: array<byte>, at: nat, ghost limit: nat)
      requires at < limit <= buf.Length && forall i | at <= i < limit :: buf[i] == 0
      ensures Valid() && data == buf && base == at && this.limit == limit && Written() == Bits([], 0, 0)
    {
      data, base, pos, off := buf, at, at, 0;
      pending, this.limit := 0, limit;
    }

    /** Bytes written, a started one included. */
    method Stop() returns (n: nat)
      requires Valid()
      ensures n == |Written().whole| + if Written().count > 0 then 1 else 0
    {
      n := ((pos - base) * 8 + off + 7) / 8;
    }

    /** The bytes at `pos` become the word with the field in it: three of them, or past 16 bits all four. */
    method PutWord(code: nat, length: nat)
      requires Valid() && 1 <= length <= 32 && pos + 3 <= data.Length && (off + length <= 16 || pos + 4 < limit)
      modifies data
      ensures var w := old(Be32(Word(Written(), code, length)));
        if off + length <= 16 then data[pos..pos + 3] == w[..3] else data[pos..pos + 4] == w
      ensures var past := pos + if off + length <= 16 then 3 else 4;
        forall i | 0 <= i < data.Length && !(pos <= i < past) :: data[i] == old(data[i])
    {
      ghost var b := Written();
      assert data[pos] == b.pending * Pow2(8 - off);
      RegisterStores(b, code, length);
      var f := Register(off, code, length);
      hide Valid, Pow2, Or, Word, Be32, Register;
      data[pos] := Or(f / 0x100_0000, data[pos], 8);
      data[pos + 1] := f / 0x1_0000 % 256;
      data[pos + 2] := 0;
      if length + off > 16 {
        data[pos + 2] := f / 0x100 % 256;
        data[pos + 3] := f % 256;
      }
    }

    /** Appends the low `length` bits of `code`; what would lie past the 32nd bit is lost. */
    method PutBits(code: nat, length: nat)
      requires Valid() && 1 <= length <= 32 && pos + 3 <= data.Length && (off + length <= 16 || pos + 4 < limit)
      modifies this`pos, this`off, this`pending, this`limit, data
      ensures Valid() && Written() == Put(old(Written()), Kept(old(off), code, length), length)
      ensures forall i | 0 <= i < data.Length && !(old(pos) <= i < limit) :: data[i] == old(data[i])
      ensures 8 * pos + off == 8 * old(pos) + old(off) + length && off < 8
      ensures limit == if old(off) + length <= 16 && old(limit) < old(pos) + 3 then old(pos) + 3 else old(limit)
    {
      ghost var b, w := Written(), Word(Written(), code, length);
      ghost var r := Put(b, Kept(off, code, length), length);
      hide Pow2, Put, Kept, Word, Be32, Number, Holds;
      PutGives(b, code, length);
      var n := length + off;
      ghost var lim := if n <= 16 && limit < pos + 3 then pos + 3 else limit;
      assert forall i | pos + 3 <= i < lim :: data[i] == 0;
      assert b.whole == data[base..pos];
      hide Valid;
      PutWord(code, length);
      assert data[base..pos] == b.whole;
      hide Written;
      StoredHolds(b, r, w, n, lim);
      Advance(n, r, lim);
    }

    /** A field that fits in the word with the pending bits is appended whole. */
    method PutField(code: nat, length: nat)
      requires Valid() && 1 <= length && off + length <= 32
      requires pos + 3 <= data.Length && (off + length <= 16 || pos + 4 < limit)
      modifies this`pos, this`off, this`pending, this`limit, data
      ensures Valid() && Written() == Put(old(Written()), code, length)
      ensures forall i | 0 <= i < data.Length && !(old(pos) <= i < limit) :: data[i] == old(data[i])
      ensures 8 * pos + off == 8 * old(pos) + old(off) + length && off < 8
      ensures limit == if old(off) + length <= 16 && old(limit) < old(pos) + 3 then old(pos) + 3 else old(limit)
    {
      PutIsExact(Written(), code, length);
      hide Put, Kept, Pow2;
      PutBits(code, length);
    }

    /** Memory with the word in it holds the bits. */
    lemma StoredHolds(b: Bits, r: Bits, w: nat, n: nat, lim: nat)
      requires base <= pos < lim <= data.Length && b.whole == data[base..pos] && Holds(r, b.whole, w, n)
      requires if n <= 16 then pos + 3 <= lim && data[pos..pos + 3] == Be32(w)[..3]
               else pos + 4 < lim && data[pos..pos + 4] == Be32(w)
      requires forall i | pos + 3 <= i < lim && (i != pos + 3 || n <= 16) :: data[i] == 0
      ensures pos + n / 8 < lim
      ensures r.whole == data[base..pos + n / 8] && data[pos + n / 8] == r.pending * Pow2(8 - r.count)
      ensures forall i | pos + n / 8 < i < lim :: data[i] == 0
    {
      hide Pow2, Be32;
      var s := Be32(w) + [0];
      assert forall i | pos <= i < pos + 3 :: data[i] == s[i - pos];
      if n > 16 {
        assert data[pos + 3] == s[3];
      }
      assert data[base..pos + n / 8] == b.whole + s[..n / 8];
    }

    method Advance(n: nat, ghost r: Bits, ghost lim: nat)
      requires n < 40 && base <= pos && pos + n / 8 < lim <= data.Length
      requires r.count == n % 8 && r.pending < Pow2(r.count) && r.whole == data[base..pos + n / 8]
      requires data[pos + n / 8] == r.pending * Pow2(8 - r.count) && forall i | pos + n / 8 < i < lim :: data[i] == 0
      modifies this`pos, this`off, this`pending, this`limit
      ensures Valid() && Written() == r && pos == old(pos) + n / 8 && off == n % 8 && limit == lim
    {
      hide Pow2;
      pos, off := pos + n / 8, n % 8;
      pending, limit := r.pending, lim;
    }
  }
}
