/** Octets, big- and little-endian integers, and concatenation of byte strings. */
module Bytes {
  import opened Arithmetic

  type byte = b: int | 0 <= b < 256

  const TWO_24 := 0x100_0000
  const TWO_32 := 0x1_0000_0000

  datatype Option<+T> = None | Some(value: T)

  function Min(a: int, b: int): int { if a < b then a else b }

  /** The low 16 bits of `v`, most significant octet first. */
  function Be16(v: int): seq<byte> { [v / 0x100 % 256, v % 256] }

  function Be24(v: int): seq<byte> { [v / 0x1_0000 % 256, v / 0x100 % 256, v % 256] }

  function Be32(v: int): (s: seq<byte>)
    ensures |s| == 4
  {
    [v / 0x100_0000 % 256, v / 0x1_0000 % 256, v / 0x100 % 256, v % 256]
  }

  function Le32(v: int): seq<byte> {
    [v % 256, v / 0x100 % 256, v / 0x1_0000 % 256, v / 0x100_0000 % 256]
  }

  /** Octets as digits to the base 256, highest first. */
  function Number2(a: int, b: int): int { 256 * a + b }

  function Number3(a: int, b: int, c: int): int { 65536 * a + 256 * b + c }

  function Number4(a: int, b: int, c: int, d: int): int { 16777216 * a + 65536 * b + 256 * c + d }

  function Int16(s: seq<byte>): nat
    requires |s| >= 2
  {
    var hi: int, lo: int := s[0], s[1];
    hi * 0x100 + lo
  }

  function Int24(s: seq<byte>): nat
    requires |s| >= 3
  {
    var hi: int, mid: int, lo: int := s[0], s[1], s[2];
    hi * 0x1_0000 + mid * 0x100 + lo
  }

  function Int32(s: seq<byte>): nat
    requires |s| >= 4
  {
    var a: int, b: int, c: int, d: int := s[0], s[1], s[2], s[3];
    a * 0x100_0000 + b * 0x1_0000 + c * 0x100 + d
  }

  /** A little-endian 32-bit two's-complement integer. */
  function SignedLe32(s: seq<byte>): int
    requires |s| >= 4
  {
    var a: int, b: int, c: int, d: int := s[0], s[1], s[2], s[3];
    var u := d * 0x100_0000 + c * 0x1_0000 + b * 0x100 + a;
    if u < 0x8000_0000 then u else u - TWO_32
  }

  lemma Be16Int16(v: int)
    requires 0 <= v < 0x1_0000
    ensures Int16(Be16(v)) == v
  {}

  lemma Be24Int24(v: nat)
    ensures Int24(Be24(v)) == v % TWO_24
  {
    var a, b := v / 0x100, v / 0x1_0000;
    assert v == a * 256 + v % 256 && a == b * 256 + a % 256;
    assert b == b / 256 * 256 + b % 256;
    DivUnique(v, TWO_24, b / 256, b % 256 * 0x1_0000 + a % 256 * 0x100 + v % 256);
  }

  lemma Be32Int32(v: nat)
    requires v < TWO_32
    ensures Int32(Be32(v)) == v
  {
    var v1 := v / 256;
    var v2 := v1 / 256;
    var v3 := v2 / 256;
    DivUnique(v, 0x1_0000, v2, v1 % 256 * 256 + v % 256);
    DivUnique(v, 0x100_0000, v3, v2 % 256 * 0x1_0000 + v1 % 256 * 256 + v % 256);
    assert v3 < 256;
  }

  function Flatten<T>(parts: seq<seq<T>>): seq<T> {
    if parts == [] then [] else parts[0] + Flatten(parts[1..])
  }

  lemma {:induction false} FlattenConcat<T>(a: seq<seq<T>>, b: seq<seq<T>>)
    ensures Flatten(a + b) == Flatten(a) + Flatten(b)
  {
    if a == [] {
      assert a + b == b;
    } else {
      assert (a + b)[0] == a[0] && (a + b)[1..] == a[1..] + b;
      FlattenConcat(a[1..], b);
      assert a[0] + (Flatten(a[1..]) + Flatten(b)) == Flatten(a) + Flatten(b);
    }
  }

  lemma Regrouped<T>(a: seq<T>, b: seq<T>, c: seq<T>)
    ensures a + (b + c) == a + b + c
  {}

  lemma SliceOfSlice<T>(s: seq<T>, at: nat, n: nat, i: nat, j: nat)
    requires i <= j <= n && at + n <= |s|
    ensures s[at..at + n][i..j] == s[at + i..at + j]
  {
    var t, u, v := s[at..at + n], s[at..at + n][i..j], s[at + i..at + j];
    assert forall k | 0 <= k < j - i :: u[k] == t[i + k] == s[at + (i + k)] == v[k];
  }
}
