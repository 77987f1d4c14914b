/** Writing into a stretch of memory. */
module Memory {
  import opened Bytes

  /** Nothing outside `from` to `to` has changed. */
  twostate predicate OnlyWithin(out: array<byte>, from: int, to: int)
    reads out
  {
    forall i | 0 <= i < out.Length && !(from <= i < to) :: out[i] == old(out[i])
  }

  method CopyBytes(out: array<byte>, at: nat, s: seq<byte>)
    requires at + |s| <= out.Length
    modifies out
    ensures out[at..at + |s|] == s && OnlyWithin(out, at, at + |s|)
  {
    var i := 0;
    while i < |s|
      invariant 0 <= i <= |s| && out[at..at + i] == s[..i] && OnlyWithin(out, at, at + i)
    {
      out[at + i] := s[i];
      i := i + 1;
    }
  }

  lemma Joins(out: array<byte>, from: nat, mid: nat, to: nat)
    requires from <= mid <= to <= out.Length
    ensures out[from..to] == out[from..mid] + out[mid..to]
  {}

  lemma Inside(out: array<byte>, at: nat, n: nat, i: nat, j: nat)
    requires i <= j <= n && at + n <= out.Length
    ensures out[at..at + n][i..j] == out[at + i..at + j]
  {
    SliceOfSlice(out[..], at, n, i, j);
    assert out[..][at..at + n] == out[at..at + n] && out[..][at + i..at + j] == out[at + i..at + j];
  }

  /** Room for `count` entries is made sixteen at a time, and never taken back but on a multiple of sixteen. */
  predicate Roomy(count: nat, length: nat) {
    count <= length && (count % 16 != 0 ==> count / 16 * 16 + 16 <= length)
  }

  /** The array with room for one entry more: on a multiple of sixteen a new one, of sixteen more than that. */
  method Grown<T>(a: array<T>, count: nat, filler: T) returns (b: array<T>)
    requires Roomy(count, a.Length)
    ensures (b == a || fresh(b)) && count < b.Length && Roomy(count + 1, b.Length)
    ensures b[..count] == a[..count]
  {
    if count % 16 != 0 { return a; }
    b := new T[count + 16](_ => filler);
    var i := 0;
    while i < count
      invariant 0 <= i <= count && b[..i] == a[..i]
      modifies b
    {
      b[i] := a[i];
      i := i + 1;
    }
  }
}
