/** The corrected block TEA decoder, and the encoder it undoes. */
module Tea {
  import opened Arithmetic
  import opened Bytes

  const DELTA := 0x9e37_79b9

  /** A 32-bit word. */
  type word = w: int | 0 <= w < TWO_32

  type Key = k: seq<word> | |k| == 4 witness [0, 0, 0, 0]

  /** Which key word a step uses: the low bits of the position, mixed with those of the round. */
  function KeyIndex(p: nat, e: nat): (i: nat)
    requires e < 4
    ensures i < 4
  {
    (((p % 4) as bv2) ^ (e as bv2)) as nat
  }

  /** The mixing of the two neighbours of word `p`. */
  function Mx(z: word, y: word, sum: word, k: Key, p: nat): word {
    MxBits(z as bv32, y as bv32, sum as bv32, k[KeyIndex(p, sum / 4 % 4)] as bv32) as int
  }

  function MxBits(z: bv32, y: bv32, sum: bv32, k: bv32): bv32 {
    (((z >> 5) ^ (y << 2)) + ((y >> 3) ^ (z << 4))) ^ ((sum ^ y) + (k ^ z))
  }

  function Before(p: nat, n: nat): nat
    requires p < n
  {
    if p == 0 then n - 1 else p - 1
  }

  function After(p: nat, n: nat): nat
    requires p < n
  {
    if p == n - 1 then 0 else p + 1
  }

  /** Addition and subtraction wrap around. */
  function Plus(a: word, b: word): word { (a + b) % TWO_32 }

  function Minus(a: word, b: word): word { (a - b) % TWO_32 }

  function MxAt(v: seq<word>, p: nat, sum: word, k: Key): word
    requires p < |v|
  {
    Mx(v[Before(p, |v|)], v[After(p, |v|)], sum, k, p)
  }

  //
  // Encoding, as the reference does it
  //

  function Mixed(w: seq<word>, p: nat, sum: word, k: Key): (x: seq<word>)
    requires p < |w|
    ensures |x| == |w|
  {
    w[p := Plus(w[p], MxAt(w, p, sum, k))]
  }

  function Unmixed(w: seq<word>, p: nat, sum: word, k: Key): (x: seq<word>)
    requires p < |w|
    ensures |x| == |w|
  {
    w[p := Minus(w[p], MxAt(w, p, sum, k))]
  }

  /** Words 0 to `p` of a round, each mixed with its neighbours. */
  function EncodeUpTo(v: seq<word>, p: nat, sum: word, k: Key): (w: seq<word>)
    requires p <= |v|
    ensures |w| == |v|
  {
    if p == 0 then v
    else
      var w := EncodeUpTo(v, p - 1, sum, k);
      Mixed(w, p - 1, sum, k)
  }

  function SumAfter(rounds: nat): (s: word)
  {
    rounds * DELTA % TWO_32
  }

  function EncodeRounds(v: seq<word>, rounds: nat, k: Key): (w: seq<word>)
    ensures |w| == |v|
  {
    if rounds == 0 then v
    else
      var w := EncodeRounds(v, rounds - 1, k);
      EncodeUpTo(w, |w|, SumAfter(rounds), k)
  }

  function Rounds(n: nat): nat
    requires n > 0
  {
    6 + 52 / n
  }

  function Encode(v: seq<word>, k: Key): seq<word>
    requires v != []
  {
    EncodeRounds(v, Rounds(|v|), k)
  }

  //
  // Decoding
  //

  /** Words `p` - 1 down to 0 of a round. */
  function DecodeDown(v: seq<word>, p: nat, sum: word, k: Key): (w: seq<word>)
    requires p <= |v|
    ensures |w| == |v|
    decreases p
  {
    if p == 0 then v else DecodeDown(Unmixed(v, p - 1, sum, k), p - 1, sum, k)
  }

  function DecodeRounds(v: seq<word>, rounds: nat, k: Key): (w: seq<word>)
    ensures |w| == |v|
    decreases rounds
  {
    if rounds == 0 then v else DecodeRounds(DecodeDown(v, |v|, SumAfter(rounds), k), rounds - 1, k)
  }

  function Decode(v: seq<word>, k: Key): seq<word>
    requires v != []
  {
    DecodeRounds(v, Rounds(|v|), k)
  }

  //
  // Decoding undoes encoding
  //

  lemma Undone(a: word, m: word)
    ensures Minus(Plus(a, m), m) == a
  {
    if a + m < TWO_32 {
      assert Plus(a, m) == a + m;
    } else {
      assert Plus(a, m) == a + m - TWO_32;
      DivUnique(a - TWO_32, TWO_32, -1, a);
    }
  }

  /** A step mixes in the neighbours only, so with two words or more it can be taken back. */
  lemma StepUndone(w: seq<word>, p: nat, sum: word, k: Key)
    requires p < |w| && |w| >= 2
    ensures Unmixed(Mixed(w, p, sum, k), p, sum, k) == w
  {
    hide Mx, Plus, Minus;
    Undone(w[p], MxAt(w, p, sum, k));
    var x := Mixed(w, p, sum, k);
    assert MxAt(x, p, sum, k) == MxAt(w, p, sum, k);
    assert x[p := w[p]] == w;
  }

  /** One word is its own neighbour, and the step that was mixed in is not the one taken out again. */
  lemma OneWordNotUndone()
    ensures var k: Key := [0, 0, 0, 0];
      Mixed([1], 0, 0, k) == [23] && Unmixed([23], 0, 0, k) == [TWO_32 - 457]
  {
    var k: Key := [0, 0, 0, 0];
    assert k[KeyIndex(0, 0)] == 0;
    assert MxBits(1, 1, 0, 0) == 22 && MxBits(23, 23, 0, 0) == 480;
    assert (1 as bv32) == 1 && (23 as bv32) == 23 && (0 as bv32) == 0;
    assert Mx(1, 1, 0, k, 0) == 22 && Mx(23, 23, 0, k, 0) == 480;
    DivUnique(23 - 480, TWO_32, -1, TWO_32 - 457);
  }

  lemma {:induction false} RoundUndone(v: seq<word>, p: nat, sum: word, k: Key)
    requires p <= |v| && |v| >= 2
    ensures DecodeDown(EncodeUpTo(v, p, sum, k), p, sum, k) == v
  {
    hide Mixed, Unmixed;
    if p > 0 {
      StepUndone(EncodeUpTo(v, p - 1, sum, k), p - 1, sum, k);
      RoundUndone(v, p - 1, sum, k);
    }
  }

  lemma {:induction false} RoundsUndone(v: seq<word>, rounds: nat, k: Key)
    requires |v| >= 2
    ensures DecodeRounds(EncodeRounds(v, rounds, k), rounds, k) == v
  {
    hide EncodeUpTo, DecodeDown;
    if rounds > 0 {
      var w := EncodeRounds(v, rounds - 1, k);
      RoundUndone(w, |w|, SumAfter(rounds), k);
      RoundsUndone(v, rounds - 1, k);
    }
  }

  /** For every key, and every text of two words or more. */
  lemma DecodeUndoesEncode(v: seq<word>, k: Key)
    requires |v| >= 2
    ensures Decode(Encode(v, k), k) == v
  {
    RoundsUndone(v, Rounds(|v|), k);
  }

  //
  // By number
  //

  /** The exclusive or of two numbers below four: their sum in each of the two bits, with nothing carried. */
  lemma KeyIndexBits(p: nat, e: nat)
    requires e < 4
    ensures KeyIndex(p, e) % 2 == (p + e) % 2 && KeyIndex(p, e) / 2 == (p / 2 + e / 2) % 2
  {
    var n, q := p / 4, p % 4;
    KeyIndexTable(q, e);
    assert KeyIndex(p, e) == ((q as bv2) ^ (e as bv2)) as nat;
    hide KeyIndex;
    DivUnique(p, 2, 2 * n + q / 2, q % 2);
    DivUnique(p / 2, 2, n, q / 2);
    assert p + e == 2 * (2 * n) + (q + e);
    assert p / 2 + e / 2 == 2 * n + (q / 2 + e / 2);
  }

  lemma KeyIndexTable(q: nat, e: nat)
    requires q < 4 && e < 4
    ensures ((q as bv2) ^ (e as bv2)) as nat % 2 == (q + e) % 2
    ensures ((q as bv2) ^ (e as bv2)) as nat / 2 == (q / 2 + e / 2) % 2
  {
    assert (0 as bv2) == 0 && (1 as bv2) == 1 && (2 as bv2) == 2 && (3 as bv2) == 3;
  }

  lemma FirstSum()
    ensures SumAfter(1) == 0x9e37_79b9 && 0x9e37_79b9 / 4 % 4 == 2
  {}

  lemma MxKnown(z: word, y: word, k: Key, p: nat, zb: bv32, yb: bv32, kb: bv32, m: bv32)
    requires z == zb as int && y == yb as int && k[KeyIndex(p, 2)] == kb as int
    requires MxBits(zb, yb, 0x9e37_79b9, kb) == m
    ensures Mx(z, y, SumAfter(1), k, p) == m as int
  {
    FirstSum();
    hide MxBits, KeyIndex;
    assert (0x9e37_79b9 as bv32) == 0x9e37_79b9;
    BackAgain(zb);
    BackAgain(yb);
    BackAgain(kb);
  }

  lemma StepKnown(w: seq<word>, p: nat, sum: word, k: Key, m: int, x: seq<word>)
    requires |w| == 4 && p < 4 && Mx(w[(p + 3) % 4], w[(p + 1) % 4], sum, k, p) == m
    requires w[p] + m < 0x1_0000_0000 && x == w[p := w[p] + m]
    ensures Mixed(w, p, sum, k) == x
  {
    hide Mx;
  }

  lemma BackAgain(x: bv32)
    ensures (x as int) as bv32 == x
  {}

  const KNOWN_KEY: Key := [0x0804_0201, 0x8040_2010, 0xf8fc_feff, 0x80c0_e0f0]

  lemma BitsKnown()
    ensures MxBits(4, 2, 0x9e37_79b9, 0xf8fc_feff) == 0x9734_78fe
    ensures MxBits(0x9734_78ff, 3, 0x9e37_79b9, 0x80c0_e0f0) == 0xce2d_2272
    ensures MxBits(0xce2d_2274, 4, 0x9e37_79b9, 0x0804_0201) == 0x8d23_0a71
    ensures MxBits(0x8d23_0a74, 0x9734_78ff, 0x9e37_79b9, 0x8040_2010) == 0x0fe9_0fa4
  {}

  lemma MxOfRound(k: Key)
    requires k == KNOWN_KEY
    ensures Mx(4, 2, SumAfter(1), k, 0) == 0x9734_78fe
    ensures Mx(0x9734_78ff, 3, SumAfter(1), k, 1) == 0xce2d_2272
    ensures Mx(0xce2d_2274, 4, SumAfter(1), k, 2) == 0x8d23_0a71
    ensures Mx(0x8d23_0a74, 0x9734_78ff, SumAfter(1), k, 3) == 0x0fe9_0fa4
  {
    KeysOfRound();
    BitsKnown();
    hide KeyIndex, MxBits, SumAfter, Mx;
    MxKnown(4, 2, k, 0, 4, 2, 0xf8fc_feff, 0x9734_78fe);
    MxKnown(0x9734_78ff, 3, k, 1, 0x9734_78ff, 3, 0x80c0_e0f0, 0xce2d_2272);
    MxKnown(0xce2d_2274, 4, k, 2, 0xce2d_2274, 4, 0x0804_0201, 0x8d23_0a71);
    MxKnown(0x8d23_0a74, 0x9734_78ff, k, 3, 0x8d23_0a74, 0x9734_78ff, 0x8040_2010, 0x0fe9_0fa4);
  }

  lemma RoundBegins(v: seq<word>, w: seq<word>, sum: word, k: Key)
    requires k == KNOWN_KEY && sum == SumAfter(1)
    requires v == [1, 2, 3, 4] && w == [0x9734_78ff, 0xce2d_2274, 3, 4]
    ensures Mixed(Mixed(v, 0, sum, k), 1, sum, k) == w
  {
    hide *;
    MxOfRound(k);
    var a := v[0 := 0x9734_78ff];
    StepKnown(v, 0, sum, k, 0x9734_78fe, a);
    StepKnown(a, 1, sum, k, 0xce2d_2272, w);
  }

  lemma RoundEnds(v: seq<word>, w: seq<word>, sum: word, k: Key)
    requires k == KNOWN_KEY && sum == SumAfter(1)
    requires v == [0x9734_78ff, 0xce2d_2274, 3, 4] && w == [0x9734_78ff, 0xce2d_2274, 0x8d23_0a74, 0x0fe9_0fa8]
    ensures Mixed(Mixed(v, 2, sum, k), 3, sum, k) == w
  {
    hide *;
    MxOfRound(k);
    var a := v[2 := 0x8d23_0a74];
    StepKnown(v, 2, sum, k, 0x8d23_0a71, a);
    StepKnown(a, 3, sum, k, 0x0fe9_0fa4, w);
  }

  /** The first round of a text of four words, as the reference has it: all shifts, sums and key words by number. */
  lemma RoundExample(v: seq<word>, w: seq<word>, k: Key)
    requires k == KNOWN_KEY && v == [1, 2, 3, 4] && w == [0x9734_78ff, 0xce2d_2274, 0x8d23_0a74, 0x0fe9_0fa8]
    ensures EncodeUpTo(v, 4, SumAfter(1), k) == w
  {
    hide Mixed, EncodeUpTo;
    var u: seq<word> := [0x9734_78ff, 0xce2d_2274, 3, 4];
    RoundBegins(v, u, SumAfter(1), k);
    RoundEnds(u, w, SumAfter(1), k);
    FourSteps(v, SumAfter(1), k);
  }

  lemma FourSteps(v: seq<word>, sum: word, k: Key)
    requires |v| == 4
    ensures EncodeUpTo(v, 4, sum, k) == Mixed(Mixed(Mixed(Mixed(v, 0, sum, k), 1, sum, k), 2, sum, k), 3, sum, k)
  {
    hide Mixed;
    assert EncodeUpTo(v, 1, sum, k) == Mixed(v, 0, sum, k);
    assert EncodeUpTo(v, 2, sum, k) == Mixed(EncodeUpTo(v, 1, sum, k), 1, sum, k);
    assert EncodeUpTo(v, 3, sum, k) == Mixed(EncodeUpTo(v, 2, sum, k), 2, sum, k);
  }

  lemma KeysOfRound()
    ensures KeyIndex(0, 2) == 2 && KeyIndex(1, 2) == 3 && KeyIndex(2, 2) == 0 && KeyIndex(3, 2) == 1
  {
    assert (0 as bv2) == 0 && (1 as bv2) == 1 && (2 as bv2) == 2 && (3 as bv2) == 3;
  }

  //
  // The loop that counts its rounds by the sum
  //

  const DELTA_INVERSE := 0x144c_bc89

  /** The constant is odd, so no number of rounds below 2^32 brings the sum back to zero. */
  lemma SumNotZero(j: nat)
    requires 0 < j < TWO_32
    ensures SumAfter(j) != 0
  {
    var q, s, t := j * DELTA / TWO_32, SumAfter(j), (DELTA * DELTA_INVERSE - 1) / TWO_32;
    assert DELTA * DELTA_INVERSE == 1 + t * TWO_32;
    assert j * DELTA == q * TWO_32 + s;
    if s == 0 { Multiples(j, q, t); }
  }

  lemma Multiples(j: nat, q: nat, t: nat)
    requires j * DELTA == q * TWO_32 && DELTA * DELTA_INVERSE == 1 + t * TWO_32
    ensures j % TWO_32 == 0
  {
    var m := q * DELTA_INVERSE - j * t;
    assert j * (1 + t * TWO_32) == j * DELTA * DELTA_INVERSE == q * DELTA_INVERSE * TWO_32;
    assert j == m * TWO_32;
    DivUnique(j, TWO_32, m, 0);
  }

  lemma SumBefore(j: nat)
    requires j > 0
    ensures (SumAfter(j) - DELTA) % TWO_32 == SumAfter(j - 1)
  {
    var q, s := (j - 1) * DELTA / TWO_32, (j - 1) * DELTA % TWO_32;
    assert j * DELTA == q * TWO_32 + s + DELTA;
    if s + DELTA < TWO_32 {
      DivUnique(j * DELTA, TWO_32, q, s + DELTA);
    } else {
      DivUnique(j * DELTA, TWO_32, q + 1, s + DELTA - TWO_32);
      DivUnique(s - TWO_32, TWO_32, -1, s);
    }
  }

  method DecodeTea(v: array<word>, k: Key) returns (ghost rounds: nat)
    requires v.Length > 0
    modifies v
    ensures v[..] == Decode(old(v[..]), k)
    ensures rounds == 6 + 52 / v.Length
  {
    hide SumAfter, Mx;
    var n := v.Length;
    var z, y := v[n - 1], v[0];
    var q := 6 + 52 / n;
    var sum: word := q * DELTA % TWO_32;
    rounds := 0;
    assert sum == SumAfter(q) by { SumIs(q); }
    while sum != 0
      invariant rounds <= q && sum == SumAfter(q - rounds) && y == v[0]
      invariant DecodeRounds(v[..], q - rounds, k) == Decode(old(v[..]), k)
      decreases q - rounds
    {
      assert rounds < q by { NoRounds(); }
      var j := q - rounds;
      SumBefore(j);
      y := DecodeRound(v, k, sum, y);
      sum := (sum - DELTA) % TWO_32;
      rounds := rounds + 1;
    }
    if rounds < q { SumNotZero(q - rounds); }
  }

  lemma SumIs(q: nat)
    ensures SumAfter(q) == q * DELTA % TWO_32
  {}

  lemma NoRounds()
    ensures SumAfter(0) == 0
  {}

  /** One round, in place. */
  method DecodeRound(v: array<word>, k: Key, sum: word, y0: word) returns (y: word)
    requires v.Length > 0 && y0 == v[0]
    modifies v
    ensures v[..] == DecodeDown(old(v[..]), v.Length, sum, k) && y == v[0]
  {
    hide Mx, Minus, DecodeDown;
    var n := v.Length;
    y := y0;
    var z;
    var p := n - 1;
    while p > 0
      invariant 0 <= p < n && y == v[After(p, n)]
      invariant DecodeDown(v[..], p + 1, sum, k) == DecodeDown(old(v[..]), n, sum, k)
    {
      z := v[p - 1];
      ghost var w := v[..];
      y := Minus(v[p], Mx(z, y, sum, k, p));
      v[p] := y;
      assert v[..] == Unmixed(w, p, sum, k);
      DownStep(w, p + 1, sum, k);
      p := p - 1;
    }
    z := v[n - 1];
    ghost var w := v[..];
    y := Minus(v[0], Mx(z, y, sum, k, 0));
    v[0] := y;
    assert v[..] == Unmixed(w, 0, sum, k);
    DownStep(w, 1, sum, k);
    DownEnd(v[..], sum, k);
  }

  lemma DownStep(v: seq<word>, p: nat, sum: word, k: Key)
    requires 0 < p <= |v|
    ensures DecodeDown(v, p, sum, k) == DecodeDown(Unmixed(v, p - 1, sum, k), p - 1, sum, k)
  {}

  lemma DownEnd(v: seq<word>, sum: word, k: Key)
    ensures DecodeDown(v, 0, sum, k) == v
  {}
}
