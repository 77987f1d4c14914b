/** The demultiplexer undoes the multiplexer. */
module TsRoundTrip {
  import opened Arithmetic
  import opened Bytes
  import opened TsFormat
  import opened TsDemux

  //
  // Time stamps
  //

  /** A time stamp comes back with its low seven bits shifted up by one and the marker bit in their place. */
  lemma StampRead(tag: nat, v: nat)
    requires tag < 16 && v < 2 * TWO_32
    ensures PtsOf(StampField(tag, v)) == v - v % 128 + v % 64 * 2 + 1
    ensures PtsOf(StampField(tag, v)) == v <==> v % 128 == 127
  {
    hide PtsOf, StampField;
    StampSum(v);
    FieldDigits(tag, v);
    var a, b, c, d, e := v / 0x4000_0000, v / 0x40_0000 % 256, v / 0x8000 % 128, v / 0x80 % 256, v % 128;
    PtsOfDigits(tag, a, b, c, d, e);
    LowBits(v);
  }

  lemma FieldDigits(tag: nat, v: nat)
    requires tag < 16 && v < 2 * TWO_32
    ensures v / 0x4000_0000 < 8
    ensures StampField(tag, v) == [tag * 16 + v / 0x4000_0000 * 2 + 1,
      v / 0x40_0000 % 256, v / 0x8000 % 128 * 2 + 1, v / 0x80 % 256, v % 128 * 2 + 1]
  {
    assert v / 0x4000_0000 < 8;
  }

  lemma LowBits(v: nat)
    ensures v % 64 == v % 128 % 64
    ensures v % 64 * 2 + 1 == v % 128 <==> v % 128 == 127
  {
    var k, e := v / 128, v % 128;
    if e < 64 {
      DivUnique(v, 64, 2 * k, e);
    } else {
      DivUnique(v, 64, 2 * k + 1, e - 64);
    }
  }

  lemma PtsOfDigits(tag: nat, a: nat, b: nat, c: nat, d: nat, e: nat)
    requires tag < 16 && a < 8 && b < 256 && c < 128 && d < 256 && e < 128
    ensures PtsOf([tag * 16 + a * 2 + 1, b, c * 2 + 1, d, e * 2 + 1])
         == a * 0x4000_0000 + b * 0x40_0000 + c * 0x8000 + d * 0x80 + e % 64 * 2 + 1
  {
    TagAndTop(tag, a);
    assert (c * 2 + 1) / 2 == c;
    if e >= 64 {
      DivUnique(e * 2 + 1, 128, 1, (e - 64) * 2 + 1);
    }
  }

  lemma TagAndTop(tag: nat, a: nat)
    requires tag < 16 && a < 8
    ensures (tag * 16 + a * 2 + 1) / 2 % 4 == a % 4
    ensures (tag * 16 + a * 2 + 1) / 8 % 2 == a / 4
    ensures a / 4 * TWO_32 + a % 4 * 0x4000_0000 == a * 0x4000_0000
  {
    var b0 := tag * 16 + a * 2 + 1;
    DivUnique(b0, 2, tag * 8 + a, 1);
    DivUnique(b0, 8, tag * 2 + a / 4, a % 4 * 2 + 1);
  }

  lemma StampSum(v: nat)
    ensures v == v / 0x4000_0000 * 0x4000_0000 + v / 0x40_0000 % 256 * 0x40_0000 + v / 0x8000 % 128 * 0x8000
               + v / 0x80 % 256 * 0x80 + v % 128
  {
    var v1 := v / 0x80;
    var v2 := v1 / 256;
    var v3 := v2 / 128;
    var v4 := v3 / 256;
    DivUnique(v, 0x8000, v2, v1 % 256 * 0x80 + v % 0x80);
    DivUnique(v, 0x40_0000, v3, v2 % 128 * 0x8000 + v1 % 256 * 0x80 + v % 0x80);
    DivUnique(v, 0x4000_0000, v4, v3 % 256 * 0x40_0000 + v2 % 128 * 0x8000 + v1 % 256 * 0x80 + v % 0x80);
  }

  //
  // One packet
  //

  datatype Frame = Frame(video: bool, data: seq<byte>, pts: nat)

  function FrameIn(p: Parser): Frame { Frame(p.video, p.data, p.pts) }

  /** A packet until it is used up: a frame it completes is delivered and emptied, then the packet is taken again. */
  function Take(p: Parser, k: Packet): (r: (seq<Frame>, Parser))
    requires SanePacket(k, p.video)
    ensures r.1.video == p.video && r.1.max == p.max
  {
    var q := ProcessPacket(p, k);
    if q.state == Complete then ([FrameIn(q)], ProcessPacket(ResetFrame(q), k)) else ([], q)
  }

  predicate AllSane(ks: seq<Packet>, video: bool) {
    forall i | 0 <= i < |ks| :: SanePacket(ks[i], video)
  }

  /** The packets of one PID, one after the other. */
  function Feed(p: Parser, ks: seq<Packet>): (r: (seq<Frame>, Parser))
    requires AllSane(ks, p.video)
    ensures r.1.video == p.video && r.1.max == p.max
    decreases ks
  {
    if ks == [] then ([], p)
    else
      var (now, q) := Take(p, ks[0]);
      var (later, r) := Feed(q, ks[1..]);
      (now + later, r)
  }

  lemma FeedCons(p: Parser, k: Packet, rest: seq<Packet>)
    requires SanePacket(k, p.video) && AllSane(rest, p.video)
    ensures AllSane([k] + rest, p.video)
    ensures Feed(p, [k] + rest) == (Take(p, k).0 + Feed(Take(p, k).1, rest).0, Feed(Take(p, k).1, rest).1)
  {
    hide Take;
    assert ([k] + rest)[1..] == rest;
  }

  lemma {:induction false} FeedConcat(p: Parser, a: seq<Packet>, b: seq<Packet>)
    requires AllSane(a, p.video) && AllSane(b, p.video)
    ensures AllSane(a + b, p.video)
    ensures Feed(p, a + b) == (Feed(p, a).0 + Feed(Feed(p, a).1, b).0, Feed(Feed(p, a).1, b).1)
    decreases a
  {
    hide Take;
    if a == [] {
      assert a + b == b && [] + Feed(p, b).0 == Feed(p, b).0;
    } else {
      var (now, q) := Take(p, a[0]);
      assert (a + b)[0] == a[0] && (a + b)[1..] == a[1..] + b;
      FeedConcat(q, a[1..], b);
      var (later, r) := Feed(q, a[1..]);
      assert now + (later + Feed(r, b).0) == now + later + Feed(r, b).0;
    }
  }

  //
  // One unit
  //

  lemma PacketParts(u: Unit, left: seq<byte>, first: bool, counter: nat, src4: nat, dst4: nat)
    requires left != [] && counter < 16 && src4 < 4 && dst4 < 4
    ensures var pes := if first then PesHeader(u) else [];
      var k, at := UnitPacket(u, left, first, counter, src4, dst4), 4 + LayoutOf(|left|, |pes|, src4, dst4).pad;
      var n := Room(|left|, |pes|, src4, dst4);
      && PayloadAt(k + NEXT) == at
      && at + |pes| + n == PACKET
      && k[at..at + |pes|] == pes
      && k[at + |pes|..] == left[..n]
  {
    hide PesHeader, LayoutOf;
    var pes := if first then PesHeader(u) else [];
    var pad, n := LayoutOf(|left|, |pes|, src4, dst4).pad, Room(|left|, |pes|, src4, dst4);
    var k := UnitPacket(u, left, first, counter, src4, dst4);
    var b3 := (if pad > 0 then 0x30 else 0x10) + counter;
    var front := LinkHeader(first, true, Pid(u.video)) + [b3] + Stuffing(pad);
    assert k == front + pes + left[..n];
    assert k[3] == b3 && (pad > 0 ==> k[4] == pad - 1);
    assert b3 / 32 % 2 == if pad > 0 then 1 else 0;
  }

  /** A payload slice that the parser would take for the start of a unit. */
  predicate LooksLikeStart(slice: seq<byte>, id: byte) {
    |slice| >= 4 && slice[..4] == [0, 0, 1, id]
  }

  /** No packet after the first carries such a slice. */
  predicate Clean(u: Unit, left: seq<byte>, first: bool, src4: nat, dst4: nat)
    requires src4 < 4 && dst4 < 4
    decreases |left|
  {
    left == [] ||
    var n := Room(|left|, if first then PesLength(u.video) else 0, src4, dst4);
    (first || !LooksLikeStart(left[..n], StreamId(u.video))) && Clean(u, left[n..], false, (src4 + n) % 4, dst4)
  }

  /** A packet behind the first starts nothing exactly when its slice does not look like a start. */
  lemma ContinuationStarts(u: Unit, left: seq<byte>, counter: nat, src4: nat, dst4: nat)
    requires left != [] && counter < 16 && src4 < 4 && dst4 < 4
    ensures var k := UnitPacket(u, left, false, counter, src4, dst4);
      var n := Room(|left|, 0, src4, dst4);
      && StartsUnit(k + NEXT, PayloadAt(k + NEXT), StreamId(u.video)) == LooksLikeStart(left[..n], StreamId(u.video))
      && PayloadAt(k + NEXT) + n == PACKET && (k + NEXT)[PayloadAt(k + NEXT)..PACKET] == left[..n]
  {
    PacketParts(u, left, false, counter, src4, dst4);
    var k, n := UnitPacket(u, left, false, counter, src4, dst4), Room(|left|, 0, src4, dst4);
    var at, slice := PayloadAt(k + NEXT), left[..n];
    assert k[at..] == slice;
    assert forall i | 0 <= i < n :: (k + NEXT)[at + i] == slice[i];
    if n < 4 {
      assert (k + NEXT)[at + n] == 0x47;
    } else {
      assert slice[..4] == [slice[0], slice[1], slice[2], slice[3]];
    }
  }

  /** What the next slice of the unit being filled does to its parser. */
  function Grown(p: Parser, slice: seq<byte>): Parser {
    Append(p.(pesLen := if p.video then p.pesLen else p.pesLen - |slice|), slice)
  }

  /** The parser is in the middle of a unit of which `left` bytes are to come. */
  ghost predicate Amid(p: Parser, left: nat) {
    && p.data != [] && |p.data| < p.max
    && (if p.video then p.state == Filling else p.state == Init && p.pesLen == left)
  }

  lemma ContinuationTaken(p: Parser, u: Unit, left: seq<byte>, counter: nat, src4: nat, dst4: nat)
    requires left != [] && counter < 16 && src4 < 4 && dst4 < 4
    requires p.video == u.video && Amid(p, |left|)
    ensures var k, n := UnitPacket(u, left, false, counter, src4, dst4), Room(|left|, 0, src4, dst4);
      !LooksLikeStart(left[..n], StreamId(u.video)) ==>
      SanePacket(k, p.video) && Take(p, k) == ([], Grown(p, left[..n]))
  {
    ContinuationStarts(u, left, counter, src4, dst4);
  }

  /** If one does, the unit's frame is delivered short, without the slice and what follows it. */
  lemma FalseStartCutsShort(p: Parser, u: Unit, left: seq<byte>, counter: nat, src4: nat, dst4: nat)
    requires left != [] && counter < 16 && src4 < 4 && dst4 < 4
    requires p.video == u.video && Amid(p, |left|)
    requires LooksLikeStart(left[..Room(|left|, 0, src4, dst4)], StreamId(u.video))
    requires SanePacket(UnitPacket(u, left, false, counter, src4, dst4), p.video)
    ensures Take(p, UnitPacket(u, left, false, counter, src4, dst4)).0 == [FrameIn(p)]
  {
    ContinuationStarts(u, left, counter, src4, dst4);
  }

  lemma {:induction false} ContinuationFed(p: Parser, u: Unit, left: seq<byte>, counter: nat, src4: nat, dst4: nat)
    requires counter < 16 && src4 < 4 && dst4 < 4
    requires p.video == u.video && Amid(p, |left|) && Clean(u, left, false, src4, dst4)
    requires |p.data| + |left| < p.max
    ensures var ks := UnitPackets(u, left, false, counter, src4, dst4);
      && AllSane(ks, p.video)
      && Feed(p, ks) == ([], Grown(p, left))
      && Amid(Grown(p, left), 0)
    decreases |left|
  {
    hide Take, UnitPacket, Room, SanePacket;
    if left == [] {
      assert p.data + left == p.data;
    } else {
      var n := Room(|left|, 0, src4, dst4);
      ContinuationTaken(p, u, left, counter, src4, dst4);
      var q := Grown(p, left[..n]);
      ContinuationFed(q, u, left[n..], (counter + 1) % 16, (src4 + n) % 4, dst4);
      assert Grown(q, left[n..]) == Grown(p, left) by {
        assert p.data + left[..n] + left[n..] == p.data + left;
      }
      var k, rest := UnitPacket(u, left, false, counter, src4, dst4),
                     UnitPackets(u, left[n..], false, (counter + 1) % 16, (src4 + n) % 4, dst4);
      FeedCons(p, k, rest);
      assert Take(p, k).0 + Feed(q, rest).0 == [];
      assert UnitPackets(u, left, false, counter, src4, dst4) == [k] + rest;
    }
  }

  /** A parser between units: empty, or holding a whole unit. */
  ghost predicate Between(p: Parser) {
    184 < p.max && (Amid(p, 0) || (p.data == [] && p.state == Init))
  }

  /** The unit the parser still holds, to be delivered when the next one starts. */
  function Held(p: Parser): seq<Frame> { if p.data == [] then [] else [FrameIn(p)] }

  function ReadPts(u: Unit): nat {
    if u.video then PtsOf(StampField(3, u.pts)) else DtsOf(StampField(2, u.pts))
  }

  /** The parser after the first packet of a unit. */
  function Started(p: Parser, u: Unit, slice: seq<byte>): Parser {
    Parser(p.video, p.max, if p.video then Filling else Init, slice, ReadPts(u),
           if u.video then DtsOf(StampField(1, u.dts)) else p.dts,
           if u.video then 0 else |u.raw| - |slice|)
  }

  /** The audio length field has 16 bits, ten of its bytes going to the header behind it. */
  predicate Announced(u: Unit) { !u.video ==> |u.raw| + 10 < 0x1_0000 }

  /** The fields of a PES header lying at `at`. */
  lemma FieldsAt(mem: seq<byte>, at: nat, u: Unit)
    requires at + PesLength(u.video) <= |mem| && mem[at..at + PesLength(u.video)] == PesHeader(u) && Announced(u)
    ensures StartsUnit(mem, at, StreamId(u.video)) && HeaderEnd(mem, at) == at + PesLength(u.video)
    ensures mem[at + 7] == (if u.video then 0xC0 else 0x80)
    ensures mem[at + 9..at + 14] == StampField(if u.video then 3 else 2, u.pts)
    ensures u.video ==> mem[at + 14..at + 19] == StampField(1, u.dts)
    ensures PesField(mem[at + 4], mem[at + 5]) == (if u.video then 0 else |u.raw| + 10)
  {
    hide StampField;
    var h := mem[at..at + PesLength(u.video)];
    assert h[0] == mem[at] && h[1] == mem[at + 1] && h[2] == mem[at + 2] && h[3] == mem[at + 3];
    assert h[4] == mem[at + 4] && h[5] == mem[at + 5] && h[7] == mem[at + 7] && h[8] == mem[at + 8];
    HeaderStamps(u);
    SliceOfSlice(mem, at, PesLength(u.video), 9, 14);
    if u.video { SliceOfSlice(mem, at, PesLength(u.video), 14, 19); }
  }

  lemma HeaderStamps(u: Unit)
    ensures PesHeader(u)[9..14] == StampField(if u.video then 3 else 2, u.pts)
    ensures u.video ==> PesHeader(u)[14..19] == StampField(1, u.dts)
  {
    hide StampField;
    if u.video {
      var start, pts, dts := [0, 0, 1, VIDEO_ID, 0, 0, 0x84, 0xC0, 11], StampField(3, u.pts), StampField(1, u.dts);
      assert PesHeader(u) == start + pts + dts + [0xff];
      assert (start + pts + dts + [0xff])[9..14] == pts && (start + pts + dts + [0xff])[14..19] == dts;
    } else {
      var start, pts := [0, 0, 1, AUDIO_ID] + Be16(|u.raw| + 10) + [0x84, 0x80, 7], StampField(2, u.pts);
      assert PesHeader(u) == start + pts + [0xff, 0xff];
      assert (start + pts + [0xff, 0xff])[9..14] == pts;
    }
  }

  lemma HeaderFields(u: Unit, left: seq<byte>, counter: nat, src4: nat, dst4: nat)
    requires left != [] && counter < 16 && src4 < 4 && dst4 < 4
    ensures var mem := UnitPacket(u, left, true, counter, src4, dst4) + NEXT;
      var at, n := PayloadAt(mem), Room(|left|, PesLength(u.video), src4, dst4);
      && at + PesLength(u.video) + n == PACKET
      && mem[at..at + PesLength(u.video)] == PesHeader(u)
      && mem[at + PesLength(u.video)..PACKET] == left[..n]
  {
    PacketParts(u, left, true, counter, src4, dst4);
  }

  lemma StampsTaken(p: Parser, u: Unit, mem: seq<byte>, at: nat)
    requires p.video == u.video && |mem| >= PACKET && at + 14 <= PACKET && (u.video ==> at + 19 <= PACKET)
    requires mem[at + 7] == (if u.video then 0xC0 else 0x80)
    requires mem[at + 9..at + 14] == StampField(if u.video then 3 else 2, u.pts)
    requires u.video ==> mem[at + 14..at + 19] == StampField(1, u.dts)
    ensures StampsInside(mem, at)
    ensures Stamped(p, mem, at) == p.(pts := ReadPts(u), dts := if u.video then DtsOf(StampField(1, u.dts)) else p.dts)
  {
    hide StampField, PtsOf, DtsOf;
  }

  lemma SliceBegins(p: Parser, u: Unit, mem: seq<byte>, body: nat, n: nat)
    requires |mem| >= PACKET && 184 < p.max && p.video == u.video && p.data == [] && p.state == Init && Announced(u)
    requires n <= |u.raw| && n <= 184 && body + n == PACKET && mem[body..PACKET] == u.raw[..n]
    requires body == PayloadAt(mem) + PesLength(u.video)
    ensures Begin(p, mem, body, if u.video then 0 else |u.raw| + 10)
         == p.(state := if u.video then Filling else Init, data := u.raw[..n],
               pesLen := if u.video then 0 else |u.raw| - n)
  {
    assert [] + u.raw[..n] == u.raw[..n];
    assert u.raw == [] ==> u.raw[..n] == [];
  }

  /** An empty parser takes up the unit. */
  lemma UnitBegun(p: Parser, u: Unit, mem: seq<byte>, n: nat)
    requires |mem| >= PACKET + OVERREAD && 184 < p.max
    requires p.video == u.video && p.data == [] && p.state == Init && Announced(u) && n <= |u.raw| && n <= 184
    requires var at := PayloadAt(mem);
      && at + PesLength(u.video) + n == PACKET
      && mem[at..at + PesLength(u.video)] == PesHeader(u)
      && mem[at + PesLength(u.video)..PACKET] == u.raw[..n]
    ensures Sane(mem, p.video) && Process(p, mem) == Started(p, u, u.raw[..n])
  {
    var at := PayloadAt(mem);
    FieldsAt(mem, at, u);
    StampsTaken(p, u, mem, at);
    SliceBegins(Stamped(p, mem, at), u, mem, at + PesLength(u.video), n);
    hide StartsUnit, HeaderEnd, PayloadAt, StampField, PtsOf, DtsOf, PesHeader, PesField, Begin, Stamped, StampsInside,
         Append;
  }

  /** A parser holding a unit completes it and does not take the packet. */
  lemma UnitCompleted(p: Parser, u: Unit, mem: seq<byte>)
    requires p.video == u.video && p.data != [] && Sane(mem, p.video)
    requires var at := PayloadAt(mem);
      && at + PesLength(u.video) <= PACKET && mem[at..at + PesLength(u.video)] == PesHeader(u) && Announced(u)
    ensures Process(p, mem) == p.(state := Complete)
  {
    FieldsAt(mem, PayloadAt(mem), u);
  }

  lemma FirstTaken(p: Parser, u: Unit, counter: nat, src4: nat, dst4: nat)
    requires u.raw != [] && counter < 16 && src4 < 4 && dst4 < 4
    requires p.video == u.video && Between(p) && Announced(u)
    ensures var k, n := UnitPacket(u, u.raw, true, counter, src4, dst4), Room(|u.raw|, PesLength(u.video), src4, dst4);
      SanePacket(k, p.video) && Take(p, k) == (Held(p), Started(p, u, u.raw[..n]))
  {
    HeaderFields(u, u.raw, counter, src4, dst4);
    hide UnitPacket, Room, PayloadAt, PesHeader, Process, Sane, Started;
    var k, n := UnitPacket(u, u.raw, true, counter, src4, dst4), Room(|u.raw|, PesLength(u.video), src4, dst4);
    UnitBegun(ResetFrame(p), u, k + NEXT, n);
    if p.data != [] {
      UnitCompleted(p, u, k + NEXT);
      StartedAnew(p, u, u.raw[..n]);
    } else {
      assert ResetFrame(p) == p;
      NotComplete(p, u, u.raw[..n]);
    }
  }

  lemma StartedAnew(p: Parser, u: Unit, slice: seq<byte>)
    ensures Started(ResetFrame(p), u, slice) == Started(p, u, slice)
  {}

  lemma NotComplete(p: Parser, u: Unit, slice: seq<byte>)
    ensures Started(p, u, slice).state != Complete
  {}

  /** The unit's conditions: its payload is not mistaken for a header, and its frame fits the frame buffer. */
  predicate Carried(u: Unit, max: nat, src4: nat, dst4: nat)
    requires src4 < 4 && dst4 < 4
  {
    Clean(u, u.raw, true, src4, dst4) && |u.raw| < max
  }

  /** All packets of a unit: the frame held before is delivered, and the unit is held in its place. */
  lemma {:induction false} UnitFed(p: Parser, u: Unit, counter: nat, src4: nat, dst4: nat)
    requires u.raw != [] && counter < 16 && src4 < 4 && dst4 < 4
    requires p.video == u.video && Between(p) && Announced(u) && Carried(u, p.max, src4, dst4)
    ensures var ks := UnitPackets(u, u.raw, true, counter, src4, dst4);
      && AllSane(ks, p.video)
      && Feed(p, ks) == (Held(p), Started(p, u, u.raw))
      && Between(Started(p, u, u.raw))
  {
    hide Take, UnitPacket, Room, LayoutOf, SanePacket, ReadPts, DtsOf, StampField;
    var n := Room(|u.raw|, PesLength(u.video), src4, dst4);
    var q, left := Started(p, u, u.raw[..n]), u.raw[n..];
    FirstTaken(p, u, counter, src4, dst4);
    ContinuationFed(q, u, left, (counter + 1) % 16, (src4 + n) % 4, dst4);
    assert u.raw[..n] + left == u.raw;
    assert Grown(q, left) == Started(p, u, u.raw);
    var k, rest := UnitPacket(u, u.raw, true, counter, src4, dst4),
                   UnitPackets(u, left, false, (counter + 1) % 16, (src4 + n) % 4, dst4);
    FeedCons(p, k, rest);
    assert Held(p) + [] == Held(p);
    UnitPacketsStep(u, u.raw, true, counter, src4, dst4, n);
  }

  /** A slice that looks like a start breaks the unit up: a frame comes out before the unit is over. */
  lemma {:induction false} DirtyBreaks(p: Parser, u: Unit, left: seq<byte>, counter: nat, src4: nat, dst4: nat)
    requires counter < 16 && src4 < 4 && dst4 < 4
    requires p.video == u.video && Amid(p, |left|) && !Clean(u, left, false, src4, dst4)
    requires AllSane(UnitPackets(u, left, false, counter, src4, dst4), p.video)
    ensures Feed(p, UnitPackets(u, left, false, counter, src4, dst4)).0 != []
    decreases |left|
  {
    hide Take, UnitPacket, Room, SanePacket;
    var n := Room(|left|, 0, src4, dst4);
    var k, rest := UnitPacket(u, left, false, counter, src4, dst4),
                   UnitPackets(u, left[n..], false, (counter + 1) % 16, (src4 + n) % 4, dst4);
    var ks := UnitPackets(u, left, false, counter, src4, dst4);
    assert ks == [k] + rest && ks[0] == k && ks[1..] == rest;
    assert SanePacket(ks[0], p.video);
    assert forall i | 0 <= i < |rest| :: rest[i] == ks[i + 1];
    FeedCons(p, k, rest);
    if LooksLikeStart(left[..n], StreamId(u.video)) {
      FalseStartCutsShort(p, u, left, counter, src4, dst4);
    } else {
      ContinuationTaken(p, u, left, counter, src4, dst4);
      DirtyBreaks(Grown(p, left[..n]), u, left[n..], (counter + 1) % 16, (src4 + n) % 4, dst4);
    }
  }

  /** A parser never holds as many bytes as its buffer has. */
  lemma {:induction false} FrameBelowMax(p: Parser, ks: seq<Packet>)
    requires AllSane(ks, p.video) && |p.data| < p.max
    ensures |Feed(p, ks).1.data| < p.max
    decreases ks
  {
    if ks != [] {
      TakeBelowMax(p, ks[0]);
      FrameBelowMax(Take(p, ks[0]).1, ks[1..]);
    }
  }

  lemma TakeBelowMax(p: Parser, k: Packet)
    requires SanePacket(k, p.video) && |p.data| < p.max
    ensures |Take(p, k).1.data| < p.max
  {}

  /** The conditions are exact: a unit comes through whole if and only if they hold. */
  lemma UnitExact(p: Parser, u: Unit, counter: nat, src4: nat, dst4: nat)
    requires u.raw != [] && counter < 16 && src4 < 4 && dst4 < 4
    requires p.video == u.video && Between(p) && Announced(u)
    requires AllSane(UnitPackets(u, u.raw, true, counter, src4, dst4), p.video)
    ensures Feed(p, UnitPackets(u, u.raw, true, counter, src4, dst4)) == (Held(p), Started(p, u, u.raw))
       <==> Carried(u, p.max, src4, dst4)
  {
    hide Take, UnitPacket, Room, SanePacket, ReadPts, DtsOf, StampField;
    var ks := UnitPackets(u, u.raw, true, counter, src4, dst4);
    if Carried(u, p.max, src4, dst4) {
      UnitFed(p, u, counter, src4, dst4);
    } else if |u.raw| >= p.max {
      FrameBelowMax(p, ks);
    } else {
      var n := Room(|u.raw|, PesLength(u.video), src4, dst4);
      var q, left := Started(p, u, u.raw[..n]), u.raw[n..];
      var k, rest := UnitPacket(u, u.raw, true, counter, src4, dst4),
                     UnitPackets(u, left, false, (counter + 1) % 16, (src4 + n) % 4, dst4);
      assert ks == [k] + rest;
      FirstTaken(p, u, counter, src4, dst4);
      assert forall i | 0 <= i < |rest| :: rest[i] == ks[i + 1];
      FeedCons(p, k, rest);
      DirtyBreaks(q, u, left, (counter + 1) % 16, (src4 + n) % 4, dst4);
      assert |Feed(p, ks).0| > |Held(p)|;
    }
  }
}
