/**
 RTMP messages, what each side remembers of a channel, and the chunks a message is
 sent as (section 5.3.1 of the Adobe RTMP 1.0 specification).
 */
module RtmpChunkFormat {
  import opened Arithmetic
  import opened Bytes

  type u32 = v: int | 0 <= v < TWO_32

  /** The chunk formats, and the size of the message header that goes with each, basic header byte included. */
  const LARGE := 0
  const MEDIUM := 1
  const SMALL := 2
  const MINIMUM := 3

  function PacketSize(format: nat): nat {
    if format == LARGE then 12 else if format == MEDIUM then 8 else if format == SMALL then 4 else 1
  }

  const CHANNELS := 65600

  /** A message, with the header format the caller asks for. */
  datatype Message = Message(format: nat, kind: byte, stamp: u32, info: int, body: seq<byte>)

  /** What the sender keeps of the last message on a channel. */
  datatype Sent = Sent(size: nat, kind: byte, stamp: u32)

  function Remember(m: Message): Sent {
    Sent(|m.body|, m.kind, m.stamp)
  }

  /** The format actually sent: type 1 shrinks to 2 when size and kind repeat, then 2 to 3 when the time does. */
  function Compressed(prev: Option<Sent>, m: Message): (f: nat)
    ensures f <= 3 <==> m.format <= 3
    ensures f == LARGE <==> m.format == LARGE
  {
    if prev.None? || m.format == LARGE then m.format
    else
      var p := prev.value;
      var f := if p.size == |m.body| && p.kind == m.kind && m.format == MEDIUM then SMALL else m.format;
      if p.stamp == m.stamp && f == SMALL then MINIMUM else f
  }

  /** The time field: a 32-bit difference to the last message, and 0 when it does not fit in 24 bits. */
  function TimeField(prev: Option<Sent>, m: Message): (t: nat)
    ensures t < 0xff_ffff
  {
    var last := if prev.Some? && m.format != LARGE then prev.value.stamp else 0;
    var t := (m.stamp - last) % TWO_32;
    if t >= 0xff_ffff then 0 else t
  }

  predicate ValidChannel(ch: int) { 2 <= ch < CHANNELS }

  function BasicHeader(format: nat, ch: nat): seq<byte>
    requires format <= 3 && ch < CHANNELS
  {
    if ch > 319 then [format * 64 + 1, (ch - 64) % 256, (ch - 64) / 256]
    else if ch > 63 then [format * 64, ch - 64]
    else [format * 64 + ch]
  }

  /** Bytes of the basic header after the first. */
  function ExtraBytes(ch: nat): nat {
    if ch > 319 then 2 else if ch > 63 then 1 else 0
  }

  function MessageFields(format: nat, t: nat, size: nat, kind: byte, info: int): seq<byte> {
    (if format < MINIMUM then Be24(t) else []) +
    (if format < SMALL then Be24(size) + [kind] else []) +
    (if format < MEDIUM then Le32(info) else [])
  }

  function Header(prev: Option<Sent>, ch: nat, m: Message): seq<byte>
    requires m.format <= 3 && ch < CHANNELS
  {
    var f := Compressed(prev, m);
    BasicHeader(f, ch) + MessageFields(f, TimeField(prev, m), |m.body|, m.kind, m.info)
  }

  /** The chunks that carry `rest`, each behind a type 3 basic header. */
  function Continuation(ch: nat, rest: seq<byte>, chunkSize: nat): seq<seq<byte>>
    requires ch < CHANNELS && chunkSize >= 1
  {
    if rest == [] then []
    else
      var n := Min(chunkSize, |rest|);
      [BasicHeader(MINIMUM, ch) + rest[..n]] + Continuation(ch, rest[n..], chunkSize)
  }

  function ChunksAfter(header: seq<byte>, ch: nat, body: seq<byte>, chunkSize: nat): seq<seq<byte>>
    requires ch < CHANNELS && chunkSize >= 1
  {
    var n := Min(chunkSize, |body|);
    [header + body[..n]] + Continuation(ch, body[n..], chunkSize)
  }

  /** The chunks of one message: the full header with the first slice, then continuations. */
  function Chunks(prev: Option<Sent>, ch: nat, m: Message, chunkSize: nat): seq<seq<byte>>
    requires m.format <= 3 && ch < CHANNELS && chunkSize >= 1
  {
    ChunksAfter(Header(prev, ch, m), ch, m.body, chunkSize)
  }

  /** How many chunks a body of `n` bytes takes, as the sender computes it. */
  function ChunkCount(n: nat, chunkSize: nat): nat
    requires chunkSize >= 1
  {
    (n + chunkSize - 1) / chunkSize
  }

  lemma CountStep(n: nat, chunkSize: nat)
    requires chunkSize >= 1 && n > chunkSize
    ensures ChunkCount(n, chunkSize) == 1 + ChunkCount(n - chunkSize, chunkSize)
  {
    var q, r := (n - 1) / chunkSize, (n - 1) % chunkSize;
    assert (q + 1) * chunkSize == q * chunkSize + chunkSize;
    DivUnique(n - 1 + chunkSize, chunkSize, q + 1, r);
  }

  lemma CountOne(n: nat, chunkSize: nat)
    requires chunkSize >= 1 && 1 <= n <= chunkSize
    ensures ChunkCount(n, chunkSize) == 1
  {
    DivUnique(n - 1 + chunkSize, chunkSize, 1, n - 1);
  }

  lemma {:induction false} ContinuationLength(ch: nat, rest: seq<byte>, chunkSize: nat)
    requires ch < CHANNELS && chunkSize >= 1
    ensures |Flatten(Continuation(ch, rest, chunkSize))|
         == |rest| + ChunkCount(|rest|, chunkSize) * (ExtraBytes(ch) + 1)
  {
    if rest == [] {
      DivUnique(chunkSize - 1, chunkSize, 0, chunkSize - 1);
    } else {
      var n := Min(chunkSize, |rest|);
      ContinuationLength(ch, rest[n..], chunkSize);
      var tail := Continuation(ch, rest[n..], chunkSize);
      assert Continuation(ch, rest, chunkSize)[1..] == tail;
      if |rest| > chunkSize {
        CountStep(|rest|, chunkSize);
        var e := ExtraBytes(ch) + 1;
        var k := ChunkCount(|rest| - chunkSize, chunkSize);
        assert (1 + k) * e == e + k * e;
      } else {
        CountOne(|rest|, chunkSize);
        assert rest[n..] == [];
      }
    }
  }

  /**
   The joint buffer for a message of several chunks is allocated with one continuation
   header too many: what is written leaves exactly that many bytes free.
   */
  lemma BufferSlack(header: seq<byte>, ch: nat, body: seq<byte>, chunkSize: nat)
    requires ch < CHANNELS && chunkSize >= 1 && |body| > 0
    ensures |Flatten(ChunksAfter(header, ch, body, chunkSize))| + ExtraBytes(ch) + 1
         == ChunkCount(|body|, chunkSize) * (ExtraBytes(ch) + 1) + |body| + |header|
  {
    var n := Min(chunkSize, |body|);
    var rest := body[n..];
    ContinuationLength(ch, rest, chunkSize);
    assert ChunksAfter(header, ch, body, chunkSize)[1..] == Continuation(ch, rest, chunkSize);
    var e := ExtraBytes(ch) + 1;
    if |body| > chunkSize {
      CountStep(|body|, chunkSize);
      var k := ChunkCount(|rest|, chunkSize);
      assert (1 + k) * e == e + k * e;
    } else {
      CountOne(|body|, chunkSize);
      assert rest == [];
    }
  }
}
