/**
 What the reader makes of senders that write extended times, which its own counterpart never does: times of
 0xffffff and more lie in four octets behind the fields (section 5.3.1.3 of RTMP 1.0).
 */
module RtmpForeign {
  import opened Arithmetic
  import opened Bytes
  import opened RtmpChunkFormat
  import opened RtmpReader
  import opened RtmpReassembly
  import opened RtmpOctets

  /** The header of a message from such a sender. */
  function ForeignHeader(prev: Option<Sent>, ch: nat, m: Message): seq<byte>
    requires m.format <= 3 && ch < CHANNELS
  {
    var t := Elapsed(prev, m);
    BasicHeader(m.format, ch)
      + MessageFields(m.format, if t < 0xff_ffff then t else 0xff_ffff, |m.body|, m.kind, m.info)
      + if m.format < MINIMUM && t >= 0xff_ffff then Be32(t) else []
  }

  /**
   * What it may send as which type: 2 and 3 for repeats of size and kind, and 3 when the time has gone on by as much
   * as was last said, `carried`.
   */
  predicate Writable(prev: Option<Sent>, carried: u32, m: Message) {
    Sendable(prev, m) && (m.format == MINIMUM ==> Elapsed(prev, m) == carried)
  }

  lemma IntOfExtended(b: seq<byte>)
    requires |b| == 4
    ensures Int32(b) == Number4(b[0], b[1], b[2], b[3]) < TWO_32
  {}

  lemma ExtendedParses(format: nat, ch: nat, fields: seq<byte>, ext: seq<byte>, tail: seq<byte>)
    requires format < MINIMUM && ValidChannel(ch) && |fields| == PacketSize(format) - 1 && |ext| == 4
    requires Int24(fields) == 0xff_ffff
    ensures var b := BasicHeader(format, ch);
      ParseHead(b + fields + ext + tail) == Some(Head(format, ch, fields, Some(Int32(ext)), |b + fields + ext|))
  {
    hide BasicHeader, Int32;
    var b := BasicHeader(format, ch);
    BasicHeaderParses(format, ch, fields + ext + tail);
    var input, n := b + fields + ext + tail, |b| + |fields|;
    assert input == b + (fields + ext + tail);
    assert input[..|b|] == b;
    assert input[|b|..n] == fields;
    assert input[n..n + 4] == ext;
  }

  /** The fields of a time that takes the four octets. */
  predicate Extended(format: nat, fields: seq<byte>, size: nat) {
    && |fields| == (if format == 0 then 11 else if format == 1 then 7 else 3)
    && fields[..3] == [0xff, 0xff, 0xff]
    && (format <= 1 ==> Number3(fields[3], fields[4], fields[5]) == size)
  }

  /** A number of 32 bits as a signed one. */
  function Signed(v: int): int { if v < 0x8000_0000 then v else v - 0x1_0000_0000 }

  lemma FieldsOpen(c: Channel, ch: nat, format: nat, fields: seq<byte>, t: u32, length: nat)
    requires format <= 2 && |fields| == (if format == 0 then 11 else if format == 1 then 7 else 3)
    requires ChannelValid(c) && (c.ref.Some? ==> !c.ref.value.absolute)
    ensures var p := Opened(Head(format, ch, fields, Some(t), length), c.ref, BLANK);
      && p.stamp == t && p.absolute == (format == 0)
      && (format <= 1 ==> p.got == [] && p.size == Number3(fields[3], fields[4], fields[5]) && p.kind == fields[6])
      && (format == 2 && c.ref.Some? ==> p.got == c.ref.value.got && p.size == c.ref.value.size)
      && (format == 0 ==> p.info == Signed(Number4(fields[10], fields[9], fields[8], fields[7])))
  {
    if format <= 1 { assert Int24(fields[3..]) == Number3(fields[3], fields[4], fields[5]); }
    if format == 0 { LittleEndian(fields[7..]); }
    hide Int24, SignedLe32, Number3, Number4, Signed;
  }

  lemma LittleEndian(s: seq<byte>)
    requires |s| >= 4
    ensures SignedLe32(s) == Signed(Number4(s[3], s[2], s[1], s[0]))
  {}

  /** What a chunk with an extended time makes of a channel between two messages. */
  ghost predicate ReadsExtended(c: Channel, ch: nat, format: nat, fields: seq<byte>, t: int, body: seq<byte>, r: Step)
    requires format <= 2 && Extended(format, fields, |body|)
  {
    && r.channel == ch && r.received.whole && r.received.body == body
    && r.received.stamp == (if format == 0 then t else (c.time + t) % 0x1_0000_0000)
    && r.after.time == r.received.stamp
    && (format <= 1 ==> r.received.kind == fields[6])
    && (format == 0 ==> r.received.info == Signed(Number4(fields[10], fields[9], fields[8], fields[7])))
  }

  lemma ExtendedDelivered(c: Channel, ch: nat, format: nat, fields: seq<byte>, t: u32, body: seq<byte>, length: nat,
                          used: nat)
    requires format <= 2 && Extended(format, fields, |body|)
    requires c.ref.Some? ==> c.ref.value.got == [] && !c.ref.value.absolute
    requires format == 2 ==> c.ref.Some? && c.ref.value.size == |body|
    ensures var p := Opened(Head(format, ch, fields, Some(t), length), c.ref, BLANK);
      && p.size == |body| && p.got == []
      && ReadsExtended(c, ch, format, fields, t, body, StepTo(used, ch, Filled(p, body), c.time))
  {
    FieldsOpen(c, ch, format, fields, t, length);
    hide Opened, Number3, Number4, Signed;
    assert [] + body == body;
  }

  /**
   * An extended time is read from the four octets: it is the message's for a full header, and is otherwise added to
   * the channel's.
   */
  lemma ExtendedTimeRead(c: Channel, ch: nat, chunkSize: nat, format: nat, fields: seq<byte>, ext: seq<byte>,
                         body: seq<byte>)
    requires ValidChannel(ch) && format <= 2 && Extended(format, fields, |body|) && |ext| == 4
    requires |body| <= chunkSize
    requires c.ref.Some? ==> c.ref.value.got == [] && !c.ref.value.absolute
    requires format == 2 ==> c.ref.Some? && c.ref.value.size == |body|
    ensures var r := ReadChunk(map[ch := c], chunkSize, BasicHeader(format, ch) + fields + ext + body);
      r.Some? && ReadsExtended(c, ch, format, fields, Number4(ext[0], ext[1], ext[2], ext[3]), body, r.value)
  {
    assert fields[0] == fields[..3][0] && fields[1] == fields[..3][1] && fields[2] == fields[..3][2];
    var header := BasicHeader(format, ch) + fields + ext;
    ExtendedParses(format, ch, fields, ext, body);
    IntOfExtended(ext);
    var t, length := Int32(ext), |header|;
    ExtendedDelivered(c, ch, format, fields, t, body, length, |header + body|);
    hide ParseHead, BasicHeader, Opened, Int32, Int24, Number4, ReadsExtended, ReadChunk;
    var h := Head(format, ch, fields, Some(t), length);
    ChunkRead(c, ch, chunkSize, header, body, h, Opened(h, c.ref, BLANK));
  }

  /** The packet the reader opens for a foreign message. */
  function ForeignBegun(prev: Option<Sent>, m: Message, c: Channel): Packet {
    var was := if c.ref.Some? then c.ref.value else BLANK;
    Packet(if m.format < MINIMUM then Elapsed(prev, m) else was.stamp, m.format == LARGE, m.kind,
           if m.format == LARGE then SignedLe32(Le32(m.info)) else was.info, |m.body|, [])
  }

  lemma ForeignParses(prev: Option<Sent>, ch: nat, m: Message, tail: seq<byte>)
    requires ValidChannel(ch) && m.format <= 3 && |m.body| < TWO_24
    ensures var t := Elapsed(prev, m);
      var fields := MessageFields(m.format, if t < 0xff_ffff then t else 0xff_ffff, |m.body|, m.kind, m.info);
      var stamp := if m.format < MINIMUM then Some(t) else None;
      ParseHead(ForeignHeader(prev, ch, m) + tail)
        == Some(Head(m.format, ch, fields, stamp, |ForeignHeader(prev, ch, m)|))
  {
    hide ParseHead, BasicHeader, MessageFields, Int24, Int32, Be32, Elapsed;
    var t, b := Elapsed(prev, m), BasicHeader(m.format, ch);
    var v := if t < 0xff_ffff then t else 0xff_ffff;
    var fields := MessageFields(m.format, v, |m.body|, m.kind, m.info);
    FieldsLength(m.format, v, |m.body|, m.kind, m.info);
    if m.format < MINIMUM { FieldsSay(m.format, v, |m.body|, m.kind, m.info); }
    if m.format < MINIMUM && t >= 0xff_ffff {
      Be32Int32(t);
      ExtendedParses(m.format, ch, fields, Be32(t), tail);
    } else {
      assert b + fields + [] == b + fields;
      HeadParses(m.format, ch, fields, tail);
    }
  }

  lemma FieldsLength(format: nat, t: nat, size: nat, kind: byte, info: int)
    requires format <= 3
    ensures |MessageFields(format, t, size, kind, info)| == PacketSize(format) - 1
  {}

  lemma ForeignOpens(prev: Option<Sent>, ch: nat, m: Message, c: Channel, v: nat, length: nat)
    requires ValidChannel(ch) && Sendable(prev, m) && InStep(prev, c) && v < TWO_24
    ensures var fields := MessageFields(m.format, v, |m.body|, m.kind, m.info);
      var stamp := if m.format < MINIMUM then Some(Elapsed(prev, m)) else None;
      && |fields| == PacketSize(m.format) - 1
      && Opened(Head(m.format, ch, fields, stamp, length), c.ref, BLANK) == ForeignBegun(prev, m, c)
  {
    FieldsLength(m.format, v, |m.body|, m.kind, m.info);
    hide MessageFields, Elapsed, Int24, SignedLe32, Le32;
    if m.format < MINIMUM { FieldsSay(m.format, v, |m.body|, m.kind, m.info); }
  }

  function ForeignChunks(prev: Option<Sent>, ch: nat, m: Message, chunkSize: nat): seq<seq<byte>>
    requires m.format <= 3 && ch < CHANNELS && chunkSize >= 1
  {
    ChunksAfter(ForeignHeader(prev, ch, m), ch, m.body, chunkSize)
  }

  /** The message as it was sent, and its time. */
  predicate Restored(r: Received, ch: nat, m: Message) { RecoveredOne(r, ch, m) && r.stamp == m.stamp }

  /** Reader and sender agree on the last message and its time; `carried` is the time last said. */
  ghost predicate Synchronous(prev: Option<Sent>, c: Channel, carried: u32) {
    ChannelValid(c) && InStep(prev, c) && c.time == LastTime(prev) && Carried(c) == carried
  }

  function CarriedBy(prev: Option<Sent>, m: Message, carried: u32): u32 {
    if m.format < MINIMUM then Elapsed(prev, m) else carried
  }

  lemma TimeRestored(prev: Option<Sent>, m: Message)
    ensures m.format != LARGE ==> (Elapsed(prev, m) + LastTime(prev)) % TWO_32 == m.stamp
    ensures m.format == LARGE ==> Elapsed(prev, m) == m.stamp
  {
    if m.format != LARGE && prev.Some? && m.stamp < prev.value.stamp {
      DivUnique(Elapsed(prev, m) + prev.value.stamp, TWO_32, 1, m.stamp);
    }
  }

  lemma ForeignDelivered(prev: Option<Sent>, ch: nat, m: Message, c: Channel)
    requires Writable(prev, Carried(c), m) && Synchronous(prev, c, Carried(c))
    ensures var done := Filled(ForeignBegun(prev, m, c), m.body);
      && Restored(Delivered(ch, done, c.time), ch, m)
      && Synchronous(Some(Remember(m)), Stored(done, c.time), CarriedBy(prev, m, Carried(c)))
  {
    hide Elapsed;
    TimeRestored(prev, m);
    assert [] + m.body == m.body;
  }

  lemma ForeignRead(prev: Option<Sent>, ch: nat, m: Message, c: Channel, chunkSize: nat)
    requires ValidChannel(ch) && chunkSize >= 1 && Writable(prev, Carried(c), m) && Synchronous(prev, c, Carried(c))
    ensures var chunks := ForeignChunks(prev, ch, m, chunkSize);
      && Readable(c, ch, chunkSize, chunks)
      && |Messages(c, ch, chunkSize, chunks)| == 1 && Restored(Messages(c, ch, chunkSize, chunks)[0], ch, m)
      && Synchronous(Some(Remember(m)), After(c, ch, chunkSize, chunks), CarriedBy(prev, m, Carried(c)))
  {
    hide ReadChunk, Readable, Messages, After, ParseHead, Opened, ForeignHeader, BasicHeader, MessageFields, Elapsed;
    var t, tail := Elapsed(prev, m), m.body[..Min(chunkSize, |m.body|)];
    ForeignParses(prev, ch, m, tail);
    var h := ParseHead(ForeignHeader(prev, ch, m) + tail).value;
    ForeignOpens(prev, ch, m, c, if t < 0xff_ffff then t else 0xff_ffff, h.length);
    ForeignDelivered(prev, ch, m, c);
    ChunksRead(c, ch, chunkSize, ForeignHeader(prev, ch, m), m.body, h, ForeignBegun(prev, m, c));
  }

  //
  // Runs
  //

  predicate AllWritable(prev: Option<Sent>, carried: u32, msgs: seq<Message>)
    decreases msgs
  {
    msgs == [] ||
    (Writable(prev, carried, msgs[0])
     && AllWritable(Some(Remember(msgs[0])), CarriedBy(prev, msgs[0], carried), msgs[1..]))
  }

  function ForeignRun(prev: Option<Sent>, ch: nat, carried: u32, msgs: seq<Message>, chunkSize: nat): seq<seq<byte>>
    requires ch < CHANNELS && chunkSize >= 1 && AllWritable(prev, carried, msgs)
    decreases msgs
  {
    if msgs == [] then []
    else
      ForeignChunks(prev, ch, msgs[0], chunkSize)
      + ForeignRun(Some(Remember(msgs[0])), ch, CarriedBy(prev, msgs[0], carried), msgs[1..], chunkSize)
  }

  ghost predicate AllRestored(out: seq<Received>, ch: nat, msgs: seq<Message>) {
    |out| == |msgs| && forall i | 0 <= i < |out| :: Restored(out[i], ch, msgs[i])
  }

  lemma {:induction false} ForeignRunRead(prev: Option<Sent>, ch: nat, msgs: seq<Message>, c: Channel, chunkSize: nat)
    requires ValidChannel(ch) && chunkSize >= 1
    requires AllWritable(prev, Carried(c), msgs) && Synchronous(prev, c, Carried(c))
    ensures var chunks := ForeignRun(prev, ch, Carried(c), msgs, chunkSize);
      && Readable(c, ch, chunkSize, chunks)
      && AllRestored(Messages(c, ch, chunkSize, chunks), ch, msgs)
    decreases msgs
  {
    hide ReadChunk, Readable, Messages, After, ForeignChunks, Restored, InStep, Elapsed;
    if msgs == [] {
      NothingToRead(c, ch, chunkSize);
    } else {
      var m, prev' := msgs[0], Some(Remember(msgs[0]));
      var first := ForeignChunks(prev, ch, m, chunkSize);
      ForeignRead(prev, ch, m, c, chunkSize);
      var c' := After(c, ch, chunkSize, first);
      ForeignRunRead(prev', ch, msgs[1..], c', chunkSize);
      ReadableConcat(c, ch, chunkSize, first, ForeignRun(prev', ch, Carried(c'), msgs[1..], chunkSize));
    }
  }

  /**
   * Reassembly of what such senders send, on any channels interleaved in any way: every message comes back, and every
   * time, however far it is from the last one.
   */
  lemma ForeignReassembly(schedule: seq<(nat, seq<byte>)>, msgs: map<nat, seq<Message>>, chunkSize: nat, ch: nat)
    requires chunkSize >= 1 && ch in msgs
    requires forall k | k in msgs ::
      ValidChannel(k) && AllWritable(None, 0, msgs[k])
      && Project(schedule, k) == ForeignRun(None, k, 0, msgs[k], chunkSize)
    requires forall k: nat | k !in msgs :: Project(schedule, k) == []
    ensures AllRestored(OnChannel(ReadAll(map[], chunkSize, Wire(schedule)), ch), ch, msgs[ch])
  {
    hide Readable, Messages, ReadAll, AllWritable;
    assert Synchronous(None, FRESH, 0);
    forall k: nat
      ensures Readable(At(map[], k), k, chunkSize, Project(schedule, k))
    {
      if k in msgs {
        ForeignRunRead(None, k, msgs[k], FRESH, chunkSize);
      } else {
        NothingToRead(FRESH, k, chunkSize);
      }
    }
    InterleavingRead(map[], chunkSize, schedule, ch);
    ForeignRunRead(None, ch, msgs[ch], FRESH, chunkSize);
  }
}
